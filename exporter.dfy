/**
 * `export_and_copy_dart_files` of exporter.py: every `.dart` file met while
 * walking the source folder is appended to one string as a section
 *
 *     // Title: <file name>
 *     <blank line>
 *     <content>
 *     <blank line>
 *
 * and that one string is written to the output file and put on the
 * clipboard.  The walk itself is a parameter: the directories `os.walk`
 * visits, in its order, each with the names of the files it lists.
 */
module Exporter {
  import opened Text
  import opened Paths
  import opened FileSystems

  /** One directory of the walk: `(root, dirs, files)` without `dirs`. */
  datatype Level = Level(root: string, names: seq<string>)

  /** A file that is exported: its bare name and what reading it returned. */
  datatype Entry = Entry(name: string, content: string)

  predicate IsDart(name: string) {
    EndsWith(name, ".dart")
  }

  /** `f"// Title: {filename}\n\n{content}\n\n"` */
  function Section(e: Entry): string {
    "// Title: " + e.name + "\n\n" + e.content + "\n\n"
  }

  /** The sections of the entries, in order. */
  function Blob(es: seq<Entry>): string {
    if es == [] then "" else Blob(es[..|es| - 1]) + Section(es[|es| - 1])
  }

  lemma BlobSnoc(es: seq<Entry>, e: Entry)
    ensures Blob(es + [e]) == Blob(es) + Section(e)
  {
    assert (es + [e])[..|es|] == es;
  }

  /** The blob of two runs of entries is the two blobs, one after the other. */
  lemma {:induction false} BlobAppend(a: seq<Entry>, b: seq<Entry>)
    ensures Blob(a + b) == Blob(a) + Blob(b)
  {
    if b == [] {
      assert a + b == a;
    } else {
      var init, e := b[..|b| - 1], b[|b| - 1];
      BlobAppend(a, init);
      assert b == init + [e];
      Assoc(a, init, [e]);
      BlobSnoc(a + init, e);
      BlobSnoc(init, e);
      Assoc(Blob(a), Blob(init), Section(e));
    }
  }

  /** Every `.dart` file of the walk can be opened for reading. */
  ghost predicate Readable(files: map<string, string>, walk: seq<Level>) {
    forall k, j :: 0 <= k < |walk| && 0 <= j < |walk[k].names| && IsDart(walk[k].names[j]) ==>
      JoinPath(walk[k].root, walk[k].names[j]) in files
  }

  /** The `.dart` files among `names`, found in `root`, in order, each with
      the content read from `os.path.join(root, name)`. */
  function LevelEntries(files: map<string, string>, root: string, names: seq<string>): seq<Entry>
    requires forall j :: 0 <= j < |names| && IsDart(names[j]) ==> JoinPath(root, names[j]) in files
  {
    if names == [] then []
    else
      var n := names[|names| - 1];
      LevelEntries(files, root, names[..|names| - 1])
      + (if IsDart(n) then [Entry(n, files[JoinPath(root, n)])] else [])
  }

  lemma LevelEntriesSnoc(files: map<string, string>, root: string, names: seq<string>, j: nat)
    requires j < |names|
    requires forall i :: 0 <= i < |names| && IsDart(names[i]) ==> JoinPath(root, names[i]) in files
    ensures LevelEntries(files, root, names[..j + 1])
         == LevelEntries(files, root, names[..j])
            + (if IsDart(names[j]) then [Entry(names[j], files[JoinPath(root, names[j])])] else [])
  {
    assert names[..j + 1][..j] == names[..j];
  }

  /** The exported files of the whole walk, directory after directory. */
  function Entries(files: map<string, string>, walk: seq<Level>): seq<Entry>
    requires Readable(files, walk)
  {
    if walk == [] then []
    else
      var l := walk[|walk| - 1];
      Entries(files, walk[..|walk| - 1]) + LevelEntries(files, l.root, l.names)
  }

  /** Each directory of the walk appends its sections to those before it. */
  lemma EntriesStep(files: map<string, string>, walk: seq<Level>, k: nat)
    requires Readable(files, walk) && k < |walk|
    ensures Readable(files, walk[..k]) && Readable(files, walk[..k + 1])
    ensures Blob(Entries(files, walk[..k + 1]))
         == Blob(Entries(files, walk[..k])) + Blob(LevelEntries(files, walk[k].root, walk[k].names))
  {
    var w := walk[..k + 1];
    assert w[..k] == walk[..k];
    BlobAppend(Entries(files, walk[..k]), LevelEntries(files, walk[k].root, walk[k].names));
  }

  /** The system clipboard. */
  class Clipboard {
    var text: string

    constructor ()
      ensures text == ""
    {
      text := "";
    }

    /** `pyperclip.copy(s)` */
    method Copy(s: string)
      modifies this
      ensures text == s
    {
      text := s;
    }
  }

  /** The two loops of `export_and_copy_dart_files` that build `all_content`. */
  method Aggregate(fs: FileSystem, walk: seq<Level>) returns (allContent: string)
    requires Readable(fs.files, walk)
    ensures allContent == Blob(Entries(fs.files, walk))
  {
    allContent := "";
    for k := 0 to |walk|
      invariant allContent == Blob(Entries(fs.files, walk[..k]))
    {
      allContent := AggregateLevel(fs, walk[k].root, walk[k].names, allContent);
      EntriesStep(fs.files, walk, k);
    }
    assert walk[..|walk|] == walk;
  }

  /** The inner loop, over the files one directory of the walk lists: each
      `.dart` file's section is appended to `allContent`. */
  method AggregateLevel(fs: FileSystem, root: string, names: seq<string>, allContent: string) returns (r: string)
    requires forall j :: 0 <= j < |names| && IsDart(names[j]) ==> JoinPath(root, names[j]) in fs.files
    ensures r == allContent + Blob(LevelEntries(fs.files, root, names))
  {
    r := allContent;
    for j := 0 to |names|
      invariant r == allContent + Blob(LevelEntries(fs.files, root, names[..j]))
    {
      var filename := names[j];
      ghost var done := LevelEntries(fs.files, root, names[..j]);
      LevelEntriesSnoc(fs.files, root, names, j);
      if EndsWith(filename, ".dart") {
        var sourceFile := JoinPath(root, filename);
        var content := fs.Read(sourceFile);
        r := r + ("// Title: " + filename + "\n\n" + content + "\n\n");
        BlobSnoc(done, Entry(filename, content));
        Assoc(allContent, Blob(done), Section(Entry(filename, content)));
      } else {
        assert done + [] == done;
      }
    }
    assert names[..|names|] == names;
  }

  /** `export_and_copy_dart_files(source_folder, output_file)`, with the walk
      of `source_folder` given: the same string goes to the output file and
      to the clipboard, and nothing else changes. */
  method ExportAndCopy(fs: FileSystem, clipboard: Clipboard, walk: seq<Level>, outputFile: string)
      returns (printed: seq<string>)
    requires Readable(fs.files, walk)
    modifies fs, clipboard
    ensures var blob := Blob(Entries(old(fs.files), walk));
      fs.files == old(fs.files)[outputFile := blob] && fs.dirs == old(fs.dirs) && clipboard.text == blob
    ensures printed == ["All Dart files have been exported and copied to clipboard."]
  {
    var allContent := Aggregate(fs, walk);
    fs.Write(outputFile, allContent);
    clipboard.Copy(allContent);
    printed := ["All Dart files have been exported and copied to clipboard."];
  }

  // ---------------------------------------------------------------------
  // What the export contains

  /** Each section adds the name, the content and 14 characters of framing:
      the 10 of `// Title: ` and two blank-line pairs. */
  function Size(es: seq<Entry>): nat {
    if es == [] then 0 else Size(es[..|es| - 1]) + |es[|es| - 1].name| + |es[|es| - 1].content| + 14
  }

  lemma {:induction false} BlobLength(es: seq<Entry>)
    ensures |Blob(es)| == Size(es)
  {
    if es != [] {
      BlobLength(es[..|es| - 1]);
    }
  }

  /** The number of `.dart` names in `names`. */
  function DartCount(names: seq<string>): nat {
    if names == [] then 0
    else DartCount(names[..|names| - 1]) + (if IsDart(names[|names| - 1]) then 1 else 0)
  }

  /** One entry per `.dart` file of a directory, every entry a `.dart` file. */
  lemma {:induction false} LevelEntriesDart(files: map<string, string>, root: string, names: seq<string>)
    requires forall j :: 0 <= j < |names| && IsDart(names[j]) ==> JoinPath(root, names[j]) in files
    ensures |LevelEntries(files, root, names)| == DartCount(names)
    ensures forall e :: e in LevelEntries(files, root, names) ==> IsDart(e.name) && e.name in names
  {
    if names != [] {
      var init := names[..|names| - 1];
      assert forall j :: 0 <= j < |init| ==> init[j] == names[j];
      LevelEntriesDart(files, root, init);
    }
  }

  lemma {:induction false} LevelEntriesAppend(files: map<string, string>, root: string, a: seq<string>, b: seq<string>)
    requires forall j :: 0 <= j < |a + b| && IsDart((a + b)[j]) ==> JoinPath(root, (a + b)[j]) in files
    ensures forall j :: 0 <= j < |a| && IsDart(a[j]) ==> JoinPath(root, a[j]) in files
    ensures forall j :: 0 <= j < |b| && IsDart(b[j]) ==> JoinPath(root, b[j]) in files
    ensures LevelEntries(files, root, a + b) == LevelEntries(files, root, a) + LevelEntries(files, root, b)
  {
    assert forall j :: 0 <= j < |a| ==> (a + b)[j] == a[j];
    assert forall j :: 0 <= j < |b| ==> (a + b)[|a| + j] == b[j];
    if b == [] {
      assert a + b == a;
    } else {
      var init := b[..|b| - 1];
      assert (a + b)[..|a + b| - 1] == a + init;
      LevelEntriesAppend(files, root, a, init);
    }
  }

  /** A file whose name does not end in `.dart` contributes nothing, wherever
      it is listed. */
  lemma {:induction false} NonDartIgnored(files: map<string, string>, root: string, a: seq<string>, n: string, b: seq<string>)
    requires !IsDart(n)
    requires forall j :: 0 <= j < |a + b| && IsDart((a + b)[j]) ==> JoinPath(root, (a + b)[j]) in files
    ensures forall j :: 0 <= j < |a + [n] + b| && IsDart((a + [n] + b)[j]) ==> JoinPath(root, (a + [n] + b)[j]) in files
    ensures LevelEntries(files, root, a + [n] + b) == LevelEntries(files, root, a + b)
  {
    var s, t := a + [n] + b, a + b;
    forall j | 0 <= j < |s| && IsDart(s[j]) ensures JoinPath(root, s[j]) in files {
      if j < |a| { assert s[j] == t[j]; } else { assert s[j] == t[j - 1]; }
    }
    LevelEntriesAppend(files, root, a + [n], b);
    assert LevelEntries(files, root, a + [n]) == LevelEntries(files, root, a) by {
      LevelEntriesAppend(files, root, a, [n]);
      assert [n][..0] == [];
    }
    LevelEntriesAppend(files, root, a, b);
  }

  /** A walk that lists no `.dart` file exports the empty string. */
  lemma {:induction false} NoDartNoExport(files: map<string, string>, walk: seq<Level>)
    requires Readable(files, walk)
    requires forall k, j :: 0 <= k < |walk| && 0 <= j < |walk[k].names| ==> !IsDart(walk[k].names[j])
    ensures Entries(files, walk) == [] && Blob(Entries(files, walk)) == ""
  {
    if walk != [] {
      var init := walk[..|walk| - 1];
      assert forall k :: 0 <= k < |init| ==> init[k] == walk[k];
      NoDartNoExport(files, init);
      var l := walk[|walk| - 1];
      LevelEntriesDart(files, l.root, l.names);
      NoDartCount(l.names);
    }
  }

  lemma {:induction false} NoDartCount(names: seq<string>)
    requires forall j :: 0 <= j < |names| ==> !IsDart(names[j])
    ensures DartCount(names) == 0
  {
    if names != [] {
      NoDartCount(names[..|names| - 1]);
    }
  }

  /** The section carries the bare file name only: a directory whose `.dart`
      files have the same contents exports the same sections, wherever it is. */
  lemma {:induction false} RootIndependent(files1: map<string, string>, root1: string,
                                           files2: map<string, string>, root2: string, names: seq<string>)
    requires forall j :: 0 <= j < |names| && IsDart(names[j]) ==>
      JoinPath(root1, names[j]) in files1 && JoinPath(root2, names[j]) in files2
      && files1[JoinPath(root1, names[j])] == files2[JoinPath(root2, names[j])]
    ensures LevelEntries(files1, root1, names) == LevelEntries(files2, root2, names)
  {
    if names != [] {
      var init := names[..|names| - 1];
      assert forall j :: 0 <= j < |init| ==> init[j] == names[j];
      RootIndependent(files1, root1, files2, root2, init);
    }
  }
}
