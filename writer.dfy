/**
 * `update_files` and `main` of lib/updateFiles.py.  For every entry of the
 * parsed dictionary, in order, the target path is `os.path.join(base_path,
 * key)`; its directory is created with `os.makedirs(..., exist_ok=True)`;
 * then the user is asked `Update <path>? [y/N] ` and the file is
 * overwritten with the entry's content exactly when the answer lower-cases
 * to `y`.
 *
 * The disk is a `FileSystem` object; standard input is the sequence of lines the
 * user types; standard output is a transcript of the lines printed.
 * `UpdateFiles` is the loop of the source, proved equal to the specification
 * function `Updates`, about which the lemmas below state what happened to
 * every file and directory.
 */
module Writer {
  import opened Text
  import opened OrderedDict
  import opened Paths
  import opened Parser
  import opened FileSystems

  /** How the loop ended: normally, on the `FileNotFoundError` that
      `os.makedirs('')` raises, or on the `EOFError` that `input` raises
      when standard input is exhausted. */
  datatype Stop = Done | NoDirectory(path: string) | EndOfInput(path: string)

  datatype Run = Run(disk: Disk, transcript: seq<string>, stop: Stop)

  /** `files_content.items()`, in insertion order. */
  function Items(d: Dict): seq<Record>
    requires d.Valid()
  {
    seq(|d.keys|, i requires 0 <= i < |d.keys| && d.keys[i] in d.vals => Record(d.keys[i], d.vals[d.keys[i]]))
  }

  function Target(base: string, item: Record): string {
    JoinPath(base, item.key)
  }

  function Prompt(path: string): string { "Update " + path + "? [y/N] " }
  function Updated(path: string): string { "Updated " + path }
  function Skipped(path: string): string { "Skipped updating " + path }

  /** `confirm.lower() == 'y'` */
  predicate Confirms(answer: string) {
    Lower(answer) == "y"
  }

  /** One completed iteration, for target `path` with content `content` and
      answer `a`: the directories are made, the prompt is printed, and the
      file is written and reported, or the skip is reported. */
  function Handled(r: Run, path: string, content: string, a: string): Run {
    Run(Disk(if Confirms(a) then r.disk.files[path := content] else r.disk.files,
             r.disk.dirs + Ancestry(Dirname(path))),
        r.transcript + [Prompt(path), (if Confirms(a) then Updated else Skipped)(path)],
        Done)
  }

  /** One iteration of the loop, on the entry `item`, with the next line of
      standard input, if there is one. */
  function Visit(r: Run, base: string, item: Record, answer: Option<string>): Run {
    var path := Target(base, item);
    var dir := Dirname(path);
    if dir == [] then Run(r.disk, r.transcript, NoDirectory(path))
    else
      match answer
      case None => Run(Disk(r.disk.files, r.disk.dirs + Ancestry(dir)), r.transcript + [Prompt(path)], EndOfInput(path))
      case Some(a) => Handled(r, path, item.value, a)
  }

  /** `update_files` over `items`, starting from disk `d0`, reading `answers`;
      entry `i` reads answer `i`.  The loop ends at the first exception. */
  function Updates(d0: Disk, base: string, items: seq<Record>, answers: seq<string>): Run {
    if items == [] then Run(d0, [], Done)
    else
      var n := |items| - 1;
      var r := Updates(d0, base, items[..n], answers);
      if r.stop != Done then r
      else Visit(r, base, items[n], if n < |answers| then Some(answers[n]) else None)
  }

  /** The loop of `update_files` as written. */
  method UpdateFiles(fs: FileSystem, basePath: string, filesContent: Dict, answers: seq<string>)
      returns (transcript: seq<string>, stop: Stop)
    requires filesContent.Valid()
    modifies fs
    ensures Run(fs.Snapshot(), transcript, stop)
         == Updates(old(fs.Snapshot()), basePath, Items(filesContent), answers)
  {
    ghost var d0 := fs.Snapshot();
    var items := Items(filesContent);
    transcript := [];
    stop := Done;
    var i := 0;
    while i < |items| && stop == Done
      invariant 0 <= i <= |items|
      invariant Run(fs.Snapshot(), transcript, stop) == Updates(d0, basePath, items[..i], answers)
      invariant stop != Done ==> Updates(d0, basePath, items, answers) == Updates(d0, basePath, items[..i], answers)
    {
      transcript, stop := UpdateOne(fs, basePath, items[i], if i < |answers| then Some(answers[i]) else None, transcript);
      UpdatesStep(d0, basePath, items, answers, i);
      i := i + 1;
      if stop != Done {
        UpdatesStuck(d0, basePath, items, answers, i);
      }
    }
    if stop == Done {
      assert items[..i] == items;
    }
  }

  /** The body of the loop of `update_files`, on one entry, with the next
      line of standard input if there is one. */
  method UpdateOne(fs: FileSystem, basePath: string, item: Record, answer: Option<string>, shown: seq<string>)
      returns (transcript: seq<string>, stop: Stop)
    modifies fs
    ensures Run(fs.Snapshot(), transcript, stop) == Visit(Run(old(fs.Snapshot()), shown, Done), basePath, item, answer)
  {
    transcript := shown;
    stop := Done;
    var fullPath := JoinPath(basePath, item.key);
    var directory := Dirname(fullPath);
    var ok := fs.MakeDirs(directory);
    if !ok {
      stop := NoDirectory(fullPath);
    } else {
      transcript := transcript + [Prompt(fullPath)];
      match answer
      case None =>
        stop := EndOfInput(fullPath);
      case Some(confirm) =>
        if Lower(confirm) == "y" {
          fs.Write(fullPath, item.value);
          transcript := transcript + [Updated(fullPath)];
          assert transcript == shown + [Prompt(fullPath), Updated(fullPath)];
        } else {
          transcript := transcript + [Skipped(fullPath)];
          assert transcript == shown + [Prompt(fullPath), Skipped(fullPath)];
        }
    }
  }

  /** Iteration `i` of a loop still running visits entry `i`. */
  lemma UpdatesStep(d0: Disk, base: string, items: seq<Record>, answers: seq<string>, i: nat)
    requires i < |items| && Updates(d0, base, items[..i], answers).stop == Done
    ensures Updates(d0, base, items[..i + 1], answers)
         == Visit(Updates(d0, base, items[..i], answers), base, items[i], if i < |answers| then Some(answers[i]) else None)
  {
    assert items[..i + 1][..i] == items[..i];
  }

  // ---------------------------------------------------------------------
  // What update_files does

  /** Once an exception has ended the loop, later entries change nothing. */
  lemma {:induction false} UpdatesStuck(d0: Disk, base: string, items: seq<Record>, answers: seq<string>, i: nat)
    requires i <= |items|
    requires Updates(d0, base, items[..i], answers).stop != Done
    ensures Updates(d0, base, items, answers) == Updates(d0, base, items[..i], answers)
  {
    if i < |items| {
      var init := items[..|items| - 1];
      assert init[..i] == items[..i];
      UpdatesStuck(d0, base, init, answers, i);
    } else {
      assert items[..i] == items;
    }
  }

  /** The loop runs to the end when there is an answer for every entry and
      no target lies directly in the empty directory. */
  ghost predicate Completes(base: string, items: seq<Record>, answers: seq<string>) {
    |items| <= |answers| && forall i :: 0 <= i < |items| ==> Dirname(Target(base, items[i])) != []
  }

  lemma CompletesPrefix(base: string, items: seq<Record>, answers: seq<string>, n: nat)
    requires n <= |items| && Completes(base, items, answers)
    ensures Completes(base, items[..n], answers)
  {
    assert forall i :: 0 <= i < n ==> items[..n][i] == items[i];
  }

  /** The last iteration of a completed run. */
  lemma UpdatesLast(d0: Disk, base: string, items: seq<Record>, answers: seq<string>)
    requires items != [] && Completes(base, items, answers)
    ensures var n := |items| - 1; var r := Updates(d0, base, items[..n], answers);
      Completes(base, items[..n], answers) && r.stop == Done
      && Updates(d0, base, items, answers) == Handled(r, Target(base, items[n]), items[n].value, answers[n])
  {
    var n := |items| - 1;
    CompletesPrefix(base, items, answers, n);
    UpdatesDone(d0, base, items[..n], answers);
  }

  lemma {:induction false} UpdatesDone(d0: Disk, base: string, items: seq<Record>, answers: seq<string>)
    ensures Updates(d0, base, items, answers).stop == Done <==> Completes(base, items, answers)
  {
    if items != [] {
      var n := |items| - 1;
      var init := items[..n];
      UpdatesDone(d0, base, init, answers);
      assert forall i :: 0 <= i < n ==> init[i] == items[i];
      assert Completes(base, items, answers) <==>
        Completes(base, init, answers) && n < |answers| && Dirname(Target(base, items[n])) != [];
    }
  }

  /** `t` is what a completed run over `items` prints: for entry `i`, the
      prompt for its target and then whether it was updated or skipped. */
  ghost predicate Shows(t: seq<string>, base: string, items: seq<Record>, answers: seq<string>)
    requires |items| <= |answers|
  {
    |t| == 2 * |items|
    && forall i :: 0 <= i < |items| ==>
         t[2 * i] == Prompt(Target(base, items[i]))
         && t[2 * i + 1] == (if Confirms(answers[i]) then Updated else Skipped)(Target(base, items[i]))
  }

  lemma ShowsSnoc(t0: seq<string>, base: string, items: seq<Record>, answers: seq<string>)
    requires items != [] && |items| <= |answers|
    requires Shows(t0, base, items[..|items| - 1], answers)
    ensures var n := |items| - 1; var path := Target(base, items[n]);
      Shows(t0 + [Prompt(path), (if Confirms(answers[n]) then Updated else Skipped)(path)], base, items, answers)
  {
    var n := |items| - 1;
    assert forall i :: 0 <= i < n ==> items[..n][i] == items[i];
  }

  /** A run that completes prints, for entry `i`, the prompt for its target
      and then whether it was updated or skipped. */
  lemma {:induction false} UpdatesTranscript(d0: Disk, base: string, items: seq<Record>, answers: seq<string>)
    requires Completes(base, items, answers)
    ensures Shows(Updates(d0, base, items, answers).transcript, base, items, answers)
  {
    if items != [] {
      var n := |items| - 1;
      UpdatesLast(d0, base, items, answers);
      UpdatesTranscript(d0, base, items[..n], answers);
      ShowsSnoc(Updates(d0, base, items[..n], answers).transcript, base, items, answers);
    }
  }

  /** Path `p` is as it was in `before`: present exactly when it was, with
      the same content. */
  predicate Untouched(before: map<string, string>, after: map<string, string>, p: string) {
    (p in after <==> p in before) && (p in before ==> after[p] == before[p])
  }

  /** No confirmed entry aims at `p`. */
  ghost predicate Spared(base: string, items: seq<Record>, answers: seq<string>, p: string)
    requires |items| <= |answers|
  {
    forall i :: 0 <= i < |items| && Confirms(answers[i]) ==> Target(base, items[i]) != p
  }

  /** Entry `i` is confirmed and no later confirmed entry aims at its target. */
  ghost predicate LastWrite(base: string, items: seq<Record>, answers: seq<string>, i: nat)
    requires i < |items| <= |answers|
  {
    Confirms(answers[i])
    && forall j :: i < j < |items| && Confirms(answers[j]) ==> Target(base, items[j]) != Target(base, items[i])
  }

  /** What a completed run leaves in the files: a path that no confirmed
      entry aims at is untouched, and the target of the last confirmed entry
      aimed at it holds exactly that entry's content. */
  lemma UpdatesFiles(d0: Disk, base: string, items: seq<Record>, answers: seq<string>)
    requires Completes(base, items, answers)
    ensures var f := Updates(d0, base, items, answers).disk.files;
      forall p :: Spared(base, items, answers, p) ==> Untouched(d0.files, f, p)
    ensures var f := Updates(d0, base, items, answers).disk.files;
      forall i :: 0 <= i < |items| && LastWrite(base, items, answers, i) ==>
        Target(base, items[i]) in f && f[Target(base, items[i])] == items[i].value
  {
    UpdatesSpared(d0, base, items, answers);
    UpdatesLastWrite(d0, base, items, answers);
  }

  lemma {:induction false} UpdatesSpared(d0: Disk, base: string, items: seq<Record>, answers: seq<string>)
    requires Completes(base, items, answers)
    ensures var f := Updates(d0, base, items, answers).disk.files;
      forall p :: Spared(base, items, answers, p) ==> Untouched(d0.files, f, p)
  {
    if items != [] {
      var n := |items| - 1;
      var init := items[..n];
      UpdatesLast(d0, base, items, answers);
      assert forall i :: 0 <= i < n ==> init[i] == items[i];
      UpdatesSpared(d0, base, init, answers);
      var f0 := Updates(d0, base, init, answers).disk.files;
      var f := Updates(d0, base, items, answers).disk.files;
      assert f == if Confirms(answers[n]) then f0[Target(base, items[n]) := items[n].value] else f0;
      forall p | Spared(base, items, answers, p) ensures Untouched(d0.files, f, p) {
        assert Spared(base, init, answers, p);
      }
    }
  }

  /** However the run ends, early on `EOFError` or on `makedirs('')` or at
      the end of the entries, a path that no entry with a confirming answer
      aims at is untouched: only a confirmed visit writes a file. */
  lemma {:induction false} UpdatesUnconfirmedUntouched(d0: Disk, base: string, items: seq<Record>, answers: seq<string>, p: string)
    requires forall i :: 0 <= i < |items| && i < |answers| && Confirms(answers[i]) ==> Target(base, items[i]) != p
    ensures Untouched(d0.files, Updates(d0, base, items, answers).disk.files, p)
  {
    if items != [] {
      var n := |items| - 1;
      assert forall i :: 0 <= i < n ==> items[..n][i] == items[i];
      UpdatesUnconfirmedUntouched(d0, base, items[..n], answers, p);
    }
  }

  /** The same, stated for a path no entry aims at at all. */
  lemma UpdatesUnaimedUntouched(d0: Disk, base: string, items: seq<Record>, answers: seq<string>, p: string)
    requires forall i :: 0 <= i < |items| ==> Target(base, items[i]) != p
    ensures Untouched(d0.files, Updates(d0, base, items, answers).disk.files, p)
  {
    UpdatesUnconfirmedUntouched(d0, base, items, answers, p);
  }

  lemma {:induction false} UpdatesLastWrite(d0: Disk, base: string, items: seq<Record>, answers: seq<string>)
    requires Completes(base, items, answers)
    ensures var f := Updates(d0, base, items, answers).disk.files;
      forall i :: 0 <= i < |items| && LastWrite(base, items, answers, i) ==>
        Target(base, items[i]) in f && f[Target(base, items[i])] == items[i].value
  {
    if items != [] {
      var n := |items| - 1;
      var init := items[..n];
      UpdatesLast(d0, base, items, answers);
      assert forall i :: 0 <= i < n ==> init[i] == items[i];
      UpdatesLastWrite(d0, base, init, answers);
      var f0 := Updates(d0, base, init, answers).disk.files;
      var f := Updates(d0, base, items, answers).disk.files;
      assert f == if Confirms(answers[n]) then f0[Target(base, items[n]) := items[n].value] else f0;
      forall i | 0 <= i < |items| && LastWrite(base, items, answers, i)
        ensures Target(base, items[i]) in f && f[Target(base, items[i])] == items[i].value
      {
        if i < n {
          assert LastWrite(base, init, answers, i);
        }
      }
    }
  }

  /** What a completed run leaves in the directories: those that existed,
      plus, for EVERY entry, confirmed or not, its target's directory and
      the directories above it, and nothing else. */
  lemma {:induction false} UpdatesDirs(d0: Disk, base: string, items: seq<Record>, answers: seq<string>)
    requires Completes(base, items, answers)
    ensures var ds := Updates(d0, base, items, answers).disk.dirs;
      d0.dirs <= ds
      && (forall i :: 0 <= i < |items| ==> Ancestry(Dirname(Target(base, items[i]))) <= ds)
      && (forall x :: x in ds ==> x in d0.dirs || exists i :: 0 <= i < |items| && x in Ancestry(Dirname(Target(base, items[i]))))
  {
    if items != [] {
      var n := |items| - 1;
      var init := items[..n];
      UpdatesLast(d0, base, items, answers);
      assert forall i :: 0 <= i < n ==> init[i] == items[i];
      UpdatesDirs(d0, base, init, answers);
      var ds0 := Updates(d0, base, init, answers).disk.dirs;
      var ds := Updates(d0, base, items, answers).disk.dirs;
      var last := Ancestry(Dirname(Target(base, items[n])));
      assert ds == ds0 + last;
      forall x | x in ds
        ensures x in d0.dirs || exists i :: 0 <= i < |items| && x in Ancestry(Dirname(Target(base, items[i])))
      {
        if x in last {
          assert x in Ancestry(Dirname(Target(base, items[n])));
        } else if x !in d0.dirs {
          var i :| 0 <= i < |init| && x in Ancestry(Dirname(Target(base, init[i])));
          assert x in Ancestry(Dirname(Target(base, items[i])));
        }
      }
    }
  }

  /** When standard input runs out at entry `k`, the entries before it are
      handled as usual; entry `k` still gets its directories and its prompt,
      but its file is not written, and the loop ends there. */
  lemma UpdatesEndOfInput(d0: Disk, base: string, items: seq<Record>, answers: seq<string>)
    requires |answers| < |items|
    requires forall i :: 0 <= i <= |answers| ==> Dirname(Target(base, items[i])) != []
    ensures var k := |answers|; var path := Target(base, items[k]);
      var before := Updates(d0, base, items[..k], answers);
      var r := Updates(d0, base, items, answers);
      r.stop == EndOfInput(path)
      && r.disk == Disk(before.disk.files, before.disk.dirs + Ancestry(Dirname(path)))
      && r.transcript == before.transcript + [Prompt(path)]
  {
    var k := |answers|;
    var front := items[..k];
    assert forall i :: 0 <= i < k ==> front[i] == items[i];
    UpdatesDone(d0, base, front, answers);
    assert items[..k + 1][..k] == front;
    UpdatesStuck(d0, base, items, answers, k + 1);
  }

  /** For a completed run, a file is rewritten when its entry is confirmed
      and left as it was when it is declined, provided no two entries aim at
      the same file; keys that are not absolute paths never do. */
  lemma UpdatesConfirmed(d0: Disk, base: string, items: seq<Record>, answers: seq<string>)
    requires Completes(base, items, answers)
    requires forall i, j :: 0 <= i < j < |items| ==> items[i].key != items[j].key
    requires forall i :: 0 <= i < |items| ==> !StartsWith(items[i].key, "/")
    ensures var f := Updates(d0, base, items, answers).disk.files;
      forall i :: 0 <= i < |items| ==>
        (Confirms(answers[i]) ==> Target(base, items[i]) in f && f[Target(base, items[i])] == items[i].value)
        && (!Confirms(answers[i]) ==> Untouched(d0.files, f, Target(base, items[i])))
  {
    UpdatesFiles(d0, base, items, answers);
    forall i, j | 0 <= i < |items| && 0 <= j < |items| && i != j
      ensures Target(base, items[i]) != Target(base, items[j])
    {
      if Target(base, items[i]) == Target(base, items[j]) {
        JoinInjective(base, items[i].key, items[j].key);
      }
    }
    forall i | 0 <= i < |items| ensures !Confirms(answers[i]) ==> Spared(base, items, answers, Target(base, items[i])) {
    }
    forall i | 0 <= i < |items| ensures Confirms(answers[i]) ==> LastWrite(base, items, answers, i) {
    }
  }

  /** Finds the last confirmed entry aimed at `p`, given a confirmed entry
      that is. */
  lemma LastConfirmedAt(base: string, items: seq<Record>, answers: seq<string>, p: string, k: nat) returns (i: nat)
    requires k < |items| <= |answers| && Confirms(answers[k]) && Target(base, items[k]) == p
    ensures k <= i < |items| && Target(base, items[i]) == p && LastWrite(base, items, answers, i)
    decreases |items| - k
  {
    if forall j :: k < j < |items| && Confirms(answers[j]) ==> Target(base, items[j]) != p {
      i := k;
    } else {
      var j :| k < j < |items| && Confirms(answers[j]) && Target(base, items[j]) == p;
      i := LastConfirmedAt(base, items, answers, p, j);
    }
  }

  /** Running the same entries again with the same answers, whatever they
      are, changes no file and no directory. */
  lemma UpdatesIdempotent(d0: Disk, base: string, items: seq<Record>, answers: seq<string>)
    requires Completes(base, items, answers)
    ensures var d1 := Updates(d0, base, items, answers).disk;
      Updates(d1, base, items, answers).disk == d1
  {
    var d1 := Updates(d0, base, items, answers).disk;
    var d2 := Updates(d1, base, items, answers).disk;
    UpdatesFiles(d0, base, items, answers);
    UpdatesFiles(d1, base, items, answers);
    forall p ensures (p in d2.files <==> p in d1.files) && (p in d1.files ==> d2.files[p] == d1.files[p]) {
      if Spared(base, items, answers, p) {
        assert Untouched(d1.files, d2.files, p);
      } else {
        var k :| 0 <= k < |items| && Confirms(answers[k]) && Target(base, items[k]) == p;
        var i := LastConfirmedAt(base, items, answers, p, k);
        assert LastWrite(base, items, answers, i);
      }
    }
    assert d2.files == d1.files;
    UpdatesDirs(d0, base, items, answers);
    UpdatesDirs(d1, base, items, answers);
    assert d2.dirs == d1.dirs;
  }

  // ---------------------------------------------------------------------
  // main

  /** `content[:30]` */
  function Take(s: string, n: nat): string {
    if |s| <= n then s else s[..n]
  }

  /** The line `main` prints for one parsed entry. */
  function Preview(item: Record): string {
    "Filename: " + item.key + " - Content starts with: " + Take(item.value, 30) + "..."
  }

  /** `main(input_text, base_path)`: parse, print a preview of every entry,
      then update the files. */
  method ParseAndUpdate(fs: FileSystem, inputText: string, basePath: string, answers: seq<string>)
      returns (transcript: seq<string>, stop: Stop)
    modifies fs
    ensures var items := Items(Parse(inputText));
      var r := Updates(old(fs.Snapshot()), basePath, items, answers);
      fs.Snapshot() == r.disk && stop == r.stop
      && transcript == ["Parsed content:"] + seq(|items|, i requires 0 <= i < |items| => Preview(items[i])) + r.transcript
  {
    var filesContent := ParseText(inputText);
    transcript := ["Parsed content:"];
    var items := Items(filesContent);
    for i := 0 to |items|
      invariant transcript == ["Parsed content:"] + seq(i, j requires 0 <= j < i => Preview(items[j]))
    {
      transcript := transcript + [Preview(items[i])];
    }
    var updates;
    updates, stop := UpdateFiles(fs, basePath, filesContent, answers);
    transcript := transcript + updates;
  }

  /** A text without marker lines (the empty text among them) touches
      nothing and asks nothing. */
  lemma NothingToUpdate(d0: Disk, text: string, base: string, answers: seq<string>)
    requires NoMarkers(Split(text))
    ensures Updates(d0, base, Items(Parse(text)), answers) == Run(d0, [], Done)
  {
    ParseNoMarkers(text);
  }

  // ---------------------------------------------------------------------
  // The script's own call, main(input_text, './lib')

  /** A plain file name lands directly in `./lib`. */
  lemma LibTarget(key: string)
    requires key != [] && '/' !in key
    ensures JoinPath("./lib", key) == "./lib/" + key && Dirname(JoinPath("./lib", key)) == "./lib"
  {
    assert !StartsWith(key, "/") by { assert key[..1][0] == key[0]; }
    assert !EndsWith("./lib", "/");
    DirnameOfJoin("./lib", key);
  }

  /** `os.makedirs('./lib', exist_ok=True)` leaves `./lib` and `.` in place. */
  lemma LibAncestry()
    ensures Ancestry("./lib") == {"./lib", "."}
  {
    assert Dirname("./lib") == "." by {
      assert "./lib"[..4] == "./li" && "./li"[..3] == "./l" && "./l"[..2] == "./";
      assert Dirname("./") == StripSlashes("./") by { assert !AllSlashes("./") by { assert "./"[..1] == "."; } }
      assert StripSlashes("./") == StripSlashes(".") by { assert "./"[..1] == "."; }
    }
    assert Dirname(".") == "" by { assert "."[..1 - 1] == ""; }
  }

  /** For entries named by plain file names and an answer for each, the
      script's run below `./lib` completes, asks about `./lib/<name>` for
      every entry in order, and creates exactly `./lib` and `.`. */
  lemma UpdatesLib(d0: Disk, items: seq<Record>, answers: seq<string>)
    requires items != [] && |items| <= |answers|
    requires forall i :: 0 <= i < |items| ==> items[i].key != [] && '/' !in items[i].key
    ensures var r := Updates(d0, "./lib", items, answers);
      r.stop == Done && r.disk.dirs == d0.dirs + {"./lib", "."}
      && |r.transcript| == 2 * |items|
      && forall i :: 0 <= i < |items| ==> r.transcript[2 * i] == Prompt("./lib/" + items[i].key)
  {
    var r := Updates(d0, "./lib", items, answers);
    forall i | 0 <= i < |items|
      ensures Target("./lib", items[i]) == "./lib/" + items[i].key && Dirname(Target("./lib", items[i])) == "./lib"
    {
      LibTarget(items[i].key);
    }
    assert Completes("./lib", items, answers);
    assert r.stop == Done by { UpdatesDone(d0, "./lib", items, answers); }
    assert r.disk.dirs == d0.dirs + {"./lib", "."} by {
      LibAncestry();
      UpdatesDirs(d0, "./lib", items, answers);
      assert Ancestry(Dirname(Target("./lib", items[0]))) <= r.disk.dirs;
    }
    assert |r.transcript| == 2 * |items|
      && forall i :: 0 <= i < |items| ==> r.transcript[2 * i] == Prompt("./lib/" + items[i].key)
    by {
      UpdatesTranscript(d0, "./lib", items, answers);
    }
  }
}
