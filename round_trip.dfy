/**
 * The two scripts composed: what `parse_text` makes of the string that
 * `export_and_copy_dart_files` builds.  Each exported file comes back as
 * one key, `Title: <file name>` (the exporter's marker is `// Title: `, and
 * the parser removes only the `// `), holding the file's content framed by
 * the blank lines of its section: `"\n" + content + "\n\n"`, with one more
 * `"\n"` on the last file, whose section is followed by the empty piece
 * that `split('\n')` finds after the final line feed.
 */
module RoundTrip {
  import opened Text
  import opened OrderedDict
  import opened Parser
  import opened Exporter

  /** What a file must satisfy for its section to read back as one block:
      a name on one line, not ending in whitespace, without `// ` in it, and
      no line of the content starting with `//`. */
  ghost predicate Exportable(e: Entry) {
    e.name != [] && '\n' !in e.name && !IsSpace(e.name[|e.name| - 1])
    && !Contains(e.name, "// ") && NoMarkers(Split(e.content))
  }

  function Key(e: Entry): string {
    "Title: " + e.name
  }

  /** The value that file `i` of `es` comes back with. */
  function Value(es: seq<Entry>, i: nat): string
    requires i < |es|
  {
    "\n" + es[i].content + "\n\n" + (if i == |es| - 1 then "\n" else "")
  }

  /** The assignments that parsing the export performs, one per file. */
  function Assignments(es: seq<Entry>): seq<Record> {
    seq(|es|, i requires 0 <= i < |es| => Record(Key(es[i]), Value(es, i)))
  }

  /** The lines of one section: the marker, a blank line, the content's
      lines, and the blank line that ends the section. */
  function SectionBlock(e: Entry): Block {
    Block("// Title: " + e.name, [""] + Split(e.content) + [""])
  }

  function SectionBlocks(es: seq<Entry>): seq<Block> {
    seq(|es|, i requires 0 <= i < |es| => SectionBlock(es[i]))
  }

  /** A section followed by `z` splits into the section's lines and the pieces of `z`. */
  lemma SplitSection(e: Entry, z: string)
    requires '\n' !in e.name
    ensures Split(Section(e) + z) == ["// Title: " + e.name] + ([""] + (Split(e.content) + ([""] + Split(z))))
  {
    var m := "// Title: " + e.name;
    assert '\n' !in m by {
      forall i | 0 <= i < |m| ensures m[i] != '\n' {
        if i >= 10 { assert m[i] == e.name[i - 10]; }
      }
    }
    assert Section(e) + z == m + "\n" + ("" + "\n" + (e.content + "\n" + ("" + "\n" + z)));
    var r3 := "" + "\n" + z;
    var r2 := e.content + "\n" + r3;
    var r1 := "" + "\n" + r2;
    SplitAppend(m, r1);
    SplitSingle(m);
    SplitAppend("", r2);
    SplitAppend(e.content, r3);
    SplitAppend("", z);
  }

  /** The lines of a section in the grouping of `SplitSection`, regrouped as
      its block followed by what comes after it. */
  lemma RegroupLines(f: seq<string>, m: string, c: seq<string>, z: seq<string>)
    ensures f + ([m] + ([""] + (c + ([""] + z)))) == (f + [m] + ([""] + c + [""])) + z
  {
  }

  /** The export followed by `z` splits into the blocks of its sections and the
      pieces of `z`. */
  lemma {:induction false} SplitBlob(es: seq<Entry>, z: string)
    requires forall i :: 0 <= i < |es| ==> '\n' !in es[i].name
    ensures Split(Blob(es) + z) == Flatten(SectionBlocks(es)) + Split(z)
  {
    if es == [] {
      assert Blob(es) + z == z;
      assert Flatten(SectionBlocks(es)) == [];
    } else {
      var init, e := es[..|es| - 1], es[|es| - 1];
      var sz := Section(e) + z;
      var m, c := "// Title: " + e.name, Split(e.content);
      var before := Flatten(SectionBlocks(init));
      assert Split(Blob(es) + z) == before + Split(sz) by {
        Assoc(Blob(init), Section(e), z);
        assert forall i :: 0 <= i < |init| ==> init[i] == es[i];
        SplitBlob(init, sz);
      }
      assert Split(sz) == [m] + ([""] + (c + ([""] + Split(z)))) by { SplitSection(e, z); }
      assert Flatten(SectionBlocks(es)) == before + [m] + ([""] + c + [""]) by {
        var bs := SectionBlocks(es);
        assert bs[..|bs| - 1] == SectionBlocks(init);
      }
      RegroupLines(before, m, c, Split(z));
    }
  }

  /** A name as the exporter writes it has the title `Title: <name>`. */
  lemma KeyOfSection(e: Entry)
    requires Exportable(e)
    ensures IsMarker("// Title: " + e.name) && Title("// Title: " + e.name) == Key(e)
  {
    var k := Key(e);
    assert "// Title: " + e.name == "// " + k;
    assert k[|k| - 1] == e.name[|e.name| - 1];
    if Contains(k, "// ") {
      var i: nat :| i <= |k| && MatchesAt(k, "// ", i);
      assert k[i..i + 3][0] == k[i] == '/';
      assert i >= 7;
      assert k[i..i + 3] == e.name[i - 7..i - 4];
      assert MatchesAt(e.name, "// ", i - 7);
      assert false;
    }
    TitleOfPlainName(k);
  }

  /** The blocks `parse_text` sees: the sections, the last one followed by the
      empty piece after the final line feed. */
  function ParsedBlocks(es: seq<Entry>): seq<Block>
    requires es != []
  {
    var bs := SectionBlocks(es);
    var last := bs[|bs| - 1];
    bs[..|bs| - 1] + [Block(last.marker, last.body + [""])]
  }

  lemma BlockValue(es: seq<Entry>, i: nat)
    requires i < |es|
    ensures Join(SectionBlock(es[i]).body) == "\n" + es[i].content + "\n\n"
    ensures Join(SectionBlock(es[i]).body + [""]) == "\n" + es[i].content + "\n\n\n"
  {
    var c := es[i].content;
    var sc := Split(c);
    var body := SectionBlock(es[i]).body;
    assert body == ([""] + sc) + [""];
    assert Join([""]) == "\n" by { assert Join([""]) == "" + "\n" + Join([]); }
    assert Join([""] + sc) == "\n" + (c + "\n") by {
      JoinAppend([""], sc);
      JoinSplit(c);
    }
    assert Join(body) == "\n" + (c + "\n") + "\n" by { JoinAppend([""] + sc, [""]); }
    assert Join(body + [""]) == Join(body) + "\n" by { JoinAppend(body, [""]); }
    assert "\n" + (c + "\n") + "\n" == "\n" + c + "\n\n";
    assert "\n" + c + "\n\n" + "\n" == "\n" + c + "\n\n\n";
  }

  /** The lines of the export are those of its blocks, the last block
      ending in the empty piece after the final line feed. */
  lemma {:induction false} SplitExport(es: seq<Entry>)
    requires es != [] && forall i :: 0 <= i < |es| ==> '\n' !in es[i].name
    ensures Split(Blob(es)) == Flatten(ParsedBlocks(es))
  {
    var bs := SectionBlocks(es);
    assert Split(Blob(es)) == Flatten(bs) + [""] by {
      SplitBlob(es, "");
      assert Blob(es) + "" == Blob(es);
    }
    LastBlockGrows(bs);
  }

  /** The empty piece after the final line feed joins the last block. */
  lemma LastBlockGrows(bs: seq<Block>)
    requires bs != []
    ensures var n := |bs| - 1;
      Flatten(bs) + [""] == Flatten(bs[..n] + [Block(bs[n].marker, bs[n].body + [""])])
  {
    var n := |bs| - 1;
    var front, m, body := Flatten(bs[..n]), bs[n].marker, bs[n].body;
    var grown := bs[..n] + [Block(m, body + [""])];
    assert grown[..|grown| - 1] == bs[..n];
    assert Flatten(grown) == front + [m] + (body + [""]);
    Assoc(front + [m], body, [""]);
  }

  /** Block `i` of what the parser sees reads as assignment `i`. */
  lemma {:induction false} ParsedBlock(es: seq<Entry>, i: nat)
    requires i < |es| && Exportable(es[i])
    ensures var b := ParsedBlocks(es)[i];
      IsMarker(b.marker) && NoMarkers(b.body) && Record(Title(b.marker), Join(b.body)) == Assignments(es)[i]
  {
    var e := es[i];
    var sb := SectionBlock(e);
    var extra: seq<string> := if i == |es| - 1 then [""] else [];
    assert ParsedBlocks(es)[i] == Block(sb.marker, sb.body + extra);
    KeyOfSection(e);
    BlockValue(es, i);
    assert Join(sb.body + extra) == Value(es, i) by {
      if extra == [] { assert sb.body + extra == sb.body; }
    }
    SectionBodyNoMarkers(e, extra);
  }

  lemma SectionBodyNoMarkers(e: Entry, extra: seq<string>)
    requires NoMarkers(Split(e.content)) && NoMarkers(extra)
    ensures NoMarkers(SectionBlock(e).body + extra)
  {
    var c := Split(e.content);
    var body := SectionBlock(e).body + extra;
    forall j | 0 <= j < |body| ensures !IsMarker(body[j]) {
      if j == 0 || j == |c| + 1 { assert body[j] == ""; }
      else if j <= |c| { assert body[j] == c[j - 1]; }
      else { assert body[j] == extra[j - |c| - 2]; }
    }
  }

  lemma {:induction false} ParsedBlocksMeaning(es: seq<Entry>)
    requires es != [] && forall i :: 0 <= i < |es| ==> Exportable(es[i])
    ensures WellFormed(ParsedBlocks(es)) && Records(ParsedBlocks(es)) == Assignments(es)
  {
    var pbs := ParsedBlocks(es);
    forall i | 0 <= i < |pbs|
      ensures IsMarker(pbs[i].marker) && NoMarkers(pbs[i].body) && Records(pbs)[i] == Assignments(es)[i]
    {
      ParsedBlock(es, i);
    }
  }

  /** Parsing the export performs exactly one assignment per exported file. */
  lemma {:induction false} ExportThenParse(es: seq<Entry>)
    requires forall i :: 0 <= i < |es| ==> Exportable(es[i])
    ensures Parse(Blob(es)) == Assign(Assignments(es))
  {
    if es == [] {
      ParseEmptyText();
      assert Assignments(es) == [];
    } else {
      SplitExport(es);
      ParsedBlocksMeaning(es);
      assert Split(Blob(es)) == [] + Flatten(ParsedBlocks(es));
      RunBlocks([], ParsedBlocks(es));
    }
  }

  lemma KeyInjective(e1: Entry, e2: Entry)
    requires Key(e1) == Key(e2)
    ensures e1.name == e2.name
  {
    assert e1.name == Key(e1)[7..] && e2.name == Key(e2)[7..];
  }

  /** Different file names give different keys. */
  lemma {:induction false} DistinctKeys(es: seq<Entry>)
    requires forall i, j :: 0 <= i < j < |es| ==> es[i].name != es[j].name
    ensures var rs := Assignments(es); forall i, j :: 0 <= i < j < |rs| ==> rs[i].key != rs[j].key
  {
    var rs := Assignments(es);
    forall i, j | 0 <= i < j < |rs| ensures rs[i].key != rs[j].key {
      if rs[i].key == rs[j].key { KeyInjective(es[i], es[j]); }
    }
  }

  /** With distinct file names, every assignment of the export survives. */
  lemma {:induction false} AssignDistinctNames(es: seq<Entry>)
    requires forall i, j :: 0 <= i < j < |es| ==> es[i].name != es[j].name
    ensures Assign(Assignments(es)).keys == seq(|es|, i requires 0 <= i < |es| => Key(es[i]))
    ensures forall i :: 0 <= i < |es| ==>
      Key(es[i]) in Assign(Assignments(es)).vals && Assign(Assignments(es)).vals[Key(es[i])] == Value(es, i)
  {
    var rs := Assignments(es);
    DistinctKeys(es);
    AssignDistinct(rs);
    var d := Assign(rs);
    forall i | 0 <= i < |es| ensures Key(es[i]) in d.vals && d.vals[Key(es[i])] == Value(es, i) {
      assert rs[i].key == Key(es[i]) && rs[i].value == Value(es, i);
    }
    assert KeysOf(rs) == seq(|es|, i requires 0 <= i < |es| => Key(es[i]));
  }

  /** With distinct file names, the export parses back to one key per file,
      in the order of the files, each holding that file's content framed by
      its section's blank lines. */
  lemma {:induction false} RoundTrip(es: seq<Entry>)
    requires forall i :: 0 <= i < |es| ==> Exportable(es[i])
    requires forall i, j :: 0 <= i < j < |es| ==> es[i].name != es[j].name
    ensures Parse(Blob(es)).keys == seq(|es|, i requires 0 <= i < |es| => Key(es[i]))
    ensures forall i :: 0 <= i < |es| ==>
      Key(es[i]) in Parse(Blob(es)).vals && Parse(Blob(es)).vals[Key(es[i])] == Value(es, i)
  {
    ExportThenParse(es);
    AssignDistinctNames(es);
  }

  /** Two files with the same name (from two directories) collapse into one
      key, which holds the later file's section. */
  lemma {:induction false} RoundTripDuplicate(es: seq<Entry>, i: nat, j: nat)
    requires forall k :: 0 <= k < |es| ==> Exportable(es[k])
    requires i < j < |es| && es[i].name == es[j].name
    requires forall k :: j < k < |es| ==> es[k].name != es[j].name
    ensures Key(es[j]) in Parse(Blob(es)).vals && Parse(Blob(es)).vals[Key(es[j])] == Value(es, j)
    ensures |Parse(Blob(es)).keys| < |es|
  {
    var rs := Assignments(es);
    assert Parse(Blob(es)) == Assign(rs) by { ExportThenParse(es); }
    assert rs[j].key in Assign(rs).vals && Assign(rs).vals[rs[j].key] == rs[j].value by {
      forall k | j < k < |rs| ensures rs[k].key != rs[j].key {
        if rs[k].key == rs[j].key { KeyInjective(es[k], es[j]); }
      }
      AssignLastWins(rs, j);
    }
    assert |Assign(rs).keys| < |rs| by {
      AssignKeys(rs);
      FirstOccurrencesRepeat(KeysOf(rs), i, j);
    }
  }
}
