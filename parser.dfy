/**
 * `parse_text` of lib/updateFiles.py: the blob is split on line feeds and
 * scanned with a "current file" cursor.  A line whose raw text starts with
 * `//` opens a record titled by that line; every later line that is not a
 * marker is appended, with its line feed restored, to the current record.
 *
 * The scan is modelled twice: `ParseText` is the loop of the source, proved
 * equal to the specification function `Parse` (a fold of `Step` over the
 * lines); `Segment` and `Records` give an independent reading of the same
 * input (a preamble, then blocks, each assigning its body to its title), and
 * `ParseCharacterization` shows that the loop performs exactly those
 * assignments, so that the facts about `Assign` (one key per distinct title
 * in first-seen order, holding the body of the last block with that title)
 * carry over to `parse_text`.
 */
module Parser {
  import opened Text
  import opened OrderedDict

  datatype Option<T> = None | Some(value: T)

  /** `line.startswith('//')`, on the raw line: indentation makes a line content. */
  predicate IsMarker(line: string) {
    StartsWith(line, "//")
  }

  /** `line.strip().replace('// ', '').strip()` */
  function Title(line: string): string {
    Strip(DeleteAll(Strip(line), "// "))
  }

  /** The title of a marker line is never empty: the last character of the
      stripped line is not whitespace, so it cannot be the space that ends an
      occurrence of `"// "`, and it survives the removal. */
  lemma TitleNonEmpty(line: string)
    requires IsMarker(line)
    ensures Title(line) != ""
  {
    var s := Strip(line);
    assert line[0] == '/';
    StripShape(line);
    assert s != [];
    DeleteAllKeepsLast(s, "// ");
    var t := DeleteAll(s, "// ");
    assert !IsSpace(t[|t| - 1]);
    StripShape(t);
  }

  /** `"// " + name` is titled `name` when `name` has no whitespace at its
      ends and no `"// "` inside. */
  lemma TitleOfPlainName(name: string)
    requires name != [] && !IsSpace(name[0]) && !IsSpace(name[|name| - 1])
    requires !Contains(name, "// ")
    ensures IsMarker("// " + name) && Title("// " + name) == name
  {
    var line := "// " + name;
    StripUnchanged(line);
    assert StartsWith(line, "// ");
    assert line[3..] == name;
    DeleteAllAbsent(name, "// ");
    StripUnchanged(name);
  }

  /** The loop state: `current_file` and `files_content`. */
  datatype State = State(current: Option<string>, files: Dict)

  /** The current record, once there is one, is a key of the dictionary, so
      `files_content[current_file] += ...` never raises `KeyError`. */
  ghost predicate Consistent(st: State) {
    st.files.Valid() && (st.current.Some? ==> st.current.value in st.files.vals)
  }

  /** `current_file = None`, `files_content = {}` */
  function Init(): (st: State)
    ensures Consistent(st)
  {
    State(None, Empty())
  }

  /** One iteration of the loop.  `elif current_file:` is Python truthiness:
      `None` and the empty title are both false. */
  function Step(st: State, line: string): (r: State)
    requires Consistent(st)
    ensures Consistent(r)
  {
    if IsMarker(line) then
      var t := Title(line);
      State(Some(t), Put(st.files, t, ""))
    else if st.current.Some? && st.current.value != "" then
      State(st.current, Append(st.files, st.current.value, line + "\n"))
    else
      st
  }

  /** The loop run over `lines` from state `st`. */
  function RunFrom(st: State, lines: seq<string>): (r: State)
    requires Consistent(st)
    ensures Consistent(r)
  {
    if lines == [] then st
    else Step(RunFrom(st, lines[..|lines| - 1]), lines[|lines| - 1])
  }

  /** `parse_text(input_text)` */
  function Parse(text: string): (d: Dict)
    ensures d.Valid()
  {
    RunFrom(Init(), Split(text)).files
  }

  /** The loop of `parse_text` as written. */
  method ParseText(inputText: string) returns (filesContent: Dict)
    ensures filesContent == Parse(inputText)
  {
    filesContent := Empty();
    var currentFile: Option<string> := None;
    var lines := Split(inputText);
    for i := 0 to |lines|
      invariant Consistent(State(currentFile, filesContent))
      invariant State(currentFile, filesContent) == RunFrom(Init(), lines[..i])
    {
      var line := lines[i];
      if StartsWith(line, "//") {
        currentFile := Some(Title(line));
        filesContent := Put(filesContent, currentFile.value, "");
      } else if currentFile.Some? && currentFile.value != "" {
        filesContent := Append(filesContent, currentFile.value, line + "\n");
      }
      assert lines[..i + 1][..i] == lines[..i];
    }
    assert lines[..|lines|] == lines;
  }

  // ---------------------------------------------------------------------
  // Running the loop over pieces of the input

  predicate NoMarkers(lines: seq<string>) {
    forall i :: 0 <= i < |lines| ==> !IsMarker(lines[i])
  }

  predicate NoNewlines(lines: seq<string>) {
    forall i :: 0 <= i < |lines| ==> '\n' !in lines[i]
  }

  /** Running over `a + b` is running over `a`, then over `b`. */
  lemma {:induction false} RunAppend(st: State, a: seq<string>, b: seq<string>)
    requires Consistent(st)
    ensures RunFrom(st, a + b) == RunFrom(RunFrom(st, a), b)
  {
    if b == [] {
      assert a + b == a;
    } else {
      assert (a + b)[..|a + b| - 1] == a + b[..|b| - 1];
      assert (a + b)[|a + b| - 1] == b[|b| - 1];
      RunAppend(st, a, b[..|b| - 1]);
    }
  }

  /** Lines before the first marker are dropped: there is no current file yet. */
  lemma {:induction false} RunPreamble(pre: seq<string>)
    requires NoMarkers(pre)
    ensures RunFrom(Init(), pre) == Init()
  {
    if pre != [] {
      RunPreamble(pre[..|pre| - 1]);
    }
  }

  /** A content line under a non-empty current title is appended to it. */
  lemma StepContent(t: string, d: Dict, line: string)
    requires d.Valid() && t in d.vals && t != ""
    requires !IsMarker(line)
    ensures Step(State(Some(t), d), line) == State(Some(t), Append(d, t, line + "\n"))
  {
  }

  /** With a non-empty current title, the non-marker lines are appended, in
      order and each with its line feed, to that title's value. */
  lemma {:induction false} RunBody(t: string, d: Dict, body: seq<string>)
    requires d.Valid() && t in d.vals && t != ""
    requires NoMarkers(body)
    ensures RunFrom(State(Some(t), d), body) == State(Some(t), Put(d, t, d.vals[t] + Join(body)))
  {
    if body == [] {
      assert d.vals[t] + Join(body) == d.vals[t];
      PutSame(d, t);
    } else {
      var init, l := body[..|body| - 1], body[|body| - 1];
      assert NoMarkers(init) by {
        forall i | 0 <= i < |init| ensures !IsMarker(init[i]) { assert init[i] == body[i]; }
      }
      RunBody(t, d, init);
      assert body == init + [l];
      RunBodySnoc(t, d, init, l);
    }
  }

  /** The step of `RunBody`: one more content line. */
  lemma RunBodySnoc(t: string, d: Dict, init: seq<string>, l: string)
    requires d.Valid() && t in d.vals && t != ""
    requires !IsMarker(l)
    requires RunFrom(State(Some(t), d), init) == State(Some(t), Put(d, t, d.vals[t] + Join(init)))
    ensures RunFrom(State(Some(t), d), init + [l]) == State(Some(t), Put(d, t, d.vals[t] + Join(init + [l])))
  {
    var before := d.vals[t] + Join(init);
    RunSnoc(State(Some(t), d), init, l);
    StepContent(t, Put(d, t, before), l);
    PutAppend(d, t, before, l + "\n");
    JoinSnoc(d.vals[t], init, l);
  }

  /** Running over one more line is one more step. */
  lemma RunSnoc(st: State, init: seq<string>, l: string)
    requires Consistent(st)
    ensures RunFrom(st, init + [l]) == Step(RunFrom(st, init), l)
  {
    assert (init + [l])[..|init|] == init;
  }

  /** One marker line and its body: the title becomes current and holds the body. */
  lemma RunBlock(st: State, marker: string, body: seq<string>)
    requires Consistent(st)
    requires IsMarker(marker) && NoMarkers(body)
    ensures RunFrom(st, [marker] + body)
         == State(Some(Title(marker)), Put(st.files, Title(marker), Join(body)))
  {
    var t := Title(marker);
    RunAppend(st, [marker], body);
    assert [marker][..0] == [];
    assert RunFrom(st, [marker]) == Step(st, marker);
    var d := Put(st.files, t, "");
    assert Step(st, marker) == State(Some(t), d);
    TitleNonEmpty(marker);
    RunBody(t, d, body);
    assert d.vals[t] + Join(body) == Join(body);
    PutPut(st.files, t, "", Join(body));
  }

  // ---------------------------------------------------------------------
  // The reference reading: a preamble, then blocks

  /** A marker line and the lines that follow it up to the next marker. */
  datatype Block = Block(marker: string, body: seq<string>)

  function Flatten(bs: seq<Block>): seq<string> {
    if bs == [] then []
    else Flatten(bs[..|bs| - 1]) + [bs[|bs| - 1].marker] + bs[|bs| - 1].body
  }

  predicate WellFormed(bs: seq<Block>) {
    forall i :: 0 <= i < |bs| ==> IsMarker(bs[i].marker) && NoMarkers(bs[i].body)
  }

  /** What each block means: its title is assigned its body, joined with line feeds. */
  function Records(bs: seq<Block>): seq<Record> {
    seq(|bs|, i requires 0 <= i < |bs| => Record(Title(bs[i].marker), Join(bs[i].body)))
  }

  /** The titles of the marker lines, one per marker line, in order. */
  function MarkerTitles(lines: seq<string>): seq<string> {
    if lines == [] then []
    else MarkerTitles(lines[..|lines| - 1])
         + (if IsMarker(lines[|lines| - 1]) then [Title(lines[|lines| - 1])] else [])
  }

  lemma FlattenSnoc(pre: seq<string>, bs: seq<Block>, b: Block)
    ensures pre + Flatten(bs + [b]) == (pre + Flatten(bs)) + ([b.marker] + b.body)
  {
    assert (bs + [b])[..|bs|] == bs;
  }

  /** Cuts a line sequence into the lines before the first marker and one
      block per marker line (see `SegmentSound`). */
  function Segment(lines: seq<string>): (seq<string>, seq<Block>)
  {
    if lines == [] then ([], [])
    else
      var r := Segment(lines[..|lines| - 1]);
      var l := lines[|lines| - 1];
      if IsMarker(l) then (r.0, r.1 + [Block(l, [])])
      else if r.1 == [] then (r.0 + [l], [])
      else (r.0, r.1[..|r.1| - 1] + [Block(r.1[|r.1| - 1].marker, r.1[|r.1| - 1].body + [l])])
  }

  /** Nothing is lost or reordered by the cut. */
  lemma {:induction false} SegmentConcat(lines: seq<string>)
    ensures Segment(lines).0 + Flatten(Segment(lines).1) == lines
  {
    if lines != [] {
      var init, l := lines[..|lines| - 1], lines[|lines| - 1];
      SegmentConcat(init);
      assert lines == init + [l];
      SegmentConcatSnoc(init, l);
    }
  }

  lemma SegmentConcatSnoc(init: seq<string>, l: string)
    requires Segment(init).0 + Flatten(Segment(init).1) == init
    ensures Segment(init + [l]).0 + Flatten(Segment(init + [l]).1) == init + [l]
  {
    var lines := init + [l];
    assert lines[..|lines| - 1] == init;
    var pre, bs := Segment(init).0, Segment(init).1;
    if IsMarker(l) {
      FlattenSnoc(pre, bs, Block(l, []));
    } else if bs != [] {
      var front, last := bs[..|bs| - 1], bs[|bs| - 1];
      assert bs == front + [last];
      assert Segment(lines).1 == front + [Block(last.marker, last.body + [l])];
      GrowLast(pre, front, last, l);
    }
  }

  /** A line added to the last block comes right after the lines before it. */
  lemma GrowLast(pre: seq<string>, front: seq<Block>, last: Block, l: string)
    ensures pre + Flatten(front + [Block(last.marker, last.body + [l])]) == (pre + Flatten(front + [last])) + [l]
  {
    FlattenSnoc(pre, front, last);
    FlattenSnoc(pre, front, Block(last.marker, last.body + [l]));
    var a, b := pre + Flatten(front), [last.marker] + last.body;
    assert (a + b) + [l] == a + (b + [l]);
  }

  /** The preamble holds no marker, each block starts with one and has none
      in its body, and bodies of newline-free lines are newline-free. */
  lemma {:induction false} SegmentWellFormed(lines: seq<string>)
    ensures NoMarkers(Segment(lines).0) && WellFormed(Segment(lines).1)
    ensures NoNewlines(lines) ==> forall i :: 0 <= i < |Segment(lines).1| ==> NoNewlines(Segment(lines).1[i].body)
  {
    if lines != [] {
      var init, l := lines[..|lines| - 1], lines[|lines| - 1];
      SegmentWellFormed(init);
      assert NoNewlines(lines) ==> NoNewlines(init) && '\n' !in l;
      var pre, bs := Segment(init).0, Segment(init).1;
      var r := Segment(lines);
      if IsMarker(l) {
        assert r.1 == bs + [Block(l, [])];
        assert forall i :: 0 <= i < |bs| ==> r.1[i] == bs[i];
      } else if bs == [] {
        assert r.0 == pre + [l];
      } else {
        var front, last := bs[..|bs| - 1], bs[|bs| - 1];
        assert r.1 == front + [Block(last.marker, last.body + [l])];
        assert forall i :: 0 <= i < |front| ==> r.1[i] == bs[i];
      }
    }
  }

  /** One block per marker line, titled as that line. */
  lemma {:induction false} SegmentTitles(lines: seq<string>)
    ensures KeysOf(Records(Segment(lines).1)) == MarkerTitles(lines)
  {
    if lines != [] {
      var init, l := lines[..|lines| - 1], lines[|lines| - 1];
      SegmentTitles(init);
      var bs := Segment(init).1;
      var ks := KeysOf(Records(bs));
      var r := Segment(lines).1;
      if IsMarker(l) {
        assert r == bs + [Block(l, [])];
        assert KeysOf(Records(r)) == ks + [Title(l)];
      } else if bs != [] {
        var front, last := bs[..|bs| - 1], bs[|bs| - 1];
        assert r == front + [Block(last.marker, last.body + [l])];
        assert KeysOf(Records(r)) == ks;
      }
    }
  }

  /** Appending a block appends its record. */
  lemma RecordsSnoc(bs: seq<Block>, b: Block)
    ensures Records(bs + [b]) == Records(bs) + [Record(Title(b.marker), Join(b.body))]
  {
  }

  /** The loop over a preamble and well-formed blocks ends in the state the
      blocks describe, the last block's title being current. */
  lemma {:induction false} RunBlocks(pre: seq<string>, bs: seq<Block>)
    requires NoMarkers(pre) && WellFormed(bs)
    ensures RunFrom(Init(), pre + Flatten(bs))
         == State(if bs == [] then None else Some(Title(bs[|bs| - 1].marker)), Assign(Records(bs)))
  {
    if bs == [] {
      assert pre + Flatten(bs) == pre;
      RunPreamble(pre);
    } else {
      var init, b := bs[..|bs| - 1], bs[|bs| - 1];
      assert WellFormed(init) by {
        forall i | 0 <= i < |init| ensures IsMarker(init[i].marker) && NoMarkers(init[i].body) {
          assert init[i] == bs[i];
        }
      }
      RunBlocks(pre, init);
      assert bs == init + [b];
      RunBlocksSnoc(pre, init, b);
    }
  }

  /** The step of `RunBlocks`: one more block. */
  lemma RunBlocksSnoc(pre: seq<string>, init: seq<Block>, b: Block)
    requires IsMarker(b.marker) && NoMarkers(b.body)
    requires RunFrom(Init(), pre + Flatten(init)).files == Assign(Records(init))
    ensures RunFrom(Init(), pre + Flatten(init + [b])) == State(Some(Title(b.marker)), Assign(Records(init + [b])))
  {
    var front := pre + Flatten(init);
    FlattenSnoc(pre, init, b);
    RunAppend(Init(), front, [b.marker] + b.body);
    RunBlock(RunFrom(Init(), front), b.marker, b.body);
    RecordsSnoc(init, b);
    AssignSnoc(Records(init), Record(Title(b.marker), Join(b.body)));
  }

  // ---------------------------------------------------------------------
  // What parse_text returns

  /** `parse_text` returns what the reference reading of its lines describes:
      the dictionary built by assigning each block's body to its title, in order. */
  lemma ParseCharacterization(text: string)
    ensures Parse(text) == Assign(Records(Segment(Split(text)).1))
  {
    var lines := Split(text);
    SegmentConcat(lines);
    SegmentWellFormed(lines);
    RunBlocks(Segment(lines).0, Segment(lines).1);
  }

  /** The keys are the titles of the marker lines, without repeats, in the
      order in which each title first appears. */
  lemma ParseKeys(text: string)
    ensures Parse(text).keys == FirstOccurrences(MarkerTitles(Split(text)))
  {
    ParseCharacterization(text);
    SegmentTitles(Split(text));
    AssignKeys(Records(Segment(Split(text)).1));
  }

  /** There are at most as many keys as marker lines. */
  lemma ParseKeyCount(text: string)
    ensures |Parse(text).keys| <= |MarkerTitles(Split(text))|
  {
    ParseKeys(text);
  }

  lemma {:induction false} NoMarkerTitles(lines: seq<string>)
    requires NoMarkers(lines)
    ensures MarkerTitles(lines) == []
  {
    if lines != [] {
      NoMarkerTitles(lines[..|lines| - 1]);
    }
  }

  /** A text without marker lines, the empty text among them, parses to `{}`. */
  lemma ParseNoMarkers(text: string)
    requires NoMarkers(Split(text))
    ensures Parse(text) == Empty()
  {
    ParseKeys(text);
    NoMarkerTitles(Split(text));
    var d := Parse(text);
    assert d.keys == [];
    assert d.vals == map[];
  }

  lemma ParseEmptyText()
    ensures Parse("") == Empty()
  {
    ParseNoMarkers("");
  }

  /** Text ahead of the first marker line does not matter. */
  lemma ParseIgnoresPreamble(preamble: string, rest: string)
    requires NoMarkers(Split(preamble))
    ensures Parse(preamble + "\n" + rest) == Parse(rest)
  {
    SplitAppend(preamble, rest);
    RunAppend(Init(), Split(preamble), Split(rest));
    RunPreamble(Split(preamble));
  }

  /** Each value is `""` or ends in a line feed, is the body of one block
      carrying that title (the lines after its marker line, up to the next
      marker line), and none of its lines is a marker. */
  lemma ParseValues(text: string, k: string)
    requires k in Parse(text).vals
    ensures Parse(text).vals[k] == "" || Parse(text).vals[k][|Parse(text).vals[k]| - 1] == '\n'
    ensures exists i :: 0 <= i < |Segment(Split(text)).1|
              && Title(Segment(Split(text)).1[i].marker) == k
              && Parse(text).vals[k] == Join(Segment(Split(text)).1[i].body)
    ensures NoMarkers(Split(Parse(text).vals[k]))
  {
    var bs := Segment(Split(text)).1;
    var rs := Records(bs);
    assert Parse(text) == Assign(rs) by { ParseCharacterization(text); }
    AssignValues(rs, k);
    var i :| 0 <= i < |rs| && rs[i].key == k && Assign(rs).vals[k] == rs[i].value;
    assert rs[i] == Record(Title(bs[i].marker), Join(bs[i].body));
    assert NoMarkers(bs[i].body) && NoNewlines(bs[i].body) by { SegmentWellFormed(Split(text)); }
    ValueOfBody(bs[i].body);
  }

  /** A joined body of content lines is `""` or ends in a line feed, and
      splits back into content lines. */
  lemma ValueOfBody(body: seq<string>)
    requires NoMarkers(body) && NoNewlines(body)
    ensures NoMarkers(Split(Join(body)))
  {
    SplitJoin(body);
    var r := body + [""];
    forall i | 0 <= i < |r| ensures !IsMarker(r[i]) {
      if i < |body| { assert r[i] == body[i]; }
    }
  }

  /** A repeated title: the value comes from the last block with that title,
      while the key keeps the place it was given by its first block. */
  lemma ParseRepeatedTitle(text: string, i: nat, j: nat)
    requires var bs := Segment(Split(text)).1;
      i < j < |bs| && Title(bs[i].marker) == Title(bs[j].marker)
      && forall m :: j < m < |bs| ==> Title(bs[m].marker) != Title(bs[j].marker)
    ensures var bs := Segment(Split(text)).1;
      Title(bs[j].marker) in Parse(text).vals && Parse(text).vals[Title(bs[j].marker)] == Join(bs[j].body)
    ensures var bs := Segment(Split(text)).1; var early := Assign(Records(bs[..i + 1])).keys;
      Title(bs[i].marker) in early && |early| <= |Parse(text).keys|
      && Parse(text).keys[..|early|] == early
  {
    var bs := Segment(Split(text)).1;
    var rs := Records(bs);
    assert Parse(text) == Assign(rs) by { ParseCharacterization(text); }
    RecordsPrefix(bs, i + 1);
    assert rs[j] == Record(Title(bs[j].marker), Join(bs[j].body));
    assert rs[i].key == Title(bs[i].marker);
    assert forall m :: j < m < |rs| ==> rs[m].key != rs[j].key by {
      forall m | j < m < |rs| ensures rs[m].key != rs[j].key {
        assert rs[m].key == Title(bs[m].marker);
      }
    }
    AssignLastWins(rs, j);
    AssignKeyPlace(rs, i);
  }

  lemma RecordsPrefix(bs: seq<Block>, n: nat)
    requires n <= |bs|
    ensures Records(bs[..n]) == Records(bs)[..n]
  {
  }

  /** A file name that `"// " + name` titles as itself. */
  predicate PlainName(name: string) {
    name != [] && !IsSpace(name[0]) && !IsSpace(name[|name| - 1]) && !Contains(name, "// ")
  }

  /** Blocks marked `"// " + name` for distinct plain names, after a
      marker-free preamble: the keys are the names, in order, and each holds
      the body of its block. */
  lemma ParseNamedBlocks(text: string, pre: seq<string>, bs: seq<Block>, names: seq<string>)
    requires Split(text) == pre + Flatten(bs) && NoMarkers(pre) && |names| == |bs|
    requires forall i :: 0 <= i < |bs| ==>
      bs[i].marker == "// " + names[i] && NoMarkers(bs[i].body) && PlainName(names[i])
    requires forall i, j :: 0 <= i < j < |names| ==> names[i] != names[j]
    ensures Parse(text).keys == names
    ensures forall i :: 0 <= i < |bs| ==> names[i] in Parse(text).vals && Parse(text).vals[names[i]] == Join(bs[i].body)
  {
    var rs := Records(bs);
    forall i | 0 <= i < |bs| ensures IsMarker(bs[i].marker) && rs[i] == Record(names[i], Join(bs[i].body)) {
      TitleOfPlainName(names[i]);
    }
    RunBlocks(pre, bs);
    assert KeysOf(rs) == names;
    AssignDistinct(rs);
  }

  /** The six files of the sample embedded in lib/updateFiles.py, in order. */
  const SampleFiles: seq<string> := ["main.dart", "verse.dart", "chapter.dart",
    "verse_memorization_screen.dart", "home_screen.dart", "quran_data_service.dart"]

  /** The embedded sample opens with a line feed, so its first line is `""`,
      followed by six blocks marked `// main.dart` and so on, no other line
      of it starting with `//`: it parses to exactly those six keys. */
  lemma SampleKeys(text: string, bs: seq<Block>)
    requires Split(text) == [""] + Flatten(bs) && |bs| == |SampleFiles|
    requires forall i :: 0 <= i < |bs| ==> bs[i].marker == "// " + SampleFiles[i] && NoMarkers(bs[i].body)
    ensures Parse(text).keys == SampleFiles
  {
    SampleFilesPlain();
    ParseNamedBlocks(text, [""], bs, SampleFiles);
  }

  lemma SampleFilesPlain()
    ensures forall i :: 0 <= i < |SampleFiles| ==> PlainName(SampleFiles[i])
    ensures forall i, j :: 0 <= i < j < |SampleFiles| ==> SampleFiles[i] != SampleFiles[j]
  {
    forall i | 0 <= i < |SampleFiles| ensures PlainName(SampleFiles[i]) {
      ContainsFirst(SampleFiles[i], "// ");
    }
  }

  /** Only the raw line is looked at: a line that starts with whitespace, as
      the indented comments at lines 325 and 381 of the embedded sample do,
      is content even when stripping it would leave a `//` in front. */
  lemma IndentedLineIsContent(line: string)
    requires line != [] && IsSpace(line[0])
    ensures !IsMarker(line)
  {
    if |line| >= 2 {
      assert line[..2][0] == line[0];
    }
  }
}
