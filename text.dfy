/**
 * The handful of Python `str` operations that the blob format is built on,
 * with the exact semantics the tool relies on: `split('\n')`, `startswith`,
 * `endswith`, `strip()` (restricted to ASCII whitespace), `replace(p, '')`
 * and `lower()` (restricted to ASCII letters).
 */
module Text {

  /** Python's `str.isspace` on the ASCII range: tab, line feed, vertical tab,
      form feed, carriage return, the four separators 0x1c-0x1f, and space. */
  predicate IsSpace(c: char) {
    9 <= c as int <= 13 || 28 <= c as int <= 32
  }

  predicate StartsWith(s: string, prefix: string) {
    |prefix| <= |s| && s[..|prefix|] == prefix
  }

  predicate EndsWith(s: string, suffix: string) {
    |suffix| <= |s| && s[|s| - |suffix|..] == suffix
  }

  /** `s.lstrip()` */
  function StripLeft(s: string): string {
    if s != [] && IsSpace(s[0]) then StripLeft(s[1..]) else s
  }

  /** `s.rstrip()` */
  function StripRight(s: string): string {
    if s != [] && IsSpace(s[|s| - 1]) then StripRight(s[..|s| - 1]) else s
  }

  /** `s.strip()` */
  function Strip(s: string): string {
    StripRight(StripLeft(s))
  }

  /** `lstrip` drops the leading whitespace and nothing else. */
  lemma {:induction false} StripLeftShape(s: string)
    ensures var r := StripLeft(s);
      |r| <= |s| && r == s[|s| - |r|..]
      && (forall i :: 0 <= i < |s| - |r| ==> IsSpace(s[i]))
      && (r == [] || !IsSpace(r[0]))
  {
    if s != [] && IsSpace(s[0]) {
      var t := s[1..];
      StripLeftShape(t);
      var r := StripLeft(t);
      assert StripLeft(s) == r;
      assert t[|t| - |r|..] == s[|s| - |r|..];
      forall i | 0 <= i < |s| - |r| ensures IsSpace(s[i]) {
        if i > 0 { assert s[i] == t[i - 1]; }
      }
    }
  }

  /** `rstrip` drops the trailing whitespace and nothing else. */
  lemma {:induction false} StripRightShape(s: string)
    ensures var r := StripRight(s);
      |r| <= |s| && r == s[..|r|]
      && (forall i :: |r| <= i < |s| ==> IsSpace(s[i]))
      && (r == [] || !IsSpace(r[|r| - 1]))
  {
    if s != [] && IsSpace(s[|s| - 1]) {
      var t := s[..|s| - 1];
      StripRightShape(t);
      var r := StripRight(t);
      assert StripRight(s) == r;
      assert t[..|r|] == s[..|r|];
      forall i | |r| <= i < |s| ensures IsSpace(s[i]) {
        if i < |s| - 1 { assert s[i] == t[i]; }
      }
    }
  }

  /** `strip` gives the empty string exactly when `s` is all whitespace, and
      otherwise a string that starts and ends with a non-whitespace character. */
  lemma StripShape(s: string)
    ensures Strip(s) == [] <==> forall i :: 0 <= i < |s| ==> IsSpace(s[i])
    ensures Strip(s) != [] ==> !IsSpace(Strip(s)[0]) && !IsSpace(Strip(s)[|Strip(s)| - 1])
  {
    var l := StripLeft(s);
    StripLeftShape(s);
    StripRightShape(l);
    var r := StripRight(l);
    assert r != [] ==> r[0] == l[0];
    assert r == [] ==> l == [];
  }

  /** Stripping a string that already has no whitespace at either end changes nothing. */
  lemma StripUnchanged(s: string)
    requires s == [] || (!IsSpace(s[0]) && !IsSpace(s[|s| - 1]))
    ensures Strip(s) == s
  {
    assert StripLeft(s) == s;
  }

  /** `pattern` occurs in `s` starting at index `i`. */
  predicate MatchesAt(s: string, pattern: string, i: nat) {
    i + |pattern| <= |s| && s[i..i + |pattern|] == pattern
  }

  predicate Contains(s: string, pattern: string) {
    exists i: nat | i <= |s| :: MatchesAt(s, pattern, i)
  }

  /** A string that lacks the first character of the pattern does not contain it. */
  lemma ContainsFirst(s: string, pattern: string)
    requires pattern != [] && pattern[0] !in s
    ensures !Contains(s, pattern)
  {
  }

  /** `s.replace(pattern, '')`: Python scans left to right and removes each
      non-overlapping occurrence of `pattern`. */
  function DeleteAll(s: string, pattern: string): (r: string)
    requires pattern != []
    ensures |r| <= |s|
    decreases |s|
  {
    if StartsWith(s, pattern) then DeleteAll(s[|pattern|..], pattern)
    else if s == [] then []
    else [s[0]] + DeleteAll(s[1..], pattern)
  }

  /** Without an occurrence of the pattern, `replace` returns the string unchanged. */
  lemma {:induction false} DeleteAllAbsent(s: string, pattern: string)
    requires pattern != []
    requires !Contains(s, pattern)
    ensures DeleteAll(s, pattern) == s
    decreases |s|
  {
    assert !MatchesAt(s, pattern, 0);
    if s != [] {
      if Contains(s[1..], pattern) {
        var i: nat :| MatchesAt(s[1..], pattern, i);
        assert MatchesAt(s[1..], pattern, i);
        assert i + |pattern| <= |s[1..]|;
        assert s[1..][i..i + |pattern|] == s[i + 1..i + 1 + |pattern|];
        assert MatchesAt(s, pattern, i + 1);
      }
      DeleteAllAbsent(s[1..], pattern);
    }
  }

  /** A last character that cannot end an occurrence of the pattern survives
      `replace`, still as the last character. */
  lemma {:induction false} DeleteAllKeepsLast(s: string, pattern: string)
    requires pattern != [] && s != []
    requires s[|s| - 1] != pattern[|pattern| - 1]
    ensures DeleteAll(s, pattern) != []
    ensures DeleteAll(s, pattern)[|DeleteAll(s, pattern)| - 1] == s[|s| - 1]
    decreases |s|
  {
    if StartsWith(s, pattern) {
      assert |pattern| < |s|;
      DeleteAllKeepsLast(s[|pattern|..], pattern);
    } else if |s| > 1 {
      DeleteAllKeepsLast(s[1..], pattern);
    }
  }

  /** Concatenation regroups.  Stated once as a lemma so that a proof about
      long concatenations can use it without the solver searching for it. */
  lemma Assoc<T>(a: seq<T>, b: seq<T>, c: seq<T>)
    ensures (a + b) + c == a + (b + c)
  {
  }

  /** Occurrences of `c` in `s`. */
  function Count(s: string, c: char): nat {
    if s == [] then 0 else (if s[0] == c then 1 else 0) + Count(s[1..], c)
  }

  /** `s.split('\n')`: one piece more than there are line feeds, no piece
      holds a line feed, and the empty string splits into `[""]`. */
  function Split(s: string): (lines: seq<string>)
    ensures |lines| == Count(s, '\n') + 1
    ensures forall i :: 0 <= i < |lines| ==> '\n' !in lines[i]
  {
    if s == [] then [""]
    else if s[0] == '\n' then [""] + Split(s[1..])
    else
      var rest := Split(s[1..]);
      [[s[0]] + rest[0]] + rest[1..]
  }

  /** Every line followed by a line feed, concatenated: what `+= line + '\n'`
      accumulates. */
  function Join(lines: seq<string>): (s: string)
    ensures s == [] <==> lines == []
    ensures s != [] ==> s[|s| - 1] == '\n'
  {
    if lines == [] then "" else lines[0] + "\n" + Join(lines[1..])
  }

  lemma {:induction false} JoinAppend(a: seq<string>, b: seq<string>)
    ensures Join(a + b) == Join(a) + Join(b)
  {
    if a != [] {
      assert (a + b)[1..] == a[1..] + b;
      JoinAppend(a[1..], b);
    } else {
      assert a + b == b;
    }
  }

  /** Adding one more line adds it and its line feed at the end, also
      when something precedes the joined lines. */
  lemma JoinSnoc(prefix: string, lines: seq<string>, l: string)
    ensures prefix + Join(lines + [l]) == (prefix + Join(lines)) + (l + "\n")
  {
    JoinAppend(lines, [l]);
    assert Join([l]) == l + "\n" + Join([]);
  }

  /** A string without line feeds is a single piece. */
  lemma {:induction false} SplitSingle(s: string)
    requires '\n' !in s
    ensures Split(s) == [s]
  {
    if s != [] {
      assert '\n' !in s[1..] by {
        forall i | 0 <= i < |s[1..]| ensures s[1..][i] != '\n' { assert s[1..][i] == s[i + 1]; }
      }
      SplitSingle(s[1..]);
      assert s == [s[0]] + s[1..];
    }
  }

  /** Splitting distributes over a line feed: the pieces of `a` come first, then those of `b`. */
  lemma {:induction false} SplitAppend(a: string, b: string)
    ensures Split(a + "\n" + b) == Split(a) + Split(b)
  {
    if a == [] {
      assert a + "\n" + b == "\n" + b;
      assert ("\n" + b)[1..] == b;
    } else {
      var s := a + "\n" + b;
      assert s[0] == a[0];
      assert s[1..] == a[1..] + "\n" + b;
      SplitAppend(a[1..], b);
    }
  }

  /** Rejoining the pieces of `split('\n')` with `+ '\n'` gives back the text plus one final line feed. */
  lemma {:induction false} JoinSplit(s: string)
    ensures Join(Split(s)) == s + "\n"
  {
    if s != [] {
      JoinSplit(s[1..]);
      if s[0] != '\n' {
        var rest := Split(s[1..]);
        var pieces := Split(s);
        assert pieces[0] == [s[0]] + rest[0] && pieces[1..] == rest[1..];
        assert Join(rest) == rest[0] + "\n" + Join(rest[1..]);
        assert Join(pieces) == pieces[0] + "\n" + Join(pieces[1..]);
        assert Join(pieces) == [s[0]] + Join(rest);
        assert s == [s[0]] + s[1..];
      } else {
        assert s == "\n" + s[1..];
      }
    }
  }

  /** Splitting what `Join` built gives back its lines, plus the empty piece after the last line feed. */
  lemma {:induction false} SplitJoin(lines: seq<string>)
    requires forall i :: 0 <= i < |lines| ==> '\n' !in lines[i]
    ensures Split(Join(lines)) == lines + [""]
  {
    if lines != [] {
      SplitJoin(lines[1..]);
      SplitSingle(lines[0]);
      SplitAppend(lines[0], Join(lines[1..]));
      assert lines == [lines[0]] + lines[1..];
    }
  }

  /** Python's `str.lower()` on ASCII: `A`-`Z` become `a`-`z`, everything else stays. */
  function LowerChar(c: char): char {
    if 'A' <= c <= 'Z' then (c as int + 32) as char else c
  }

  function Lower(s: string): (r: string)
    ensures |r| == |s|
    ensures forall i :: 0 <= i < |s| ==> r[i] == LowerChar(s[i])
  {
    if s == [] then [] else [LowerChar(s[0])] + Lower(s[1..])
  }

  /** An answer lower-cases to `"y"` exactly when it is `"y"` or `"Y"`:
      `"yes"`, `""` and every other answer do not. */
  lemma LowerIsY(answer: string)
    ensures Lower(answer) == "y" <==> answer == "y" || answer == "Y"
  {
    if Lower(answer) == "y" {
      assert |answer| == 1;
      assert LowerChar(answer[0]) == 'y';
      assert answer == [answer[0]];
    }
  }
}
