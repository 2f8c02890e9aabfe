/**
 * The three pieces of Python's `posixpath` and `os` that `update_files`
 * relies on, as pure functions on path strings: `os.path.join` of two
 * components, `os.path.dirname`, and the chain of directories that
 * `os.makedirs` leaves behind.
 */
module Paths {
  import opened Text

  /** `os.path.join(a, b)`: an absolute `b` replaces `a`; otherwise a `/` is
      put between them unless `a` is empty or already ends with one. */
  function JoinPath(a: string, b: string): string {
    if StartsWith(b, "/") then b
    else if a == [] || EndsWith(a, "/") then a + b
    else a + "/" + b
  }

  predicate AllSlashes(s: string) {
    s == [] || (s[|s| - 1] == '/' && AllSlashes(s[..|s| - 1]))
  }

  /** `s.rstrip('/')` */
  function StripSlashes(s: string): string {
    if s != [] && s[|s| - 1] == '/' then StripSlashes(s[..|s| - 1]) else s
  }

  /** `os.path.dirname(p)`: the last component is cut off, up to and not
      including the last `/`; then the trailing slashes of what is left are
      removed, unless it is made of slashes only (the root). */
  function Dirname(p: string): string {
    if p != [] && p[|p| - 1] != '/' then Dirname(p[..|p| - 1])
    else if !AllSlashes(p) then StripSlashes(p)
    else p
  }

  lemma {:induction false} StripSlashesShorter(s: string)
    ensures |StripSlashes(s)| <= |s|
  {
    if s != [] && s[|s| - 1] == '/' {
      StripSlashesShorter(s[..|s| - 1]);
    }
  }

  /** The directory of a path is never longer than the path. */
  lemma {:induction false} DirnameShorter(p: string)
    ensures |Dirname(p)| <= |p|
  {
    if p != [] && p[|p| - 1] != '/' {
      DirnameShorter(p[..|p| - 1]);
    } else {
      StripSlashesShorter(p);
    }
  }

  /** What `os.makedirs(d, exist_ok=True)` guarantees afterwards: `d` and each
      directory above it, as `dirname` names them, exist.  `d` must not be
      empty; `makedirs('')` raises instead. */
  function Ancestry(d: string): (r: set<string>)
    ensures d != [] ==> d in r
    ensures forall x :: x in r ==> x != []
    decreases |d|
  {
    if d == [] then {}
    else
      var up := Dirname(d);
      {d} + (if |up| < |d| then Ancestry(up) else {})
  }

  /** A relative name is joined below the base path ... */
  lemma JoinRelative(a: string, b: string)
    requires !StartsWith(b, "/")
    ensures StartsWith(JoinPath(a, b), a)
  {
    var j := JoinPath(a, b);
    if a == [] || EndsWith(a, "/") {
      assert j[..|a|] == a;
    } else {
      assert j == a + ("/" + b);
      assert j[..|a|] == a;
    }
  }

  /** ... while an absolute one escapes it and is used unchanged. */
  lemma JoinAbsolute(a: string, b: string)
    requires StartsWith(b, "/")
    ensures JoinPath(a, b) == b
  {
  }

  /** Below a fixed base, different relative names give different paths. */
  lemma JoinInjective(a: string, b1: string, b2: string)
    requires !StartsWith(b1, "/") && !StartsWith(b2, "/")
    requires JoinPath(a, b1) == JoinPath(a, b2)
    ensures b1 == b2
  {
    var j := JoinPath(a, b1);
    if a == [] || EndsWith(a, "/") {
      assert j[|a|..] == b1 && j[|a|..] == b2;
    } else {
      assert j == a + ("/" + b1) && j == a + ("/" + b2);
      assert j[|a| + 1..] == b1 && j[|a| + 1..] == b2;
    }
  }

  /** A last component without `/` does not change the directory. */
  lemma {:induction false} DirnameAppend(s: string, t: string)
    requires '/' !in t
    ensures Dirname(s + t) == Dirname(s)
    decreases |t|
  {
    if t != [] {
      var u := t[..|t| - 1];
      assert '/' !in u by {
        forall i | 0 <= i < |u| ensures u[i] != '/' { assert u[i] == t[i]; }
      }
      assert (s + t)[..|s + t| - 1] == s + u;
      assert (s + t)[|s + t| - 1] == t[|t| - 1];
      DirnameAppend(s, u);
    } else {
      assert s + t == s;
    }
  }

  /** A plain file name joined to a base path that does not end in `/` lives
      directly in that base path: this is the directory `makedirs` creates
      for it. */
  lemma DirnameOfJoin(base: string, name: string)
    requires base != [] && base[|base| - 1] != '/'
    requires name != [] && '/' !in name
    ensures Dirname(JoinPath(base, name)) == base
  {
    assert !StartsWith(name, "/") by { assert name[..1][0] == name[0]; }
    assert !EndsWith(base, "/") by { assert base[|base| - 1..][0] == base[|base| - 1]; }
    var p := JoinPath(base, name);
    var head := base + "/";
    assert p == head + name;
    DirnameAppend(head, name);
    assert head[..|head| - 1] == base;
    assert !AllSlashes(head) by { assert !AllSlashes(base); }
    assert StripSlashes(head) == StripSlashes(base) == base;
  }
}
