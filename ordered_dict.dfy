/**
 * Python's insertion-ordered `dict` from strings to strings, as the parser
 * uses it: assigning to a new key appends it at the end of the iteration
 * order, assigning to an existing key keeps its place.
 */
module OrderedDict {

  datatype Dict = Dict(keys: seq<string>, vals: map<string, string>) {

    /** The iteration order lists every key exactly once. */
    ghost predicate Valid() {
      && (forall i, j :: 0 <= i < j < |keys| ==> keys[i] != keys[j])
      && (forall k :: k in vals <==> k in keys)
    }
  }

  /** `{}` */
  function Empty(): (d: Dict)
    ensures d.Valid() && d.keys == [] && d.vals == map[]
  {
    Dict([], map[])
  }

  /** `d[k] = v`: `k` now holds `v`, the existing keys keep their order and
      a new key goes last. */
  function Put(d: Dict, k: string, v: string): (r: Dict)
    requires d.Valid()
    ensures r.Valid()
  {
    Dict(if k in d.vals then d.keys else d.keys + [k], d.vals[k := v])
  }

  /** What `d[k] = v` means: `k` holds `v`; every other key is present
      exactly when it was, with its value; the old order is kept, and `k` is
      appended exactly when it is new. */
  lemma PutMeaning(d: Dict, k: string, v: string)
    requires d.Valid()
    ensures var r := Put(d, k, v);
      k in r.vals && r.vals[k] == v
      && (forall j :: j != k ==> (j in r.vals <==> j in d.vals) && (j in d.vals ==> r.vals[j] == d.vals[j]))
      && |r.keys| == (if k in d.keys then |d.keys| else |d.keys| + 1)
      && r.keys[..|d.keys|] == d.keys
      && (k !in d.keys ==> r.keys[|d.keys|] == k)
  {
  }

  /** `d[k] += s` on a key that is present: only the value of `k` changes,
      by `s` being appended to it; the order is untouched. */
  function Append(d: Dict, k: string, s: string): (r: Dict)
    requires d.Valid() && k in d.vals
    ensures r.Valid() && r.keys == d.keys
    ensures r.vals == d.vals[k := d.vals[k] + s]
  {
    Put(d, k, d.vals[k] + s)
  }

  /** Assigning to the same key twice leaves only the second assignment. */
  lemma PutPut(d: Dict, k: string, v: string, w: string)
    requires d.Valid()
    ensures Put(Put(d, k, v), k, w) == Put(d, k, w)
  {
    assert d.vals[k := v][k := w] == d.vals[k := w];
  }

  /** Assigning a key its own value changes nothing. */
  lemma PutSame(d: Dict, k: string)
    requires d.Valid() && k in d.vals
    ensures Put(d, k, d.vals[k]) == d
  {
    assert d.vals[k := d.vals[k]] == d.vals;
  }

  /** `d[k] = v` then `d[k] += s` is `d[k] = v + s`. */
  lemma PutAppend(d: Dict, k: string, v: string, s: string)
    requires d.Valid()
    ensures Append(Put(d, k, v), k, s) == Put(d, k, v + s)
  {
    assert d.vals[k := v][k := v + s] == d.vals[k := v + s];
  }

  /** One assignment `d[key] = value`. */
  datatype Record = Record(key: string, value: string)

  function KeysOf(rs: seq<Record>): seq<string> {
    seq(|rs|, i requires 0 <= i < |rs| => rs[i].key)
  }

  /** Keeps the first occurrence of each string, in order. */
  function FirstOccurrences(s: seq<string>): (r: seq<string>)
    ensures forall i, j :: 0 <= i < j < |r| ==> r[i] != r[j]
    ensures forall x :: x in r <==> x in s
    ensures |r| <= |s|
  {
    if s == [] then []
    else
      var p := FirstOccurrences(s[..|s| - 1]);
      assert forall x :: x in s <==> x in s[..|s| - 1] || x == s[|s| - 1] by {
        assert s == s[..|s| - 1] + [s[|s| - 1]];
      }
      if s[|s| - 1] in p then p else p + [s[|s| - 1]]
  }

  /** Without repeats nothing is dropped. */
  lemma {:induction false} FirstOccurrencesDistinct(s: seq<string>)
    requires forall i, j :: 0 <= i < j < |s| ==> s[i] != s[j]
    ensures FirstOccurrences(s) == s
  {
    if s != [] {
      var init := s[..|s| - 1];
      FirstOccurrencesDistinct(init);
      assert s[|s| - 1] !in init by {
        forall i | 0 <= i < |init| ensures init[i] != s[|s| - 1] { assert init[i] == s[i]; }
      }
      assert s == init + [s[|s| - 1]];
    }
  }

  /** A repeat is dropped: there are fewer first occurrences than elements. */
  lemma {:induction false} FirstOccurrencesRepeat(s: seq<string>, i: nat, j: nat)
    requires i < j < |s| && s[i] == s[j]
    ensures |FirstOccurrences(s)| < |s|
  {
    var init := s[..|s| - 1];
    if j == |s| - 1 {
      assert init[i] == s[j];
    } else {
      assert init[i] == s[i] && init[j] == s[j];
      FirstOccurrencesRepeat(init, i, j);
    }
  }

  /** The dictionary built from `{}` by the assignments, in order. */
  function Assign(rs: seq<Record>): (d: Dict)
    ensures d.Valid()
  {
    if rs == [] then Empty()
    else Put(Assign(rs[..|rs| - 1]), rs[|rs| - 1].key, rs[|rs| - 1].value)
  }

  /** One more assignment is one more `Put`. */
  lemma AssignSnoc(rs: seq<Record>, r: Record)
    ensures Assign(rs + [r]) == Put(Assign(rs), r.key, r.value)
  {
    assert (rs + [r])[..|rs|] == rs;
  }

  /** The keys are the distinct assigned keys, in order of first assignment. */
  lemma {:induction false} AssignKeys(rs: seq<Record>)
    ensures Assign(rs).keys == FirstOccurrences(KeysOf(rs))
  {
    if rs != [] {
      var init := rs[..|rs| - 1];
      AssignKeys(init);
      var ks := KeysOf(rs);
      assert ks[..|ks| - 1] == KeysOf(init);
    }
  }

  /** A key holds the value of its LAST assignment. */
  lemma {:induction false} AssignLastWins(rs: seq<Record>, i: nat)
    requires i < |rs|
    requires forall j :: i < j < |rs| ==> rs[j].key != rs[i].key
    ensures rs[i].key in Assign(rs).vals && Assign(rs).vals[rs[i].key] == rs[i].value
  {
    if i < |rs| - 1 {
      var init := rs[..|rs| - 1];
      assert init[i] == rs[i];
      AssignLastWins(init, i);
    }
  }

  /** Every key and value comes from one of the assignments. */
  lemma {:induction false} AssignValues(rs: seq<Record>, k: string)
    requires k in Assign(rs).vals
    ensures exists i :: 0 <= i < |rs| && rs[i].key == k && Assign(rs).vals[k] == rs[i].value
  {
    var init := rs[..|rs| - 1];
    if k != rs[|rs| - 1].key {
      AssignValues(init, k);
      var i :| 0 <= i < |init| && init[i].key == k && Assign(init).vals[k] == init[i].value;
      assert rs[i] == init[i];
    }
  }

  /** Later assignments only append keys: the keys after the first `n`
      assignments are a prefix of the final keys. */
  lemma {:induction false} AssignKeysGrow(rs: seq<Record>, n: nat)
    requires n <= |rs|
    ensures |Assign(rs[..n]).keys| <= |Assign(rs).keys|
    ensures Assign(rs).keys[..|Assign(rs[..n]).keys|] == Assign(rs[..n]).keys
  {
    if n == |rs| {
      assert rs[..n] == rs;
    } else {
      var init := rs[..|rs| - 1];
      assert init[..n] == rs[..n];
      AssignKeysGrow(init, n);
      var small := Assign(rs[..n]).keys;
      var a := Assign(init).keys;
      var t := rs[|rs| - 1].key;
      assert Assign(rs).keys == a || Assign(rs).keys == a + [t] by {
        assert Assign(rs) == Put(Assign(init), t, rs[|rs| - 1].value);
      }
      assert |small| <= |a| && a[..|small|] == small;
      assert (a + [t])[..|small|] == a[..|small|];
    }
  }

  /** The key of assignment `i` is among the keys after the first `i + 1`
      assignments, and they are a prefix of the final keys: a key keeps the
      place its first assignment gave it. */
  lemma AssignKeyPlace(rs: seq<Record>, i: nat)
    requires i < |rs|
    ensures var early := Assign(rs[..i + 1]).keys;
      rs[i].key in early && |early| <= |Assign(rs).keys| && Assign(rs).keys[..|early|] == early
  {
    var early := Assign(rs[..i + 1]).keys;
    assert |early| <= |Assign(rs).keys| && Assign(rs).keys[..|early|] == early by {
      AssignKeysGrow(rs, i + 1);
    }
    assert rs[i].key in early by {
      var pre := rs[..i];
      assert rs[..i + 1] == pre + [rs[i]];
      AssignSnoc(pre, rs[i]);
      PutHasKey(Assign(pre), rs[i].key, rs[i].value);
    }
  }

  lemma PutHasKey(d: Dict, k: string, v: string)
    requires d.Valid()
    ensures k in Put(d, k, v).keys
  {
    if k in d.vals {
      assert k in d.keys;
    }
  }

  /** With distinct keys, the dictionary lists them in assignment order and
      each holds its assigned value. */
  lemma AssignDistinct(rs: seq<Record>)
    requires forall i, j :: 0 <= i < j < |rs| ==> rs[i].key != rs[j].key
    ensures Assign(rs).keys == KeysOf(rs)
    ensures forall i :: 0 <= i < |rs| ==> rs[i].key in Assign(rs).vals && Assign(rs).vals[rs[i].key] == rs[i].value
  {
    AssignKeys(rs);
    FirstOccurrencesDistinct(KeysOf(rs));
    forall i | 0 <= i < |rs| ensures rs[i].key in Assign(rs).vals && Assign(rs).vals[rs[i].key] == rs[i].value {
      AssignLastWins(rs, i);
    }
  }
}
