/**
 * Iteration order of a `BTreeMap<CellID, i32>`: ascending keys.
 */
module OrderedMaps {
  /**
   * `(key, value)` entries in strictly ascending key order: the order in which a `BTreeMap`
   * yields them.
   */
  predicate Ascending(entries: seq<(int, int)>)
  {
    forall i, j :: 0 <= i < j < |entries| ==> entries[i].0 < entries[j].0
  }

  /** Strictly ascending: the order in which a `BTreeMap` yields its keys. */
  predicate StrictlyAscending(s: seq<int>)
  {
    forall i, j :: 0 <= i < j < |s| ==> s[i] < s[j]
  }

  /** The keys of a sequence of entries, in order. */
  function KeysOf(entries: seq<(int, int)>): (r: seq<int>)
    ensures |r| == |entries|
    ensures forall i :: 0 <= i < |r| ==> r[i] == entries[i].0
  {
    if entries == [] then [] else [entries[0].0] + KeysOf(entries[1..])
  }

  /** Entries ascend exactly when their keys, read in order, ascend strictly. */
  lemma AscendingIffKeysAscending(entries: seq<(int, int)>)
    ensures Ascending(entries) <==> StrictlyAscending(KeysOf(entries))
  {
    var ks := KeysOf(entries);
    assert forall i :: 0 <= i < |entries| ==> ks[i] == entries[i].0;
  }

  lemma HasElement(s: set<int>)
    requires s != {}
    ensures exists x :: x in s
  {
    assert (forall x :: x !in s) ==> s == {};
  }

  lemma {:induction false} MinKeyExists(s: set<int>)
    requires s != {}
    ensures exists k :: k in s && forall x :: x in s ==> k <= x
    decreases |s|
  {
    HasElement(s);
    var y :| y in s;
    var rest := s - {y};
    if rest == {} {
      forall x | x in s
        ensures y <= x
      {
        assert x !in rest;
      }
      assert y in s;
    } else {
      assert |rest| == |s| - 1;
      MinKeyExists(rest);
      var m :| m in rest && forall x :: x in rest ==> m <= x;
      var k := if y < m then y else m;
      forall x | x in s
        ensures k <= x
      {
        if x != y {
          assert x in rest;
        }
      }
      assert k in s;
    }
  }

  /** The smallest key of a non-empty key set. */
  function MinKey(s: set<int>): (k: int)
    requires s != {}
    ensures k in s
    ensures forall x :: x in s ==> k <= x
  {
    MinKeyExists(s);
    var k :| k in s && forall x :: x in s ==> k <= x;
    k
  }

  /** The keys of a map in iteration order. */
  function SortedKeys(s: set<int>): (r: seq<int>)
    ensures |r| == |s|
    ensures StrictlyAscending(r)
    ensures forall i :: 0 <= i < |r| ==> r[i] in s
    ensures forall x :: x in s ==> x in r
    decreases |s|
  {
    if s == {} then []
    else
      var k := MinKey(s);
      var rest := SortedKeys(s - {k});
      assert forall i :: 0 <= i < |rest| ==> k < rest[i];
      [k] + rest
  }

  /** Pairs each key of `ks` with its value in `m`. */
  function Pairs(m: map<int, int>, ks: seq<int>): (r: seq<(int, int)>)
    requires forall i :: 0 <= i < |ks| ==> ks[i] in m
    ensures |r| == |ks|
    ensures forall i :: 0 <= i < |r| ==> r[i] == (ks[i], m[ks[i]])
  {
    if ks == [] then [] else [(ks[0], m[ks[0]])] + Pairs(m, ks[1..])
  }

  /** The `(key, value)` pairs a `BTreeMap` iterates over, in ascending key order. */
  function Entries(m: map<int, int>): (r: seq<(int, int)>)
    ensures |r| == |m.Keys|
    ensures forall i :: 0 <= i < |r| ==> r[i].0 in m && r[i].1 == m[r[i].0]
    ensures Ascending(r)
    ensures forall k :: k in m ==> (k, m[k]) in r
  {
    var ks := SortedKeys(m.Keys);
    var r := Pairs(m, ks);
    forall k | k in m
      ensures (k, m[k]) in r
    {
      assert k in ks;
      var i :| 0 <= i < |ks| && ks[i] == k;
      assert r[i] == (k, m[k]);
    }
    r
  }
}
