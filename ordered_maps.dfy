/** Python's dict, which keeps its keys in insertion order, as a sequence of
    (key, value) pairs with distinct keys. */
module OrderedMaps {
  import opened Common

  function Keys<K, V>(m: seq<(K, V)>): (ks: seq<K>)
    ensures |ks| == |m| && forall i :: 0 <= i < |m| ==> ks[i] == m[i].0
  {
    if m == [] then [] else [m[0].0] + Keys(m[1..])
  }

  predicate DistinctKeys<K(==), V>(m: seq<(K, V)>)
  {
    forall i, j :: 0 <= i < j < |m| ==> m[i].0 != m[j].0
  }

  /** The position of key k, if present. */
  function IndexOf<K(==), V>(m: seq<(K, V)>, k: K): (r: Option<nat>)
    ensures r.None? <==> forall i :: 0 <= i < |m| ==> m[i].0 != k
    ensures r.Some? ==> r.value < |m| && m[r.value].0 == k
  {
    if m == [] then None
    else if m[0].0 == k then Some(0)
    else match IndexOf(m[1..], k)
      case None => None
      case Some(i) => Some(i + 1)
  }

  /** d[k]: the value stored under k, if any. */
  function Get<K(==), V>(m: seq<(K, V)>, k: K): Option<V>
  {
    match IndexOf(m, k)
    case None => None
    case Some(i) => Some(m[i].1)
  }

  /** d[k] = v: a new key goes at the end; an existing key keeps its place and
      takes the new value. */
  function Put<K(==), V>(m: seq<(K, V)>, k: K, v: V): seq<(K, V)>
  {
    match IndexOf(m, k)
    case None => m + [(k, v)]
    case Some(i) => m[i := (k, v)]
  }

  /** Put behaves as a dictionary assignment: afterwards k maps to v, every other
      key keeps its value, keys stay distinct, and a fresh key is appended. */
  lemma PutSemantics<K, V>(m: seq<(K, V)>, k: K, v: V, other: K)
    requires DistinctKeys(m)
    ensures DistinctKeys(Put(m, k, v))
    ensures Get(Put(m, k, v), k) == Some(v)
    ensures other != k ==> Get(Put(m, k, v), other) == Get(m, other)
    ensures Get(m, k).None? ==> Put(m, k, v) == m + [(k, v)]
  {
    var r := Put(m, k, v);
    match IndexOf(m, k)
    case None =>
      assert r == m + [(k, v)];
      assert DistinctKeys(r);
      IndexOfDistinct(r, k);
      assert r[|m|] == (k, v);
    case Some(i) =>
      assert r == m[i := (k, v)];
      assert DistinctKeys(r);
      IndexOfDistinct(r, k);
      assert r[i] == (k, v);
    IndexOfDistinct(r, other);
    IndexOfDistinct(m, other);
  }

  /** With distinct keys, the position of a key is the one index holding it. */
  lemma IndexOfDistinct<K, V>(m: seq<(K, V)>, k: K)
    requires DistinctKeys(m)
    ensures forall i :: 0 <= i < |m| && m[i].0 == k ==> IndexOf(m, k) == Some(i)
  {
  }

  /** d.update(pairs), and also a dict comprehension: the pairs put in order. */
  function Update<K(==), V>(m: seq<(K, V)>, pairs: seq<(K, V)>): seq<(K, V)>
    decreases |pairs|
  {
    if pairs == [] then m else Update(Put(m, pairs[0].0, pairs[0].1), pairs[1..])
  }

  /** Updating with pairs whose keys are new and distinct appends them in order. */
  lemma {:induction false} UpdateFresh<K, V>(m: seq<(K, V)>, pairs: seq<(K, V)>)
    requires DistinctKeys(m + pairs)
    ensures Update(m, pairs) == m + pairs
    decreases |pairs|
  {
    if pairs != [] {
      var k := pairs[0].0;
      assert forall i :: 0 <= i < |m| ==> m[i].0 == (m + pairs)[i].0;
      assert (m + pairs)[|m|].0 == k;
      assert IndexOf(m, k).None?;
      var m' := Put(m, k, pairs[0].1);
      assert m' == m + [pairs[0]];
      assert m' + pairs[1..] == m + pairs;
      UpdateFresh(m', pairs[1..]);
    }
  }

  /** Building a dict by inserting keys taken in order from a list of distinct
      names: updating with pairs keyed by the next names appends them. */
  lemma UpdateNext<K, V>(m: seq<(K, V)>, pairs: seq<(K, V)>, names: seq<K>)
    requires forall i, j :: 0 <= i < j < |names| ==> names[i] != names[j]
    requires |m| + |pairs| <= |names|
    requires Keys(m) == names[..|m|] && Keys(pairs) == names[|m|..|m| + |pairs|]
    ensures Update(m, pairs) == m + pairs
    ensures Keys(m + pairs) == names[..|m| + |pairs|]
  {
    var all := m + pairs;
    forall i | 0 <= i < |all|
      ensures all[i].0 == names[i]
    {
      if i < |m| {
        assert all[i].0 == Keys(m)[i];
      } else {
        assert all[i].0 == Keys(pairs)[i - |m|];
      }
    }
    assert Keys(all) == names[..|all|];
    DistinctRun(all, names, 0);
    UpdateFresh(m, pairs);
  }

  /** ... and putting the next name appends it. */
  lemma PutNext<K, V>(m: seq<(K, V)>, v: V, names: seq<K>)
    requires forall i, j :: 0 <= i < j < |names| ==> names[i] != names[j]
    requires |m| < |names| && Keys(m) == names[..|m|]
    ensures Put(m, names[|m|], v) == m + [(names[|m|], v)]
    ensures Keys(m + [(names[|m|], v)]) == names[..|m| + 1]
  {
    NextNotAKey(m, names);
    KeysSnoc(m, (names[|m|], v), names);
  }

  lemma NextNotAKey<K, V>(m: seq<(K, V)>, names: seq<K>)
    requires forall i, j :: 0 <= i < j < |names| ==> names[i] != names[j]
    requires |m| < |names| && Keys(m) == names[..|m|]
    ensures forall i :: 0 <= i < |m| ==> m[i].0 != names[|m|]
  {
    forall i | 0 <= i < |m|
      ensures m[i].0 != names[|m|]
    {
      assert m[i].0 == Keys(m)[i] == names[i];
    }
  }

  lemma KeysSnoc<K, V>(m: seq<(K, V)>, p: (K, V), names: seq<K>)
    requires |m| < |names| && Keys(m) == names[..|m|] && p.0 == names[|m|]
    ensures Keys(m + [p]) == names[..|m| + 1]
  {
    var all := m + [p];
    forall i | 0 <= i < |all|
      ensures Keys(all)[i] == names[i]
    {
      if i < |m| {
        assert all[i] == m[i];
        assert Keys(m)[i] == names[i];
      } else {
        assert all[i] == p;
      }
    }
    assert Keys(all) == names[..|all|];
  }

  /** Pairs keyed by a stretch of a list of distinct names have distinct keys. */
  lemma DistinctRun<K, V>(m: seq<(K, V)>, names: seq<K>, from: nat)
    requires forall i, j :: 0 <= i < j < |names| ==> names[i] != names[j]
    requires from + |m| <= |names| && Keys(m) == names[from..from + |m|]
    ensures DistinctKeys(m)
  {
    forall i, j | 0 <= i < j < |m|
      ensures m[i].0 != m[j].0
    {
      assert m[i].0 == names[from + i] && m[j].0 == names[from + j];
    }
  }
}
