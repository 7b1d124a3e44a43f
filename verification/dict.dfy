/**
  A Python `dict` as the search tree uses it: a list of key/value entries in
  insertion order with pairwise distinct keys. Assigning to a key already
  present replaces its value in place and keeps its position; a new key is
  appended. Iterating `values()` follows this order.
 */
module Dict {
  import opened Wrappers

  type Dict<K, V> = seq<(K, V)>

  /** The keys, in insertion order. */
  function Keys<K, V>(d: Dict<K, V>): (ks: seq<K>)
    ensures |ks| == |d|
    ensures forall i :: 0 <= i < |d| ==> ks[i] == d[i].0
  {
    seq(|d|, i requires 0 <= i < |d| => d[i].0)
  }

  /** The values, in insertion order: what `values()` enumerates. */
  function Values<K, V>(d: Dict<K, V>): (vs: seq<V>)
    ensures |vs| == |d|
    ensures forall i :: 0 <= i < |d| ==> vs[i] == d[i].1
  {
    seq(|d|, i requires 0 <= i < |d| => d[i].1)
  }

  /** No key occurs twice. */
  predicate DistinctKeys<K(==), V>(d: Dict<K, V>)
  {
    forall i, j :: 0 <= i < j < |d| ==> d[i].0 != d[j].0
  }

  /** The position of `k` at or after index `from`, if any. */
  function FindFrom<K(==), V>(d: Dict<K, V>, k: K, from: nat): (r: Option<nat>)
    requires from <= |d|
    ensures r.None? <==> forall j :: from <= j < |d| ==> d[j].0 != k
    ensures r.Some? ==> from <= r.value < |d| && d[r.value].0 == k
                        && forall j :: from <= j < r.value ==> d[j].0 != k
    decreases |d| - from
  {
    if from == |d| then None
    else if d[from].0 == k then Some(from)
    else FindFrom(d, k, from + 1)
  }

  /** `k in d` */
  predicate Contains<K(==), V>(d: Dict<K, V>, k: K)
  {
    k in Keys(d)
  }

  /** `d.get(k)`: the value stored under `k`, or None. */
  function Get<K(==), V>(d: Dict<K, V>, k: K): (r: Option<V>)
    ensures r.None? <==> !Contains(d, k)
    ensures r.Some? ==> exists i :: 0 <= i < |d| && d[i] == (k, r.value)
  {
    match FindFrom(d, k, 0)
    case None => None
    case Some(i) => Some(d[i].1)
  }

  /** `d[k] = v`. Afterwards `k` maps to `v`, every other entry keeps its
      value and position, and the dictionary grows by one entry exactly when
      `k` was absent. */
  function Put<K(==), V>(d: Dict<K, V>, k: K, v: V): (r: Dict<K, V>)
    ensures Contains(d, k) ==> Keys(r) == Keys(d)
    ensures !Contains(d, k) ==> Keys(r) == Keys(d) + [k]
    ensures forall i :: 0 <= i < |d| && d[i].0 != k ==> r[i] == d[i]
    ensures forall e :: e in r ==> e == (k, v) || e in d
    ensures DistinctKeys(d) ==> DistinctKeys(r) && Get(r, k) == Some(v)
  {
    match FindFrom(d, k, 0)
    case Some(i) => d[i := (k, v)]
    case None =>
      assert forall i :: 0 <= i < |d| ==> Keys(d)[i] != k;
      d + [(k, v)]
  }

  /** Assigning to a present key keeps the size and drops the value it held,
      when no other key holds that value. */
  lemma PutOverwrites<K, V>(d: Dict<K, V>, k: K, v: V)
    requires DistinctKeys(d) && Contains(d, k)
    requires forall i :: 0 <= i < |d| && d[i].1 == Get(d, k).value ==> d[i].0 == k
    requires Get(d, k).value != v
    ensures |Put(d, k, v)| == |d|
    ensures Get(d, k).value !in Values(Put(d, k, v))
  {
    var r := Put(d, k, v);
    var prev := Get(d, k).value;
    assert |Keys(r)| == |Keys(d)|;
    forall i | 0 <= i < |r|
      ensures r[i].1 != prev
    {
      if r[i].0 != k {
        assert r[i] == d[i];
      }
    }
  }
}
