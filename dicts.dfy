/**
 * Python dictionaries keep their keys in first-insertion order, and
 * assigning to an existing key leaves it where it is. A dictionary is
 * modelled as the sequence of its items in that order.
 */
module Dicts {
  import opened Wrappers

  type Dict<K, V> = seq<(K, V)>

  predicate DistinctKeys<K(==), V>(d: Dict<K, V>)
  {
    forall i, j :: 0 <= i < j < |d| ==> d[i].0 != d[j].0
  }

  /** The position of key `k`, if present. */
  function Find<K(==), V>(d: Dict<K, V>, k: K): (r: Option<nat>)
    ensures r.Some? ==> r.value < |d| && d[r.value].0 == k
    ensures r.None? <==> forall i :: 0 <= i < |d| ==> d[i].0 != k
  {
    if d == [] then None
    else if d[0].0 == k then Some(0)
    else match Find(d[1..], k)
      case None => None
      case Some(i) => Some(i + 1)
  }

  /** `d.get(k, default)`. */
  function Get<K(==), V>(d: Dict<K, V>, k: K, default: V): V
  {
    match Find(d, k)
    case Some(i) => d[i].1
    case None => default
  }

  /** `d[k] = v`: replaces the value in place when `k` is present, appends otherwise. */
  function Assign<K(==), V>(d: Dict<K, V>, k: K, v: V): (r: Dict<K, V>)
    ensures Find(d, k).Some? ==> |r| == |d| && r[Find(d, k).value] == (k, v)
    ensures Find(d, k).None? ==> r == d + [(k, v)]
    ensures forall i :: 0 <= i < |d| && d[i].0 != k ==> r[i] == d[i]
    ensures DistinctKeys(d) ==> DistinctKeys(r)
  {
    match Find(d, k)
    case Some(i) => d[i := (k, v)]
    case None => d + [(k, v)]
  }

  /** `d.values()`, in key insertion order. */
  function Values<K(==), V>(d: Dict<K, V>): seq<V>
  {
    seq(|d|, i requires 0 <= i < |d| => d[i].1)
  }
}
