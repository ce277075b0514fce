/**
 The aggregate store behind a metric sample: a map from keys to signed
 accumulated values. FoundationDB's `IndexedSet`, an ordered, augmented
 container, is modelled only through the three operations the sampler uses:
 find, addMetric and erase.
 */
module AggregateStore {

  /** The value the store holds for `k`, or 0 when `k` has no entry. */
  function Lookup<K(!new)>(m: map<K, int>, k: K): int
  {
    if k in m then m[k] else 0
  }

  /** The store's invariant: an entry whose value is 0 is erased. */
  ghost predicate NoZeroEntries<K(!new)>(m: map<K, int>)
  {
    forall k :: k in m ==> m[k] != 0
  }

  /**
   `addMetric(k, d)` followed by `erase(k)` when the new value is 0: the
   update pattern applied both when a sample is added and when it expires.
   */
  function AddMetric<K(!new)>(m: map<K, int>, k: K, d: int): (r: map<K, int>)
    ensures Lookup(r, k) == Lookup(m, k) + d
    ensures forall j :: j != k ==> Lookup(r, j) == Lookup(m, j)
    ensures k in r <==> Lookup(m, k) + d != 0
    ensures r.Keys - {k} == m.Keys - {k}
    ensures NoZeroEntries(m) ==> NoZeroEntries(r)
  {
    var v := Lookup(m, k) + d;
    if v == 0 then m - {k} else m[k := v]
  }
}
