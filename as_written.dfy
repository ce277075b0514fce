/**
 `addAndExpire` exactly as flow/MetricSample.h:52-57 writes it: the key it
 queues is read back through the iterator that `find(key)` returns after
 `add`. When `add` has just brought the key's value to 0, `add` has also
 erased the entry, `find` returns `end()`, and the dereference at line 55 is
 undefined; `None` stands for that outcome.
 */
module AsWritten {
  import opened AggregateStore
  import opened Sampling

  datatype Option<T> = None | Some(value: T)

  /** `*sample.find(key)`: the stored key, or `None` for `end()`. */
  function FindKey<K(==)>(m: map<K, int>, key: K): (r: Option<K>)
    ensures r.Some? <==> key in m
    ensures r.Some? ==> r.value == key
  {
    if key in m then Some(key) else None
  }

  /**
   `addAndExpire` as written. The line-55 dereference is undefined exactly
   when the sample is kept and cancels the key's stored value; otherwise the
   code as written reaches the state the corrected `AddAndExpireSpec` gives.
   */
  function AddAndExpireAsWritten<K(==, !new)>(s: Sampler<K>, key: K, metric: int, unit: int, draw: real, expiration: int): (r: Option<Sampler<K>>)
    requires 0.0 <= draw < 1.0
    ensures var x := Applied(metric, unit, draw);
      (r.None? <==> x != 0 && Lookup(s.sample, key) + x == 0)
    ensures r.Some? ==> r.value == AddAndExpireSpec(s, key, metric, unit, draw, expiration)
  {
    var x := Applied(metric, unit, draw);
    if x == 0 then Some(s)
    else
      var m := AddMetric(s.sample, key, x);
      match FindKey(m, key)
      case None => None
      case Some(k) => Some(Sampler(m, s.queue + [Pending(expiration, k, -x)]))
  }

  /**
   A reachable input: with unit 1, `addAndExpire(7, 100, 10)` on an empty
   sample, then `addAndExpire(7, -100, 20)`. The second call's `add` erases
   key 7, and line 55 dereferences `end()`; the corrected model queues 7.
   */
  lemma CancellingAddDereferencesEnd()
    ensures var s1 := AddAndExpireSpec(Sampler(map[], []), 7, 100, 1, 0.0, 10);
      && Consistent(s1)
      && AddAndExpireAsWritten(s1, 7, -100, 1, 0.0, 20) == None
      && AddAndExpireSpec(s1, 7, -100, 1, 0.0, 20) == Sampler(map[], [Pending(10, 7, -100), Pending(20, 7, 100)])
  {
  }
}
