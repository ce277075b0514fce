/**
 The transient metric sample as values: the randomized rounding that `add`
 performs, the pending-expiry queue, and what `addAndExpire` and `poll` do
 to the pair (store, queue). The classes in module MetricSamples are proved
 against these functions; the lemmas here state what the functions promise.
 */
module Sampling {
  import opened AggregateStore

  const Int64Min: int := -0x8000_0000_0000_0000
  const Int64Max: int := 0x7fff_ffff_ffff_ffff

  /** A pending expiry: at `expiration`, add `delta` (the negated applied sample) to `key`. */
  datatype Pending<K> = Pending(expiration: int, key: K, delta: int)

  /** The state a transient sample owns: the store and the FIFO expiry queue. */
  datatype Sampler<K> = Sampler(sample: map<K, int>, queue: seq<Pending<K>>)

  function Abs(x: int): nat
  {
    if x < 0 then -x else x
  }

  /** The chance that a sub-threshold magnitude `mag` is kept: `mag / unit`. */
  function KeepChance(mag: int, unit: int): real
    requires unit > 0
  {
    mag as real / unit as real
  }

  /**
   `roll(mag)`: a uniform draw from [0, 1), supplied as `draw`, falls below
   `mag / unit`. The draw is exact here; `roll` at flow/MetricSample.h:48 divides in `double`.
   */
  function Roll(draw: real, mag: int, unit: int): (kept: bool)
    requires 0.0 <= draw < 1.0
    requires unit > 0
    ensures mag <= 0 ==> !kept
    ensures mag >= unit ==> kept
  {
    draw < KeepChance(mag, unit)
  }

  /**
   The delta `add` applies to the store for `metric`, given the draw that
   `roll` would see: 0 for 0; `metric` itself at or above the unit;
   otherwise 0 or the unit with the sign of `metric`, as `roll` decides.
   */
  function Applied(metric: int, unit: int, draw: real): (x: int)
    requires 0.0 <= draw < 1.0
    ensures metric == 0 ==> x == 0
    ensures Abs(metric) >= unit ==> x == metric
    ensures 0 < Abs(metric) < unit ==> (x != 0 <==> Roll(draw, Abs(metric), unit))
    ensures 0 < Abs(metric) < unit && x != 0 ==> x == (if metric < 0 then -unit else unit)
    ensures x == 0 || (x < 0 <==> metric < 0)
    ensures x == 0 || Abs(x) >= Abs(metric)
  {
    if metric == 0 then 0
    else
      var mag := Abs(metric);
      if mag < unit then
        if !Roll(draw, mag, unit) then 0
        else if metric < 0 then -unit else unit
      else metric
  }

  /**
   Randomized rounding keeps the expected applied delta equal to `metric`:
   the draws that keep a small update form [0, p) with p = |metric| / unit,
   every kept draw applies the same value, and p times that value is `metric`.
   */
  lemma RoundingIsUnbiased(metric: int, unit: int)
    requires 0 < Abs(metric) < unit
    ensures 0.0 < KeepChance(Abs(metric), unit) < 1.0
    ensures forall draw :: 0.0 <= draw < 1.0 ==>
      (Applied(metric, unit, draw) != 0 <==> draw < KeepChance(Abs(metric), unit))
    ensures forall draw :: 0.0 <= draw < KeepChance(Abs(metric), unit) ==>
      KeepChance(Abs(metric), unit) * Applied(metric, unit, draw) as real == metric as real
  {
  }

  /** Sum of the queued deltas for `k`. */
  function DeltaSum<K(==, !new)>(q: seq<Pending<K>>, k: K): int
  {
    if q == [] then 0
    else (if q[0].key == k then q[0].delta else 0) + DeltaSum(q[1..], k)
  }

  lemma {:induction false} DeltaSumAppend<K(!new)>(q: seq<Pending<K>>, e: Pending<K>, k: K)
    ensures DeltaSum(q + [e], k) == DeltaSum(q, k) + (if e.key == k then e.delta else 0)
  {
    if q == [] {
      assert [e][1..] == [];
    } else {
      assert (q + [e])[1..] == q[1..] + [e];
      DeltaSumAppend(q[1..], e, k);
    }
  }

  lemma {:induction false} DeltaSumSplit<K(!new)>(q: seq<Pending<K>>, n: nat, k: K)
    requires n <= |q|
    ensures DeltaSum(q, k) == DeltaSum(q[..n], k) + DeltaSum(q[n..], k)
  {
    if n > 0 {
      DeltaSumSplit(q[1..], n - 1, k);
      assert q[..n][1..] == q[1..][..n - 1];
      assert q[1..][n - 1..] == q[n..];
    }
  }

  /** Every queued delta is nonzero, so the `ASSERT(delta != 0)` of `poll` holds. */
  ghost predicate NonZeroDeltas<K(!new)>(q: seq<Pending<K>>)
  {
    forall i :: 0 <= i < |q| ==> q[i].delta != 0
  }

  /** Each key's stored value is the negated sum of its queued reversals. */
  ghost predicate Balanced<K(!new)>(m: map<K, int>, q: seq<Pending<K>>)
  {
    forall k :: Lookup(m, k) == -DeltaSum(q, k)
  }

  /** The invariant of a transient sample that only `addAndExpire` and `poll` change. */
  ghost predicate Consistent<K(!new)>(s: Sampler<K>)
  {
    NoZeroEntries(s.sample) && NonZeroDeltas(s.queue) && Balanced(s.sample, s.queue)
  }

  /** The state after `addAndExpire(key, metric, expiration)`, queueing the argument key. */
  function AddAndExpireSpec<K(==, !new)>(s: Sampler<K>, key: K, metric: int, unit: int, draw: real, expiration: int): Sampler<K>
    requires 0.0 <= draw < 1.0
  {
    var x := Applied(metric, unit, draw);
    if x == 0 then s
    else Sampler(AddMetric(s.sample, key, x), s.queue + [Pending(expiration, key, -x)])
  }

  /** The store after applying the deltas of `es` in order. */
  function ApplyAll<K(==, !new)>(m: map<K, int>, es: seq<Pending<K>>): map<K, int>
  {
    if es == [] then m
    else
      var last := es[|es| - 1];
      AddMetric(ApplyAll(m, es[..|es| - 1]), last.key, last.delta)
  }

  lemma {:induction false} ApplyAllLookup<K(!new)>(m: map<K, int>, es: seq<Pending<K>>, k: K)
    ensures Lookup(ApplyAll(m, es), k) == Lookup(m, k) + DeltaSum(es, k)
  {
    if es != [] {
      var init, last := es[..|es| - 1], es[|es| - 1];
      ApplyAllLookup(m, init, k);
      DeltaSumAppend(init, last, k);
      assert init + [last] == es;
    }
  }

  lemma {:induction false} ApplyAllKeepsNoZeroEntries<K(!new)>(m: map<K, int>, es: seq<Pending<K>>)
    requires NoZeroEntries(m)
    ensures NoZeroEntries(ApplyAll(m, es))
  {
    if es != [] {
      ApplyAllKeepsNoZeroEntries(m, es[..|es| - 1]);
    }
  }

  /** The length of the longest prefix of `q` whose expirations are at most `now`. */
  function ExpiredCount<K(==, !new)>(q: seq<Pending<K>>, now: int): (n: nat)
    ensures n <= |q|
    ensures forall i :: 0 <= i < n ==> q[i].expiration <= now
    ensures n < |q| ==> q[n].expiration > now
  {
    if q == [] || q[0].expiration > now then 0
    else 1 + ExpiredCount(q[1..], now)
  }

  /** The state after `poll()` at time `now`. */
  function PollSpec<K(==, !new)>(s: Sampler<K>, now: int): Sampler<K>
  {
    var n := ExpiredCount(s.queue, now);
    Sampler(ApplyAll(s.sample, s.queue[..n]), s.queue[n..])
  }

  /** `addAndExpire` keeps the invariant: no zero entries, no zero deltas, balance. */
  lemma AddAndExpirePreservesConsistency<K(!new)>(s: Sampler<K>, key: K, metric: int, unit: int, draw: real, expiration: int)
    requires 0.0 <= draw < 1.0
    requires Consistent(s)
    ensures Consistent(AddAndExpireSpec(s, key, metric, unit, draw, expiration))
  {
    var x := Applied(metric, unit, draw);
    if x != 0 {
      var r := AddAndExpireSpec(s, key, metric, unit, draw, expiration);
      forall k ensures Lookup(r.sample, k) == -DeltaSum(r.queue, k) {
        DeltaSumAppend(s.queue, Pending(expiration, key, -x), k);
      }
    }
  }

  /**
   `addAndExpire` changes only `key`, by exactly the applied delta, and
   appends one entry carrying `-x` at the back of the queue iff `x` is nonzero.
   */
  lemma AddAndExpireEffect<K(!new)>(s: Sampler<K>, key: K, metric: int, unit: int, draw: real, expiration: int)
    requires 0.0 <= draw < 1.0
    ensures var x := Applied(metric, unit, draw);
      var r := AddAndExpireSpec(s, key, metric, unit, draw, expiration);
      && Lookup(r.sample, key) == Lookup(s.sample, key) + x
      && (forall j :: j != key ==> Lookup(r.sample, j) == Lookup(s.sample, j))
      && (x != 0 <==> |r.queue| == |s.queue| + 1)
      && (x == 0 ==> r.queue == s.queue)
      && (x != 0 ==> r.queue[..|s.queue|] == s.queue && r.queue[|s.queue|] == Pending(expiration, key, -x))
  {
  }

  /** `poll` keeps the invariant. */
  lemma PollPreservesConsistency<K(!new)>(s: Sampler<K>, now: int)
    requires Consistent(s)
    ensures Consistent(PollSpec(s, now))
  {
    var n := ExpiredCount(s.queue, now);
    var r := PollSpec(s, now);
    ApplyAllKeepsNoZeroEntries(s.sample, s.queue[..n]);
    forall k ensures Lookup(r.sample, k) == -DeltaSum(r.queue, k) {
      ApplyAllLookup(s.sample, s.queue[..n], k);
      DeltaSumSplit(s.queue, n, k);
    }
  }

  /**
   `poll` removes exactly the longest expired prefix: the removed entries all
   have expired, the rest keep their order, and the new front has not expired.
   */
  lemma PollRemovesExpiredPrefix<K(!new)>(s: Sampler<K>, now: int)
    ensures var r := PollSpec(s, now);
      && |r.queue| <= |s.queue|
      && s.queue == s.queue[..|s.queue| - |r.queue|] + r.queue
      && (forall i :: 0 <= i < |s.queue| - |r.queue| ==> s.queue[i].expiration <= now)
      && (r.queue == [] || r.queue[0].expiration > now)
  {
  }

  /** Expirations in the order they were queued never decrease (a caller's duty). */
  ghost predicate ExpirationsSorted<K(!new)>(q: seq<Pending<K>>)
  {
    forall i, j :: 0 <= i < j < |q| ==> q[i].expiration <= q[j].expiration
  }

  /** When the caller kept expirations sorted, `poll` leaves no expired entry behind. */
  lemma SortedPollLeavesNothingExpired<K(!new)>(s: Sampler<K>, now: int)
    requires ExpirationsSorted(s.queue)
    ensures forall e :: e in PollSpec(s, now).queue ==> e.expiration > now
  {
  }

  /** Appending an expiration no earlier than every queued one keeps the queue sorted. */
  lemma AddAndExpireKeepsSorted<K(!new)>(s: Sampler<K>, key: K, metric: int, unit: int, draw: real, expiration: int)
    requires 0.0 <= draw < 1.0
    requires ExpirationsSorted(s.queue)
    requires forall e :: e in s.queue ==> e.expiration <= expiration
    ensures ExpirationsSorted(AddAndExpireSpec(s, key, metric, unit, draw, expiration).queue)
  {
  }

  /**
   A `poll` at or after every queued expiration reverses every sample still
   held: the queue and the store both end up empty.
   */
  lemma PollAfterLastExpirationEmpties<K(!new)>(s: Sampler<K>, now: int)
    requires Consistent(s)
    requires forall e :: e in s.queue ==> e.expiration <= now
    ensures PollSpec(s, now) == Sampler(map[], [])
  {
    var r := PollSpec(s, now);
    PollPreservesConsistency(s, now);
    assert r.queue == [];
    forall k ensures k !in r.sample {
      assert Lookup(r.sample, k) == -DeltaSum(r.queue, k);
    }
    assert r.sample == map[];
  }
}
