/**
 The two samplers as objects whose state changes in place. `MetricSample`
 owns the store; `TransientMetricSample` extends it with randomized rounding
 and the FIFO expiry queue. The base part is held as the constant field
 `base`, so a transient sample changes `base.sample` and its own `queue`.
 */
module MetricSamples {
  import opened AggregateStore
  import opened Sampling

  class MetricSample<K(==, !new)> {
    var sample: map<K, int>
    const metricUnitsPerSample: int

    constructor (metricUnitsPerSample: int)
      ensures sample == map[] && this.metricUnitsPerSample == metricUnitsPerSample
    {
      sample := map[];
      this.metricUnitsPerSample := metricUnitsPerSample;
    }

    /** The accumulated value of `key`, or 0 when the store has no entry for it. */
    method GetMetric(key: K) returns (v: int)
      ensures key !in sample ==> v == 0
      ensures key in sample ==> v == sample[key]
    {
      if key !in sample {
        return 0;
      }
      return sample[key];
    }
  }

  class TransientMetricSample<K(==, !new)> {
    const base: MetricSample<K>
    var queue: seq<Pending<K>>

    /** The store and the queue as one value. */
    ghost function State(): Sampler<K>
      reads this, base
    {
      Sampler(base.sample, queue)
    }

    /** No zero entries, no zero queued deltas, and every stored value balanced by the queue. */
    ghost predicate Valid()
      reads this, base
    {
      Consistent(State())
    }

    constructor (metricUnitsPerSample: int)
      ensures Valid() && fresh(base)
      ensures base.metricUnitsPerSample == metricUnitsPerSample
      ensures base.sample == map[] && queue == []
    {
      base := new MetricSample(metricUnitsPerSample);
      queue := [];
    }

    /**
     The private `add`: rounds `metric` as `roll` decides on `draw` and applies
     the result to the store. It leaves the queue alone, so on its own it does
     not keep the balance between store and queue.
     */
    method Add(key: K, metric: int, draw: real) returns (x: int)
      requires Int64Min < metric <= Int64Max
      requires 0.0 <= draw < 1.0
      modifies base
      ensures x == Applied(metric, base.metricUnitsPerSample, draw)
      ensures x == 0 ==> base.sample == old(base.sample)
      ensures x != 0 ==> base.sample == AddMetric(old(base.sample), key, x)
    {
      if metric == 0 {
        return 0;
      }
      var mag := if metric < 0 then -metric else metric;
      x := metric;
      if mag < base.metricUnitsPerSample {
        if !Roll(draw, mag, base.metricUnitsPerSample) {
          return 0;
        }
        x := if metric < 0 then -base.metricUnitsPerSample else base.metricUnitsPerSample;
      }
      base.sample := AddMetric(base.sample, key, x);
    }

    /**
     Applies `metric` to `key` through `Add`; when the applied amount `x` is
     nonzero, queues its reversal `-x` for `key` at `expiration`.
     */
    method AddAndExpire(key: K, metric: int, draw: real, expiration: int) returns (x: int)
      requires Valid()
      requires Int64Min < metric <= Int64Max
      requires 0.0 <= draw < 1.0
      modifies this, base
      ensures Valid()
      ensures x == Applied(metric, base.metricUnitsPerSample, draw)
      ensures State() == AddAndExpireSpec(old(State()), key, metric, base.metricUnitsPerSample, draw, expiration)
    {
      x := Add(key, metric, draw);
      if x != 0 {
        queue := queue + [Pending(expiration, key, -x)];
      }
      AddAndExpirePreservesConsistency(old(State()), key, metric, base.metricUnitsPerSample, draw, expiration);
    }

    /**
     Pops every front entry whose expiration is at most `now` and applies its
     reversal to the store, erasing an entry that reaches 0.
     */
    method Poll(now: int)
      requires Valid()
      modifies this, base
      ensures Valid()
      ensures State() == PollSpec(old(State()), now)
      ensures queue == [] || queue[0].expiration > now
    {
      ghost var s0 := State();
      ghost var i := 0;
      while |queue| > 0 && queue[0].expiration <= now
        invariant 0 <= i <= |s0.queue|
        invariant queue == s0.queue[i..]
        invariant base.sample == ApplyAll(s0.sample, s0.queue[..i])
        invariant forall j :: 0 <= j < i ==> s0.queue[j].expiration <= now
        decreases |queue|
      {
        var key := queue[0].key;
        var delta := queue[0].delta;
        assert delta != 0;
        base.sample := AddMetric(base.sample, key, delta);
        queue := queue[1..];
        assert s0.queue[..i + 1][..i] == s0.queue[..i];
        i := i + 1;
      }
      assert i == ExpiredCount(s0.queue, now);
      PollPreservesConsistency(s0, now);
      PollRemovesExpiredPrefix(s0, now);
    }
  }

  /**
   Two samples with unit 1 expiring at 10 and 20: a poll at 15 reverses only
   the first, a poll at 25 the second as well.
   */
  method FifoScenario() returns (a15: int, b15: int, a25: int, b25: int)
    ensures a15 == 0 && b15 == 100
    ensures a25 == 0 && b25 == 0
  {
    var s := new TransientMetricSample<string>(1);
    var x := s.AddAndExpire("A", 100, 0.0, 10);
    assert s.base.sample == map["A" := 100] && s.queue == [Pending(10, "A", -100)];
    var y := s.AddAndExpire("B", 100, 0.0, 20);
    assert s.queue == [Pending(10, "A", -100), Pending(20, "B", -100)];
    assert ExpiredCount(s.queue, 15) == 1;
    s.Poll(15);
    assert s.queue == [Pending(20, "B", -100)];
    assert Lookup(s.base.sample, "A") == 0;
    assert Lookup(s.base.sample, "B") == 100;
    a15 := s.base.GetMetric("A");
    b15 := s.base.GetMetric("B");
    s.Poll(25);
    a25 := s.base.GetMetric("A");
    b25 := s.base.GetMetric("B");
  }

  /** With unit 1000, an update of 1 on a draw at or above 1/1000 is dropped: nothing is stored or queued. */
  method DiscardScenario(draw: real) returns (x: int, v: int, queued: nat)
    requires 0.001 <= draw < 1.0
    ensures x == 0 && v == 0 && queued == 0
  {
    var s := new TransientMetricSample<string>(1000);
    x := s.AddAndExpire("k", 1, draw, 10);
    v := s.base.GetMetric("k");
    queued := |s.queue|;
  }
}
