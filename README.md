# MetricSample: a verified model

This project models FoundationDB's per-key metric sampler (`flow/MetricSample.h`).
Storage servers use it to estimate load per key without recording every update.

- `MetricSample<T>` keeps an aggregate store from keys to signed accumulated values.
  `getMetric(key)` returns the stored value, or 0 when the key has no entry.
- `TransientMetricSample<T>` extends it in two ways.
  - Randomized rounding: the private `add` applies a delta whose magnitude is at least
    `metricUnitsPerSample` exactly. A smaller nonzero delta becomes either 0 or
    `±metricUnitsPerSample`, as `roll` decides. An entry that reaches 0 is erased.
  - FIFO expiry: `addAndExpire` queues `(expiration, key, -applied)`. `poll` pops every
    front entry whose expiration has passed and applies its reversal to the store.

Layout:

- `aggregate_store.dfy` (module `AggregateStore`): the store as a `map<K, int>`.
  `AddMetric` is `addMetric` followed by `erase` when the value reaches 0.
- `sampling.dfy` (module `Sampling`): the specification as values.
  - `Roll` and `Applied` model the rounding decision.
  - `AddAndExpireSpec` and `PollSpec` give the state after each operation.
  - `Consistent` is the class invariant: no zero entries, no zero queued deltas, and the
    balance between store and queue.
  - The lemmas state what the operations promise.
- `metric_sample.dfy` (module `MetricSamples`): the two classes, with state changed in place.
  - `TransientMetricSample` holds its base part as the constant field `base`, because Dafny
    classes here have no inheritance.
  - `Poll` is the source's `while` loop. Its loop proves the `ASSERT(delta != 0)`.
  - Two client scenarios use only the methods' contracts.
- `as_written.dfy` (module `AsWritten`): `addAndExpire` exactly as written at line 55
  (see Findings).

Line 55 queues the key it reads back through `*sample.find(key)` after `add`. Wherever that
dereference is defined it yields `key` itself, but it is undefined when `add` has just erased the
entry. The classes queue the argument key, and `AsWritten` models the code as written.

Modelling choices:

- `g_random->random01()` is a parameter `draw` in [0, 1).
- `roll` compares `draw` with `mag / unit` in exact real arithmetic.
- `::now()` is the parameter `now` of `Poll`.
- Expiration times (`double`) are `int`.
- The `Deque` is a `seq`.

## Model

| member | source | states |
|---|---|---|
| `AggregateStore.AddMetric` | flow/MetricSample.h:87-88 | the key's value changes by exactly the delta, every other key keeps its value, the entry exists iff the new value is nonzero, and a store without zero entries stays so |
| `Sampling.Roll` | flow/MetricSample.h:47-49 | a magnitude of 0 is never kept; a magnitude at or above the unit is always kept |
| `Sampling.Applied` | flow/MetricSample.h:76-90 | 0 for 0; exactly `metric` when the magnitude is at least the unit, whatever the draw; below the unit, nonzero iff `roll` succeeds, and then `±unit` with the sign of `metric`; a nonzero result keeps the sign and never shrinks the magnitude |
| `Sampling.RoundingIsUnbiased` | flow/MetricSample.h:47-49 | for a nonzero `metric` of magnitude below the unit, the draws that keep the update are exactly `[0, p)` with `0 < p < 1`, and `p` times the applied value equals `metric`, so the expected applied delta is `metric` |
| `Sampling.ExpiredCount` | flow/MetricSample.h:61-62 | the longest prefix of the queue whose expirations are at most `now`: every entry before it has expired, and the entry after it has not |
| `Sampling.ApplyAllLookup` | flow/MetricSample.h:61-72 | applying queued deltas in order changes each key by the sum of that key's deltas |
| `Sampling.ApplyAllKeepsNoZeroEntries` | flow/MetricSample.h:68-69 | applying queued deltas with erase-at-zero never leaves a zero entry |
| `Sampling.AddAndExpirePreservesConsistency` | flow/MetricSample.h:52-57 | `addAndExpire` keeps the invariant: no zero entries, no zero queued deltas, and each key's value equals minus the sum of its queued deltas |
| `Sampling.AddAndExpireEffect` | flow/MetricSample.h:52-56 | only `key` changes, by exactly the applied `x`; the queue grows by one entry iff `x != 0`; that entry is `(expiration, key, -x)`, appended at the back after the old queue |
| `Sampling.PollPreservesConsistency` | flow/MetricSample.h:59-73 | `poll` keeps the same invariant, so no zero entries remain after it |
| `Sampling.PollRemovesExpiredPrefix` | flow/MetricSample.h:59-73 | `poll` removes a prefix whose entries have all expired; the rest keeps its order; the new front, if any, expires after `now` |
| `Sampling.SortedPollLeavesNothingExpired` | flow/MetricSample.h:59-73 | when expirations were queued in non-decreasing order, no expired entry is left after `poll` |
| `Sampling.AddAndExpireKeepsSorted` | flow/MetricSample.h:52-56 | an expiration no earlier than every queued one keeps the queue sorted |
| `Sampling.PollAfterLastExpirationEmpties` | flow/MetricSample.h:59-73 | a `poll` at or after every queued expiration leaves both the queue and the store empty |
| `MetricSamples.MetricSample.constructor` | flow/MetricSample.h:30 | an empty store with the given unit |
| `MetricSamples.MetricSample.GetMetric` | flow/MetricSample.h:32-38 | the stored value for a present key, 0 for an absent one; no state changes |
| `MetricSamples.TransientMetricSample.constructor` | flow/MetricSample.h:45 | an empty store and queue that satisfy the invariant |
| `MetricSamples.TransientMetricSample.Add` | flow/MetricSample.h:76-91 | returns `Applied(metric, unit, draw)`; the store is unchanged when it returns 0 and otherwise updated by `AddMetric`; the queue is untouched |
| `MetricSamples.TransientMetricSample.AddAndExpire` | flow/MetricSample.h:52-57 | returns the applied delta, moves the state as `AddAndExpireSpec` says, and keeps the invariant |
| `MetricSamples.TransientMetricSample.Poll` | flow/MetricSample.h:59-73 | moves the state as `PollSpec` says and keeps the invariant; afterwards the queue is empty or its front expires after `now`; each popped delta is nonzero |
| `MetricSamples.FifoScenario` | flow/MetricSample.h:52-73 | with unit 1, samples of 100 for A (expiring at 10) and B (at 20): a poll at 15 reverses only A, and a poll at 25 reverses B too |
| `MetricSamples.DiscardScenario` | flow/MetricSample.h:80-82 | with unit 1000, an update of 1 on a draw of at least 1/1000 returns 0, creates no entry and queues nothing |
| `AsWritten.FindKey` | flow/MetricSample.h:55 | `*find(key)` yields the key iff the store has an entry for it, and `end()` otherwise |
| `AsWritten.AddAndExpireAsWritten` | flow/MetricSample.h:52-57 | `addAndExpire` as written: the line-55 dereference is undefined exactly when the kept sample brings the key's value to 0; otherwise the code as written gives the corrected state |
| `AsWritten.CancellingAddDereferencesEnd` | flow/MetricSample.h:55 | from the state after `addAndExpire(7, 100, 10)` with unit 1, `addAndExpire(7, -100, 20)` dereferences `end()` as written; the corrected model queues key 7 |

## Left out

- `IndexedSet`, the augmented balanced tree behind the store, is a `map`. The model keeps only find, addMetric and erase.
- `g_random` and `::now()` are global sources. The model takes their values as parameters.
- The floating-point division in `roll` is exact real division. Rounding of the threshold is not modelled.
- Statistical unbiasedness over repeated calls is probabilistic. The model proves only the single-draw form in `Sampling.RoundingIsUnbiased`.
- Expiration times are integers, not `double`.
- `AggregateStore.AddMetric`: accumulated values are unbounded integers, so 64-bit overflow of a sum is not modelled.
- `MetricSamples.TransientMetricSample.Add`: requires only `metric > INT64_MIN`, because the negation at line 78 overflows otherwise. Overflow of the stored sum is not excluded.
- `add` is private in the source. Dafny has no private members, so `Add` is callable. Its contract does not promise the balance invariant.
- The monotonic-expiration rule is not checked by the source, so no method requires it. It appears only as `ExpirationsSorted` in the two lemmas about sorted queues.
- The `Deque` container is a sequence. Its memory layout is not modelled.

## Findings

| source | as written | input that shows it | evidently intended | confidence | as-written member | corrected member |
|---|---|---|---|---|---|---|
| flow/MetricSample.h:55 | after `add`, the queued key is read through `*this->sample.find(key)` | unit 1: `addAndExpire(7, 100, 10)` and then `addAndExpire(7, -100, 20)`. The second `add` brings key 7 to 0 and erases it, so `find` returns `end()` and line 55 dereferences it | queue the argument `key` with `-x`: wherever line 55 is defined, `*find(key)` is `key` itself, and queueing it keeps each stored value equal to minus its queued deltas (`Sampling.AddAndExpirePreservesConsistency`) | medium, not executed | `AsWritten.AddAndExpireAsWritten` | `MetricSamples.TransientMetricSample.AddAndExpire` |
