/**
 The per-client sliding-window limiter for API specs
 (crates/ruscker-admin/src/ratelimit.rs).

 The limiter keeps short queues and throws idle ones away. It is judged against
 `Decide`, which looks at every request ever allowed for the key. Times are
 nanoseconds of one monotone clock.
 */
module RateLimiting {
  import opened Wrappers

  const SWEEP_EVERY: nat := 1024
  const MILLI: nat := 1_000_000
  const SECOND: nat := 1_000_000_000

  datatype RatePolicy = RatePolicy(max: nat, window: nat)

  /** What the parser of `rate-limit` strings produces: a positive count per whole-second window. */
  predicate Parsed(p: RatePolicy) {
    p.max >= 1 && p.window in {SECOND, 60 * SECOND, 3600 * SECOND}
  }

  datatype Key = Key(spec: string, client: string)

  datatype Decision = Allow | Deny(retryAfterSecs: nat)

  /** The timestamps of `times` that are at most `window` old. */
  function Live(times: seq<nat>, now: nat, window: nat): seq<nat> {
    if times == [] then []
    else
      var rest := Live(times[1..], now, window);
      if times[0] + window < now then rest else [times[0]] + rest
  }

  /** The answer the full history of allowed requests calls for. */
  function Decide(p: RatePolicy, allowed: seq<nat>, now: nat): Decision {
    var live := Live(allowed, now, p.window);
    if |live| < p.max then Allow
    else if live == [] then Deny(1)
    else Deny((p.window - Min(p.window, now - Min(now, live[0]))) / SECOND + 1)
  }

  predicate Sorted(times: seq<nat>) {
    forall i, j :: 0 <= i < j < |times| ==> times[i] <= times[j]
  }

  /** No window's length apart: any `max + 1` consecutive requests span more than the window. */
  ghost predicate Spaced(times: seq<nat>, p: RatePolicy) {
    forall i, j :: 0 <= i <= j < |times| && j == i + p.max ==> times[i] + p.window < times[j]
  }

  /** At time `clock`, the queue `q` is the part of the history `times` that could still count. */
  ghost predicate QueueCovers(p: RatePolicy, times: seq<nat>, q: seq<nat>, clock: nat) {
    && Sorted(times) && Spaced(times, p)
    && (forall i :: 0 <= i < |times| ==> times[i] <= clock)
    && |q| <= |times| && q == times[|times| - |q|..]
    && (forall i :: 0 <= i < |times| - |q| ==> times[i] + p.window < clock)
  }

  function Lookup(m: map<Key, seq<nat>>, k: Key): seq<nat> {
    if k in m then m[k] else []
  }

  /** The whole table of queues against the whole table of histories. */
  ghost predicate Consistent(policyOf: string -> RatePolicy, windows: map<Key, seq<nat>>, maxWindowMs: nat,
                             allowed: map<Key, seq<nat>>, clock: nat)
  {
    && (forall k: Key :: QueueCovers(policyOf(k.spec), Lookup(allowed, k), Lookup(windows, k), clock))
    && (forall k :: k in windows ==> Parsed(policyOf(k.spec)) && policyOf(k.spec).window <= maxWindowMs * MILLI)
  }

  /** Every key but one has a request no older than the horizon. */
  predicate NoneIdleBut(windows: map<Key, seq<nat>>, key: Key, now: nat, horizon: nat) {
    forall k :: k in windows && k != key ==> windows[k] != [] && now - windows[k][|windows[k]| - 1] <= horizon
  }

  lemma NoneIdleAfter(windows: map<Key, seq<nat>>, key: Key, q: seq<nat>, now: nat, horizon: nat)
    ensures NoneIdleBut(windows, key, now, horizon) ==> NoneIdleBut(windows[key := q], key, now, horizon)
  {
  }

  class ApiRateLimiter {
    var windows: map<Key, seq<nat>>
    var maxWindowMs: nat
    var sinceSweep: nat
    /** The policy of each spec, fixed for the limiter's life. */
    ghost const policyOf: string -> RatePolicy
    /** Every request ever allowed, per key. */
    ghost var allowed: map<Key, seq<nat>>
    ghost var clock: nat

    ghost predicate Valid()
      reads this
    {
      Consistent(policyOf, windows, maxWindowMs, allowed, clock)
    }

    constructor (ghost policyOf: string -> RatePolicy)
      ensures Valid() && allowed == map[] && clock == 0 && this.policyOf == policyOf
    {
      this.policyOf := policyOf;
      windows, maxWindowMs, sinceSweep, allowed, clock := map[], 0, 0, map[], 0;
    }

    method Check(key: Key, policy: RatePolicy, now: nat) returns (decision: Decision)
      requires Valid() && Parsed(policy) && policy == policyOf(key.spec) && clock <= now
      modifies this
      ensures Valid() && clock == now
      ensures decision == Decide(policy, Lookup(old(allowed), key), now)
      ensures decision.Allow? ==> allowed == old(allowed)[key := Lookup(old(allowed), key) + [now]]
      ensures decision.Deny? ==> allowed == old(allowed)
      ensures sinceSweep == if old(sinceSweep) + 1 >= SWEEP_EVERY then 0 else old(sinceSweep) + 1
      ensures old(sinceSweep) + 1 >= SWEEP_EVERY ==> NoneIdleBut(windows, key, now, maxWindowMs * MILLI)
    {
      hide Consistent, QueueCovers, Decide, NoneIdleBut;
      Later(policyOf, windows, maxWindowMs, allowed, clock, Max(maxWindowMs, policy.window / MILLI), now);
      maxWindowMs := Max(maxWindowMs, policy.window / MILLI);
      clock := now;
      sinceSweep := sinceSweep + 1;
      if sinceSweep >= SWEEP_EVERY {
        sinceSweep := 0;
        SweepIdle(now);
        assert NoneIdleBut(windows, key, now, maxWindowMs * MILLI);
      }
      KeyCovered(policyOf, windows, maxWindowMs, allowed, clock, key);
      ghost var times := Lookup(allowed, key);
      var q := Prune(policy, times, if key in windows then windows[key] else [], now);
      if |q| < policy.max {
        q := q + [now];
        Store(policyOf, windows, maxWindowMs, allowed, clock, key, q, times + [now]);
        allowed := allowed[key := times + [now]];
        decision := Allow;
      } else {
        Store(policyOf, windows, maxWindowMs, allowed, clock, key, q, times);
        decision := Deny(if |q| > 0 then (policy.window - Min(policy.window, now - q[0])) / SECOND + 1 else 1);
      }
      NoneIdleAfter(windows, key, q, now, maxWindowMs * MILLI);
      windows := windows[key := q];
    }

    /** The pruning loop of `Check`: drop expired timestamps from the front. */
    static method Prune(p: RatePolicy, ghost times: seq<nat>, queue: seq<nat>, now: nat) returns (q: seq<nat>)
      requires QueueCovers(p, times, queue, now)
      ensures QueueCovers(p, times, q, now)
      ensures q != [] ==> q[0] <= now <= q[0] + p.window
      ensures |q| < p.max ==> Decide(p, times, now) == Allow && QueueCovers(p, times + [now], q + [now], now)
      ensures |q| >= p.max ==>
        Decide(p, times, now) == Deny(if q == [] then 1 else (p.window - Min(p.window, now - q[0])) / SECOND + 1)
    {
      q := queue;
      while |q| > 0 && now - q[0] > p.window
        invariant QueueCovers(p, times, q, now)
      {
        PruneOne(p, times, q, now);
        q := q[1..];
      }
      PrunedQueueDecides(p, times, q, now);
    }

    /** Drop every key whose newest request is older than the widest window seen. */
    method SweepIdle(now: nat)
      requires Valid() && clock == now
      modifies this`windows
      ensures Valid()
      ensures forall key :: NoneIdleBut(windows, key, now, maxWindowMs * MILLI)
      ensures forall k :: k in windows <==>
        && k in old(windows) && old(windows)[k] != []
        && now - old(windows)[k][|old(windows)[k]| - 1] <= maxWindowMs * MILLI
      ensures forall k :: k in windows ==> windows[k] == old(windows)[k]
    {
      hide Consistent;
      var horizon := maxWindowMs * MILLI;
      var before := windows;
      windows := map k | k in before && before[k] != [] && now - before[k][|before[k]| - 1] <= horizon :: before[k];
      SweepKeepsCoverage(policyOf, before, windows, maxWindowMs, allowed, now);
    }
  }

  lemma Later(policyOf: string -> RatePolicy, windows: map<Key, seq<nat>>, maxWindowMs: nat,
              allowed: map<Key, seq<nat>>, clock: nat, maxWindowMs': nat, clock': nat)
    requires Consistent(policyOf, windows, maxWindowMs, allowed, clock)
    requires maxWindowMs <= maxWindowMs' && clock <= clock'
    ensures Consistent(policyOf, windows, maxWindowMs', allowed, clock')
  {
  }

  lemma KeyCovered(policyOf: string -> RatePolicy, windows: map<Key, seq<nat>>, maxWindowMs: nat,
                   allowed: map<Key, seq<nat>>, clock: nat, k: Key)
    requires Consistent(policyOf, windows, maxWindowMs, allowed, clock)
    ensures QueueCovers(policyOf(k.spec), Lookup(allowed, k), Lookup(windows, k), clock)
  {
  }

  lemma Store(policyOf: string -> RatePolicy, windows: map<Key, seq<nat>>, maxWindowMs: nat,
              allowed: map<Key, seq<nat>>, clock: nat, key: Key, q: seq<nat>, times: seq<nat>)
    requires Consistent(policyOf, windows, maxWindowMs, allowed, clock)
    requires QueueCovers(policyOf(key.spec), times, q, clock)
    requires Parsed(policyOf(key.spec)) && policyOf(key.spec).window <= maxWindowMs * MILLI
    ensures Consistent(policyOf, windows[key := q], maxWindowMs, allowed[key := times], clock)
    ensures times == Lookup(allowed, key) ==> Consistent(policyOf, windows[key := q], maxWindowMs, allowed, clock)
  {
    hide QueueCovers;
    var windows', allowed' := windows[key := q], allowed[key := times];
    forall k: Key ensures QueueCovers(policyOf(k.spec), Lookup(allowed', k), Lookup(windows', k), clock) {
      KeyCovered(policyOf, windows, maxWindowMs, allowed, clock, k);
    }
    if times == Lookup(allowed, key) {
      forall k: Key ensures QueueCovers(policyOf(k.spec), Lookup(allowed, k), Lookup(windows', k), clock) {
        KeyCovered(policyOf, windows, maxWindowMs, allowed, clock, k);
      }
    }
  }

  lemma SweepKeepsCoverage(policyOf: string -> RatePolicy, before: map<Key, seq<nat>>, swept: map<Key, seq<nat>>,
                           maxWindowMs: nat, allowed: map<Key, seq<nat>>, now: nat)
    requires Consistent(policyOf, before, maxWindowMs, allowed, now)
    requires forall k :: k in swept ==> k in before && swept[k] == before[k]
    requires forall k :: k in before && k !in swept ==>
               before[k] == [] || before[k][|before[k]| - 1] + maxWindowMs * MILLI < now
    ensures Consistent(policyOf, swept, maxWindowMs, allowed, now)
  {
    hide QueueCovers;
    forall k: Key ensures QueueCovers(policyOf(k.spec), Lookup(allowed, k), Lookup(swept, k), now) {
      KeyCovered(policyOf, before, maxWindowMs, allowed, now, k);
      if k in before && k !in swept {
        SweptQueueWasDead(policyOf(k.spec), allowed, k, before[k], now, maxWindowMs * MILLI);
      }
    }
  }

  lemma PruneOne(p: RatePolicy, times: seq<nat>, q: seq<nat>, now: nat)
    requires QueueCovers(p, times, q, now) && q != [] && q[0] + p.window < now
    ensures QueueCovers(p, times, q[1..], now) && q[0] <= now
  {
    assert q[0] == times[|times| - |q|];
  }

  lemma SweptQueueWasDead(p: RatePolicy, allowed: map<Key, seq<nat>>, k: Key, q: seq<nat>, now: nat, horizon: nat)
    requires QueueCovers(p, Lookup(allowed, k), q, now) && p.window <= horizon
    requires q == [] || q[|q| - 1] + horizon < now
    ensures QueueCovers(p, Lookup(allowed, k), [], now)
  {
    var times := Lookup(allowed, k);
    if q != [] {
      assert q[|q| - 1] == times[|times| - 1];
    }
  }

  /** Once its front is fresh, the queue answers as the full history does and stays exact. */
  lemma PrunedQueueDecides(p: RatePolicy, times: seq<nat>, q: seq<nat>, now: nat)
    requires QueueCovers(p, times, q, now)
    requires q == [] || q[0] + p.window >= now
    ensures |q| < p.max ==> Decide(p, times, now) == Allow && QueueCovers(p, times + [now], q + [now], now)
    ensures |q| >= p.max ==>
      Decide(p, times, now)
        == Deny(if q == [] then 1 else (p.window - Min(p.window, now - Min(now, q[0]))) / SECOND + 1)
    ensures q == [] || q[0] <= now
  {
    assert q != [] ==> q[0] == times[|times| - |q|];
    LiveIsSuffix(times, |times| - |q|, now, p.window);
    if |q| < p.max {
      AllowKeepsSpacing(p, times, q, now);
    }
  }

  lemma AllowKeepsSpacing(p: RatePolicy, times: seq<nat>, q: seq<nat>, now: nat)
    requires QueueCovers(p, times, q, now) && |q| < p.max
    ensures QueueCovers(p, times + [now], q + [now], now)
  {
    var longer := times + [now];
    assert longer[..|times|] == times;
    forall i, j | 0 <= i <= j < |longer| && j == i + p.max
      ensures longer[i] + p.window < longer[j]
    {
      if j < |times| {
        assert times[i] + p.window < times[j];
      }
    }
  }

  lemma {:induction false} LiveIsSuffix(times: seq<nat>, d: nat, now: nat, window: nat)
    requires d <= |times|
    requires forall i :: 0 <= i < d ==> times[i] + window < now
    requires Sorted(times) && (d < |times| ==> times[d] + window >= now)
    ensures Live(times, now, window) == times[d..]
  {
    if times != [] {
      if d > 0 {
        LiveIsSuffix(times[1..], d - 1, now, window);
      } else if |times| > 1 {
        LiveIsSuffix(times[1..], 0, now, window);
      }
    }
  }

  /** How many of `times` fall in the closed interval `[lo, hi]`. */
  function CountIn(times: seq<nat>, lo: nat, hi: nat): nat {
    if times == [] then 0 else (if lo <= times[0] <= hi then 1 else 0) + CountIn(times[1..], lo, hi)
  }

  lemma {:induction false} LiveCounts(times: seq<nat>, now: nat, window: nat)
    requires forall i :: 0 <= i < |times| ==> times[i] <= now
    ensures |Live(times, now, window)| == CountIn(times, if now >= window then now - window else 0, now)
  {
    if times != [] {
      LiveCounts(times[1..], now, window);
    }
  }

  /** A request is allowed exactly when fewer than `max` were in the closed window that ends with it. */
  lemma AllowIff(p: RatePolicy, times: seq<nat>, now: nat)
    requires forall i :: 0 <= i < |times| ==> times[i] <= now
    ensures Decide(p, times, now).Allow? <==>
            CountIn(times, if now >= p.window then now - p.window else 0, now) < p.max
  {
    LiveCounts(times, now, p.window);
  }

  lemma {:induction false} CountBound(times: seq<nat>, p: RatePolicy, lo: nat, n: nat)
    requires Sorted(times) && Spaced(times, p)
    requires n <= p.max && forall i :: n <= i < |times| ==> times[i] > lo + p.window
    ensures CountIn(times, lo, lo + p.window) <= n
  {
    if times != [] {
      CountBound(times[1..], p, lo, if n > 0 then n - 1 else 0);
    }
  }

  /** Any closed interval of the window's length holds at most `max` allowed requests. */
  lemma {:induction false} WindowHoldsAtMostMax(times: seq<nat>, p: RatePolicy, lo: nat)
    requires Sorted(times) && Spaced(times, p)
    ensures CountIn(times, lo, lo + p.window) <= p.max
  {
    if times != [] {
      if times[0] < lo {
        WindowHoldsAtMostMax(times[1..], p, lo);
      } else {
        forall i | p.max <= i < |times| ensures times[i] > lo + p.window {
          assert times[i - p.max] + p.window < times[i];
        }
        CountBound(times, p, lo, p.max);
      }
    }
  }

  /** How many entries of a sorted history have expired. */
  function Expired(times: seq<nat>, now: nat, window: nat): (d: nat)
    requires Sorted(times)
    ensures d <= |times|
    ensures forall i :: 0 <= i < d ==> times[i] + window < now
    ensures d < |times| ==> times[d] + window >= now
  {
    if times == [] || times[0] + window >= now then 0 else 1 + Expired(times[1..], now, window)
  }

  lemma SpacedPair(p: RatePolicy, times: seq<nat>, i: nat, j: nat)
    requires Spaced(times, p) && i + p.max == j < |times|
    ensures times[i] + p.window < times[j]
  {
  }

  lemma LiveCountBounded(p: RatePolicy, times: seq<nat>, now: nat)
    requires Sorted(times) && Spaced(times, p)
    requires forall i :: 0 <= i < |times| ==> times[i] <= now
    ensures |times| - Expired(times, now, p.window) <= p.max
  {
    var d := Expired(times, now, p.window);
    if d + p.max < |times| {
      SpacedPair(p, times, d, d + p.max);
    }
  }

  /** With no request in between, a retry is allowed exactly from the advertised second on. */
  lemma RetryAfterIsExact(p: RatePolicy, times: seq<nat>, now: nat, secs: nat)
    requires Parsed(p) && Sorted(times) && Spaced(times, p)
    requires forall i :: 0 <= i < |times| ==> times[i] <= now
    requires Decide(p, times, now).Deny?
    ensures Decide(p, times, now + secs * SECOND).Allow? <==> secs >= Decide(p, times, now).retryAfterSecs
  {
    var later := now + secs * SECOND;
    var d, e := Expired(times, now, p.window), Expired(times, later, p.window);
    LiveIsSuffix(times, d, now, p.window);
    LiveIsSuffix(times, e, later, p.window);
    LiveCountBounded(p, times, now);
  }

  /** The requests of one key allowed by `Decide` when they arrive at the times `calls`. */
  function AllowedBy(p: RatePolicy, calls: seq<nat>): seq<nat> {
    if calls == [] then []
    else
      var now := calls[|calls| - 1];
      var before := AllowedBy(p, calls[..|calls| - 1]);
      if Decide(p, before, now).Allow? then before + [now] else before
  }

  lemma {:induction false} AllowedBySpaced(p: RatePolicy, calls: seq<nat>)
    requires Sorted(calls)
    ensures var times := AllowedBy(p, calls);
            && Sorted(times) && Spaced(times, p)
            && forall i :: 0 <= i < |times| ==> calls != [] && times[i] <= calls[|calls| - 1]
  {
    if calls != [] {
      var now := calls[|calls| - 1];
      var before := AllowedBy(p, calls[..|calls| - 1]);
      AllowedBySpaced(p, calls[..|calls| - 1]);
      var q := before[Expired(before, now, p.window)..];
      assert QueueCovers(p, before, q, now);
      PrunedQueueDecides(p, before, q, now);
    }
  }

  /** Whatever the arrival times, no closed window of any key ever holds more than `max` allowed requests. */
  lemma EveryWindowIsBounded(p: RatePolicy, calls: seq<nat>, lo: nat)
    requires Sorted(calls)
    ensures CountIn(AllowedBy(p, calls), lo, lo + p.window) <= p.max
  {
    AllowedBySpaced(p, calls);
    WindowHoldsAtMostMax(AllowedBy(p, calls), p, lo);
  }
}
