/**
 Exactly when the scaler's hysteresis (Hysteresis.dfy) spawns and drops, read off what the ticks saw:
 no counter of the machine occurs in the answers but the idle streaks that decide between candidates.
 */
module ScaleTiming {
  import opened Wrappers
  import opened Registries
  import opened ScalingRules
  import opened Hysteresis

  // ---- Spawning on saturation ----

  /** The pool has room for one more and asks for it. */
  predicate Hot(p: Policy, o: Observation) {
    p.min <= |o.snap| < p.max && ScaleUpTriggered(o.snap, p.up)
  }

  /** No scale-down within the last `cooldown` ticks before `t`. */
  predicate Cool(p: Policy, obs: seq<Observation>, t: nat)
    requires t <= |obs|
  {
    forall d: nat :: t - p.cooldown <= d < t ==> !ScalesDownAt(p, obs, d)
  }

  /** The cooldown counter runs from the newest scale-down and from nothing else. */
  lemma {:induction false} CoolingCounts(p: Policy, obs: seq<Observation>, t: nat)
    requires t <= |obs|
    ensures var c := Before(p, obs, t).cooling;
      && (c == 0 ==> Cool(p, obs, t))
      && (c > 0 ==> var d := t - 1 - (p.cooldown - c);
           0 <= d < t && c <= p.cooldown && ScalesDownAt(p, obs, d)
           && forall later: nat :: d < later < t ==> !ScalesDownAt(p, obs, later))
    decreases t
  {
    hide Decide, Counted;
    if t > 0 {
      CoolingCounts(p, obs, t - 1);
    }
  }

  /** The scaler holds off exactly while some scale-down is less than a cooldown old. */
  lemma CoolingIff(p: Policy, obs: seq<Observation>, t: nat)
    requires t <= |obs|
    ensures Before(p, obs, t).cooling == 0 <==> Cool(p, obs, t)
  {
    CoolingCounts(p, obs, t);
  }

  predicate Eager(p: Policy, obs: seq<Observation>, t: nat)
    requires t < |obs|
  {
    Hot(p, obs[t]) && Cool(p, obs, t)
  }

  /** One tick: what it plans, and the saturation counter it leaves. */
  lemma EagerStep(p: Policy, obs: seq<Observation>, t: nat)
    requires t < |obs|
    ensures var n := Before(p, obs, t).saturated;
      && (SpawnsAt(p, obs, t) <==> Eager(p, obs, t) && n + 1 >= p.spawnAfter)
      && Before(p, obs, t + 1).saturated == if Eager(p, obs, t) && n + 1 < p.spawnAfter then n + 1 else 0
  {
    CoolingIff(p, obs, t);
    hide Cool, ScaleUpTriggered, Counted, Victims;
  }

  /** Ticks `u` up to `t` are all eager, and the one before them, if any, is not. */
  predicate StreakFrom(p: Policy, obs: seq<Observation>, u: nat, t: nat)
    requires u <= t <= |obs|
  {
    (u > 0 ==> !Eager(p, obs, u - 1)) && forall m :: u <= m < t ==> Eager(p, obs, m)
  }

  lemma {:induction false} StreakCounts(p: Policy, obs: seq<Observation>, u: nat, t: nat)
    requires u <= t <= |obs| && StreakFrom(p, obs, u, t)
    ensures Before(p, obs, t).saturated == (t - u) % AtLeastOne(p.spawnAfter)
    decreases t
  {
    hide Eager, Before;
    var a := AtLeastOne(p.spawnAfter);
    if t > u {
      StreakCounts(p, obs, u, t - 1);
      EagerStep(p, obs, t - 1);
      NextModulo(t - 1 - u, a);
    } else if t > 0 {
      EagerStep(p, obs, t - 1);
      assert (t - u) % a == 0;
    } else {
      assert Before(p, obs, 0).saturated == 0 by { StartsAtZero(p, obs); }
    }
  }

  lemma StartsAtZero(p: Policy, obs: seq<Observation>)
    ensures Before(p, obs, 0) == Start
  {
  }

  lemma NextModulo(n: nat, a: nat)
    requires a > 0
    ensures (n + 1) % a == if n % a + 1 == a then 0 else n % a + 1
  {
    var q, r := n / a, n % a;
    assert n == q * a + r;
    if r + 1 == a {
      assert n + 1 == (q + 1) * a;
      ModuloIs(n + 1, a, q + 1, 0);
    } else {
      ModuloIs(n + 1, a, q, r + 1);
    }
  }

  lemma ModuloIs(n: nat, a: nat, q: nat, r: nat)
    requires a > 0 && n == q * a + r && r < a
    ensures n % a == r
  {
    var k := n / a - q;
    assert k * a == r - n % a;
    if k > 0 {
      MulMonotone(1, k, a);
    } else if k < 0 {
      MulMonotone(k, -1, a);
    }
  }

  /**
   In a streak of ticks in which the pool is hot and no scale-down is less than a cooldown old, exactly
   every `spawnAfter`-th tick spawns; outside such streaks none does.
   */
  lemma SpawnsExactly(p: Policy, obs: seq<Observation>, u: nat, s: nat)
    requires u <= s < |obs|
    ensures StreakFrom(p, obs, u, s + 1) ==>
              (SpawnsAt(p, obs, s) <==> (s - u + 1) % AtLeastOne(p.spawnAfter) == 0)
    ensures SpawnsAt(p, obs, s) ==> Hot(p, obs[s]) && Cool(p, obs, s)
  {
    EagerStep(p, obs, s);
    if StreakFrom(p, obs, u, s + 1) {
      assert Eager(p, obs, s);
      StreakCounts(p, obs, u, s);
      NextModulo(s - u, AtLeastOne(p.spawnAfter));
    }
  }

  /** A saturation counter of `n` stands for the `n` ticks just before it, all of a hot pool. */
  lemma {:induction false} SaturationIsAStreak(p: Policy, obs: seq<Observation>, t: nat)
    requires t <= |obs|
    ensures var n := Before(p, obs, t).saturated;
      n <= t && forall u :: t - n <= u < t ==> p.min <= |obs[u].snap| < p.max && ScaleUpTriggered(obs[u].snap, p.up)
    decreases t
  {
    hide Before, Cool;
    if t > 0 {
      SaturationIsAStreak(p, obs, t - 1);
      EagerStep(p, obs, t - 1);
    } else {
      StartsAtZero(p, obs);
    }
  }

  /** A saturation spawn comes only after a full saturation grace of such ticks in a row, its own included. */
  lemma SpawnsAfterAFullStreak(p: Policy, obs: seq<Observation>, s: nat)
    requires s < |obs| && SpawnsAt(p, obs, s)
    ensures s + 1 >= p.spawnAfter
    ensures forall u :: s + 1 - AtLeastOne(p.spawnAfter) <= u <= s ==>
              p.min <= |obs[u].snap| < p.max && ScaleUpTriggered(obs[u].snap, p.up)
  {
    SaturationIsAStreak(p, obs, s);
    EagerStep(p, obs, s);
  }

  /** Below the minimum, whatever the load and the cooldown, the tick fills the gap. */
  lemma FillsTheGap(p: Policy, obs: seq<Observation>, t: nat, n: nat)
    requires t < |obs|
    ensures PlanAt(p, obs, t) == Fill(n) <==> n > 0 && |obs[t].snap| + n == p.min
  {
    hide Before, Counted, Victims, ScaleUpTriggered, QuieterThan;
  }

  // ---- Dropping idle replicas ----

  /** How many of the first `k` replicas have no session and a full idle streak. */
  function Ahead(snap: Replicas, idle: map<ReplicaId, nat>, dropAfter: nat, k: nat): nat
    requires k <= |snap|
  {
    if k == 0 then 0
    else (if snap[0].sessionsActive == 0 && IdleCount(idle, snap[0].id) >= dropAfter then 1 else 0)
         + Ahead(snap[1..], idle, dropAfter, k - 1)
  }

  /** Of the replicas without a session and with a full idle streak, the first `limit` are picked. */
  lemma {:induction false} VictimsIff(snap: Replicas, idle: map<ReplicaId, nat>, dropAfter: nat, limit: nat, k: nat)
    requires UniqueIds(snap) && k < |snap|
    ensures snap[k].id in Victims(snap, idle, dropAfter, limit) <==>
            && snap[k].sessionsActive == 0 && IdleCount(idle, snap[k].id) >= dropAfter
            && Ahead(snap, idle, dropAfter, k) < limit
  {
    var chosen := snap[0].sessionsActive == 0 && IdleCount(idle, snap[0].id) >= dropAfter;
    if limit > 0 {
      if k > 0 {
        VictimsIff(snap[1..], idle, dropAfter, if chosen then limit - 1 else limit, k - 1);
      } else if !chosen && snap[0].id in Victims(snap[1..], idle, dropAfter, limit) {
        VictimsAreIdle(snap[1..], idle, dropAfter, limit, snap[0].id);
      }
    }
  }

  /** The pool is above its minimum, does not ask for more, and is below the scale-down threshold if it has one. */
  predicate Spare(p: Policy, o: Observation) {
    |o.snap| > p.min && !Hot(p, o) && (p.down.Some? ==> QuieterThan(o.snap, p.down.value))
  }

  /** Exactly which replicas a tick drops. */
  lemma DropsAtIff(p: Policy, obs: seq<Observation>, d: nat, k: nat)
    requires d < |obs| && UniqueIds(obs[d].snap) && k < |obs[d].snap|
    ensures var snap, idle := obs[d].snap, Seen(Before(p, obs, d), obs[d]).idle;
      DropsAt(p, obs, d, snap[k].id) <==>
        && Spare(p, obs[d]) && snap[k].sessionsActive == 0 && IdleCount(idle, snap[k].id) >= p.dropAfter
        && Ahead(snap, idle, p.dropAfter, k) < |snap| - p.min
  {
    var snap, idle := obs[d].snap, Seen(Before(p, obs, d), obs[d]).idle;
    if |snap| >= p.min {
      VictimsIff(snap, idle, p.dropAfter, |snap| - p.min, k);
    }
    hide Victims, Ahead, Before, Seen, ScaleUpTriggered, QuieterThan;
  }

  /** Tick `t`'s first reading shows the replica past its first minute and without a session. */
  predicate ReadsIdle(o: Observation, id: ReplicaId) {
    exists r :: r in o.raw && r.id == id && r.sessionsActive == 0 && o.now - r.startedAt >= 60_000
  }

  /** Between ticks `u` and `t` the replica reads as idle and nothing resets its streak. */
  predicate IdleThroughout(p: Policy, obs: seq<Observation>, u: nat, t: nat, id: ReplicaId)
    requires u <= t < |obs|
  {
    && (forall m :: u <= m <= t ==> ReadsIdle(obs[m], id) && id !in obs[m].forgotten)
    && (forall m :: u <= m < t ==> id !in obs[m].later && !DropsAt(p, obs, m, id))
  }

  lemma CountStep(p: Policy, c: Counters, o: Observation, id: ReplicaId)
    requires ReadsIdle(o, id) && id !in o.forgotten
    ensures IdleCount(Seen(c, o).idle, id) == IdleCount(c.idle, id) + 1
    ensures id !in o.later && !(PlanOf(p, c, o).Drop? && id in PlanOf(p, c, o).victims) ==>
              IdleCount(Tick(p, c, o).idle, id) == IdleCount(c.idle, id) + 1
  {
    hide Decide;
    var r :| r in o.raw && r.id == id && r.sessionsActive == 0 && o.now - r.startedAt >= 60_000;
    assert CountsIdle(r, o.now);
  }

  lemma {:induction false} StreakIsCounted(p: Policy, obs: seq<Observation>, u: nat, t: nat, id: ReplicaId)
    requires u <= t < |obs| && IdleThroughout(p, obs, u, t, id)
    ensures IdleCount(Seen(Before(p, obs, t), obs[t]).idle, id) >= t - u + 1
    decreases t
  {
    hide Tick, Seen, IdleCount, PlanOf, ReadsIdle;
    CountStep(p, Before(p, obs, t), obs[t], id);
    if t > u {
      StreakIsCounted(p, obs, u, t - 1, id);
      assert ReadsIdle(obs[t - 1], id);
      CountStep(p, Before(p, obs, t - 1), obs[t - 1], id);
    }
  }

  /**
   A full idle grace is enough: a replica that read as idle throughout it is dropped by the tick that ends
   it if the pool is spare, unless as many candidates as are above the minimum come before it in the pool.
   */
  lemma FullStreakIsDropped(p: Policy, obs: seq<Observation>, u: nat, d: nat, k: nat)
    requires u <= d < |obs| && d - u + 1 >= p.dropAfter && UniqueIds(obs[d].snap) && k < |obs[d].snap|
    requires obs[d].snap[k].sessionsActive == 0 && IdleThroughout(p, obs, u, d, obs[d].snap[k].id)
    requires Spare(p, obs[d])
    requires Ahead(obs[d].snap, Seen(Before(p, obs, d), obs[d]).idle, p.dropAfter, k) < |obs[d].snap| - p.min
    ensures DropsAt(p, obs, d, obs[d].snap[k].id)
  {
    hide Ahead, Before, Seen, DropsAt, Spare, IdleThroughout;
    StreakIsCounted(p, obs, u, d, obs[d].snap[k].id);
    DropsAtIff(p, obs, d, k);
  }
}
