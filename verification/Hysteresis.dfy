/**
 The scaler's two-sided hysteresis as a per-spec state machine over ticks
 (crates/ruscker-admin/src/scaler.rs), and its flap bound over whole runs.

 A tick reads the registry twice: `raw` before the liveness pass feeds the idle counters, `snap`
 after it (and after lifetime reaping and the API overlay) feeds the decision. Nothing is assumed
 about how one tick's snapshots follow from the previous tick's.
 */
module Hysteresis {
  import opened Wrappers
  import opened Registries
  import opened ScalingRules

  datatype Policy = Policy(
    min: nat,
    max: nat,
    up: Option<Fraction>,
    down: Option<Fraction>,
    dropAfter: nat,
    spawnAfter: nat,
    cooldown: nat)

  /** Consecutive idle ticks per replica, consecutive saturated ticks, remaining cooldown ticks. */
  datatype Counters = Counters(idle: map<ReplicaId, nat>, saturated: nat, cooling: nat)

  const Start := Counters(map[], 0, 0)

  datatype Plan =
    | Fill(missing: nat)
    | HoldOff
    | Wait
    | SpawnExtra
    | Drop(victims: seq<ReplicaId>)

  // ---- One tick ----

  predicate Young(r: Replica, now: int) {
    now - r.startedAt < YOUNG_REPLICA_GRACE_MS
  }

  /** Counted as idle: no session, and past its first minute. */
  predicate CountsIdle(r: Replica, now: int) {
    r.sessionsActive == 0 && !Young(r, now)
  }

  predicate IdleIn(raw: Replicas, now: int, id: ReplicaId) {
    exists r :: r in raw && r.id == id && CountsIdle(r, now)
  }

  function IdleCount(idle: map<ReplicaId, nat>, id: ReplicaId): nat {
    if id in idle then idle[id] else 0
  }

  /** The idle counters after a snapshot: one more for each idle replica, none for any other. */
  function Counted(idle: map<ReplicaId, nat>, raw: Replicas, now: int): map<ReplicaId, nat> {
    map r | r in raw && CountsIdle(r, now) :: r.id := IdleCount(idle, r.id) + 1
  }

  /** The first `limit` replicas with no session and a full idle streak. */
  function Victims(snap: Replicas, idle: map<ReplicaId, nat>, dropAfter: nat, limit: nat): seq<ReplicaId> {
    if snap == [] || limit == 0 then []
    else if snap[0].sessionsActive == 0 && IdleCount(idle, snap[0].id) >= dropAfter
    then [snap[0].id] + Victims(snap[1..], idle, dropAfter, limit - 1)
    else Victims(snap[1..], idle, dropAfter, limit)
  }

  function Decide(p: Policy, snap: Replicas, c: Counters): Plan {
    if |snap| < p.min then Fill(p.min - |snap|)
    else if |snap| < p.max && ScaleUpTriggered(snap, p.up) then
      if c.cooling > 0 then HoldOff else if c.saturated + 1 >= p.spawnAfter then SpawnExtra else Wait
    else if |snap| > p.min && (p.down.Some? ==> QuieterThan(snap, p.down.value))
    then Drop(Victims(snap, c.idle, p.dropAfter, |snap| - p.min))
    else Drop([])
  }

  /** The counters the tick leaves behind; `stopped` says that some stop of a victim succeeded. */
  function After(p: Policy, c: Counters, plan: Plan, stopped: bool): Counters {
    var cooling := if c.cooling > 0 then c.cooling - 1 else 0;
    match plan
    case Wait => Counters(c.idle, c.saturated + 1, cooling)
    case Drop(victims) =>
      Counters(c.idle - (set id | id in victims), 0,
               if victims != [] && stopped && p.cooldown > 0 then p.cooldown else cooling)
    case _ => Counters(c.idle, 0, cooling)
  }

  /**
   What one tick sees. `forgotten` and `later` are the idle counters that reaps and the other specs'
   drops removed before and after this spec's turn.
   */
  datatype Observation = Observation(
    raw: Replicas,
    now: int,
    forgotten: set<ReplicaId>,
    snap: Replicas,
    stopped: bool,
    later: set<ReplicaId>)

  function Seen(c: Counters, o: Observation): Counters {
    c.(idle := Counted(c.idle, o.raw, o.now) - o.forgotten)
  }

  function PlanOf(p: Policy, c: Counters, o: Observation): Plan {
    Decide(p, o.snap, Seen(c, o))
  }

  function Tick(p: Policy, c: Counters, o: Observation): Counters {
    var after := After(p, Seen(c, o), PlanOf(p, c, o), o.stopped);
    after.(idle := after.idle - o.later)
  }

  // ---- Runs ----

  /** The counters before tick `t`. */
  function Before(p: Policy, obs: seq<Observation>, t: nat): Counters
    requires t <= |obs|
  {
    if t == 0 then Start else Tick(p, Before(p, obs, t - 1), obs[t - 1])
  }

  function PlanAt(p: Policy, obs: seq<Observation>, t: nat): Plan
    requires t < |obs|
  {
    PlanOf(p, Before(p, obs, t), obs[t])
  }

  predicate SpawnsAt(p: Policy, obs: seq<Observation>, t: nat)
    requires t < |obs|
  {
    PlanAt(p, obs, t).SpawnExtra?
  }

  /** Tick `t` tries to stop `id` as idle. */
  predicate DropsAt(p: Policy, obs: seq<Observation>, t: nat, id: ReplicaId)
    requires t < |obs|
  {
    PlanAt(p, obs, t).Drop? && id in PlanAt(p, obs, t).victims
  }

  /** Tick `t` scales down: it has victims and some stop succeeded. */
  predicate ScalesDownAt(p: Policy, obs: seq<Observation>, t: nat)
    requires t < |obs|
  {
    PlanAt(p, obs, t).Drop? && PlanAt(p, obs, t).victims != [] && obs[t].stopped
  }

  function AtLeastOne(n: nat): nat {
    if n == 0 then 1 else n
  }

  // ---- Scale-down suppresses saturation spawns ----

  /** `k` ticks after a scale-down: cooling for the rest of the window, then no streak older than it. */
  lemma {:induction false} AfterScaleDown(p: Policy, obs: seq<Observation>, d: nat, t: nat)
    requires d < t <= |obs| && ScalesDownAt(p, obs, d)
    ensures var k := t - d - 1;
      && Before(p, obs, t).cooling + k >= p.cooldown
      && Before(p, obs, t).saturated <= if k <= p.cooldown then 0 else k - p.cooldown
    decreases t
  {
    hide Decide, Counted;
    if t > d + 1 {
      AfterScaleDown(p, obs, d, t - 1);
      HeldOffWhileCooling(p, Before(p, obs, t - 1), obs[t - 1]);
    }
  }

  lemma HeldOffWhileCooling(p: Policy, c: Counters, o: Observation)
    ensures PlanOf(p, c, o).Wait? || PlanOf(p, c, o).SpawnExtra? ==> c.cooling == 0
    ensures PlanOf(p, c, o).SpawnExtra? ==> c.saturated + 1 >= p.spawnAfter
  {
  }

  /** A saturation spawn comes at least cooldown plus saturation grace after any earlier scale-down. */
  lemma SpawnWaitsOutTheCooldown(p: Policy, obs: seq<Observation>, d: nat, s: nat)
    requires d < s < |obs| && ScalesDownAt(p, obs, d) && SpawnsAt(p, obs, s)
    ensures s >= d + p.cooldown + AtLeastOne(p.spawnAfter)
  {
    AfterScaleDown(p, obs, d, s);
    HeldOffWhileCooling(p, Before(p, obs, s), obs[s]);
  }

  // ---- Only a full streak of idle ticks drops a replica ----

  lemma {:induction false} VictimsAreIdle(snap: Replicas, idle: map<ReplicaId, nat>, dropAfter: nat, limit: nat,
                                          id: ReplicaId)
    requires id in Victims(snap, idle, dropAfter, limit)
    ensures IdleCount(idle, id) >= dropAfter
    ensures exists r :: r in snap && r.id == id && r.sessionsActive == 0
  {
    if snap[0].sessionsActive == 0 && IdleCount(idle, snap[0].id) >= dropAfter {
      if id != snap[0].id {
        VictimsAreIdle(snap[1..], idle, dropAfter, limit - 1, id);
      }
    } else {
      VictimsAreIdle(snap[1..], idle, dropAfter, limit, id);
    }
  }

  /** A counter of `n` before tick `t` stands for the `n` ticks just before it, all idle. */
  lemma {:induction false} CounterIsAStreak(p: Policy, obs: seq<Observation>, t: nat, id: ReplicaId)
    requires t <= |obs|
    ensures var n := IdleCount(Before(p, obs, t).idle, id);
      n <= t && forall u :: t - n <= u < t ==> IdleIn(obs[u].raw, obs[u].now, id)
    decreases t
  {
    hide Tick, Seen, IdleIn;
    if t > 0 {
      CounterIsAStreak(p, obs, t - 1, id);
      CounterStep(p, Before(p, obs, t - 1), obs[t - 1], id);
    }
  }

  lemma CounterStep(p: Policy, c: Counters, o: Observation, id: ReplicaId)
    ensures var n := IdleCount(Seen(c, o).idle, id);
      && (n > 0 ==> IdleIn(o.raw, o.now, id) && n == IdleCount(c.idle, id) + 1)
      && (IdleCount(Tick(p, c, o).idle, id) == 0 || IdleCount(Tick(p, c, o).idle, id) == n)
  {
    hide Decide;
  }

  /** A dropped replica was idle, and past its first minute, at every one of the last `dropAfter` ticks. */
  lemma DroppedAfterAFullStreak(p: Policy, obs: seq<Observation>, d: nat, id: ReplicaId)
    requires d < |obs| && DropsAt(p, obs, d, id)
    ensures d + 1 >= p.dropAfter
    ensures forall u :: d + 1 - p.dropAfter <= u <= d ==> IdleIn(obs[u].raw, obs[u].now, id)
    ensures forall u :: d + 1 - p.dropAfter <= u <= d ==>
              exists r :: r in obs[u].raw && r.id == id && r.sessionsActive == 0 && obs[u].now - r.startedAt >= 60_000
  {
    var c := Before(p, obs, d);
    VictimsAreIdle(obs[d].snap, Seen(c, obs[d]).idle, p.dropAfter, |obs[d].snap| - p.min, id);
    CounterStep(p, c, obs[d], id);
    CounterIsAStreak(p, obs, d, id);
  }

  // ---- Spawn, then drop ----

  /** The two reads of the tick agree on `id`: whatever `raw` shows under that id, `snap` shows too. */
  predicate ReadsAgree(o: Observation, id: ReplicaId) {
    forall r :: r in o.raw && r.id == id ==>
      exists q :: q in o.snap && q.id == id && q.sessionsActive == r.sessionsActive
  }

  /** In a pool whose replicas all have seats, a saturated tick shows no idle replica if its two reads agree. */
  lemma SaturatedTickShowsNoneIdle(p: Policy, c: Counters, o: Observation, id: ReplicaId)
    requires PlanOf(p, c, o).SpawnExtra? && p.up.None? && ReadsAgree(o, id)
    requires forall r :: r in o.snap ==> r.sessionsMax >= 1
    ensures !IdleIn(o.raw, o.now, id)
  {
    forall r | r in o.raw && r.id == id
      ensures !CountsIdle(r, o.now)
    {
      var q :| q in o.snap && q.id == id && q.sessionsActive == r.sessionsActive;
      SaturatedPoolHasNoIdleReplica(o.snap, q);
    }
  }

  /**
   After a saturation spawn the next drop waits a full idle grace, unless the replica it drops read
   as idle in the very tick of the spawn.
   */
  lemma DropWaitsOutTheIdleGrace(p: Policy, obs: seq<Observation>, s: nat, d: nat, id: ReplicaId)
    requires s < d < |obs| && DropsAt(p, obs, d, id)
    ensures d >= s + p.dropAfter || IdleIn(obs[s].raw, obs[s].now, id)
  {
    DroppedAfterAFullStreak(p, obs, d, id);
  }

  /** Drop, spawn, drop takes at least cooldown, saturation grace and idle grace together. */
  lemma FlapCycleBound(p: Policy, obs: seq<Observation>, d1: nat, s: nat, d2: nat, id: ReplicaId)
    requires d1 < s < d2 < |obs|
    requires ScalesDownAt(p, obs, d1) && SpawnsAt(p, obs, s) && DropsAt(p, obs, d2, id)
    requires p.up.None? && (forall r :: r in obs[s].snap ==> r.sessionsMax >= 1) && ReadsAgree(obs[s], id)
    ensures s >= d1 + p.cooldown + AtLeastOne(p.spawnAfter)
    ensures d2 >= s + p.dropAfter
    ensures d2 - d1 >= p.cooldown + AtLeastOne(p.spawnAfter) + p.dropAfter
  {
    SpawnWaitsOutTheCooldown(p, obs, d1, s);
    SaturatedTickShowsNoneIdle(p, Before(p, obs, s), obs[s], id);
    DropWaitsOutTheIdleGrace(p, obs, s, d2, id);
  }

  // ---- Exactly when a drop can come early ----

  /** The counters after the first `t` ticks of `more`, starting from `c`. */
  function Onward(p: Policy, c: Counters, more: seq<Observation>, t: nat): Counters
    requires t <= |more|
  {
    if t == 0 then c else Tick(p, Onward(p, c, more, t - 1), more[t - 1])
  }

  /** Tick `j` of `more`, starting from `c`, drops `id`. */
  predicate DropsOnward(p: Policy, c: Counters, more: seq<Observation>, j: nat, id: ReplicaId)
    requires j < |more|
  {
    var plan := PlanOf(p, Onward(p, c, more, j), more[j]);
    plan.Drop? && id in plan.victims
  }

  /** A scale-down threshold of zero, which no utilization is below. */
  predicate NeverDrops(p: Policy) {
    p.down.Some? && p.down.value.num == 0
  }

  lemma {:induction false} CounterGrowsByOne(p: Policy, c: Counters, more: seq<Observation>, t: nat, id: ReplicaId)
    requires t <= |more|
    ensures IdleCount(Onward(p, c, more, t).idle, id) <= IdleCount(c.idle, id) + t
    decreases t
  {
    hide Tick, Seen;
    if t > 0 {
      CounterGrowsByOne(p, c, more, t - 1, id);
      CounterStep(p, Onward(p, c, more, t - 1), more[t - 1], id);
    }
  }

  lemma NoVictimsBelowZero(p: Policy, snap: Replicas, c: Counters)
    requires NeverDrops(p)
    ensures Decide(p, snap, c).Drop? ==> Decide(p, snap, c).victims == []
  {
  }

  /** An otherwise idle pool of `min + 1` replicas, `r` first. */
  function SparePool(r: Replica, min: nat): Replicas {
    seq(min + 1, k requires 0 <= k < min + 1 => r.(id := r.id + k, sessionsActive := 0, sessionsMax := 1))
  }

  lemma {:induction false} IdlePoolLoad(rs: Replicas)
    requires forall k :: 0 <= k < |rs| ==> rs[k].sessionsActive == 0 && rs[k].sessionsMax == 1
    ensures Sessions(rs) == 0 && Seats(rs) == |rs|
  {
    if rs != [] {
      IdlePoolLoad(rs[1..]);
    }
  }

  /** A tick that shows `r` idle and decides on no pool at all. */
  function IdleTick(r: Replica): Observation {
    Observation([r], r.startedAt + YOUNG_REPLICA_GRACE_MS, {}, [], false, {})
  }

  /** A tick that shows `r` idle and one replica too many. */
  function SpareTick(p: Policy, r: Replica): Observation {
    IdleTick(r).(snap := SparePool(r, p.min))
  }

  lemma OneIdle(idle: map<ReplicaId, nat>, r: Replica, now: int)
    requires CountsIdle(r, now)
    ensures Counted(idle, [r], now) == map[r.id := IdleCount(idle, r.id) + 1]
  {
    assert r in [r];
  }

  lemma IdleTickCounts(p: Policy, c: Counters, r: Replica)
    requires r.sessionsActive == 0
    ensures IdleCount(Tick(p, c, IdleTick(r)).idle, r.id) == IdleCount(c.idle, r.id) + 1
    ensures IdleCount(Seen(c, SpareTick(p, r)).idle, r.id) == IdleCount(c.idle, r.id) + 1
  {
    OneIdle(c.idle, r, r.startedAt + YOUNG_REPLICA_GRACE_MS);
  }

  lemma SpareTickDrops(p: Policy, c: Counters, r: Replica)
    requires r.sessionsActive == 0 && !NeverDrops(p) && IdleCount(c.idle, r.id) + 1 >= p.dropAfter
    ensures PlanOf(p, c, SpareTick(p, r)).Drop? && r.id in PlanOf(p, c, SpareTick(p, r)).victims
  {
    var snap := SparePool(r, p.min);
    IdlePoolLoad(snap);
    IdleTickCounts(p, c, r);
    assert snap[0] in snap && snap[0].AvailableSeats() == 1 && snap[0].id == r.id;
    if p.down.Some? {
      var t := p.down.value;
      assert t.num * Seats(snap) > 0 by {
        MulMonotone(1, t.num, Seats(snap));
      }
    }
    var idle := Seen(c, SpareTick(p, r)).idle;
    assert Victims(snap, idle, p.dropAfter, 1) == [r.id] + Victims(snap[1..], idle, p.dropAfter, 0);
  }

  /** `n - 2` ticks that only show `r` idle, then one with a spare replica. */
  function EarlyDrop(p: Policy, r: Replica): seq<Observation> {
    if p.dropAfter < 2 then [SpareTick(p, r)]
    else seq(p.dropAfter - 2, _ => IdleTick(r)) + [SpareTick(p, r)]
  }

  lemma {:induction false} IdleTicksCount(p: Policy, c: Counters, r: Replica, t: nat)
    requires r.sessionsActive == 0 && t < |EarlyDrop(p, r)|
    ensures IdleCount(Onward(p, c, EarlyDrop(p, r), t).idle, r.id) == IdleCount(c.idle, r.id) + t
    decreases t
  {
    hide Tick;
    if t > 0 {
      IdleTicksCount(p, c, r, t - 1);
      IdleTickCounts(p, Onward(p, c, EarlyDrop(p, r), t - 1), r);
    }
  }

  /**
   From any counters, every continuation keeps `id` for a full idle grace if and only if its idle
   counter is zero there, or the grace is a single tick, or nothing is ever dropped.
   */
  lemma KeptForAFullGraceIff(p: Policy, c: Counters, id: ReplicaId)
    ensures (forall more: seq<Observation>, j: nat :: j < |more| && DropsOnward(p, c, more, j, id) ==>
               j + 1 >= p.dropAfter)
            <==> p.dropAfter <= 1 || IdleCount(c.idle, id) == 0 || NeverDrops(p)
  {
    if p.dropAfter <= 1 || IdleCount(c.idle, id) == 0 || NeverDrops(p) {
      forall more: seq<Observation>, j: nat | j < |more| && DropsOnward(p, c, more, j, id)
        ensures j + 1 >= p.dropAfter
      {
        CounterBoundsDrop(p, c, more, j, id);
      }
    } else {
      var r := Replica(id, "", "", Ready, 0, 0, 1);
      var more := EarlyDrop(p, r);
      var j: nat := p.dropAfter - 2;
      IdleTicksCount(p, c, r, j);
      SpareTickDrops(p, Onward(p, c, more, j), r);
      assert more[j] == SpareTick(p, r);
      assert DropsOnward(p, c, more, j, id);
    }
  }

  lemma CounterBoundsDrop(p: Policy, c: Counters, more: seq<Observation>, j: nat, id: ReplicaId)
    requires j < |more| && DropsOnward(p, c, more, j, id)
    ensures IdleCount(c.idle, id) + j + 1 >= p.dropAfter && !NeverDrops(p)
  {
    var here, o := Onward(p, c, more, j), more[j];
    CounterGrowsByOne(p, c, more, j, id);
    CounterStep(p, here, o, id);
    if NeverDrops(p) {
      NoVictimsBelowZero(p, o.snap, Seen(here, o));
    }
    VictimsAreIdle(o.snap, Seen(here, o).idle, p.dropAfter, |o.snap| - p.min, id);
  }

  lemma {:induction false} BeforePrefix(p: Policy, obs: seq<Observation>, more: seq<Observation>, n: nat, t: nat)
    requires n <= |obs| && t <= |more|
    ensures Before(p, obs[..n] + more, n + t) == Onward(p, Before(p, obs, n), more, t)
    decreases n + t
  {
    hide Tick;
    var all := obs[..n] + more;
    if t > 0 {
      BeforePrefix(p, obs, more, n, t - 1);
      assert all[n + t - 1] == more[t - 1];
    } else if n > 0 {
      BeforeSame(p, obs, all, n);
    }
  }

  lemma {:induction false} BeforeSame(p: Policy, obs: seq<Observation>, other: seq<Observation>, n: nat)
    requires n <= |obs| && n <= |other| && obs[..n] == other[..n]
    ensures Before(p, obs, n) == Before(p, other, n)
  {
    hide Tick;
    if n > 0 {
      assert obs[n - 1] == obs[..n][n - 1] == other[..n][n - 1] == other[n - 1];
      assert obs[..n - 1] == obs[..n][..n - 1] == other[..n - 1];
      BeforeSame(p, obs, other, n - 1);
    }
  }

  /** If the ticks go on as `more` after tick `s`, the `j`-th of them drops `id`. */
  predicate DropsLater(p: Policy, obs: seq<Observation>, s: nat, more: seq<Observation>, j: nat, id: ReplicaId)
    requires s < |obs| && j < |more|
  {
    DropsAt(p, obs[..s + 1] + more, s + 1 + j, id)
  }

  /**
   The bound on a drop after the spawn of tick `s`, exactly: no way the ticks go on drops `id` before a
   full idle grace if and only if the spawn tick left the idle counter of `id` at zero (or the grace
   is one tick, or the pool is never shrunk).
   */
  lemma DropWaitsOutTheIdleGraceIff(p: Policy, obs: seq<Observation>, s: nat, id: ReplicaId)
    requires s < |obs| && SpawnsAt(p, obs, s)
    ensures (forall more: seq<Observation>, j: nat ::
               j < |more| && DropsLater(p, obs, s, more, j, id) ==> s + 1 + j >= s + p.dropAfter)
            <==> p.dropAfter <= 1 || IdleCount(Before(p, obs, s + 1).idle, id) == 0 || NeverDrops(p)
  {
    hide DropsLater, DropsOnward, Before, PlanAt, IdleCount, NeverDrops;
    var c := Before(p, obs, s + 1);
    forall more: seq<Observation>, j: nat | j < |more|
      ensures DropsLater(p, obs, s, more, j, id) <==> DropsOnward(p, c, more, j, id)
    {
      LaterIsOnward(p, obs, s, more, j, id);
    }
    KeptForAFullGraceIff(p, c, id);
  }

  lemma LaterIsOnward(p: Policy, obs: seq<Observation>, s: nat, more: seq<Observation>, j: nat, id: ReplicaId)
    requires s < |obs| && j < |more|
    ensures DropsLater(p, obs, s, more, j, id) <==> DropsOnward(p, Before(p, obs, s + 1), more, j, id)
  {
    hide Tick, PlanOf, Before, Onward;
    BeforePrefix(p, obs, more, s + 1, j);
    assert (obs[..s + 1] + more)[s + 1 + j] == more[j];
  }
}
