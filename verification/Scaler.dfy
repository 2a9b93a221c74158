/**
 The auto-scaler (crates/ruscker-admin/src/scaler.rs): spawning under the replica cap, and one
 tick over the whole catalog, run without interference. The counters it keeps are exactly those of
 the machine in Hysteresis, one instance per spec.
 */
module Scaler {
  import opened Wrappers
  import opened Registries
  import opened ScalingRules
  import opened Backends
  import opened Fleets
  import H = Hysteresis

  // ---- Spawning ----

  datatype Intent = AddCapacity | EnsureAvailable

  datatype Outcome = Coalesced | AtCap | Spawned(id: ReplicaId) | Failed

  /** A replica is coming up or can take a session now. */
  predicate Available(pool: Replicas) {
    exists r :: r in pool && (r.state.Starting? || r.IsAccepting())
  }

  lemma AvailableIff(pool: Replicas)
    ensures Available(pool) <==>
            exists r :: r in pool && (r.state.Starting? || (r.state.Ready? && r.sessionsActive < r.sessionsMax))
  {
    forall r | r in pool
      ensures r.IsAccepting() <==> r.state.Ready? && r.sessionsActive < r.sessionsMax
    {
    }
  }

  /** A replica as a spawn adds it. */
  predicate FreshFor(r: Replica, spec: Spec, id: ReplicaId) {
    r.id == id && r.spec == spec.id && r.state.Ready? && r.sessionsActive == 0 && r.sessionsMax == spec.seats
  }

  /** `after` is `before` with at most `n` fresh replicas of `spec` appended, numbered from `next`. */
  predicate Grown(before: Replicas, after: Replicas, spec: Spec, n: nat, next: ReplicaId) {
    && |before| <= |after| <= |before| + n && after[..|before|] == before
    && forall k :: |before| <= k < |after| ==> FreshFor(after[k], spec, next + (k - |before|))
  }

  /** Every registered id was handed out already, so the next spawn is new. */
  ghost predicate Issued(reg: Replicas, next: ReplicaId) {
    UniqueIds(reg) && forall r :: r in reg ==> r.id < next
  }

  function RemoveAll(reg: Replicas, ids: seq<ReplicaId>): Replicas
    decreases |ids|
  {
    if ids == [] then reg else RemoveAll(Remove(reg, ids[0]), ids[1..])
  }

  function Lookup(m: map<string, nat>, id: string): nat {
    if id in m then m[id] else 0
  }

  function ToSet(ids: seq<ReplicaId>): set<ReplicaId> {
    set id | id in ids
  }

  /** The hysteresis settings of a spec: its own seconds, converted, or the defaults. */
  function PolicyOf(spec: Spec, dropAfter: nat, spawnAfter: nat, defaultCooldown: Option<nat>,
                    interval: nat): H.Policy {
    H.Policy(
      spec.minReplicas,
      spec.maxReplicas,
      spec.scaleUpThreshold,
      spec.scaleDownThreshold,
      if spec.scaleDownGrace.Some? then GraceTicks(spec.scaleDownGrace.value, INTERVAL_SECS) else dropAfter,
      spawnAfter,
      if spec.scaleDownCooldown.Some? then CooldownTicks(spec.scaleDownCooldown.value, interval)
      else if defaultCooldown.Some? then defaultCooldown.value
      else CooldownTicks(COOLDOWN_SECS, interval))
  }

  /** What the scale passes work from: the pool after lifetime reaping, with the API overlay. */
  function Aged(reg: Replicas, spec: Spec, inflight: map<ReplicaId, nat>, now: int): seq<ReplicaId> {
    LifetimeReap(Overlay(Of(reg, spec.id), spec, inflight), now, spec.maxLifetime, spec.containerLifetime,
                 spec.drainTimeout)
  }

  function Reaped(reg: Replicas, spec: Spec, inflight: map<ReplicaId, nat>, now: int): Replicas {
    RemoveAll(reg, Aged(reg, spec, inflight, now))
  }

  function PoolSeen(reg: Replicas, spec: Spec, inflight: map<ReplicaId, nat>, now: int): Replicas {
    Overlay(Of(Reaped(reg, spec, inflight, now), spec.id), spec, inflight)
  }

  /** What a plan leaves in the registry; a spawn can fall short only if the backend is unreliable. */
  ghost predicate CarriedOut(before: Replicas, after: Replicas, spec: Spec, plan: H.Plan, next: ReplicaId,
                             reliable: bool) {
    match plan
    case Fill(n) =>
      && Grown(before, after, spec, n, next) && |Of(after, spec.id)| <= Max(|Of(before, spec.id)|, spec.maxReplicas)
      && (reliable ==> |Of(after, spec.id)| >= Min(|Of(before, spec.id)| + n, spec.maxReplicas))
    case SpawnExtra =>
      && Grown(before, after, spec, 1, next) && |Of(after, spec.id)| <= Max(|Of(before, spec.id)|, spec.maxReplicas)
      && (reliable ==> |Of(after, spec.id)| >= Min(|Of(before, spec.id)| + 1, spec.maxReplicas))
    case Drop(victims) => after == RemoveAll(before, victims)
    case _ => after == before
  }

  /**
   A spec's own seconds, where it sets them, become the least number of ticks that covers them; the grace
   counts the default ten seconds a tick, the cooldown the interval it is run at. The cooldown's default is
   sixty seconds, unless the caller brings one.
   */
  lemma PolicyFollowsSpec(spec: Spec, dropAfter: nat, spawnAfter: nat, default: Option<nat>, interval: nat, n: nat)
    requires interval >= 1
    ensures var p := PolicyOf(spec, dropAfter, spawnAfter, default, interval);
      && p.min == spec.minReplicas && p.max == spec.maxReplicas && p.spawnAfter == spawnAfter
      && p.up == spec.scaleUpThreshold && p.down == spec.scaleDownThreshold
      && (spec.scaleDownGrace.None? ==> p.dropAfter == dropAfter)
      && (spec.scaleDownGrace.Some? && p.dropAfter < 0xFFFF_FFFF ==>
            (p.dropAfter <= n <==> n >= 1 && n * 10 >= spec.scaleDownGrace.value))
      && (spec.scaleDownCooldown.None? && default.Some? ==> p.cooldown == default.value)
      && (spec.scaleDownCooldown.None? && default.None? && p.cooldown < 0xFFFF_FFFF ==>
            (p.cooldown <= n <==> n * interval >= 60))
      && (spec.scaleDownCooldown.Some? && p.cooldown < 0xFFFF_FFFF ==>
            (p.cooldown <= n <==> n * interval >= spec.scaleDownCooldown.value))
  {
    if spec.scaleDownGrace.Some? {
      GraceTicksIsLeast(spec.scaleDownGrace.value, INTERVAL_SECS, n);
    }
    CooldownIsLeast(if spec.scaleDownCooldown.Some? then spec.scaleDownCooldown.value else 60, interval, n);
  }

  /** Sessions, or for an API requests in flight. */
  predicate Busy(r: Replica, spec: Spec, inflight: map<ReplicaId, nat>) {
    if spec.kind.Api? then r.id in inflight && inflight[r.id] > 0 else r.sessionsActive > 0
  }

  /**
   What lifetime reaping leaves of a registry, in milliseconds: a replica of the spec goes once it is as
   old as `max-lifetime`, plus the drain window while it is busy, or, idle, as old as `container-lifetime`.
   */
  lemma ReapedAfterLifetime(reg: Replicas, spec: Spec, inflight: map<ReplicaId, nat>, now: int, r: Replica)
    requires UniqueIds(reg) && r in reg
    requires spec.maxLifetime.Some? ==> 1 <= spec.maxLifetime.value <= spec.maxLifetime.value + spec.drainTimeout
                                        <= 0x7FFF_FFFF_FFFF_FFFF
    requires spec.containerLifetime.Some? ==> spec.containerLifetime.value >= 1
    ensures var age := now - r.startedAt;
      var due := if Busy(r, spec, inflight)
                 then spec.maxLifetime.Some? && age >= 1000 * (spec.maxLifetime.value + spec.drainTimeout)
                 else ((spec.maxLifetime.Some? && age >= 1000 * spec.maxLifetime.value)
                       || (spec.containerLifetime.Some? && age >= 1000 * spec.containerLifetime.value));
      Find(Reaped(reg, spec, inflight, now), r.id) == if r.spec == spec.id && due then None else Some(r)
  {
    var pool := Of(reg, spec.id);
    var shown := Overlay(pool, spec, inflight);
    FindUnique(reg, r);
    FindInPool(reg, spec.id, r.id);
    OfMembers(reg, spec.id, r);
    assert UniqueIds(shown) && |shown| == |pool| && forall k :: 0 <= k < |pool| ==> shown[k].id == pool[k].id;
    FindAfterRemoveAll(reg, Aged(reg, spec, inflight, now), r.id);
    if r.spec == spec.id {
      var k :| 0 <= k < |pool| && pool[k] == r;
      ReapedIff(shown, now, spec.maxLifetime, spec.containerLifetime, spec.drainTimeout, shown[k]);
    } else {
      forall q | q in shown
        ensures q.id != r.id
      {
        var k :| 0 <= k < |pool| && shown[k] == q;
        assert pool[k] in pool;
        OfMembers(reg, spec.id, pool[k]);
        FindUnique(reg, pool[k]);
      }
      ReapMembers(shown, now, spec.maxLifetime, spec.containerLifetime, spec.drainTimeout, r.id);
    }
  }

  lemma {:induction false} FindAfterRemoveAll(reg: Replicas, ids: seq<ReplicaId>, id: ReplicaId)
    requires UniqueIds(reg)
    ensures UniqueIds(RemoveAll(reg, ids)) && Find(RemoveAll(reg, ids), id) == if id in ids then None else Find(reg, id)
    decreases |ids|
  {
    if ids != [] {
      FindAfterRemove(reg, ids[0], ids[0]);
      FindAfterRemove(reg, ids[0], id);
      FindAfterRemoveAll(Remove(reg, ids[0]), ids[1..], id);
    }
  }

  lemma GrownStep(before: Replicas, mid: Replicas, r: Replica, spec: Spec, n: nat, next: ReplicaId)
    requires Grown(before, mid, spec, n, next) && FreshFor(r, spec, next + (|mid| - |before|))
    ensures Grown(before, mid + [r], spec, n + 1, next)
    ensures |Of(mid + [r], spec.id)| == |Of(mid, spec.id)| + 1
  {
    OfAfterAdd(mid, r, spec.id);
    var after := mid + [r];
    assert after[..|before|] == mid[..|before|];
    assert forall k :: |before| <= k < |mid| ==> after[k] == mid[k];
  }

  lemma SpawnAdds(before: Replicas, r: Replica, spec: Spec)
    requires Issued(before, r.id) && FreshFor(r, spec, r.id)
    ensures Grown(before, before + [r], spec, 1, r.id) && Issued(before + [r], r.id + 1)
    ensures |Of(before + [r], spec.id)| == |Of(before, spec.id)| + 1
  {
    FindSound(before, r.id);
    UniqueAfterAdd(before, r);
    GrownStep(before, before, r, spec, 0, r.id);
  }

  lemma {:induction false} IssuedAfterRemoveAll(reg: Replicas, ids: seq<ReplicaId>, next: ReplicaId)
    requires Issued(reg, next)
    ensures Issued(RemoveAll(reg, ids), next)
    decreases |ids|
  {
    if ids != [] {
      FindAfterRemove(reg, ids[0], ids[0]);
      IssuedAfterRemoveAll(Remove(reg, ids[0]), ids[1..], next);
    }
  }

  class AutoScaler {
    const fleet: Fleet
    var idleTicks: map<ReplicaId, nat>
    var saturationTicks: map<string, nat>
    var cooldown: map<string, nat>

    constructor (fleet: Fleet)
      ensures this.fleet == fleet && idleTicks == map[] && saturationTicks == map[] && cooldown == map[]
    {
      this.fleet := fleet;
      idleTicks, saturationTicks, cooldown := map[], map[], map[];
    }

    /** Run by one caller at a time per spec. A failure leaves no trace. */
    method SpawnOne(spec: Spec, intent: Intent) returns (o: Outcome)
      requires Issued(fleet.registry.replicas, fleet.backend.nextId)
      modifies fleet.registry, fleet.backend`nextId, fleet.backend`spawned, fleet.backend`tries
      ensures Issued(fleet.registry.replicas, fleet.backend.nextId)
      ensures var pool := Of(old(fleet.registry.replicas), spec.id);
        && (o.Coalesced? <==>
              && intent.EnsureAvailable?
              && exists r ::
                   r in pool && (r.state.Starting? || (r.state.Ready? && r.sessionsActive < r.sessionsMax)))
        && (o.AtCap? <==> !o.Coalesced? && |pool| >= spec.maxReplicas)
        && (o.Failed? ==> !fleet.backend.reliable || !spec.hasImage)
      ensures o.Spawned? ==>
                && o.id == old(fleet.backend.nextId) && fleet.backend.nextId == o.id + 1
                && fleet.backend.spawned == old(fleet.backend.spawned) + [o.id]
                && |fleet.registry.replicas| == |old(fleet.registry.replicas)| + 1
                && Grown(old(fleet.registry.replicas), fleet.registry.replicas, spec, 1, o.id)
                && |Of(fleet.registry.replicas, spec.id)| == |Of(old(fleet.registry.replicas), spec.id)| + 1
      ensures !o.Spawned? ==>
                && fleet.registry.replicas == old(fleet.registry.replicas)
                && fleet.backend.nextId == old(fleet.backend.nextId)
                   && fleet.backend.spawned == old(fleet.backend.spawned)
      ensures fleet.backend.tries == old(fleet.backend.tries)
              + if o.Spawned? || (o.Failed? && spec.hasImage) then 1 else 0
    {
      hide Grown, Issued, Of;
      if intent.EnsureAvailable? {
        var replicas := fleet.registry.ReplicasOf(spec.id);
        if exists r :: r in replicas && (r.state.Starting? || r.IsAccepting()) {
          return Coalesced;
        }
      }
      var live := fleet.registry.ReplicasOf(spec.id);
      if |live| >= spec.maxReplicas {
        return AtCap;
      }
      if !spec.hasImage {
        return Outcome.Failed;
      }
      var ready := fleet.backend.Preflight();
      if !ready {
        return Outcome.Failed;
      }
      var spawned := fleet.backend.Spawn(spec.id);
      if spawned.None? {
        return Outcome.Failed;
      }
      var replica := spawned.value.(sessionsMax := spec.seats);
      SpawnAdds(fleet.registry.replicas, replica, spec);
      fleet.registry.Add(replica);
      return Spawned(replica.id);
    }

    /** One more idle tick for each idle replica of the snapshot; every other counter goes. */
    method UpdateIdleTicks(snap: Replicas, now: int)
      requires UniqueIds(snap)
      modifies `idleTicks
      ensures idleTicks == H.Counted(old(idleTicks), snap, now)
    {
      hide CountedBefore, H.Counted;
      ghost var was := idleTicks;
      idleTicks := map id | id in idleTicks && id in Ids(snap) :: idleTicks[id];
      CountingStarts(was, snap, now, idleTicks);
      for i := 0 to |snap|
        invariant CountedBefore(was, snap, now, idleTicks, i)
      {
        var r := snap[i];
        CountingStep(was, snap, now, idleTicks, i);
        var young := now - r.startedAt < YOUNG_REPLICA_GRACE_MS;
        if r.sessionsActive == 0 && !young {
          idleTicks := idleTicks[r.id := 1 + if r.id in idleTicks then idleTicks[r.id] else 0];
        } else {
          idleTicks := idleTicks - {r.id};
        }
      }
      CountingEnds(was, snap, now, idleTicks);
    }

    method ReapAged(spec: Spec, aged: seq<ReplicaId>)
      modifies `idleTicks, fleet.registry, fleet.sessions, fleet.backend`stops, fleet.backend`stopped
      ensures fleet.registry.replicas == RemoveAll(old(fleet.registry.replicas), aged)
      ensures idleTicks == old(idleTicks) - ToSet(aged)
    {
      for i := 0 to |aged|
        invariant RemoveAll(old(fleet.registry.replicas), aged) == RemoveAll(fleet.registry.replicas, aged[i..])
        invariant idleTicks == old(idleTicks) - ToSet(aged[..i])
      {
        var _ := fleet.StopOne(aged[i]);
        idleTicks := idleTicks - {aged[i]};
        assert aged[i..][1..] == aged[i + 1..];
        assert ToSet(aged[..i + 1]) == ToSet(aged[..i]) + {aged[i]};
      }
      assert aged[..|aged|] == aged;
    }

    /** Up to `n` spawns, giving up at the first failure. */
    method FillToMin(spec: Spec, n: nat)
      requires Issued(fleet.registry.replicas, fleet.backend.nextId) && spec.Managed()
      modifies fleet.registry, fleet.backend`nextId, fleet.backend`spawned, fleet.backend`tries
      ensures Issued(fleet.registry.replicas, fleet.backend.nextId)
      ensures CarriedOut(old(fleet.registry.replicas), fleet.registry.replicas, spec, H.Fill(n),
                         old(fleet.backend.nextId), fleet.backend.reliable)
      ensures old(fleet.backend.nextId) <= fleet.backend.nextId
      ensures fleet.backend.tries <=
              old(fleet.backend.tries) + (|fleet.registry.replicas| - |old(fleet.registry.replicas)|) + 1
    {
      ghost var before, next := fleet.registry.replicas, fleet.backend.nextId;
      for i := 0 to n
        invariant Issued(fleet.registry.replicas, fleet.backend.nextId)
        invariant fleet.backend.nextId == next + (|fleet.registry.replicas| - |before|)
        invariant Grown(before, fleet.registry.replicas, spec, i, next)
        invariant fleet.backend.tries == old(fleet.backend.tries) + (|fleet.registry.replicas| - |before|)
        invariant |Of(fleet.registry.replicas, spec.id)| <= Max(|Of(before, spec.id)|, spec.maxReplicas)
        invariant |Of(fleet.registry.replicas, spec.id)| >= Min(|Of(before, spec.id)| + i, spec.maxReplicas)
      {
        ghost var mid := fleet.registry.replicas;
        var o := SpawnOne(spec, AddCapacity);
        if o.Failed? {
          break;
        }
        if o.Spawned? {
          GrownMore(before, mid, fleet.registry.replicas, spec, i, next);
        }
      }
    }

    /** Stop the victims; whether any stop succeeded. */
    method DropIdle(victims: seq<ReplicaId>) returns (stopped: bool)
      modifies `idleTicks, fleet.registry, fleet.sessions, fleet.backend`stops, fleet.backend`stopped
      ensures fleet.registry.replicas == RemoveAll(old(fleet.registry.replicas), victims)
      ensures idleTicks == old(idleTicks) - ToSet(victims)
      ensures fleet.backend.reliable && victims != [] ==> stopped
      ensures fleet.backend.stops == old(fleet.backend.stops) + victims
      ensures stopped <==> |fleet.backend.stopped| > |old(fleet.backend.stopped)|
    {
      stopped := false;
      for i := 0 to |victims|
        invariant RemoveAll(old(fleet.registry.replicas), victims) == RemoveAll(fleet.registry.replicas, victims[i..])
        invariant idleTicks == old(idleTicks) - ToSet(victims[..i])
        invariant fleet.backend.reliable && i > 0 ==> stopped
        invariant |fleet.backend.stopped| >= |old(fleet.backend.stopped)|
        invariant stopped <==> |fleet.backend.stopped| > |old(fleet.backend.stopped)|
        invariant fleet.backend.stops == old(fleet.backend.stops) + victims[..i]
      {
        var ok := fleet.StopOne(victims[i]);
        stopped := stopped || ok;
        idleTicks := idleTicks - {victims[i]};
        assert victims[i..][1..] == victims[i + 1..];
        assert victims[..i + 1] == victims[..i] + [victims[i]];
        assert ToSet(victims[..i + 1]) == ToSet(victims[..i]) + {victims[i]};
      }
      assert victims[..|victims|] == victims;
    }

    /** Recycle what is past its lifetime and read the pool again. */
    method ReapPass(spec: Spec, inflight: map<ReplicaId, nat>, now: int) returns (snap: Replicas)
      requires Issued(fleet.registry.replicas, fleet.backend.nextId)
      modifies `idleTicks, fleet.registry, fleet.sessions, fleet.backend`stops, fleet.backend`stopped
      ensures Issued(fleet.registry.replicas, fleet.backend.nextId)
      ensures fleet.registry.replicas == Reaped(old(fleet.registry.replicas), spec, inflight, now)
      ensures snap == PoolSeen(old(fleet.registry.replicas), spec, inflight, now)
      ensures idleTicks == old(idleTicks) - ToSet(Aged(old(fleet.registry.replicas), spec, inflight, now))
    {
      hide Of, Overlay, LifetimeReap, RemoveAll, Issued;
      ghost var was := fleet.registry.replicas;
      var pool := fleet.registry.ReplicasOf(spec.id);
      var aged := LifetimeReap(Overlay(pool, spec, inflight), now, spec.maxLifetime, spec.containerLifetime,
                               spec.drainTimeout);
      NothingAged(was, idleTicks);
      if aged != [] {
        ReapAged(spec, aged);
        pool := fleet.registry.ReplicasOf(spec.id);
      }
      IssuedAfterRemoveAll(was, aged, fleet.backend.nextId);
      snap := Overlay(pool, spec, inflight);
    }

    /** The scale-down pass; a successful stop arms the cooldown. */
    method ShrinkPass(spec: Spec, p: H.Policy, snap: Replicas) returns (plan: H.Plan, stopped: bool)
      requires Issued(fleet.registry.replicas, fleet.backend.nextId)
      modifies `idleTicks, `cooldown, fleet.registry, fleet.sessions, fleet.backend`stops, fleet.backend`stopped
      ensures Issued(fleet.registry.replicas, fleet.backend.nextId)
      ensures plan == H.Drop(if |snap| > p.min && (p.down.Some? ==> QuieterThan(snap, p.down.value))
                             then H.Victims(snap, old(idleTicks), p.dropAfter, |snap| - p.min) else [])
      ensures idleTicks == old(idleTicks) - ToSet(plan.victims)
      ensures Lookup(cooldown, spec.id) ==
              if plan.victims != [] && stopped && p.cooldown > 0 then p.cooldown else Lookup(old(cooldown), spec.id)
      ensures OthersKept(old(cooldown), cooldown, spec.id)
      ensures CarriedOut(old(fleet.registry.replicas), fleet.registry.replicas, spec, plan,
                         fleet.backend.nextId, fleet.backend.reliable)
      ensures plan.victims != [] && fleet.backend.reliable ==> stopped
      ensures stopped <==> |fleet.backend.stopped| > |old(fleet.backend.stopped)|
    {
      hide H.Victims, CarriedOut, Issued, RemoveAll;
      stopped := false;
      plan := H.Drop([]);
      ghost var before, next := fleet.registry.replicas, fleet.backend.nextId;
      NothingCarriedOut(before, spec, next, fleet.backend.reliable);
      NothingAged(before, idleTicks);
      if |snap| > p.min {
        var underutilized := p.down.Some? ==> QuieterThan(snap, p.down.value);
        var victims := if underutilized then H.Victims(snap, idleTicks, p.dropAfter, |snap| - p.min) else [];
        plan := H.Drop(victims);
        if victims != [] {
          stopped := DropIdle(victims);
          DropCarriedOut(before, victims, spec, next, fleet.backend.reliable);
          if stopped && p.cooldown > 0 {
            cooldown := cooldown[spec.id := p.cooldown];
          }
          IssuedAfterRemoveAll(before, victims, next);
        }
      }
    }

    /** The scale passes over the pool as seen; `c` is what the decision goes by. */
    method ScalePass(spec: Spec, p: H.Policy, snap: Replicas, cooling: bool, ghost c: H.Counters)
      returns (plan: H.Plan, stopped: bool)
      requires Issued(fleet.registry.replicas, fleet.backend.nextId) && spec.Managed()
      requires Slice(spec.id) == c.(cooling := if c.cooling > 0 then c.cooling - 1 else 0)
              && (cooling <==> c.cooling > 0)
      modifies this, fleet.registry, fleet.sessions, fleet.backend`nextId, fleet.backend`spawned,
               fleet.backend`tries, fleet.backend`stops, fleet.backend`stopped
      ensures Issued(fleet.registry.replicas, fleet.backend.nextId)
      ensures plan == H.Decide(p, snap, c) && Slice(spec.id) == H.After(p, c, plan, stopped)
      ensures OthersKept(old(saturationTicks), saturationTicks, spec.id) && OthersKept(old(cooldown), cooldown, spec.id)
      ensures CarriedOut(old(fleet.registry.replicas), fleet.registry.replicas, spec, plan,
                         old(fleet.backend.nextId), fleet.backend.reliable)
      ensures plan.Drop? && plan.victims != [] && fleet.backend.reliable ==> stopped
      ensures stopped <==> |fleet.backend.stopped| > |old(fleet.backend.stopped)|
      ensures old(fleet.backend.nextId) <= fleet.backend.nextId
    {
      hide H.Victims, ScaleUpTriggered, CarriedOut, Issued, Grown, Of, RemoveAll;
      stopped := false;
      ghost var before := fleet.registry.replicas;
      ghost var next := fleet.backend.nextId;
      NothingCarriedOut(before, spec, next, fleet.backend.reliable);
      var count := |snap|;
      if count < p.min {
        plan := H.Fill(p.min - count);
        FillToMin(spec, p.min - count);
        saturationTicks := saturationTicks - {spec.id};
        return;
      }
      if count < p.max && ScaleUpTriggered(snap, p.up) {
        if cooling {
          saturationTicks := saturationTicks - {spec.id};
          plan := H.HoldOff;
          return;
        }
        var n := Lookup(saturationTicks, spec.id) + 1;
        saturationTicks := saturationTicks[spec.id := n];
        plan := H.Wait;
        if n >= p.spawnAfter {
          plan := H.SpawnExtra;
          var o := SpawnOne(spec, AddCapacity);
          SpawnCarriedOut(before, fleet.registry.replicas, spec, o, next, fleet.backend.reliable);
          saturationTicks := saturationTicks - {spec.id};
        }
        return;
      }
      saturationTicks := saturationTicks - {spec.id};
      plan, stopped := ShrinkPass(spec, p, snap);
    }

    /** One spec's turn in a tick: reap, then fill to min, or grow, or shrink. */
    method ScaleSpec(spec: Spec, p: H.Policy, inflight: map<ReplicaId, nat>, now: int)
      returns (plan: H.Plan, stopped: bool)
      requires Issued(fleet.registry.replicas, fleet.backend.nextId) && spec.Managed()
      modifies this, fleet.registry, fleet.sessions, fleet.backend`nextId, fleet.backend`spawned,
               fleet.backend`tries, fleet.backend`stops, fleet.backend`stopped
      ensures Issued(fleet.registry.replicas, fleet.backend.nextId)
      ensures plan == H.Decide(p, PoolSeen(old(fleet.registry.replicas), spec, inflight, now),
                               Entering(old(Slice(spec.id)), Aged(old(fleet.registry.replicas), spec, inflight, now)))
      ensures Slice(spec.id) ==
              H.After(p, Entering(old(Slice(spec.id)), Aged(old(fleet.registry.replicas), spec, inflight, now)), plan,
                      stopped)
      ensures OthersKept(old(saturationTicks), saturationTicks, spec.id) && OthersKept(old(cooldown), cooldown, spec.id)
      ensures CarriedOut(Reaped(old(fleet.registry.replicas), spec, inflight, now), fleet.registry.replicas, spec, plan,
                         old(fleet.backend.nextId), fleet.backend.reliable)
      ensures plan.Drop? && plan.victims != [] && fleet.backend.reliable ==> stopped
      ensures old(fleet.backend.nextId) <= fleet.backend.nextId
    {
      hide H.Decide, H.After, CarriedOut, Issued, PoolSeen, Reaped, Aged;
      ghost var c := Entering(Slice(spec.id), Aged(fleet.registry.replicas, spec, inflight, now));
      var cooling := Lookup(cooldown, spec.id) > 0;
      if spec.id in cooldown {
        var left := cooldown[spec.id];
        cooldown := if left <= 1 then cooldown - {spec.id} else cooldown[spec.id := left - 1];
      }
      var snap := ReapPass(spec, inflight, now);
      plan, stopped := ScalePass(spec, p, snap, cooling, c);
    }

    /** The counters that concern one spec. */
    function Slice(id: string): H.Counters
      reads this
    {
      H.Counters(idleTicks, Lookup(saturationTicks, id), Lookup(cooldown, id))
    }
  }

  /** The counters once the replicas reaped this tick are forgotten. */
  function Entering(c: H.Counters, aged: seq<ReplicaId>): H.Counters {
    c.(idle := c.idle - ToSet(aged))
  }

  ghost predicate OthersKept(was: map<string, nat>, m: map<string, nat>, id: string) {
    forall other :: other != id ==> (other in m <==> other in was) && (other in m ==> m[other] == was[other])
  }

  lemma NothingAged(reg: Replicas, idle: map<ReplicaId, nat>)
    ensures RemoveAll(reg, []) == reg && idle - ToSet([]) == idle
  {
  }

  lemma NothingCarriedOut(reg: Replicas, spec: Spec, next: ReplicaId, reliable: bool)
    ensures CarriedOut(reg, reg, spec, H.HoldOff, next, reliable) && CarriedOut(reg, reg, spec, H.Wait, next, reliable)
    ensures CarriedOut(reg, reg, spec, H.Drop([]), next, reliable)
  {
  }

  lemma DropCarriedOut(reg: Replicas, victims: seq<ReplicaId>, spec: Spec, next: ReplicaId, reliable: bool)
    ensures CarriedOut(reg, RemoveAll(reg, victims), spec, H.Drop(victims), next, reliable)
  {
  }

  lemma SpawnCarriedOut(before: Replicas, after: Replicas, spec: Spec, o: Outcome, next: ReplicaId, reliable: bool)
    requires o.Spawned? ==> Grown(before, after, spec, 1, next) && |Of(after, spec.id)| == |Of(before, spec.id)| + 1
                            && |Of(before, spec.id)| < spec.maxReplicas
    requires !o.Spawned? ==> after == before && (o.AtCap? ==> |Of(before, spec.id)| >= spec.maxReplicas)
    requires o.Failed? ==> !reliable
    requires !o.Coalesced?
    ensures CarriedOut(before, after, spec, H.SpawnExtra, next, reliable)
  {
  }

  /** The counters once the first `i` replicas of the snapshot are counted. */
  ghost predicate CountedBefore(was: map<ReplicaId, nat>, snap: Replicas, now: int, m: map<ReplicaId, nat>, i: nat)
    requires i <= |snap|
  {
    && (forall id :: id in m ==> id in Ids(snap))
    && (forall k :: i <= k < |snap| ==> Kept(was, m, snap[k].id))
    && (forall k :: 0 <= k < i ==> Bumped(was, m, snap[k], now))
  }

  predicate Kept(was: map<ReplicaId, nat>, m: map<ReplicaId, nat>, id: ReplicaId) {
    (id in m <==> id in was) && (id in m ==> m[id] == was[id])
  }

  predicate Bumped(was: map<ReplicaId, nat>, m: map<ReplicaId, nat>, r: Replica, now: int) {
    (r.id in m <==> H.CountsIdle(r, now)) && (r.id in m ==> m[r.id] == H.IdleCount(was, r.id) + 1)
  }

  lemma CountingStarts(was: map<ReplicaId, nat>, snap: Replicas, now: int, m: map<ReplicaId, nat>)
    requires m == map id | id in was && id in Ids(snap) :: was[id]
    ensures CountedBefore(was, snap, now, m, 0)
  {
    forall k | 0 <= k < |snap|
      ensures Kept(was, m, snap[k].id)
    {
      assert snap[k] in snap && snap[k].id in Ids(snap);
    }
  }

  lemma CountingStep(was: map<ReplicaId, nat>, snap: Replicas, now: int, m: map<ReplicaId, nat>, i: nat)
    requires UniqueIds(snap) && i < |snap| && CountedBefore(was, snap, now, m, i)
    ensures var r := snap[i];
      CountedBefore(was, snap, now,
                    if H.CountsIdle(r, now) then m[r.id := 1 + if r.id in m then m[r.id] else 0] else m - {r.id}, i + 1)
  {
    var r := snap[i];
    assert r in snap && r.id in Ids(snap) && Kept(was, m, r.id);
    assert forall k :: 0 <= k < |snap| && k != i ==> snap[k].id != r.id;
  }

  lemma CountingEnds(was: map<ReplicaId, nat>, snap: Replicas, now: int, m: map<ReplicaId, nat>)
    requires UniqueIds(snap) && CountedBefore(was, snap, now, m, |snap|)
    ensures m == H.Counted(was, snap, now)
  {
    var c := H.Counted(was, snap, now);
    forall id
      ensures id in m <==> id in c
      ensures id in m ==> m[id] == c[id]
    {
      if id in m {
        var r :| r in snap && r.id == id;
        var k :| 0 <= k < |snap| && snap[k] == r;
        assert Bumped(was, m, snap[k], now);
      }
      if id in c {
        var r :| r in snap && r.id == id && H.CountsIdle(r, now);
        var k :| 0 <= k < |snap| && snap[k] == r;
        assert Bumped(was, m, snap[k], now);
      }
    }
  }

  lemma GrownMore(before: Replicas, mid: Replicas, after: Replicas, spec: Spec, n: nat, next: ReplicaId)
    requires Grown(before, mid, spec, n, next) && Grown(mid, after, spec, 1, next + (|mid| - |before|))
            && |after| == |mid| + 1
    ensures Grown(before, after, spec, n + 1, next)
  {
    assert after[..|before|] == after[..|mid|][..|before|];
    assert forall k :: |before| <= k < |mid| ==> after[k] == after[..|mid|][k];
  }
}
