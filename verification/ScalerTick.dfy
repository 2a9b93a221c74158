/**
 One whole tick of the scaler over the catalog (crates/ruscker-admin/src/scaler.rs): idle
 accounting, the liveness pass, then every spec's turn. After an undisturbed tick every managed
 spec is within its limits, and its counters moved by one step of the machine in Hysteresis.
 */
module ScalerTick {
  import opened Wrappers
  import opened Registries
  import opened ScalingRules
  import opened Fleets
  import opened Liveness
  import opened Scaler
  import H = Hysteresis

  // ---- What a turn does to the pools ----

  lemma {:induction false} PoolShrinks(reg: Replicas, ids: seq<ReplicaId>, name: string)
    ensures |Of(reg, name)| - |ids| <= |Of(RemoveAll(reg, ids), name)| <= |Of(reg, name)|
    decreases |ids|
  {
    if ids != [] {
      OfAfterRemove(reg, ids[0], name);
      PoolShrinks(Remove(reg, ids[0]), ids[1..], name);
    }
  }

  /** Removing replicas of other specs leaves a pool as it was. */
  lemma {:induction false} OtherPoolKept(reg: Replicas, ids: seq<ReplicaId>, name: string)
    requires UniqueIds(reg)
    requires forall id :: id in ids && Find(reg, id).Some? ==> Find(reg, id).value.spec != name
    ensures Of(RemoveAll(reg, ids), name) == Of(reg, name)
    decreases |ids|
  {
    if ids != [] {
      OfAfterRemove(reg, ids[0], name);
      assert ids[0] in ids && forall id :: id in ids[1..] ==> id in ids;
      forall id | id in ids
        ensures UniqueIds(Remove(reg, ids[0]))
        ensures Find(Remove(reg, ids[0]), id) == if id == ids[0] then None else Find(reg, id)
      {
        FindAfterRemove(reg, ids[0], id);
      }
      OtherPoolKept(Remove(reg, ids[0]), ids[1..], name);
    }
  }

  lemma {:induction false} OthersAppended(reg: Replicas, tail: Replicas, name: string)
    requires forall r :: r in tail ==> r.spec != name
    ensures Of(reg + tail, name) == Of(reg, name)
    decreases |tail|
  {
    if tail == [] {
      assert reg + tail == reg;
    } else {
      var n := |tail| - 1;
      assert forall r :: r in tail[..n] ==> r in tail;
      OthersAppended(reg, tail[..n], name);
      assert tail[n] in tail;
      OfAfterAdd(reg + tail[..n], tail[n], name);
      assert reg + tail == reg + tail[..n] + [tail[n]];
    }
  }

  lemma GrowthElsewhere(before: Replicas, after: Replicas, spec: Spec, n: nat, next: ReplicaId, name: string)
    requires Grown(before, after, spec, n, next) && name != spec.id
    ensures Of(after, name) == Of(before, name)
  {
    var tail := after[|before|..];
    assert after == before + tail;
    forall r | r in tail
      ensures r.spec != name
    {
      var k :| 0 <= k < |tail| && tail[k] == r;
      assert FreshFor(after[|before| + k], spec, next + k);
    }
    OthersAppended(before, tail, name);
  }

  lemma OverlayKeepsIds(rs: Replicas, spec: Spec, inflight: map<ReplicaId, nat>, r: Replica)
    requires r in Overlay(rs, spec, inflight)
    ensures exists q :: q in rs && q.id == r.id
  {
    var k :| 0 <= k < |rs| && Overlay(rs, spec, inflight)[k] == r;
    assert rs[k] in rs && rs[k].id == r.id;
  }

  /** The ids a turn removes are ids of its own spec. */
  lemma OwnReplicas(reg: Replicas, spec: Spec, inflight: map<ReplicaId, nat>, r: Replica)
    requires UniqueIds(reg) && r in Overlay(Of(reg, spec.id), spec, inflight)
    ensures Find(reg, r.id).Some? && Find(reg, r.id).value.spec == spec.id
  {
    OverlayKeepsIds(Of(reg, spec.id), spec, inflight, r);
    var q :| q in Of(reg, spec.id) && q.id == r.id;
    OfMembers(reg, spec.id, q);
    FindUnique(reg, q);
  }

  lemma {:induction false} FewVictims(snap: Replicas, idle: map<ReplicaId, nat>, dropAfter: nat, limit: nat)
    ensures |H.Victims(snap, idle, dropAfter, limit)| <= limit
    decreases |snap|
  {
    if snap != [] && limit > 0 {
      FewVictims(snap[1..], idle, dropAfter, limit - 1);
      FewVictims(snap[1..], idle, dropAfter, limit);
    }
  }

  lemma ReapedElsewhere(reg: Replicas, spec: Spec, inflight: map<ReplicaId, nat>, now: int, next: ReplicaId,
                        name: string)
    requires Issued(reg, next)
    ensures Issued(Reaped(reg, spec, inflight, now), next)
    ensures name != spec.id ==> Of(Reaped(reg, spec, inflight, now), name) == Of(reg, name)
    ensures |Of(Reaped(reg, spec, inflight, now), name)| <= |Of(reg, name)|
  {
    var aged := Aged(reg, spec, inflight, now);
    IssuedAfterRemoveAll(reg, aged, next);
    PoolShrinks(reg, aged, name);
    if name != spec.id {
      forall id | id in aged && Find(reg, id).Some?
        ensures Find(reg, id).value.spec != name
      {
        var pool := Overlay(Of(reg, spec.id), spec, inflight);
        ReapMembers(pool, now, spec.maxLifetime, spec.containerLifetime, spec.drainTimeout, id);
        var r :| r in pool && r.id == id;
        OwnReplicas(reg, spec, inflight, r);
      }
      OtherPoolKept(reg, aged, name);
    }
  }

  /** What a turn promises about the pools. */
  ghost predicate TurnTaken(spec: Spec, before: Replicas, after: Replicas, reliable: bool) {
    && (|Of(before, spec.id)| <= spec.maxReplicas ==> |Of(after, spec.id)| <= spec.maxReplicas)
    && (reliable ==> |Of(after, spec.id)| >= Min(spec.minReplicas, spec.maxReplicas))
    && (forall name :: name != spec.id ==> Of(after, name) == Of(before, name))
  }

  /** Whatever the plan, a turn keeps its spec under the cap, and at its minimum if spawns succeed. */
  lemma TurnKeepsLimits(before: Replicas, after: Replicas, spec: Spec, p: H.Policy, c: H.Counters,
                        inflight: map<ReplicaId, nat>, now: int, next: ReplicaId, reliable: bool)
    requires Issued(before, next) && p.min == spec.minReplicas && p.max == spec.maxReplicas
    requires var plan := H.Decide(p, PoolSeen(before, spec, inflight, now), c);
      CarriedOut(Reaped(before, spec, inflight, now), after, spec, plan, next, reliable)
    ensures TurnTaken(spec, before, after, reliable)
  {
    var mid := Reaped(before, spec, inflight, now);
    var snap := PoolSeen(before, spec, inflight, now);
    var plan := H.Decide(p, snap, c);
    assert |snap| == |Of(mid, spec.id)|;
    ReapedElsewhere(before, spec, inflight, now, next, spec.id);
    hide Reaped, PoolSeen, Of, Overlay;
    if plan.Drop? && plan.victims != [] {
      FewVictims(snap, c.idle, p.dropAfter, |snap| - p.min);
      PoolShrinks(mid, plan.victims, spec.id);
    }
    forall name | name != spec.id
      ensures Of(after, name) == Of(before, name)
    {
      ReapedElsewhere(before, spec, inflight, now, next, name);
      PlanElsewhere(mid, after, spec, p, snap, c, inflight, next, reliable, name);
    }
  }

  lemma PlanElsewhere(mid: Replicas, after: Replicas, spec: Spec, p: H.Policy, snap: Replicas, c: H.Counters,
                      inflight: map<ReplicaId, nat>, next: ReplicaId, reliable: bool, name: string)
    requires UniqueIds(mid) && snap == Overlay(Of(mid, spec.id), spec, inflight) && name != spec.id
    requires CarriedOut(mid, after, spec, H.Decide(p, snap, c), next, reliable)
    ensures Of(after, name) == Of(mid, name)
  {
    match H.Decide(p, snap, c)
    case Fill(n) => GrowthElsewhere(mid, after, spec, n, next, name);
    case SpawnExtra => GrowthElsewhere(mid, after, spec, 1, next, name);
    case Drop(victims) =>
      forall id | id in victims && Find(mid, id).Some?
        ensures Find(mid, id).value.spec != name
      {
        H.VictimsAreIdle(snap, c.idle, p.dropAfter, |snap| - p.min, id);
        var r :| r in snap && r.id == id && r.sessionsActive == 0;
        OwnReplicas(mid, spec, inflight, r);
      }
      OtherPoolKept(mid, victims, name);
    case _ =>
  }

  // ---- A turn, as its own pool sees it ----

  /** The pool without the replicas past their lifetime. */
  function ReapedPool(pool: Replicas, spec: Spec, inflight: map<ReplicaId, nat>, now: int): Replicas {
    RemoveAll(pool, LifetimeReap(Overlay(pool, spec, inflight), now, spec.maxLifetime, spec.containerLifetime,
                                 spec.drainTimeout))
  }

  /** What one tick holds fixed: in-flight API requests, the clock for lifetimes, the first new id. */
  datatype Ground = Ground(inflight: map<ReplicaId, nat>, now: int, next: ReplicaId, reliable: bool)

  /** `after` is `pool` with at most `n` new Ready replicas without sessions at its end. */
  predicate PoolGrown(pool: Replicas, after: Replicas, spec: Spec, n: nat, next: ReplicaId) {
    && |pool| <= |after| <= |pool| + n && after[..|pool|] == pool
    && forall k :: |pool| <= k < |after| ==> FreshFor(after[k], spec, after[k].id) && after[k].id >= next
  }

  /** What a plan makes of the pool; only an unreliable backend lets a spawn fall short. */
  ghost predicate PoolCarriedOut(pool: Replicas, after: Replicas, spec: Spec, plan: H.Plan, g: Ground) {
    match plan
    case Fill(n) =>
      && PoolGrown(pool, after, spec, n, g.next) && |after| <= Max(|pool|, spec.maxReplicas)
      && (g.reliable ==> |after| >= Min(|pool| + n, spec.maxReplicas))
    case SpawnExtra =>
      && PoolGrown(pool, after, spec, 1, g.next) && |after| <= Max(|pool|, spec.maxReplicas)
      && (g.reliable ==> |after| >= Min(|pool| + 1, spec.maxReplicas))
    case Drop(victims) => after == RemoveAll(pool, victims)
    case _ => after == pool
  }

  lemma {:induction false} RemoveAbsent(pool: Replicas, id: ReplicaId)
    requires Find(pool, id).None?
    ensures Remove(pool, id) == pool
  {
    if pool != [] {
      RemoveAbsent(pool[1..], id);
    }
  }

  /** Removing replicas of a pool from the registry removes them from the pool. */
  lemma {:induction false} PoolAfterRemoveAll(reg: Replicas, ids: seq<ReplicaId>, name: string)
    requires UniqueIds(reg) && forall id :: id in ids && Find(reg, id).Some? ==> Find(reg, id).value.spec == name
    ensures Of(RemoveAll(reg, ids), name) == RemoveAll(Of(reg, name), ids)
    decreases |ids|
  {
    if ids != [] {
      var rest := Remove(reg, ids[0]);
      OfAfterRemove(reg, ids[0], name);
      FindInPool(reg, name, ids[0]);
      if Find(reg, ids[0]).None? {
        RemoveAbsent(Of(reg, name), ids[0]);
      }
      assert ids[0] in ids && forall id :: id in ids[1..] ==> id in ids;
      forall id | id in ids
        ensures UniqueIds(rest) && Find(rest, id) == if id == ids[0] then None else Find(reg, id)
      {
        FindAfterRemove(reg, ids[0], id);
      }
      FindAfterRemove(reg, ids[0], ids[0]);
      PoolAfterRemoveAll(rest, ids[1..], name);
    }
  }

  lemma ReapedInPool(reg: Replicas, spec: Spec, inflight: map<ReplicaId, nat>, now: int)
    requires UniqueIds(reg)
    ensures Of(Reaped(reg, spec, inflight, now), spec.id) == ReapedPool(Of(reg, spec.id), spec, inflight, now)
    ensures UniqueIds(Reaped(reg, spec, inflight, now))
  {
    var pool := Overlay(Of(reg, spec.id), spec, inflight);
    forall id | id in Aged(reg, spec, inflight, now) && Find(reg, id).Some?
      ensures Find(reg, id).value.spec == spec.id
    {
      ReapMembers(pool, now, spec.maxLifetime, spec.containerLifetime, spec.drainTimeout, id);
      var r :| r in pool && r.id == id;
      OwnReplicas(reg, spec, inflight, r);
    }
    PoolAfterRemoveAll(reg, Aged(reg, spec, inflight, now), spec.id);
    RemoveAllStaysUnique(reg, Aged(reg, spec, inflight, now));
  }

  lemma {:induction false} RemoveAllStaysUnique(reg: Replicas, ids: seq<ReplicaId>)
    requires UniqueIds(reg)
    ensures UniqueIds(RemoveAll(reg, ids))
    decreases |ids|
  {
    if ids != [] {
      FindAfterRemove(reg, ids[0], ids[0]);
      RemoveAllStaysUnique(Remove(reg, ids[0]), ids[1..]);
    }
  }

  lemma {:induction false} OwnAppended(reg: Replicas, tail: Replicas, name: string)
    requires forall r :: r in tail ==> r.spec == name
    ensures Of(reg + tail, name) == Of(reg, name) + tail
    decreases |tail|
  {
    if tail == [] {
      assert reg + tail == reg && Of(reg, name) + tail == Of(reg, name);
    } else {
      var n := |tail| - 1;
      assert forall r :: r in tail[..n] ==> r in tail;
      OwnAppended(reg, tail[..n], name);
      assert tail[n] in tail;
      OfAfterAdd(reg + tail[..n], tail[n], name);
      assert reg + tail == reg + tail[..n] + [tail[n]];
      assert Of(reg, name) + tail == Of(reg, name) + tail[..n] + [tail[n]];
    }
  }

  lemma GrowthInPool(before: Replicas, after: Replicas, spec: Spec, n: nat, next: ReplicaId, since: ReplicaId)
    requires Grown(before, after, spec, n, next) && since <= next
    ensures PoolGrown(Of(before, spec.id), Of(after, spec.id), spec, n, since)
  {
    var tail := after[|before|..];
    assert after == before + tail;
    forall k | 0 <= k < |tail|
      ensures FreshFor(tail[k], spec, tail[k].id) && tail[k].id >= since
    {
      assert FreshFor(after[|before| + k], spec, next + k);
    }
    OwnAppended(before, tail, spec.id);
  }

  /** The turn's plan, carried out on the registry, is carried out on the pool. */
  lemma PlanInPool(mid: Replicas, after: Replicas, spec: Spec, p: H.Policy, snap: Replicas, c: H.Counters,
                   next: ReplicaId, g: Ground)
    requires UniqueIds(mid) && snap == Overlay(Of(mid, spec.id), spec, g.inflight) && g.next <= next
    requires CarriedOut(mid, after, spec, H.Decide(p, snap, c), next, g.reliable)
    ensures PoolCarriedOut(Of(mid, spec.id), Of(after, spec.id), spec, H.Decide(p, snap, c), g)
  {
    match H.Decide(p, snap, c)
    case Fill(n) => GrowthInPool(mid, after, spec, n, next, g.next);
    case SpawnExtra => GrowthInPool(mid, after, spec, 1, next, g.next);
    case Drop(victims) =>
      forall id | id in victims && Find(mid, id).Some?
        ensures Find(mid, id).value.spec == spec.id
      {
        H.VictimsAreIdle(snap, c.idle, p.dropAfter, |snap| - p.min, id);
        var r :| r in snap && r.id == id && r.sessionsActive == 0;
        OwnReplicas(mid, spec, g.inflight, r);
      }
      PoolAfterRemoveAll(mid, victims, spec.id);
    case _ =>
  }

  // ---- The liveness pass within the tick ----

  lemma IssuedAfterPass(sc: Scan, snap: Replicas, before: Replicas, reg: Replicas, next: ReplicaId)
    requires KnownPool(sc, snap) && SecondDone(sc, snap, before, reg, {}) && Issued(before, next)
    requires forall r :: r in snap ==> r in before
    requires forall id :: id in sc.report.running ==> id < next
    ensures Issued(reg, next)
  {
    forall r | r in reg
      ensures r.id < next
    {
      FindUnique(reg, r);
      if r.id in Ids(snap) {
        var q :| q in snap && q.id == r.id;
      } else if Find(reg, r.id) == Find(before, r.id) {
        FindSound(before, r.id);
      }
    }
  }

  /** The registry after the tick's liveness pass: every replica met its fate, or no report arrived. */
  ghost predicate Passed(specs: seq<Spec>, report: Option<Report>, answering: set<ReplicaId>, now: int,
                         before: Replicas, after: Replicas)
  {
    if report.None? then after == before
    else
      var sc := Scan(specs, report.value, answering, now);
      KnownPool(sc, Snapshot(specs, before)) && SecondDone(sc, Snapshot(specs, before), before, after, {})
  }

  lemma PassedKeepsCaps(specs: seq<Spec>, report: Option<Report>, answering: set<ReplicaId>, now: int,
                        before: Replicas, after: Replicas)
    requires Passed(specs, report, answering, now, before, after)
    ensures forall spec :: spec in specs ==> |Of(after, spec.id)| <= Max(|Of(before, spec.id)|, spec.maxReplicas)
  {
  }

  /** Refresh the registry from the backend's report; a failed report skips the pass. */
  method LivenessPass(fleet: Fleet, specs: seq<Spec>, snap: Replicas, report: Option<Report>, now: int)
    requires Issued(fleet.registry.replicas, fleet.backend.nextId) && DistinctIds(specs)
    requires snap == Snapshot(specs, fleet.registry.replicas)
    requires report.Some? ==>
               && LabelsAgree(fleet.registry.replicas, report.value.running)
               && forall id :: id in report.value.running ==> id < fleet.backend.nextId
    modifies fleet.registry, fleet.sessions, fleet.backend`stops, fleet.backend`stopped, fleet.backend`removals
    ensures Issued(fleet.registry.replicas, fleet.backend.nextId)
    ensures Passed(specs, report, fleet.backend.answering, now, old(fleet.registry.replicas), fleet.registry.replicas)
  {
    SnapshotFits(Scan(specs, if report.Some? then report.value else Report(map[], map[], []), fleet.backend.answering,
                      now), fleet.registry.replicas);
    if report.None? {
      return;
    }
    ghost var before := fleet.registry.replicas;
    forall r | r in snap
      ensures r in before
    {
      SnapshotMembers(specs, before, r);
    }
    fleet.ReconcileBackendLiveness(specs, snap, report.value, now);
    IssuedAfterPass(Scan(specs, report.value, fleet.backend.answering, now), snap, before, fleet.registry.replicas,
                    fleet.backend.nextId);
  }

  // ---- The tick's counters as steps of the hysteresis machine ----

  /** What one spec's turn went by: its idle counters, the pool it saw, whether a stop succeeded. */
  datatype Turn = Turn(idle: map<ReplicaId, nat>, snap: Replicas, stopped: bool)

  ghost predicate Submap(a: map<ReplicaId, nat>, b: map<ReplicaId, nat>) {
    forall id :: id in a ==> id in b && a[id] == b[id]
  }

  function AfterTurn(p: H.Policy, was: H.Counters, t: Turn): H.Counters {
    var c := was.(idle := t.idle);
    H.After(p, c, H.Decide(p, t.snap, c), t.stopped)
  }

  /** `slice` is what the turn left, except for idle counters that other specs' turns removed since. */
  ghost predicate Turned(p: H.Policy, was: H.Counters, counted: map<ReplicaId, nat>, t: Turn, slice: H.Counters) {
    && Submap(t.idle, counted) && Submap(slice.idle, AfterTurn(p, was, t).idle)
    && slice.saturated == AfterTurn(p, was, t).saturated && slice.cooling == AfterTurn(p, was, t).cooling
  }

  lemma SubmapByRemoval(a: map<ReplicaId, nat>, b: map<ReplicaId, nat>)
    requires Submap(a, b)
    ensures b - (b.Keys - a.Keys) == a
  {
  }

  /** The turn saw what the observation says, and went by the machine's plan. */
  predicate PlannedAs(p: H.Policy, was: H.Counters, t: Turn, o: H.Observation) {
    o.snap == t.snap && H.PlanOf(p, was, o) == H.Decide(p, t.snap, was.(idle := t.idle))
  }

  /** A turn, seen at the end of the tick, is one step of the machine. */
  lemma TurnIsTick(p: H.Policy, was: H.Counters, raw: Replicas, now: int, t: Turn, slice: H.Counters)
    returns (o: H.Observation)
    requires Turned(p, was, H.Counted(was.idle, raw, now), t, slice)
    ensures o.raw == raw && o.now == now && o.stopped == t.stopped
    ensures slice == H.Tick(p, was, o) && PlannedAs(p, was, t, o)
  {
    var counted := H.Counted(was.idle, raw, now);
    var after := AfterTurn(p, was, t);
    o := H.Observation(raw, now, counted.Keys - t.idle.Keys, t.snap, t.stopped, after.idle.Keys - slice.idle.Keys);
    SubmapByRemoval(t.idle, counted);
    SubmapByRemoval(slice.idle, after.idle);
    assert H.Seen(was, o) == was.(idle := t.idle);
    hide H.Decide, H.After, H.Counted;
  }

  /** Another spec's turn only removes idle counters. */
  lemma StaysTurned(p: H.Policy, was: H.Counters, counted: map<ReplicaId, nat>, t: Turn, slice: H.Counters,
                    later: H.Counters)
    requires Turned(p, was, counted, t, slice) && Submap(later.idle, slice.idle)
    requires later.saturated == slice.saturated && later.cooling == slice.cooling
    ensures Turned(p, was, counted, t, later)
  {
    hide H.Decide, H.After;
  }

  lemma AfterShrinksIdle(p: H.Policy, c: H.Counters, plan: H.Plan, stopped: bool)
    ensures Submap(H.After(p, c, plan, stopped).idle, c.idle)
  {
  }

  // ---- The tick ----

  /** All the counters the scaler keeps. */
  datatype Book = Book(idle: map<ReplicaId, nat>, saturation: map<string, nat>, cooldown: map<string, nat>)
  {
    function Slice(id: string): H.Counters {
      H.Counters(idle, Lookup(saturation, id), Lookup(cooldown, id))
    }
  }

  /** Between the two, only the idle counters and those of spec `id` moved. */
  ghost predicate OnlyTouched(before: Book, after: Book, id: string) {
    && Submap(after.idle, before.idle)
    && OthersKept(before.saturation, after.saturation, id) && OthersKept(before.cooldown, after.cooldown, id)
  }

  ghost predicate TurnDone(spec: Spec, p: H.Policy, start: Book, counted: map<ReplicaId, nat>, turns: map<string, Turn>,
                           now: Book) {
    spec.id in turns && Turned(p, start.Slice(spec.id), counted, turns[spec.id], now.Slice(spec.id))
  }

  ghost predicate TurnToCome(spec: Spec, start: Book, now: Book) {
    Lookup(now.saturation, spec.id) == Lookup(start.saturation, spec.id)
    && Lookup(now.cooldown, spec.id) == Lookup(start.cooldown, spec.id)
  }

  /** Where the loop over the catalog stands before its `k`-th spec. */
  ghost predicate LoopDone(specs: seq<Spec>, k: nat, policies: Spec -> H.Policy, start: Book,
                           counted: map<ReplicaId, nat>, turns: map<string, Turn>, now: Book)
    requires k <= |specs|
  {
    && Submap(now.idle, counted)
    && (forall m :: 0 <= m < k && specs[m].Managed() ==>
          TurnDone(specs[m], policies(specs[m]), start, counted, turns, now))
    && (forall m :: k <= m < |specs| ==> TurnToCome(specs[m], start, now))
  }

  /** The pools before the `k`-th spec's turn: those whose turn is over are within their limits. */
  ghost predicate PoolsDone(specs: seq<Spec>, k: nat, before: Replicas, reg: Replicas, reliable: bool)
    requires k <= |specs|
  {
    && (forall m :: 0 <= m < |specs| && |Of(before, specs[m].id)| <= specs[m].maxReplicas ==>
          |Of(reg, specs[m].id)| <= specs[m].maxReplicas)
    && (forall m :: 0 <= m < k && specs[m].Managed() && reliable ==>
          |Of(reg, specs[m].id)| >= Min(specs[m].minReplicas, specs[m].maxReplicas))
  }

  lemma PoolsStep(specs: seq<Spec>, k: nat, before: Replicas, reg: Replicas, after: Replicas, reliable: bool)
    requires k < |specs| && DistinctIds(specs) && PoolsDone(specs, k, before, reg, reliable)
    requires TurnTaken(specs[k], reg, after, reliable)
    ensures PoolsDone(specs, k + 1, before, after, reliable)
  {
    assert forall m :: 0 <= m < |specs| && m != k ==> specs[m].id != specs[k].id;
    forall m | 0 <= m < |specs| && m != k
      ensures Of(after, specs[m].id) == Of(reg, specs[m].id)
    {
    }
  }

  lemma TurnStays(spec: Spec, p: H.Policy, start: Book, counted: map<ReplicaId, nat>, turns: map<string, Turn>,
                  before: Book, after: Book, id: string, t: Turn)
    requires TurnDone(spec, p, start, counted, turns, before) && OnlyTouched(before, after, id) && spec.id != id
    ensures TurnDone(spec, p, start, counted, turns[id := t], after)
  {
    StaysTurned(p, start.Slice(spec.id), counted, turns[spec.id], before.Slice(spec.id), after.Slice(spec.id));
  }

  lemma TurnTakes(spec: Spec, p: H.Policy, start: Book, counted: map<ReplicaId, nat>, turns: map<string, Turn>,
                  before: Book, after: Book, t: Turn)
    requires TurnToCome(spec, start, before) && Submap(before.idle, counted) && Submap(t.idle, before.idle)
    requires after.Slice(spec.id) == AfterTurn(p, before.Slice(spec.id), t)
    ensures TurnDone(spec, p, start, counted, turns[spec.id := t], after) && Submap(after.idle, before.idle)
  {
    var c := before.Slice(spec.id).(idle := t.idle);
    AfterShrinksIdle(p, c, H.Decide(p, t.snap, c), t.stopped);
    assert start.Slice(spec.id).(idle := t.idle) == c;
    hide H.Decide, H.After;
  }

  /** One turn's effect on its pool, from what liveness left to what the tick leaves. */
  ghost predicate PoolMoved(spec: Spec, p: H.Policy, was: H.Counters, t: Turn, pool: Replicas, after: Replicas,
                            g: Ground) {
    var mid := ReapedPool(pool, spec, g.inflight, g.now);
    && t.snap == Overlay(mid, spec, g.inflight)
    && PoolCarriedOut(mid, after, spec, H.Decide(p, t.snap, was.(idle := t.idle)), g)
  }

  /** None of the first `k` specs that the scaler manages has this name. */
  ghost predicate NotTurned(specs: seq<Spec>, k: nat, name: string)
    requires k <= |specs|
  {
    forall m :: 0 <= m < k && specs[m].Managed() ==> specs[m].id != name
  }

  /** The pools before the `k`-th spec's turn, against what the liveness pass left. */
  ghost predicate PoolsMoved(specs: seq<Spec>, k: nat, policies: Spec -> H.Policy, start: Book,
                             turns: map<string, Turn>, passed: Replicas, reg: Replicas, g: Ground)
    requires k <= |specs|
  {
    && (forall m :: 0 <= m < k && specs[m].Managed() ==>
          specs[m].id in turns
          && PoolMoved(specs[m], policies(specs[m]), start.Slice(specs[m].id), turns[specs[m].id],
                       Of(passed, specs[m].id), Of(reg, specs[m].id), g))
    && (forall name :: NotTurned(specs, k, name) ==> Of(reg, name) == Of(passed, name))
  }

  /** A turn, from its contract on the registry to its effect on the pool. */
  lemma TurnMovesPool(spec: Spec, p: H.Policy, c: H.Counters, passed: Replicas, reg: Replicas, after: Replicas,
                      next: ReplicaId, g: Ground)
    requires UniqueIds(reg) && Of(reg, spec.id) == Of(passed, spec.id) && g.next <= next
    requires CarriedOut(Reaped(reg, spec, g.inflight, g.now), after, spec,
                        H.Decide(p, PoolSeen(reg, spec, g.inflight, g.now), c), next, g.reliable)
    ensures var t := Turn(c.idle, PoolSeen(reg, spec, g.inflight, g.now), false);
      && t.snap == Overlay(ReapedPool(Of(passed, spec.id), spec, g.inflight, g.now), spec, g.inflight)
      && PoolCarriedOut(ReapedPool(Of(passed, spec.id), spec, g.inflight, g.now), Of(after, spec.id), spec,
                        H.Decide(p, t.snap, c), g)
  {
    ReapedInPool(reg, spec, g.inflight, g.now);
    PlanInPool(Reaped(reg, spec, g.inflight, g.now), after, spec, p, PoolSeen(reg, spec, g.inflight, g.now), c, next,
               g);
  }

  lemma MovedStep(specs: seq<Spec>, k: nat, policies: Spec -> H.Policy, start: Book, turns: map<string, Turn>,
                  passed: Replicas, reg: Replicas, after: Replicas, g: Ground, t: Turn)
    requires k < |specs| && DistinctIds(specs) && specs[k].Managed()
    requires PoolsMoved(specs, k, policies, start, turns, passed, reg, g)
    requires TurnTaken(specs[k], reg, after, g.reliable)
    requires PoolMoved(specs[k], policies(specs[k]), start.Slice(specs[k].id), t, Of(passed, specs[k].id),
                       Of(after, specs[k].id), g)
    ensures PoolsMoved(specs, k + 1, policies, start, turns[specs[k].id := t], passed, after, g)
  {
    hide PoolMoved, Of;
    OtherPoolsStay(specs, k, reg, after, g.reliable);
    var id := specs[k].id;
    forall name | NotTurned(specs, k + 1, name)
      ensures Of(after, name) == Of(passed, name)
    {
      assert NotTurned(specs, k, name) && name != id;
    }
    hide TurnTaken, NotTurned;
    forall m | 0 <= m < k && specs[m].Managed()
      ensures PoolMoved(specs[m], policies(specs[m]), start.Slice(specs[m].id), turns[id := t][specs[m].id],
                        Of(passed, specs[m].id), Of(after, specs[m].id), g)
    {
      assert turns[id := t][specs[m].id] == turns[specs[m].id];
    }
  }

  lemma OtherPoolsStay(specs: seq<Spec>, k: nat, reg: Replicas, after: Replicas, reliable: bool)
    requires k < |specs| && DistinctIds(specs) && TurnTaken(specs[k], reg, after, reliable)
    ensures forall m :: 0 <= m < |specs| && m != k ==>
      specs[m].id != specs[k].id && Of(after, specs[m].id) == Of(reg, specs[m].id)
  {
    hide Of;
  }

  lemma NotYetTurned(specs: seq<Spec>, k: nat)
    requires k < |specs| && DistinctIds(specs)
    ensures NotTurned(specs, k, specs[k].id)
  {
  }

  /** The turn in its place in the loop: the counters it went by are those the tick started with. */
  lemma TurnMoves(specs: seq<Spec>, k: nat, policies: Spec -> H.Policy, start: Book, counted: map<ReplicaId, nat>,
                  turns: map<string, Turn>, before: Book, passed: Replicas, reg: Replicas, after: Replicas,
                  next: ReplicaId, g: Ground, t: Turn)
    requires k < |specs| && DistinctIds(specs) && specs[k].Managed() && Issued(reg, next) && g.next <= next
    requires LoopDone(specs, k, policies, start, counted, turns, before)
    requires PoolsMoved(specs, k, policies, start, turns, passed, reg, g)
    requires TurnTaken(specs[k], reg, after, g.reliable) && t.snap == PoolSeen(reg, specs[k], g.inflight, g.now)
    requires CarriedOut(Reaped(reg, specs[k], g.inflight, g.now), after, specs[k],
                        H.Decide(policies(specs[k]), t.snap, before.Slice(specs[k].id).(idle := t.idle)), next,
                        g.reliable)
    ensures PoolsMoved(specs, k + 1, policies, start, turns[specs[k].id := t], passed, after, g)
  {
    var spec := specs[k];
    var c := before.Slice(spec.id).(idle := t.idle);
    assert TurnToCome(spec, start, before);
    assert c == start.Slice(spec.id).(idle := t.idle);
    NotYetTurned(specs, k);
    TurnMovesPool(spec, policies(spec), c, passed, reg, after, next, g);
    hide H.Decide, CarriedOut, Reaped, PoolSeen, ReapedPool, PoolCarriedOut, TurnTaken, LoopDone, Issued;
    MovedStep(specs, k, policies, start, turns, passed, reg, after, g, t);
  }

  lemma MovedStart(specs: seq<Spec>, policies: Spec -> H.Policy, start: Book, passed: Replicas, g: Ground)
    ensures PoolsMoved(specs, 0, policies, start, map[], passed, passed, g)
  {
  }

  lemma MovedSkip(specs: seq<Spec>, k: nat, policies: Spec -> H.Policy, start: Book, turns: map<string, Turn>,
                  passed: Replicas, reg: Replicas, g: Ground)
    requires k < |specs| && !specs[k].Managed() && PoolsMoved(specs, k, policies, start, turns, passed, reg, g)
    ensures PoolsMoved(specs, k + 1, policies, start, turns, passed, reg, g)
  {
    forall name | NotTurned(specs, k + 1, name)
      ensures NotTurned(specs, k, name)
    {
    }
    hide PoolMoved, Of;
  }

  lemma LoopStep(specs: seq<Spec>, k: nat, policies: Spec -> H.Policy, start: Book, counted: map<ReplicaId, nat>,
                 turns: map<string, Turn>, before: Book, after: Book, t: Turn)
    requires k < |specs| && DistinctIds(specs) && specs[k].Managed()
    requires LoopDone(specs, k, policies, start, counted, turns, before)
    requires Submap(t.idle, before.idle)
    requires OthersKept(before.saturation, after.saturation, specs[k].id)
            && OthersKept(before.cooldown, after.cooldown, specs[k].id)
    requires after.Slice(specs[k].id) == AfterTurn(policies(specs[k]), before.Slice(specs[k].id), t)
    ensures LoopDone(specs, k + 1, policies, start, counted, turns[specs[k].id := t], after)
  {
    hide TurnDone, AfterTurn;
    var id := specs[k].id;
    TurnTakes(specs[k], policies(specs[k]), start, counted, turns, before, after, t);
    assert OnlyTouched(before, after, id);
    assert forall m :: 0 <= m < |specs| && m != k ==> specs[m].id != id;
    forall m | 0 <= m < k && specs[m].Managed()
      ensures TurnDone(specs[m], policies(specs[m]), start, counted, turns[id := t], after)
    {
      TurnStays(specs[m], policies(specs[m]), start, counted, turns, before, after, id, t);
    }
  }

  lemma LoopSkip(specs: seq<Spec>, k: nat, policies: Spec -> H.Policy, start: Book, counted: map<ReplicaId, nat>,
                 turns: map<string, Turn>, now: Book)
    requires k < |specs| && !specs[k].Managed() && LoopDone(specs, k, policies, start, counted, turns, now)
    ensures LoopDone(specs, k + 1, policies, start, counted, turns, now)
  {
  }

  /** The counters of the catalog's specs; those of specs that are gone are dropped. */
  function Retained(m: map<string, nat>, specs: seq<Spec>): map<string, nat> {
    map id | id in m && SpecOf(specs, id).Some? :: m[id]
  }

  /** The step a managed spec's counters took, from `was` to `now`. */
  ghost predicate Stepped(p: H.Policy, was: H.Counters, now: H.Counters, raw: Replicas, at: int, o: H.Observation) {
    o.raw == raw && o.now == at && now == H.Tick(p, was, o)
  }

  lemma RetainedKeeps(m: map<string, nat>, specs: seq<Spec>, spec: Spec)
    requires spec in specs
    ensures Lookup(Retained(m, specs), spec.id) == Lookup(m, spec.id)
  {
    SpecOfSound(specs, spec.id);
  }

  /** The turns, each as the observation of one step of the machine. */
  lemma {:induction false} Observations(specs: seq<Spec>, k: nat, policies: Spec -> H.Policy, was: Book, start: Book,
                                        raw: Replicas, at: int, turns: map<string, Turn>, end: Book)
    returns (seen: map<string, H.Observation>)
    requires k <= |specs| && DistinctIds(specs) && LoopDone(specs, |specs|, policies, start, start.idle, turns, end)
    requires start.idle == H.Counted(was.idle, raw, at)
    requires start.saturation == Retained(was.saturation, specs) && start.cooldown == Retained(was.cooldown, specs)
    ensures forall m :: 0 <= m < k && specs[m].Managed() ==>
      specs[m].id in seen
      && Stepped(policies(specs[m]), was.Slice(specs[m].id), end.Slice(specs[m].id), raw, at, seen[specs[m].id])
      && specs[m].id in turns
         && PlannedAs(policies(specs[m]), was.Slice(specs[m].id), turns[specs[m].id], seen[specs[m].id])
  {
    hide H.Tick, H.Counted, Retained, Turned, AfterTurn, PlannedAs;
    if k == 0 {
      return map[];
    }
    seen := Observations(specs, k - 1, policies, was, start, raw, at, turns, end);
    var spec := specs[k - 1];
    if spec.Managed() {
      RetainedKeeps(was.saturation, specs, spec);
      RetainedKeeps(was.cooldown, specs, spec);
      assert TurnDone(spec, policies(spec), start, start.idle, turns, end);
      var before := was.Slice(spec.id);
      TurnedIgnoresIdle(policies(spec), start.Slice(spec.id), before, start.idle, turns[spec.id], end.Slice(spec.id));
      var o := TurnIsTick(policies(spec), before, raw, at, turns[spec.id], end.Slice(spec.id));
      seen := seen[spec.id := o];
      assert forall m :: 0 <= m < k - 1 ==> specs[m].id != spec.id;
    }
  }

  lemma TurnedIgnoresIdle(p: H.Policy, a: H.Counters, b: H.Counters, counted: map<ReplicaId, nat>, t: Turn,
                          slice: H.Counters)
    requires Turned(p, a, counted, t, slice) && b == a.(idle := b.idle)
    ensures Turned(p, b, counted, t, slice)
  {
  }

  lemma SnapshotIsUnique(specs: seq<Spec>, reg: Replicas, next: ReplicaId)
    requires Issued(reg, next) && DistinctIds(specs)
    ensures UniqueIds(Snapshot(specs, reg))
  {
    SnapshotUnique(specs, reg);
  }

  lemma LoopStarts(specs: seq<Spec>, policies: Spec -> H.Policy, start: Book)
    ensures LoopDone(specs, 0, policies, start, start.idle, map[], start)
  {
  }

  lemma PoolsStart(specs: seq<Spec>, before: Replicas, reg: Replicas, reliable: bool)
    requires forall spec :: spec in specs ==> |Of(reg, spec.id)| <= Max(|Of(before, spec.id)|, spec.maxReplicas)
    ensures PoolsDone(specs, 0, before, reg, reliable)
  {
    forall m | 0 <= m < |specs|
      ensures |Of(reg, specs[m].id)| <= Max(|Of(before, specs[m].id)|, specs[m].maxReplicas)
    {
      assert specs[m] in specs;
    }
  }

  lemma PoolsSkip(specs: seq<Spec>, k: nat, before: Replicas, reg: Replicas, reliable: bool)
    requires k < |specs| && !specs[k].Managed() && PoolsDone(specs, k, before, reg, reliable)
    ensures PoolsDone(specs, k + 1, before, reg, reliable)
  {
  }

  lemma PoolsEnd(specs: seq<Spec>, before: Replicas, reg: Replicas, reliable: bool)
    requires PoolsDone(specs, |specs|, before, reg, reliable)
    ensures forall spec :: spec in specs && |Of(before, spec.id)| <= spec.maxReplicas ==>
              |Of(reg, spec.id)| <= spec.maxReplicas
    ensures reliable ==> forall spec :: spec in specs && spec.Managed() ==>
      |Of(reg, spec.id)| >= Min(spec.minReplicas, spec.maxReplicas)
  {
  }

  lemma PolicyLimits(st: Settings, spec: Spec)
    ensures st.Policy(spec).min == spec.minReplicas && st.Policy(spec).max == spec.maxReplicas
  {
  }

  /** One managed pool over the tick: what its turn saw, and the machine's plan carried out on it. */
  ghost predicate PoolTicked(spec: Spec, p: H.Policy, was: H.Counters, o: H.Observation, pool: Replicas,
                             after: Replicas, g: Ground)
  {
    var mid := ReapedPool(pool, spec, g.inflight, g.now);
    o.snap == Overlay(mid, spec, g.inflight) && PoolCarriedOut(mid, after, spec, H.PlanOf(p, was, o), g)
  }

  lemma MovedIsTicked(spec: Spec, p: H.Policy, start: H.Counters, was: H.Counters, t: Turn, o: H.Observation,
                      pool: Replicas, after: Replicas, g: Ground)
    requires PoolMoved(spec, p, start, t, pool, after, g) && PlannedAs(p, was, t, o)
    requires start == was.(idle := start.idle)
    ensures PoolTicked(spec, p, was, o, pool, after, g)
  {
  }

  /** No managed spec of the catalog has this name. */
  ghost predicate Unmanaged(specs: seq<Spec>, name: string) {
    forall spec :: spec in specs && spec.Managed() ==> spec.id != name
  }

  lemma PoolsAreTicked(specs: seq<Spec>, policies: Spec -> H.Policy, was: Book, start: Book, turns: map<string, Turn>,
                       seen: map<string, H.Observation>, passed: Replicas, reg: Replicas, g: Ground)
    requires PoolsMoved(specs, |specs|, policies, start, turns, passed, reg, g)
    requires start.saturation == Retained(was.saturation, specs) && start.cooldown == Retained(was.cooldown, specs)
    requires forall m :: 0 <= m < |specs| && specs[m].Managed() ==>
      specs[m].id in turns && specs[m].id in seen
      && PlannedAs(policies(specs[m]), was.Slice(specs[m].id), turns[specs[m].id], seen[specs[m].id])
    ensures forall spec :: spec in specs && spec.Managed() ==>
      spec.id in seen
      && PoolTicked(spec, policies(spec), was.Slice(spec.id), seen[spec.id], Of(passed, spec.id), Of(reg, spec.id), g)
    ensures forall name :: Unmanaged(specs, name) ==> Of(reg, name) == Of(passed, name)
  {
    forall name | Unmanaged(specs, name)
      ensures NotTurned(specs, |specs|, name)
    {
    }
    hide PlannedAs, PoolMoved, PoolTicked, Retained, NotTurned, Unmanaged;
    forall spec | spec in specs && spec.Managed()
      ensures spec.id in seen
      ensures PoolTicked(spec, policies(spec), was.Slice(spec.id), seen[spec.id], Of(passed, spec.id), Of(reg, spec.id),
                         g)
    {
      var m :| 0 <= m < |specs| && specs[m] == spec;
      RetainedKeeps(was.saturation, specs, spec);
      RetainedKeeps(was.cooldown, specs, spec);
      MovedIsTicked(spec, policies(spec), start.Slice(spec.id), was.Slice(spec.id), turns[spec.id], seen[spec.id],
                    Of(passed, spec.id), Of(reg, spec.id), g);
    }
  }

  // ---- What a tick is, as a relation ----

  /** What the tick works on: the registry, the next new id and the scaler's counters. */
  datatype World = World(reg: Replicas, next: ReplicaId, book: Book)

  ghost function WorldOf(scaler: AutoScaler): World
    reads scaler, scaler.fleet.registry, scaler.fleet.backend
  {
    World(scaler.fleet.registry.replicas, scaler.fleet.backend.nextId,
          Book(scaler.idleTicks, scaler.saturationTicks, scaler.cooldown))
  }

  /** The catalog and the scaler's settings, fixed from tick to tick. */
  datatype Settings = Settings(specs: seq<Spec>, dropAfter: nat, spawnAfter: nat, defaultCooldown: Option<nat>,
                               interval: nat)
  {
    function Policy(spec: Spec): H.Policy {
      PolicyOf(spec, dropAfter, spawnAfter, defaultCooldown, interval)
    }
  }

  /**
   What one tick is given: the backend's report, the containers that answer, in-flight API requests,
   and the clock as read for the idle accounting, the liveness pass and the lifetimes.
   */
  datatype Input = Input(
    report: Option<Report>,
    answering: set<ReplicaId>,
    inflight: map<ReplicaId, nat>,
    idleNow: int,
    passNow: int,
    reapNow: int)

  /** The registry is sound, and a report speaks of its containers by their own ids and specs. */
  ghost predicate CanTick(st: Settings, i: Input, w: World) {
    && Issued(w.reg, w.next) && DistinctIds(st.specs)
    && (i.report.Some? ==>
          && LabelsAgree(w.reg, i.report.value.running)
          && forall id :: id in i.report.value.running ==> id < w.next)
  }

  /**
   An undisturbed tick from `was` to `w`. `passed` is the registry as the liveness pass left it; `seen`
   gives, for each managed spec, what its turn observed.
   */
  ghost predicate Ticked(st: Settings, i: Input, reliable: bool, was: World, w: World, passed: Replicas,
                         seen: map<string, H.Observation>)
  {
    var g := Ground(i.inflight, i.reapNow, was.next, reliable);
    && Issued(w.reg, w.next) && was.next <= w.next
    && Passed(st.specs, i.report, i.answering, i.passNow, was.reg, passed)
    && (forall spec :: spec in st.specs && spec.Managed() ==>
          && spec.id in seen
          && Stepped(st.Policy(spec), was.book.Slice(spec.id), w.book.Slice(spec.id), Snapshot(st.specs, was.reg),
                     i.idleNow, seen[spec.id])
          && PoolTicked(spec, st.Policy(spec), was.book.Slice(spec.id), seen[spec.id], Of(passed, spec.id),
                        Of(w.reg, spec.id), g))
    && (forall name :: Unmanaged(st.specs, name) ==> Of(w.reg, name) == Of(passed, name))
  }

  /** One tick, undisturbed: within the limits, and a `Ticked` step. */
  method Tick(scaler: AutoScaler, st: Settings, i: Input)
    returns (ghost passed: Replicas, ghost seen: map<string, H.Observation>)
    requires CanTick(st, i, WorldOf(scaler)) && i.answering == scaler.fleet.backend.answering
    modifies scaler, scaler.fleet.registry, scaler.fleet.sessions, scaler.fleet.backend
    ensures Issued(scaler.fleet.registry.replicas, scaler.fleet.backend.nextId)
    ensures forall spec ::
              spec in st.specs && |Of(old(scaler.fleet.registry.replicas), spec.id)| <= spec.maxReplicas ==>
                |Of(scaler.fleet.registry.replicas, spec.id)| <= spec.maxReplicas
    ensures scaler.fleet.backend.reliable ==> forall spec :: spec in st.specs && spec.Managed() ==>
      |Of(scaler.fleet.registry.replicas, spec.id)| >= Min(spec.minReplicas, spec.maxReplicas)
    ensures Ticked(st, i, scaler.fleet.backend.reliable, old(WorldOf(scaler)), WorldOf(scaler), passed, seen)
  {
    hide PoolsMoved, PoolMoved, PoolTicked, PlannedAs, Passed, ReapedPool, PoolCarriedOut, Stepped, Retained, TurnTaken;
    hide Issued, LoopDone, PoolsDone, Of, H.Counted, H.Decide, H.After, PoolSeen, Reaped, Aged, CarriedOut, PolicyOf;
    hide NotTurned, Unmanaged, Snapshot;
    var fleet := scaler.fleet;
    var specs := st.specs;
    ghost var reg0 := fleet.registry.replicas;
    ghost var g := Ground(i.inflight, i.reapNow, fleet.backend.nextId, fleet.backend.reliable);
    ghost var policies := (spec: Spec) => st.Policy(spec);
    ghost var was := Book(scaler.idleTicks, scaler.saturationTicks, scaler.cooldown);
    SnapshotIsUnique(specs, reg0, fleet.backend.nextId);
    var snap := Snapshot(specs, fleet.registry.replicas);
    scaler.UpdateIdleTicks(snap, i.idleNow);
    ghost var counted := scaler.idleTicks;
    LivenessPass(fleet, specs, snap, i.report, i.passNow);
    passed := fleet.registry.replicas;
    PassedKeepsCaps(specs, i.report, fleet.backend.answering, i.passNow, reg0, passed);
    scaler.saturationTicks := Retained(scaler.saturationTicks, specs);
    scaler.cooldown := Retained(scaler.cooldown, specs);
    ghost var start := Book(counted, scaler.saturationTicks, scaler.cooldown);
    ghost var turns: map<string, Turn> := map[];
    LoopStarts(specs, policies, start);
    PoolsStart(specs, reg0, fleet.registry.replicas, g.reliable);
    MovedStart(specs, policies, start, passed, g);
    for k := 0 to |specs|
      invariant Issued(fleet.registry.replicas, fleet.backend.nextId) && g.next <= fleet.backend.nextId
      invariant PoolsDone(specs, k, reg0, fleet.registry.replicas, g.reliable)
      invariant PoolsMoved(specs, k, policies, start, turns, passed, fleet.registry.replicas, g)
      invariant LoopDone(specs, k, policies, start, counted, turns,
                         Book(scaler.idleTicks, scaler.saturationTicks, scaler.cooldown))
    {
      var spec := specs[k];
      ghost var before := Book(scaler.idleTicks, scaler.saturationTicks, scaler.cooldown);
      if !spec.Managed() {
        LoopSkip(specs, k, policies, start, counted, turns, before);
        PoolsSkip(specs, k, reg0, fleet.registry.replicas, g.reliable);
        MovedSkip(specs, k, policies, start, turns, passed, fleet.registry.replicas, g);
        continue;
      }
      ghost var reg, next := fleet.registry.replicas, fleet.backend.nextId;
      ghost var c := Entering(scaler.Slice(spec.id), Aged(reg, spec, i.inflight, i.reapNow));
      var p := st.Policy(spec);
      var plan, stopped := scaler.ScaleSpec(spec, p, i.inflight, i.reapNow);
      PolicyLimits(st, spec);
      TurnKeepsLimits(reg, fleet.registry.replicas, spec, p, c, i.inflight, i.reapNow, next, g.reliable);
      PoolsStep(specs, k, reg0, reg, fleet.registry.replicas, g.reliable);
      ghost var t := Turn(c.idle, PoolSeen(reg, spec, i.inflight, i.reapNow), stopped);
      LoopStep(specs, k, policies, start, counted, turns, before,
               Book(scaler.idleTicks, scaler.saturationTicks, scaler.cooldown), t);
      TurnMoves(specs, k, policies, start, counted, turns, before, passed, reg, fleet.registry.replicas, next, g, t);
      turns := turns[spec.id := t];
    }
    ghost var end := Book(scaler.idleTicks, scaler.saturationTicks, scaler.cooldown);
    seen := Observations(specs, |specs|, policies, was, start, snap, i.idleNow, turns, end);
    PoolsEnd(specs, reg0, fleet.registry.replicas, g.reliable);
    PoolsAreTicked(specs, policies, was, start, turns, seen, passed, fleet.registry.replicas, g);
  }
}
