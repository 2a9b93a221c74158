/**
 Runs of scaler ticks (crates/ruscker-admin/src/scaler.rs). Each beat is an undisturbed tick in the
 sense of ScalerTick; between two ticks anything may happen to the registry, sessions, prunes,
 restart marks and spawns under new ids included, except that a replica that has left comes back.
 */
module ScalerRuns {
  import opened Wrappers
  import opened Registries
  import opened ScalingRules
  import opened Fleets
  import opened Liveness
  import opened Scaler
  import opened ScalerTick
  import H = Hysteresis

  datatype Beat = Beat(i: Input, was: World, passed: Replicas, seen: map<string, H.Observation>, w: World)

  ghost predicate Beats(st: Settings, reliable: bool, b: Beat) {
    CanTick(st, b.i, b.was) && Ticked(st, b.i, reliable, b.was, b.w, b.passed, b.seen)
  }

  /** What may happen between the end of one tick and the start of the next. */
  ghost predicate Between(w: World, was: World) {
    && was.book == w.book && w.next <= was.next
    && forall id: ReplicaId :: id < w.next && Find(was.reg, id).Some? ==>
         Find(w.reg, id).Some? && Find(was.reg, id).value.spec == Find(w.reg, id).value.spec
  }

  /** A run from a scaler that has just started. */
  ghost predicate IsRun(st: Settings, reliable: bool, beats: seq<Beat>) {
    && (forall t :: 0 <= t < |beats| ==> Beats(st, reliable, beats[t]))
    && (forall t, u :: 0 <= t && u == t + 1 < |beats| ==> Between(beats[t].w, beats[u].was))
    && (beats != [] ==> beats[0].was.book == Book(map[], map[], map[]))
  }

  /** What a managed spec's turns saw. */
  function Seen(beats: seq<Beat>, id: string): (obs: seq<H.Observation>)
    requires forall t :: 0 <= t < |beats| ==> id in beats[t].seen
    ensures |obs| == |beats| && forall t :: 0 <= t < |beats| ==> obs[t] == beats[t].seen[id]
  {
    seq(|beats|, t requires 0 <= t < |beats| => beats[t].seen[id])
  }

  ghost predicate Watched(st: Settings, reliable: bool, beats: seq<Beat>, spec: Spec) {
    IsRun(st, reliable, beats) && spec in st.specs && spec.Managed()
  }

  /** Every tick of a run sees a managed spec, so asking that it is seen asks nothing more. */
  lemma InView(st: Settings, reliable: bool, beats: seq<Beat>, spec: Spec)
    requires Watched(st, reliable, beats, spec)
    ensures forall t :: 0 <= t < |beats| ==> spec.id in beats[t].seen
  {
    forall t | 0 <= t < |beats|
      ensures spec.id in beats[t].seen
    {
      assert Beats(st, reliable, beats[t]);
    }
  }

  /** What the tick's contract says of one managed spec. */
  lemma BeatOf(st: Settings, reliable: bool, b: Beat, spec: Spec)
    requires Beats(st, reliable, b) && spec in st.specs && spec.Managed()
    ensures spec.id in b.seen
    ensures Stepped(st.Policy(spec), b.was.book.Slice(spec.id), b.w.book.Slice(spec.id), Snapshot(st.specs, b.was.reg),
                    b.i.idleNow, b.seen[spec.id])
    ensures PoolTicked(spec, st.Policy(spec), b.was.book.Slice(spec.id), b.seen[spec.id], Of(b.passed, spec.id),
                       Of(b.w.reg, spec.id), Ground(b.i.inflight, b.i.reapNow, b.was.next, reliable))
  {
  }

  /** The scaler's counters over a run of ticks are the machine's over what the turns saw. */
  lemma {:induction false} TicksRunTheMachine(st: Settings, reliable: bool, beats: seq<Beat>, spec: Spec, t: nat)
    requires Watched(st, reliable, beats, spec) && t < |beats|
    requires forall u :: 0 <= u < |beats| ==> spec.id in beats[u].seen
    ensures H.Before(st.Policy(spec), Seen(beats, spec.id), t) == beats[t].was.book.Slice(spec.id)
    ensures Seen(beats, spec.id)[t].raw == Snapshot(st.specs, beats[t].was.reg)
    ensures Seen(beats, spec.id)[t].now == beats[t].i.idleNow
    decreases t
  {
    assert Beats(st, reliable, beats[t]);
    BeatOf(st, reliable, beats[t], spec);
    hide H.Tick, Beats, Snapshot;
    if t > 0 {
      TicksRunTheMachine(st, reliable, beats, spec, t - 1);
      assert Beats(st, reliable, beats[t - 1]);
      BeatOf(st, reliable, beats[t - 1], spec);
      assert Between(beats[t - 1].w, beats[t].was);
    }
  }

  // ---- What a tick does to one replica ----

  lemma {:induction false} RemoveAllSubset(reg: Replicas, ids: seq<ReplicaId>, r: Replica)
    requires r in RemoveAll(reg, ids)
    ensures r in reg
    decreases |ids|
  {
    if ids != [] {
      RemoveAllSubset(Remove(reg, ids[0]), ids[1..], r);
      RemoveSubset(reg, ids[0], r);
    }
  }

  lemma {:induction false} RemoveSubset(reg: Replicas, id: ReplicaId, r: Replica)
    requires r in Remove(reg, id)
    ensures r in reg
  {
    if reg[0].id != id && r != reg[0] {
      RemoveSubset(reg[1..], id, r);
    }
  }

  /** The liveness pass keeps a replica's id and spec, and never gives it a session. */
  lemma PassKeepsSpec(st: Settings, b: Beat, reliable: bool, r: Replica, q: Replica)
    requires Beats(st, reliable, b) && r in Snapshot(st.specs, b.was.reg) && q in b.passed && q.id == r.id
    ensures q.spec == r.spec && (r.sessionsActive == 0 ==> q.sessionsActive == 0)
  {
    SnapshotMembers(st.specs, b.was.reg, r);
    FindUnique(b.was.reg, r);
    if b.i.report.None? {
      FindUnique(b.passed, q);
    } else {
      FateKeepsSpec(Scan(st.specs, b.i.report.value, b.i.answering, b.i.passNow), Snapshot(st.specs, b.was.reg),
                    b.was.reg, b.passed, r, q);
    }
  }

  lemma FateKeepsSpec(sc: Scan, snap: Replicas, before: Replicas, after: Replicas, r: Replica, q: Replica)
    requires KnownPool(sc, snap) && SecondDone(sc, snap, before, after, {}) && LabelsAgree(before, sc.report.running)
    requires r in snap && Find(before, r.id) == Some(r) && q in after && q.id == r.id
    ensures q.spec == r.spec && (r.sessionsActive == 0 ==> q.sessionsActive == 0)
  {
    assert UniqueIds(after) && Find(after, r.id) == sc.FateOf(r);
    FindUnique(after, q);
  }

  /** Whatever a tick leaves that is not new was there after its liveness pass, as it is. */
  lemma KeptFromThePass(st: Settings, b: Beat, reliable: bool, q: Replica)
    requires Beats(st, reliable, b) && q in b.w.reg && q.id < b.was.next
    ensures q in b.passed
  {
    OfMembers(b.w.reg, q.spec, q);
    OfMembers(b.passed, q.spec, q);
    if Unmanaged(st.specs, q.spec) {
      assert Of(b.w.reg, q.spec) == Of(b.passed, q.spec);
    } else {
      var spec :| spec in st.specs && spec.Managed() && spec.id == q.spec;
      BeatOf(st, reliable, b, spec);
      InTickedPool(spec, st.Policy(spec), b.was.book.Slice(spec.id), b.seen[spec.id], Of(b.passed, spec.id),
                   Of(b.w.reg, spec.id), Ground(b.i.inflight, b.i.reapNow, b.was.next, reliable), q);
    }
  }

  lemma InTickedPool(spec: Spec, p: H.Policy, was: H.Counters, o: H.Observation, pool: Replicas, after: Replicas,
                     g: Ground, q: Replica)
    requires PoolTicked(spec, p, was, o, pool, after, g) && q in after && q.id < g.next
    ensures q in ReapedPool(pool, spec, g.inflight, g.now) && q in pool
  {
    var mid := ReapedPool(pool, spec, g.inflight, g.now);
    var k :| 0 <= k < |after| && after[k] == q;
    var plan := H.PlanOf(p, was, o);
    if plan.Drop? {
      RemoveAllSubset(mid, plan.victims, q);
    } else {
      assert k < |mid| ==> after[..|mid|][k] == q;
    }
    RemoveAllSubset(pool, LifetimeReap(Overlay(pool, spec, g.inflight), g.now, spec.maxLifetime, spec.containerLifetime,
                                       spec.drainTimeout), q);
  }

  /** A replica that is there before and after a tick keeps its spec. */
  lemma TickKeepsSpec(st: Settings, b: Beat, reliable: bool, r: Replica, q: Replica)
    requires Beats(st, reliable, b) && r in Snapshot(st.specs, b.was.reg) && q in b.w.reg && q.id == r.id
    ensures q.spec == r.spec
  {
    SnapshotMembers(st.specs, b.was.reg, r);
    KeptFromThePass(st, b, reliable, q);
    PassKeepsSpec(st, b, reliable, r, q);
  }

  // ---- The two reads of a tick agree for specs that are not APIs ----

  /**
   In a tick that spawns on saturation for a spec that is no API and whose replicas have seats, no
   replica that read as idle is in the pool the decision saw: it left between the two reads.
   */
  lemma SpawnTickSeesNoneIdle(st: Settings, b: Beat, reliable: bool, spec: Spec, id: ReplicaId)
    requires Beats(st, reliable, b) && spec in st.specs && spec.Managed() && !spec.kind.Api?
            && spec.scaleUpThreshold.None?
    requires spec.id in b.seen && H.PlanOf(st.Policy(spec), b.was.book.Slice(spec.id), b.seen[spec.id]).SpawnExtra?
    requires forall r :: r in b.seen[spec.id].snap ==> r.sessionsMax >= 1
    requires H.IdleIn(Snapshot(st.specs, b.was.reg), b.i.idleNow, id)
    ensures id !in Ids(b.seen[spec.id].snap)
    ensures id < b.was.next && id !in Ids(Of(b.w.reg, spec.id))
  {
    var o := b.seen[spec.id];
    BeatOf(st, reliable, b, spec);
    var r :| r in Snapshot(st.specs, b.was.reg) && r.id == id && H.CountsIdle(r, b.i.idleNow);
    SnapshotMembers(st.specs, b.was.reg, r);
    forall q | q in o.snap
      ensures q.id != id
    {
      RemoveAllSubset(Of(b.passed, spec.id),
                      LifetimeReap(Of(b.passed, spec.id), b.i.reapNow, spec.maxLifetime, spec.containerLifetime,
                                   spec.drainTimeout), q);
      OfMembers(b.passed, spec.id, q);
      if q.id == id {
        PassKeepsSpec(st, b, reliable, r, q);
        SaturatedPoolHasNoIdleReplica(o.snap, q);
      }
    }
    forall q | q in Of(b.w.reg, spec.id)
      ensures q.id != id
    {
      if q.id < b.was.next {
        InTickedPool(spec, st.Policy(spec), b.was.book.Slice(spec.id), o, Of(b.passed, spec.id), Of(b.w.reg, spec.id),
                     Ground(b.i.inflight, b.i.reapNow, b.was.next, reliable), q);
      }
    }
  }

  // ---- The flap bound of the ticks ----

  /** The replica registered under `id` when tick `t` begins belongs to a spec other than `spec`. */
  predicate Elsewhere(b: Beat, spec: Spec, id: ReplicaId) {
    Find(b.was.reg, id).Some? && Find(b.was.reg, id).value.spec != spec.id
  }

  lemma IdleIsRegistered(st: Settings, b: Beat, id: ReplicaId)
    requires Issued(b.was.reg, b.was.next) && H.IdleIn(Snapshot(st.specs, b.was.reg), b.i.idleNow, id)
    ensures id < b.was.next && Find(b.was.reg, id).Some? && Find(b.was.reg, id).value in Snapshot(st.specs, b.was.reg)
  {
    var r :| r in Snapshot(st.specs, b.was.reg) && r.id == id && H.CountsIdle(r, b.i.idleNow);
    SnapshotMembers(st.specs, b.was.reg, r);
    FindUnique(b.was.reg, r);
  }

  lemma BeatIsSound(st: Settings, reliable: bool, b: Beat)
    requires Beats(st, reliable, b)
    ensures Issued(b.was.reg, b.was.next)
  {
  }

  /** From tick to tick a replica that stays stays with its spec. */
  lemma StaysElsewhere(st: Settings, reliable: bool, b: Beat, c: Beat, spec: Spec, id: ReplicaId)
    requires Beats(st, reliable, b) && Between(b.w, c.was) && Elsewhere(b, spec, id)
    requires H.IdleIn(Snapshot(st.specs, b.was.reg), b.i.idleNow, id) && Find(c.was.reg, id).Some?
    ensures Elsewhere(c, spec, id)
  {
    IdleIsRegistered(st, b, id);
    FindSound(b.w.reg, id);
    FindSound(b.was.reg, id);
    TickKeepsSpec(st, b, reliable, Find(b.was.reg, id).value, Find(b.w.reg, id).value);
  }

  /** After the spawn tick the replica, if it is still there, is not one of the spec's. */
  lemma ElsewhereAfterSpawn(st: Settings, reliable: bool, b: Beat, c: Beat, spec: Spec, id: ReplicaId)
    requires Beats(st, reliable, b) && Between(b.w, c.was)
    requires id < b.was.next && id !in Ids(Of(b.w.reg, spec.id)) && Find(c.was.reg, id).Some?
    ensures Elsewhere(c, spec, id)
  {
    FindSound(b.w.reg, id);
    OfMembers(b.w.reg, spec.id, Find(b.w.reg, id).value);
  }

  lemma {:induction false} ElsewhereThroughout(st: Settings, reliable: bool, beats: seq<Beat>, spec: Spec, s: nat,
                                               t: nat, id: ReplicaId)
    requires IsRun(st, reliable, beats) && s < t < |beats|
    requires forall u :: s < u <= t ==> H.IdleIn(Snapshot(st.specs, beats[u].was.reg), beats[u].i.idleNow, id)
    requires id < beats[s].was.next && id !in Ids(Of(beats[s].w.reg, spec.id))
    ensures Elsewhere(beats[t], spec, id)
    decreases t
  {
    hide Beats, Between, Elsewhere, H.IdleIn, Snapshot, Of, Ids;
    assert Beats(st, reliable, beats[t]) && Beats(st, reliable, beats[t - 1]);
    assert Between(beats[t - 1].w, beats[t].was);
    BeatIsSound(st, reliable, beats[t]);
    IdleIsRegistered(st, beats[t], id);
    if t == s + 1 {
      ElsewhereAfterSpawn(st, reliable, beats[s], beats[t], spec, id);
    } else {
      ElsewhereThroughout(st, reliable, beats, spec, s, t - 1, id);
      StaysElsewhere(st, reliable, beats[t - 1], beats[t], spec, id);
    }
  }

  /** A replica of another spec is in no pool that the spec's turn sees. */
  lemma NotSeenElsewhere(st: Settings, reliable: bool, b: Beat, spec: Spec, id: ReplicaId)
    requires Beats(st, reliable, b) && spec in st.specs && spec.Managed() && Elsewhere(b, spec, id)
    requires H.IdleIn(Snapshot(st.specs, b.was.reg), b.i.idleNow, id)
    ensures spec.id in b.seen && id !in Ids(b.seen[spec.id].snap)
  {
    BeatOf(st, reliable, b, spec);
    IdleIsRegistered(st, b, id);
    var r := Find(b.was.reg, id).value;
    FindSound(b.was.reg, id);
    var o := b.seen[spec.id];
    forall q | q in o.snap
      ensures q.id != id
    {
      var mid := ReapedPool(Of(b.passed, spec.id), spec, b.i.inflight, b.i.reapNow);
      OverlayKeepsIds(mid, spec, b.i.inflight, q);
      var m :| m in mid && m.id == q.id;
      RemoveAllSubset(Of(b.passed, spec.id),
                      LifetimeReap(Overlay(Of(b.passed, spec.id), spec, b.i.inflight), b.i.reapNow, spec.maxLifetime,
                                   spec.containerLifetime, spec.drainTimeout), m);
      OfMembers(b.passed, spec.id, m);
      if q.id == id {
        PassKeepsSpec(st, b, reliable, r, m);
      }
    }
  }

  /** A drop is of a replica the turn saw, idle at every tick of its grace. */
  lemma DropNeedsStreak(p: H.Policy, obs: seq<H.Observation>, d: nat, id: ReplicaId)
    requires d < |obs| && H.DropsAt(p, obs, d, id)
    ensures id in Ids(obs[d].snap)
    ensures forall u :: d + 1 - p.dropAfter <= u <= d && 0 <= u ==> H.IdleIn(obs[u].raw, obs[u].now, id)
  {
    H.DroppedAfterAFullStreak(p, obs, d, id);
    H.VictimsAreIdle(obs[d].snap, H.Seen(H.Before(p, obs, d), obs[d]).idle, p.dropAfter, |obs[d].snap| - p.min, id);
    var r :| r in obs[d].snap && r.id == id && r.sessionsActive == 0;
  }

  /**
   After a saturation spawn for a spec that is no API, in a run of ticks, no replica of the spec is
   dropped before a full idle grace.
   */
  lemma DropWaitsOutTheIdleGrace(st: Settings, reliable: bool, beats: seq<Beat>, spec: Spec, s: nat, d: nat,
                                 id: ReplicaId)
    requires Watched(st, reliable, beats, spec) && !spec.kind.Api? && spec.scaleUpThreshold.None?
    requires s < d < |beats| && forall t :: 0 <= t < |beats| ==> spec.id in beats[t].seen
    requires H.SpawnsAt(st.Policy(spec), Seen(beats, spec.id), s)
            && H.DropsAt(st.Policy(spec), Seen(beats, spec.id), d, id)
    requires forall r :: r in beats[s].seen[spec.id].snap ==> r.sessionsMax >= 1
    ensures d >= s + st.Policy(spec).dropAfter
  {
    hide Beats, IsRun, H.DropsAt, H.SpawnsAt, H.IdleIn, Snapshot, PolicyOf;
    var p, obs := st.Policy(spec), Seen(beats, spec.id);
    DropNeedsStreak(p, obs, d, id);
    if d < s + p.dropAfter {
      forall u | s <= u <= d
        ensures H.IdleIn(Snapshot(st.specs, beats[u].was.reg), beats[u].i.idleNow, id)
      {
        TicksRunTheMachine(st, reliable, beats, spec, u);
      }
      EarlyDropIsImpossible(st, reliable, beats, spec, s, d, id);
    }
  }

  lemma EarlyDropIsImpossible(st: Settings, reliable: bool, beats: seq<Beat>, spec: Spec, s: nat, d: nat, id: ReplicaId)
    requires Watched(st, reliable, beats, spec) && !spec.kind.Api? && spec.scaleUpThreshold.None?
    requires s < d < |beats| && forall t :: 0 <= t < |beats| ==> spec.id in beats[t].seen
    requires H.SpawnsAt(st.Policy(spec), Seen(beats, spec.id), s)
    requires forall r :: r in beats[s].seen[spec.id].snap ==> r.sessionsMax >= 1
    requires forall u :: s <= u <= d ==> H.IdleIn(Snapshot(st.specs, beats[u].was.reg), beats[u].i.idleNow, id)
    ensures id !in Ids(beats[d].seen[spec.id].snap)
  {
    TicksRunTheMachine(st, reliable, beats, spec, s);
    assert Beats(st, reliable, beats[s]) && Beats(st, reliable, beats[d]);
    SpawnTickSeesNoneIdle(st, beats[s], reliable, spec, id);
    ElsewhereThroughout(st, reliable, beats, spec, s, d, id);
    NotSeenElsewhere(st, reliable, beats[d], spec, id);
  }

  /**
   The flap bound. In any run of ticks, for a spec that is no API, has no scale-up threshold and whose
   replicas have seats: drop, saturation spawn, drop takes at least cooldown, saturation grace and idle
   grace together.
   */
  lemma FlapCycleBound(st: Settings, reliable: bool, beats: seq<Beat>, spec: Spec, d1: nat, s: nat, d2: nat,
                       id: ReplicaId)
    requires Watched(st, reliable, beats, spec) && !spec.kind.Api? && spec.scaleUpThreshold.None?
    requires d1 < s < d2 < |beats| && forall t :: 0 <= t < |beats| ==> spec.id in beats[t].seen
    requires var p, obs := st.Policy(spec), Seen(beats, spec.id);
      H.ScalesDownAt(p, obs, d1) && H.SpawnsAt(p, obs, s) && H.DropsAt(p, obs, d2, id)
    requires forall r :: r in beats[s].seen[spec.id].snap ==> r.sessionsMax >= 1
    ensures var p := st.Policy(spec);
      && s >= d1 + p.cooldown + H.AtLeastOne(p.spawnAfter)
      && d2 >= s + p.dropAfter
      && d2 - d1 >= p.cooldown + H.AtLeastOne(p.spawnAfter) + p.dropAfter
  {
    H.SpawnWaitsOutTheCooldown(st.Policy(spec), Seen(beats, spec.id), d1, s);
    DropWaitsOutTheIdleGrace(st, reliable, beats, spec, s, d2, id);
  }

  // ---- Why APIs are left out ----

  /** An API spec as configured with no limits but the replica count. */
  const API := Spec("api", Kind.Api, true, 0, 5, 100, 1, None, None, None, None, None, None, 0)

  const DEFAULTS := Settings([API], IDLE_GRACE_TICKS, SATURATION_GRACE_TICKS, None, INTERVAL_SECS)

  /** The replica the run starts with, and the one it spawns, ready at `at`. */
  const FIRST := Replica(0, "api", "first", ReplicaState.Ready, 0, 0, 100)

  function Second(at: int): Replica {
    Replica(1, "api", "second", ReplicaState.Ready, at, 0, 100)
  }

  function Given(inflight: map<ReplicaId, nat>, now: int): Input {
    Input(None, {}, inflight, now, now, now)
  }

  const ONE: Replicas := [FIRST]
  const TWO: Replicas := [FIRST, Second(70_000)]
  const STARTED := World(ONE, 1, Book(map[], map[], map[]))
  const WAITED := World(ONE, 1, Book(map[0 := 1], map["api" := 1], map[]))
  const SPAWNED := World(TWO, 2, Book(map[0 := 2], map[], map[]))
  const DROPPED := World([Second(70_000)], 2, Book(map[], map[], map["api" := 6]))
  const BUSY: Replicas := [FIRST.(sessionsActive := 1, sessionsMax := 1)]
  const QUIET: Replicas := [FIRST.(sessionsMax := 1), Second(70_000).(sessionsMax := 1)]

  /** Busy twice, then quiet, ten seconds apart, a minute after the first replica came up. */
  const WAIT_BEAT := Beat(Given(map[0 := 1], 60_000), STARTED, ONE,
                          map["api" := H.Observation(ONE, 60_000, {}, BUSY, false, {})], WAITED)
  const SPAWN_BEAT := Beat(Given(map[0 := 1], 70_000), WAITED, ONE,
                           map["api" := H.Observation(ONE, 70_000, {}, BUSY, false, {})], SPAWNED)
  const DROP_BEAT := Beat(Given(map[], 80_000), SPAWNED, TWO,
                          map["api" := H.Observation(TWO, 80_000, {}, QUIET, true, {})], DROPPED)

  lemma {:induction false} WholePool(reg: Replicas, name: string)
    requires forall r :: r in reg ==> r.spec == "api"
    ensures Of(reg, name) == if name == "api" then reg else []
  {
    if reg != [] {
      assert reg[0] in reg && forall r :: r in reg[1..] ==> r in reg;
      WholePool(reg[1..], name);
    }
  }

  lemma {:induction false} NoneReaped(rs: Replicas, now: int, drain: int)
    ensures LifetimeReap(rs, now, None, None, drain) == []
  {
    if rs != [] {
      NoneReaped(rs[1..], now, drain);
    }
  }

  /** A registry of the API's replicas only. */
  ghost predicate OnlyApi(w: World) {
    Issued(w.reg, w.next) && forall r :: r in w.reg ==> r.spec == "api"
  }

  /** What makes a beat without a liveness report a tick, when only the API has replicas. */
  lemma ApiBeat(b: Beat)
    requires OnlyApi(b.was) && OnlyApi(b.w) && b.was.next <= b.w.next
    requires b.i.report.None? && b.passed == b.was.reg && "api" in b.seen
    requires var p, o, g := DEFAULTS.Policy(API), b.seen["api"], Ground(b.i.inflight, b.i.reapNow, b.was.next, true);
      && Stepped(p, b.was.book.Slice("api"), b.w.book.Slice("api"), b.was.reg, b.i.idleNow, o)
      && o.snap == Overlay(b.was.reg, API, b.i.inflight)
      && PoolCarriedOut(b.was.reg, b.w.reg, API, H.PlanOf(p, b.was.book.Slice("api"), o), g)
    ensures Beats(DEFAULTS, true, b)
  {
    hide Stepped, PoolCarriedOut, H.PlanOf, PolicyOf, Of, Overlay, Snapshot, ReapedPool;
    forall name
      ensures Of(b.was.reg, name) == if name == "api" then b.was.reg else []
      ensures Of(b.w.reg, name) == if name == "api" then b.w.reg else []
    {
      WholePool(b.was.reg, name);
      WholePool(b.w.reg, name);
    }
    ApiSnapshot(b.was.reg);
    ApiNeverReaped(b.was.reg, b.i.inflight, b.i.reapNow);
    assert API in [API] && API.Managed();
  }

  lemma ApiSnapshot(reg: Replicas)
    ensures Snapshot([API], reg) == Of(reg, "api")
  {
    hide Of;
    assert [API][1..] == [];
    assert Snapshot([API], reg) == Of(reg, "api") + Snapshot([], reg);
  }

  lemma ApiNeverReaped(pool: Replicas, inflight: map<ReplicaId, nat>, now: int)
    ensures ReapedPool(pool, API, inflight, now) == pool
  {
    NoneReaped(Overlay(pool, API, inflight), now, 0);
  }

  lemma ApiPolicy()
    ensures DEFAULTS.Policy(API) == H.Policy(0, 5, None, None, 3, 2, 6)
  {
  }

  /** A saturated tick over `FIRST` alone waits or spawns, and counts one more idle tick. */
  lemma BusyTick(c: H.Counters, o: H.Observation)
    requires c.cooling == 0 && c.saturated <= 1 && o.raw == [FIRST] && o.now >= YOUNG_REPLICA_GRACE_MS
    requires o.forgotten == {} && o.later == {} && |o.snap| == 1 && o.snap[0].AvailableSeats() == 0
    ensures H.PlanOf(DEFAULTS.Policy(API), c, o) == if c.saturated == 1 then H.SpawnExtra else H.Wait
    ensures H.Tick(DEFAULTS.Policy(API), c, o) ==
            H.Counters(map[0 := H.IdleCount(c.idle, 0) + 1], 1 - c.saturated, 0)
  {
    ApiPolicy();
    H.OneIdle(c.idle, FIRST, o.now);
    var m := map[0 := H.IdleCount(c.idle, 0) + 1];
    assert m - o.forgotten == m && m - o.later == m;
  }

  /** A quiet tick over both drops `FIRST`, whose idle streak is full; the second replica is young. */
  lemma QuietTick(c: H.Counters, o: H.Observation)
    requires c == H.Counters(map[0 := 2], 0, 0) && o.raw == [FIRST, Second(70_000)] && o.now == 80_000
    requires o.snap == [FIRST.(sessionsMax := 1), Second(70_000).(sessionsMax := 1)]
    requires o.forgotten == {} && o.later == {} && o.stopped
    ensures H.PlanOf(DEFAULTS.Policy(API), c, o) == H.Drop([0])
    ensures H.Tick(DEFAULTS.Policy(API), c, o) == H.Counters(map[], 0, 6)
  {
    ApiPolicy();
    var idle := H.Counted(c.idle, o.raw, o.now);
    assert FIRST in o.raw && Second(70_000) in o.raw && H.CountsIdle(FIRST, o.now)
      && !H.CountsIdle(Second(70_000), o.now);
    assert idle == map[0 := 3];
    assert idle - o.forgotten == idle;
    assert o.snap[0].AvailableSeats() == 1 && o.snap[0] in o.snap;
    var rest := o.snap[1..];
    assert H.Victims(rest, idle, 3, 1) == H.Victims(rest[1..], idle, 3, 1) == [];
    assert H.Victims(o.snap, idle, 3, 2) == [0] + H.Victims(rest, idle, 3, 1);
    assert idle - (set id | id in [0]) == map[];
  }

  lemma FirstBeat()
    ensures Beats(DEFAULTS, true, WAIT_BEAT)
  {
    var b := WAIT_BEAT;
    BusyTick(b.was.book.Slice("api"), b.seen["api"]);
    hide H.PlanOf, H.Tick, PolicyOf;
    ApiBeat(b);
  }

  lemma SecondBeat()
    ensures Beats(DEFAULTS, true, SPAWN_BEAT)
    ensures H.PlanOf(DEFAULTS.Policy(API), WAITED.book.Slice("api"), SPAWN_BEAT.seen["api"]).SpawnExtra?
  {
    var b := SPAWN_BEAT;
    BusyTick(b.was.book.Slice("api"), b.seen["api"]);
    ApiPolicy();
    hide H.PlanOf, H.Tick, PolicyOf;
    ApiBeat(b);
  }

  lemma ThirdBeat()
    ensures Beats(DEFAULTS, true, DROP_BEAT)
    ensures H.PlanOf(DEFAULTS.Policy(API), SPAWNED.book.Slice("api"), DROP_BEAT.seen["api"]) == H.Drop([0])
  {
    var b := DROP_BEAT;
    QuietTick(b.was.book.Slice("api"), b.seen["api"]);
    hide H.PlanOf, H.Tick, PolicyOf;
    assert RemoveAll(TWO, [0]) == DROPPED.reg by {
      assert [0][1..] == [];
      assert RemoveAll(Remove(TWO, 0), []) == Remove(TWO, 0);
    }
    ApiBeat(b);
  }

  lemma BetweenItself(w: World)
    ensures Between(w, w)
  {
  }

  /** Three ticks, each starting where the one before ended. */
  lemma ThreeTicks(st: Settings, a: Beat, b: Beat, c: Beat, spec: Spec)
    requires Beats(st, true, a) && Beats(st, true, b) && Beats(st, true, c) && spec in st.specs && spec.Managed()
    requires a.was.book == Book(map[], map[], map[]) && a.w == b.was && b.w == c.was
    requires spec.id in a.seen && spec.id in b.seen && spec.id in c.seen
    ensures var beats := [a, b, c];
      && Watched(st, true, beats, spec) && (forall t :: 0 <= t < |beats| ==> spec.id in beats[t].seen)
      && (forall id :: H.PlanOf(st.Policy(spec), b.was.book.Slice(spec.id), b.seen[spec.id]).SpawnExtra?
                       && H.PlanOf(st.Policy(spec), c.was.book.Slice(spec.id), c.seen[spec.id]) == H.Drop([id]) ==>
            && H.SpawnsAt(st.Policy(spec), Seen(beats, spec.id), 1)
            && H.DropsAt(st.Policy(spec), Seen(beats, spec.id), 2, id))
  {
    var beats := [a, b, c];
    BetweenItself(a.w);
    BetweenItself(b.w);
    hide Beats, Between, H.PlanOf, PolicyOf, H.Tick, Snapshot;
    assert IsRun(st, true, beats);
    TicksRunTheMachine(st, true, beats, spec, 1);
    TicksRunTheMachine(st, true, beats, spec, 2);
  }

  /**
   An API replica never has sessions in the registry, so its idle counter grows while its requests
   saturate the pool: in a run of three ticks with default settings and a backend that answers, the
   second tick spawns a replica and the third, with that replica in the pool, drops the first.
   */
  lemma ApiPoolFlapsFaster() returns (beats: seq<Beat>)
    ensures Watched(DEFAULTS, true, beats, API) && forall t :: 0 <= t < |beats| ==> "api" in beats[t].seen
    ensures var p, obs := DEFAULTS.Policy(API), Seen(beats, "api");
      && p.dropAfter == IDLE_GRACE_TICKS && p.up.None? && |obs| == 3
      && H.SpawnsAt(p, obs, 1) && H.DropsAt(p, obs, 2, FIRST.id) && obs[2].snap == QUIET
  {
    beats := [WAIT_BEAT, SPAWN_BEAT, DROP_BEAT];
    FirstBeat();
    SecondBeat();
    ThirdBeat();
    ApiPolicy();
    hide Beats, H.PlanOf, PolicyOf, H.DropsAt, H.SpawnsAt, Watched;
    assert API in DEFAULTS.specs && API.Managed();
    ThreeTicks(DEFAULTS, WAIT_BEAT, SPAWN_BEAT, DROP_BEAT, API);
  }
}
