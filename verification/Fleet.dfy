/**
 The operations the scaler, the reconciler and the dashboard share over one process's state:
 stop, cleanup, prune, restart mark, re-adoption and the liveness pass itself
 (crates/ruscker-admin/src/scaler.rs).
 */
module Fleets {
  import opened Wrappers
  import opened Registries
  import opened ScalingRules
  import opened Backends
  import opened Liveness
  import Sessions

  /** The first spec with this id. */
  function SpecOf(specs: seq<Spec>, id: string): Option<Spec> {
    if specs == [] then None else if specs[0].id == id then Some(specs[0]) else SpecOf(specs[1..], id)
  }

  /** Every replica of every spec, in catalog order. */
  function Snapshot(specs: seq<Spec>, reg: Replicas): Replicas {
    if specs == [] then [] else Of(reg, specs[0].id) + Snapshot(specs[1..], reg)
  }

  predicate DistinctIds(specs: seq<Spec>) {
    forall i, j :: 0 <= i < j < |specs| ==> specs[i].id != specs[j].id
  }

  /** What re-adoption of a running container does to the registry. */
  function Readopted(reg: Replicas, spec: Spec, d: Replica, ready: bool): Replicas {
    var here := Find(Of(reg, spec.id), d.id);
    if here.Some? && here.value.state.Ready? then reg
    else if here.None? && |Of(reg, spec.id)| >= spec.maxReplicas then reg
    else if ready then Upsert(reg, Adopted(d, spec))
    else if here.Some? then Remove(reg, d.id)
    else reg
  }

  /** The container is stopped: there is no room for it, or it does not answer. */
  predicate Rejected(reg: Replicas, spec: Spec, d: Replica, ready: bool) {
    var here := Find(Of(reg, spec.id), d.id);
    && !(here.Some? && here.value.state.Ready?)
    && ((here.None? && |Of(reg, spec.id)| >= spec.maxReplicas) || !ready)
  }

  /** A container is stopped exactly when the call leaves nothing registered under its id. */
  lemma RejectedIffUnregistered(reg: Replicas, spec: Spec, d: Replica, ready: bool)
    requires UniqueIds(reg) && d.spec == spec.id && (Find(reg, d.id).Some? ==> Find(reg, d.id).value.spec == spec.id)
    ensures Rejected(reg, spec, d, ready) <==> Find(Readopted(reg, spec, d, ready), d.id).None?
  {
    FindInPool(reg, spec.id, d.id);
    ReadoptEffect(reg, spec, d, ready);
    hide Adopted, Readopted;
  }

  /** The stopped containers nobody has registered and whose exit is past the grace. */
  function Orphans(managed: seq<Container>, registered: set<string>, now: int): seq<string> {
    if managed == [] then []
    else
      var c := managed[0];
      (if !c.running && c.id !in registered && c.finishedAt.Some? && now - c.finishedAt.value >= RESTART_GRACE_MS
       then [c.id] else [])
      + Orphans(managed[1..], registered, now)
  }

  /** A container is removed only if the report shows it stopped and past the grace, and nobody holds it. */
  lemma {:induction false} OrphansIff(managed: seq<Container>, registered: set<string>, now: int, id: string)
    ensures id in Orphans(managed, registered, now) <==>
            id !in registered && exists c :: c in managed && c.id == id && !c.running
                                            && c.finishedAt.Some? && now - c.finishedAt.value >= 30_000
  {
    if managed != [] {
      OrphansIff(managed[1..], registered, now, id);
      assert forall c :: c in managed <==> c == managed[0] || c in managed[1..];
    }
  }

  lemma LookupInPool(pool: Replicas, id: ReplicaId)
    requires UniqueIds(pool)
    ensures (exists r :: r in pool && r.id == id) <==> Find(pool, id).Some?
    ensures (exists r :: r in pool && r.id == id && r.state.Ready?) <==>
            Find(pool, id).Some? && Find(pool, id).value.state.Ready?
  {
    FindSound(pool, id);
    forall r | r in pool && r.id == id {
      FindUnique(pool, r);
    }
  }

  // ---- One pass, replica by replica ----

  /** Labels do not change: a running container reports its own id, and the spec it is registered under. */
  ghost predicate LabelsAgree(reg: Replicas, running: map<ReplicaId, Replica>) {
    forall id :: id in running ==>
      running[id].id == id && (Find(reg, id).Some? ==> Find(reg, id).value.spec == running[id].spec)
  }

  /**
   What the pass over the snapshot does for one replica; a running one that is not stopped waits for the
   second loop.
   */
  function FirstStep(reg: Replicas, spec: Spec, r: Replica, heard: Heard, now: int): Replicas {
    match heard
    case Nothing => reg
    case Gone => Remove(reg, r.id)
    case Stops =>
      if !r.state.Stopped? then MarkRestarting(reg, r.id, now)
      else if StoppedForGood(r, now) then Remove(reg, r.id)
      else reg
    case Runs(d, ready) => if r.state.Stopped? then Readopted(reg, spec, d, ready) else reg
  }

  function FirstFate(r: Replica, spec: Spec, heard: Heard, now: int): Option<Replica> {
    if heard.Runs? && !r.state.Stopped? then Some(r) else Fate(r, spec, heard, now)
  }

  ghost predicate NoMore(before: Replicas, after: Replicas) {
    forall name :: |Of(after, name)| <= |Of(before, name)|
  }

  ghost predicate SameElsewhere(before: Replicas, after: Replicas, id: ReplicaId) {
    forall other :: other != id ==> Find(after, other) == Find(before, other)
  }

  lemma RemoveEffect(reg: Replicas, id: ReplicaId)
    requires UniqueIds(reg)
    ensures var t := Remove(reg, id);
      UniqueIds(t) && Find(t, id).None? && SameElsewhere(reg, t, id) && NoMore(reg, t)
  {
    FindAfterRemove(reg, id, id);
    forall other {
      FindAfterRemove(reg, id, other);
    }
    forall name: string {
      OfAfterRemove(reg, id, name);
    }
  }

  lemma {:induction false} OfAfterModify(reg: Replicas, id: ReplicaId, f: Replica -> Replica, name: string)
    requires forall r: Replica :: f(r).id == r.id && f(r).spec == r.spec
    ensures |Of(Modify(reg, id, f), name)| == |Of(reg, name)|
  {
    if reg != [] && reg[0].id != id {
      OfAfterModify(reg[1..], id, f, name);
    }
  }

  lemma MarkEffect(reg: Replicas, r: Replica, now: int)
    requires UniqueIds(reg) && Find(reg, r.id) == Some(r)
    ensures var t := MarkRestarting(reg, r.id, now);
      UniqueIds(t) && Find(t, r.id) == Some(Restarting(r, now)) && SameElsewhere(reg, t, r.id) && NoMore(reg, t)
  {
    var f := (q: Replica) => Restarting(q, now);
    forall id {
      FindAfterModify(reg, r.id, f, id);
    }
    forall name: string {
      OfAfterModify(reg, r.id, f, name);
    }
    FindAfterModify(reg, r.id, f, r.id);
  }

  /** Re-adoption changes only what is registered under the container's id, and never breaks the cap. */
  lemma ReadoptEffect(reg: Replicas, spec: Spec, d: Replica, ready: bool)
    requires UniqueIds(reg) && d.spec == spec.id && (Find(reg, d.id).Some? ==> Find(reg, d.id).value.spec == spec.id)
    ensures var t := Readopted(reg, spec, d, ready);
      && UniqueIds(t) && SameElsewhere(reg, t, d.id)
      && (Find(t, d.id).Some? ==>
            Find(t, d.id) == Find(reg, d.id) || (ready && Find(t, d.id) == Some(Adopted(d, spec))))
      && (Find(reg, d.id).Some? && !Find(reg, d.id).value.state.Ready? ==>
            Find(t, d.id) == if ready then Some(Adopted(d, spec)) else None)
      && (Find(reg, d.id).Some? && Find(reg, d.id).value.state.Ready? ==> t == reg)
      && (Find(reg, d.id).None? ==>
            Find(t, d.id) == if |Of(reg, spec.id)| < spec.maxReplicas && ready then Some(Adopted(d, spec)) else None)
      && (forall name ::
            |Of(t, name)| <= |Of(reg, name)| + if name == spec.id && Find(reg, d.id).None? then 1 else 0)
      && (forall name :: |Of(t, name)| <= |Of(reg, name)| || (name == spec.id && |Of(t, name)| <= spec.maxReplicas))
      && (Find(reg, d.id).Some? ==> NoMore(reg, t))
  {
    hide Adopted;
    FindInPool(reg, spec.id, d.id);
    RemoveEffect(reg, d.id);
    UpsertEffect(reg, Adopted(d, spec));
    AdoptedKeepsIdentity(d, spec);
    forall name
      ensures var t := Readopted(reg, spec, d, ready);
        && (|Of(t, name)| <= |Of(reg, name)| || (name == spec.id && |Of(t, name)| <= spec.maxReplicas))
        && (Find(reg, d.id).Some? ==> |Of(t, name)| <= |Of(reg, name)|)
        && |Of(t, name)| <= |Of(reg, name)| + if name == spec.id && Find(reg, d.id).None? then 1 else 0
    {
      assert PoolSizeAfterUpsert(reg, Adopted(d, spec), name);
    }
  }

  lemma AdoptedKeepsIdentity(d: Replica, spec: Spec)
    ensures Adopted(d, spec).id == d.id && Adopted(d, spec).spec == d.spec && Adopted(d, spec).state.Ready?
  {
  }

  predicate PoolSizeAfterUpsert(reg: Replicas, a: Replica, name: string) {
    |Of(Upsert(reg, a), name)| == |Of(reg, name)| + (if a.spec == name then 1 else 0)
      - (if Find(reg, a.id).Some? && Find(reg, a.id).value.spec == name then 1 else 0)
  }

  lemma UpsertEffect(reg: Replicas, a: Replica)
    requires UniqueIds(reg)
    ensures var t := Upsert(reg, a);
      && UniqueIds(t) && Find(t, a.id) == Some(a) && SameElsewhere(reg, t, a.id)
      && forall name :: PoolSizeAfterUpsert(reg, a, name)
  {
    FindAfterUpsert(reg, a, a.id);
    forall id {
      FindAfterUpsert(reg, a, id);
    }
    forall name
      ensures PoolSizeAfterUpsert(reg, a, name)
    {
      OfAfterRemove(reg, a.id, name);
      OfAfterAdd(Remove(reg, a.id), a, name);
    }
  }

  lemma FirstStepEffect(reg: Replicas, spec: Spec, r: Replica, heard: Heard, now: int)
    requires UniqueIds(reg) && Find(reg, r.id) == Some(r) && r.spec == spec.id
    requires heard.Runs? ==> heard.as_.id == r.id && heard.as_.spec == r.spec
    ensures var t := FirstStep(reg, spec, r, heard, now);
      UniqueIds(t) && Find(t, r.id) == FirstFate(r, spec, heard, now) && SameElsewhere(reg, t, r.id) && NoMore(reg, t)
  {
    hide Readopted;
    RemoveEffect(reg, r.id);
    MarkEffect(reg, r, now);
    if heard.Runs? {
      ReadoptEffect(reg, spec, heard.as_, heard.ready);
    }
  }

  // ---- The whole pass ----

  /** What a pass works from. */
  datatype Scan = Scan(specs: seq<Spec>, report: Report, answering: set<ReplicaId>, now: int)
  {
    predicate Knows(r: Replica) {
      SpecOf(specs, r.spec).Some?
    }

    function SpecFor(r: Replica): Spec
      requires Knows(r)
    {
      SpecOf(specs, r.spec).value
    }

    function FateOf(r: Replica): Option<Replica>
      requires Knows(r)
    {
      Fate(r, SpecFor(r), HeardOf(report, answering, r.id), now)
    }

    function FirstFateOf(r: Replica): Option<Replica>
      requires Knows(r)
    {
      FirstFate(r, SpecFor(r), HeardOf(report, answering, r.id), now)
    }
  }

  function Ids(rs: Replicas): set<ReplicaId> {
    set r | r in rs :: r.id
  }

  function ContainersOf(rs: Replicas): set<string> {
    set r | r in rs :: r.container
  }

  ghost predicate KnownPool(sc: Scan, snap: Replicas) {
    UniqueIds(snap) && forall r :: r in snap ==> sc.Knows(r)
  }

  /** Before the snapshot's `i`-th replica. */
  ghost predicate FirstDone(sc: Scan, snap: Replicas, before: Replicas, reg: Replicas, i: nat)
    requires KnownPool(sc, snap) && i <= |snap|
  {
    && UniqueIds(reg) && NoMore(before, reg)
    && (forall k :: 0 <= k < i ==> Find(reg, snap[k].id) == sc.FirstFateOf(snap[k]))
    && (forall k :: i <= k < |snap| ==> Find(reg, snap[k].id) == Some(snap[k]))
    && (forall id :: id !in Ids(snap) ==> Find(reg, id) == Find(before, id))
  }

  /** A container nobody knew of, taken in because it answers and there is room. */
  predicate TakenIn(sc: Scan, found: Option<Replica>, id: ReplicaId) {
    && id in sc.report.running && id in sc.answering
    && var d := sc.report.running[id];
      sc.Knows(d) && found == Some(Adopted(d, sc.SpecFor(d)))
  }

  ghost predicate WithinCaps(sc: Scan, before: Replicas, reg: Replicas) {
    forall spec :: spec in sc.specs ==> |Of(reg, spec.id)| <= Max(|Of(before, spec.id)|, spec.maxReplicas)
  }

  /** While the running containers in `rest` are still to be looked at. */
  ghost predicate SecondDone(sc: Scan, snap: Replicas, before: Replicas, reg: Replicas, rest: set<ReplicaId>)
    requires KnownPool(sc, snap)
  {
    && UniqueIds(reg) && WithinCaps(sc, before, reg)
    && (forall r :: r in snap ==> Find(reg, r.id) == if r.id in rest then sc.FirstFateOf(r) else sc.FateOf(r))
    && (forall id :: id !in Ids(snap) ==>
          Find(reg, id) == Find(before, id) || (id !in rest && TakenIn(sc, Find(reg, id), id)))
  }

  /** The running containers the first loop leaves over. */
  function LeftOver(sc: Scan, snap: Replicas): set<ReplicaId> {
    sc.report.running.Keys - (set r | r in snap && r.state.Stopped? :: r.id)
  }

  lemma FirstLoopStep(sc: Scan, snap: Replicas, before: Replicas, reg: Replicas, i: nat)
    requires KnownPool(sc, snap) && i < |snap| && FirstDone(sc, snap, before, reg, i)
    requires sc.SpecFor(snap[i]).id == snap[i].spec
    requires snap[i].id in sc.report.running ==>
               sc.report.running[snap[i].id].id == snap[i].id && sc.report.running[snap[i].id].spec == snap[i].spec
    ensures var r := snap[i];
      FirstDone(sc, snap, before, FirstStep(reg, sc.SpecFor(r), r, HeardOf(sc.report, sc.answering, r.id), sc.now),
                i + 1)
  {
    var r := snap[i];
    var heard := HeardOf(sc.report, sc.answering, r.id);
    FirstStepEffect(reg, sc.SpecFor(r), r, heard, sc.now);
    hide FirstStep, FirstFate, HeardOf;
    var t := FirstStep(reg, sc.SpecFor(r), r, heard, sc.now);
    assert r in snap && r.id in Ids(snap);
    assert forall k :: 0 <= k < |snap| && k != i ==> snap[k].id != r.id;
  }

  lemma FirstLoopEnds(sc: Scan, snap: Replicas, before: Replicas, reg: Replicas)
    requires KnownPool(sc, snap) && FirstDone(sc, snap, before, reg, |snap|)
    ensures SecondDone(sc, snap, before, reg, LeftOver(sc, snap)) && NoMore(before, reg)
  {
    forall r | r in snap
      ensures Find(reg, r.id) == if r.id in LeftOver(sc, snap) then sc.FirstFateOf(r) else sc.FateOf(r)
    {
      var k :| 0 <= k < |snap| && snap[k] == r;
      if r.id !in LeftOver(sc, snap) && r.id in sc.report.running {
        var q :| q in snap && q.state.Stopped? && q.id == r.id;
        FindUnique(snap, r);
        FindUnique(snap, q);
      }
    }
  }

  lemma {:induction false} SpecOfSound(specs: seq<Spec>, name: string)
    ensures SpecOf(specs, name).Some? ==> SpecOf(specs, name).value in specs && SpecOf(specs, name).value.id == name
    ensures SpecOf(specs, name).None? ==> forall spec :: spec in specs ==> spec.id != name
  {
    if specs != [] && specs[0].id != name {
      SpecOfSound(specs[1..], name);
    }
  }

  /** The snapshot misses no replica of a known spec. */
  ghost predicate Complete(sc: Scan, snap: Replicas, before: Replicas) {
    forall id :: Find(before, id).Some? && id !in Ids(snap) ==> !sc.Knows(Find(before, id).value)
  }

  /** What the second loop does with one running container. */
  function SecondStep(sc: Scan, reg: Replicas, d: Replica): Replicas {
    if sc.Knows(d) && sc.SpecFor(d).Managed() then Readopted(reg, sc.SpecFor(d), d, d.id in sc.answering) else reg
  }

  lemma SecondLoopStep(sc: Scan, snap: Replicas, before: Replicas, reg: Replicas, rest: set<ReplicaId>, id: ReplicaId)
    requires KnownPool(sc, snap) && SecondDone(sc, snap, before, reg, rest) && id in rest && rest <= LeftOver(sc, snap)
    requires DistinctIds(sc.specs) && LabelsAgree(before, sc.report.running) && Complete(sc, snap, before)
    requires forall r :: r in snap ==> Find(before, r.id) == Some(r)
    ensures SecondDone(sc, snap, before, SecondStep(sc, reg, sc.report.running[id]), rest - {id})
  {
    var d := sc.report.running[id];
    var t := SecondStep(sc, reg, d);
    SpecOfSound(sc.specs, d.spec);
    if id in Ids(snap) {
      var r :| r in snap && r.id == id;
      assert !r.state.Stopped? && d.spec == r.spec;
      assert Find(reg, id) == Some(r);
      if t != reg {
        ReadoptEffect(reg, sc.SpecFor(d), d, id in sc.answering);
      }
      SecondStepOnKnown(sc, r, d, reg);
      hide SecondStep, Readopted, Fate, FirstFate, HeardOf;
      assert forall q :: q in snap && q.id == id ==> Find(before, q.id) == Some(q);
    } else {
      assert Find(reg, id) == Find(before, id);
      if t != reg {
        assert Find(before, id).None?;
        ReadoptEffect(reg, sc.SpecFor(d), d, id in sc.answering);
      }
      hide SecondStep, Readopted, Fate, FirstFate, HeardOf;
    }
  }

  lemma SecondStepOnKnown(sc: Scan, r: Replica, d: Replica, reg: Replicas)
    requires UniqueIds(reg) && Find(reg, r.id) == Some(r) && r.id in sc.report.running && sc.report.running[r.id] == d
    requires d.id == r.id && d.spec == r.spec && sc.Knows(r) && sc.SpecFor(r).id == r.spec && !r.state.Stopped?
    ensures Find(SecondStep(sc, reg, d), r.id) == sc.FateOf(r)
  {
    if sc.SpecFor(d).Managed() {
      ReadoptEffect(reg, sc.SpecFor(d), d, d.id in sc.answering);
    }
  }

  // ---- Running containers nobody knew of ----

  /** The running containers that carry the label of spec `name` and are not in the snapshot. */
  function Newcomers(sc: Scan, snap: Replicas, name: string): set<ReplicaId> {
    set id | id in sc.report.running && id !in Ids(snap) && sc.report.running[id].spec == name
  }

  /** Even with every newcomer of the spec, the pool is within the cap. */
  ghost predicate RoomForAll(sc: Scan, snap: Replicas, before: Replicas, spec: Spec) {
    |Of(before, spec.id)| + |Newcomers(sc, snap, spec.id)| <= spec.maxReplicas
  }

  /** The newcomers looked at so far are in wherever there was room for all. */
  ghost predicate Welcomed(sc: Scan, snap: Replicas, before: Replicas, reg: Replicas, rest: set<ReplicaId>) {
    && (forall name :: |Of(reg, name)| <= |Of(before, name)| + |Newcomers(sc, snap, name) - rest|)
    && (forall id ::
          id in sc.report.running && id in sc.answering && id !in Ids(snap) && id !in rest
          && sc.Knows(sc.report.running[id]) && sc.SpecFor(sc.report.running[id]).Managed()
          && RoomForAll(sc, snap, before, sc.SpecFor(sc.report.running[id])) ==>
            Find(reg, id) == Some(Adopted(sc.report.running[id], sc.SpecFor(sc.report.running[id]))))
  }

  lemma WelcomeStarts(sc: Scan, snap: Replicas, before: Replicas, reg: Replicas)
    requires NoMore(before, reg)
    ensures Welcomed(sc, snap, before, reg, LeftOver(sc, snap))
  {
    forall id | id in sc.report.running && id !in Ids(snap)
      ensures id in LeftOver(sc, snap)
    {
    }
  }

  lemma NewcomerCounted(sc: Scan, snap: Replicas, rest: set<ReplicaId>, id: ReplicaId, name: string)
    requires id in rest
    ensures var all := Newcomers(sc, snap, name);
      |all - (rest - {id})| == |all - rest| + (if id in all then 1 else 0) && |all - (rest - {id})| <= |all|
  {
    var all := Newcomers(sc, snap, name);
    if id in all {
      assert all - (rest - {id}) == (all - rest) + {id};
    } else {
      assert all - (rest - {id}) == all - rest;
    }
    assert all == (all - (rest - {id})) + (all * (rest - {id}));
  }

  lemma WelcomeStep(sc: Scan, snap: Replicas, before: Replicas, reg: Replicas, rest: set<ReplicaId>, id: ReplicaId)
    requires Welcomed(sc, snap, before, reg, rest) && UniqueIds(reg) && id in rest
    requires id in sc.report.running && sc.report.running[id].id == id
    requires id !in Ids(snap) && (sc.Knows(sc.report.running[id]) ==> Find(reg, id).None?)
    ensures Welcomed(sc, snap, before, SecondStep(sc, reg, sc.report.running[id]), rest - {id})
  {
    var d := sc.report.running[id];
    var t := SecondStep(sc, reg, d);
    SpecOfSound(sc.specs, d.spec);
    forall name {
      NewcomerCounted(sc, snap, rest, id, name);
    }
    if sc.Knows(d) && sc.SpecFor(d).Managed() {
      ReadoptEffect(reg, sc.SpecFor(d), d, id in sc.answering);
    }
    hide Readopted, Adopted, Newcomers, LeftOver;
    assert id in Newcomers(sc, snap, d.spec) by { NewcomerOfItsSpec(sc, snap, id); }
    forall name
      ensures |Of(t, name)| <= |Of(before, name)| + |Newcomers(sc, snap, name) - (rest - {id})|
    {
      NewcomerCounted(sc, snap, rest, id, name);
    }
  }

  lemma NewcomerOfItsSpec(sc: Scan, snap: Replicas, id: ReplicaId)
    requires id in sc.report.running && id !in Ids(snap)
    ensures id in Newcomers(sc, snap, sc.report.running[id].spec)
  {
  }

  /** A replica of the snapshot takes no newcomer's place. */
  lemma WelcomeKept(sc: Scan, snap: Replicas, before: Replicas, reg: Replicas, rest: set<ReplicaId>, id: ReplicaId)
    requires Welcomed(sc, snap, before, reg, rest) && UniqueIds(reg) && id in rest
    requires id in Ids(snap) && Find(reg, id).Some? && id in sc.report.running
    requires sc.report.running[id].id == id && Find(reg, id).value.spec == sc.report.running[id].spec
    ensures Welcomed(sc, snap, before, SecondStep(sc, reg, sc.report.running[id]), rest - {id})
  {
    var d := sc.report.running[id];
    SpecOfSound(sc.specs, d.spec);
    var t := SecondStep(sc, reg, d);
    assert SameElsewhere(reg, t, id) && NoMore(reg, t) by {
      hide Welcomed, Adopted, Newcomers;
      if sc.Knows(d) && sc.SpecFor(d).Managed() {
        ReadoptEffect(reg, sc.SpecFor(d), d, id in sc.answering);
      }
    }
    hide SecondStep, Adopted, LeftOver;
    forall name
      ensures |Of(t, name)| <= |Of(before, name)| + |Newcomers(sc, snap, name) - (rest - {id})|
    {
      assert Newcomers(sc, snap, name) - (rest - {id}) == Newcomers(sc, snap, name) - rest;
      assert |Of(reg, name)| <= |Of(before, name)| + |Newcomers(sc, snap, name) - rest|;
    }
    hide Newcomers;
  }

  lemma WelcomeNext(sc: Scan, snap: Replicas, before: Replicas, reg: Replicas, rest: set<ReplicaId>, id: ReplicaId)
    requires KnownPool(sc, snap) && SecondDone(sc, snap, before, reg, rest) && id in rest && rest <= LeftOver(sc, snap)
    requires LabelsAgree(before, sc.report.running) && Complete(sc, snap, before)
    requires forall r :: r in snap ==> Find(before, r.id) == Some(r)
    requires Welcomed(sc, snap, before, reg, rest)
    ensures id in sc.report.running
    ensures Welcomed(sc, snap, before, SecondStep(sc, reg, sc.report.running[id]), rest - {id})
  {
    hide SecondDone, KnownPool, Complete, Welcomed, LeftOver, SecondStep;
    LeftOverAt(sc, snap, before, reg, rest, id);
    if id in Ids(snap) {
      WelcomeKept(sc, snap, before, reg, rest, id);
    } else {
      WelcomeStep(sc, snap, before, reg, rest, id);
    }
  }

  // ---- Whose sessions a pass forgets ----

  /** Gone from the registry, or newly stopped in it. */
  predicate Dropped(reg: Replicas, r: Replica) {
    Find(reg, r.id).None? || (Find(reg, r.id).value.state.Stopped? && !r.state.Stopped?)
  }

  function AllDropped(snap: Replicas, reg: Replicas): set<ReplicaId> {
    set r | r in snap && Dropped(reg, r) :: r.id
  }

  function ForgetAll(table: Sessions.Table, ids: set<ReplicaId>): Sessions.Table {
    table - set sid | sid in table && table[sid].replica in ids
  }

  lemma ForgetOneMore(table: Sessions.Table, ids: set<ReplicaId>, id: ReplicaId)
    ensures Sessions.Forget(ForgetAll(table, ids), id) == ForgetAll(table, ids + {id})
    ensures ForgetAll(table, {}) == table
  {
    assert Sessions.Forget(ForgetAll(table, ids), id).Keys == ForgetAll(table, ids + {id}).Keys;
  }

  /** A step that changes only what is registered under a replica of the snapshot. */
  lemma DroppedStep(snap: Replicas, reg: Replicas, after: Replicas, r: Replica)
    requires UniqueIds(snap) && r in snap && SameElsewhere(reg, after, r.id) && (Dropped(reg, r) ==> Dropped(after, r))
    ensures AllDropped(snap, after) == AllDropped(snap, reg) + if Dropped(after, r) then {r.id} else {}
  {
    forall q | q in snap
      ensures q.id == r.id ==> q == r
    {
      FindUnique(snap, q);
      FindUnique(snap, r);
    }
  }

  /** What the pass over the snapshot forgets with one replica. */
  predicate Forgets(reg: Replicas, spec: Spec, r: Replica, heard: Heard, now: int) {
    match heard
    case Nothing => false
    case Gone => true
    case Stops => if !r.state.Stopped? then Find(reg, r.id).Some? else StoppedForGood(r, now)
    case Runs(d, ready) =>
      r.state.Stopped? && Rejected(reg, spec, d, ready) && Find(Of(reg, spec.id), d.id).Some?
  }

  lemma ForgetsTheDropped(sc: Scan, snap: Replicas, before: Replicas, reg: Replicas, i: nat)
    requires KnownPool(sc, snap) && i < |snap| && FirstDone(sc, snap, before, reg, i)
    requires sc.SpecFor(snap[i]).id == snap[i].spec
    requires snap[i].id in sc.report.running ==>
               sc.report.running[snap[i].id].id == snap[i].id && sc.report.running[snap[i].id].spec == snap[i].spec
    ensures var r := snap[i];
      var heard := HeardOf(sc.report, sc.answering, r.id);
      var t := FirstStep(reg, sc.SpecFor(r), r, heard, sc.now);
      AllDropped(snap, t) ==
        if Forgets(reg, sc.SpecFor(r), r, heard, sc.now) then AllDropped(snap, reg) + {r.id} else AllDropped(snap, reg)
  {
    var r := snap[i];
    var heard := HeardOf(sc.report, sc.answering, r.id);
    FirstStepEffect(reg, sc.SpecFor(r), r, heard, sc.now);
    FindInPool(reg, sc.SpecFor(r).id, r.id);
    hide HeardOf, FirstStep, FirstDone, KnownPool;
    assert UniqueIds(snap) && Find(reg, r.id) == Some(r) by { FirstDoneAt(sc, snap, before, reg, i); }
    DroppedStep(snap, reg, FirstStep(reg, sc.SpecFor(r), r, heard, sc.now), r);
  }

  lemma FirstDoneAt(sc: Scan, snap: Replicas, before: Replicas, reg: Replicas, i: nat)
    requires KnownPool(sc, snap) && i < |snap| && FirstDone(sc, snap, before, reg, i)
    ensures UniqueIds(snap) && Find(reg, snap[i].id) == Some(snap[i])
  {
  }

  lemma NothingDropped(snap: Replicas, reg: Replicas)
    requires forall r :: r in snap ==> Find(reg, r.id) == Some(r)
    ensures AllDropped(snap, reg) == {}
  {
  }

  /** What the second loop forgets: a known replica that does not answer. */
  lemma LeftOverForgets(sc: Scan, snap: Replicas, before: Replicas, reg: Replicas, rest: set<ReplicaId>, id: ReplicaId)
    requires KnownPool(sc, snap) && SecondDone(sc, snap, before, reg, rest) && id in rest && rest <= LeftOver(sc, snap)
    requires DistinctIds(sc.specs) && LabelsAgree(before, sc.report.running) && Complete(sc, snap, before)
    requires forall r :: r in snap ==> Find(before, r.id) == Some(r)
    requires sc.Knows(sc.report.running[id]) && sc.SpecFor(sc.report.running[id]).Managed()
    ensures var d := sc.report.running[id];
      var spec := sc.SpecFor(d);
      var drops := Rejected(reg, spec, d, id in sc.answering) && Find(Of(reg, spec.id), id).Some?;
      AllDropped(snap, SecondStep(sc, reg, d)) == AllDropped(snap, reg) + if drops then {id} else {}
  {
    var d := sc.report.running[id];
    var spec := sc.SpecFor(d);
    SpecOfSound(sc.specs, d.spec);
    LeftOverAt(sc, snap, before, reg, rest, id);
    FindInPool(reg, spec.id, id);
    ReadoptEffect(reg, spec, d, id in sc.answering);
    hide SecondDone, KnownPool, Complete, LeftOver, HeardOf;
    if id in Ids(snap) {
      var r :| r in snap && r.id == id;
      DroppedStep(snap, reg, SecondStep(sc, reg, d), r);
    } else {
      assert AllDropped(snap, SecondStep(sc, reg, d)) == AllDropped(snap, reg) by {
        forall r | r in snap
          ensures Dropped(SecondStep(sc, reg, d), r) <==> Dropped(reg, r)
        {
          assert r.id in Ids(snap) && r.id != id;
        }
      }
    }
  }

  /** What is registered under a running container that the second loop has yet to look at. */
  lemma LeftOverAt(sc: Scan, snap: Replicas, before: Replicas, reg: Replicas, rest: set<ReplicaId>, id: ReplicaId)
    requires KnownPool(sc, snap) && SecondDone(sc, snap, before, reg, rest) && id in rest && rest <= LeftOver(sc, snap)
    requires LabelsAgree(before, sc.report.running) && Complete(sc, snap, before)
    requires forall r :: r in snap ==> Find(before, r.id) == Some(r)
    ensures UniqueIds(snap) && UniqueIds(reg) && Find(reg, id) == Find(before, id)
    ensures id in sc.report.running && sc.report.running[id].id == id
    ensures Find(reg, id).Some? ==> Find(reg, id).value.spec == sc.report.running[id].spec
    ensures forall r :: r in snap && r.id == id ==> Find(reg, id) == Some(r) && !r.state.Stopped?
    ensures id !in Ids(snap) && sc.Knows(sc.report.running[id]) ==> Find(before, id).None?
    ensures id in Ids(snap) ==> Find(reg, id).Some?
  {
    forall r | r in snap && r.id == id
      ensures Find(reg, id) == Some(r) && !r.state.Stopped?
    {
      assert id in LeftOver(sc, snap);
    }
  }

  // ---- What a pass makes of the backend's report ----

  /**
   The pass over the snapshot in the report's own terms, for a replica that no running container was
   reported for. A missing container loses its slot at once; a stopped one is held, out of routing and
   without sessions, for thirty seconds from the pass that first saw it stopped.
   */
  lemma SilentReplicaAfterPass(sc: Scan, snap: Replicas, before: Replicas, reg: Replicas, r: Replica)
    requires KnownPool(sc, snap) && SecondDone(sc, snap, before, reg, {}) && r in snap
    requires r.id !in sc.report.running
    ensures var seen := if r.id in sc.report.observations then sc.report.observations[r.id] else Unknown;
      match seen
      case Missing => Find(reg, r.id).None?
      case Stopped =>
        if !r.state.Stopped?
        then Find(reg, r.id) == Some(r.(state := ReplicaState.Stopped, startedAt := sc.now, sessionsActive := 0))
        else Find(reg, r.id) == if sc.now - r.startedAt >= 30_000 then None else Some(r)
      case _ => Find(reg, r.id) == Some(r)
  {
  }

  /**
   And for a replica with a running container, whatever was observed besides: a Ready one stays as it is,
   a stopped one is back with the reported container if it answers and gone if it does not, and so is one
   in any other state, unless its spec is external or has no image.
   */
  lemma RunningReplicaAfterPass(sc: Scan, snap: Replicas, before: Replicas, reg: Replicas, r: Replica, spec: Spec)
    requires KnownPool(sc, snap) && SecondDone(sc, snap, before, reg, {}) && r in snap
    requires r.id in sc.report.running && SpecOf(sc.specs, r.spec) == Some(spec)
    ensures var d := sc.report.running[r.id];
      Find(reg, r.id) ==
        if r.state.Ready? || (!r.state.Stopped? && (spec.kind.External? || !spec.hasImage)) then Some(r)
        else if r.id in sc.answering
        then Some(d.(state := ReplicaState.Ready, sessionsActive := 0, sessionsMax := spec.seats))
        else None
  {
  }

  /**
   A running container nobody had registered is taken in if its spec is known and runs containers, it
   answers, and there is room for all such containers of the spec; otherwise nothing new appears under an
   id of a container that is not running, not answering, or of no known spec.
   */
  lemma NewcomerAfterPass(sc: Scan, snap: Replicas, before: Replicas, reg: Replicas, id: ReplicaId, spec: Spec)
    requires KnownPool(sc, snap) && SecondDone(sc, snap, before, reg, {}) && Welcomed(sc, snap, before, reg, {})
    requires id !in Ids(snap)
    ensures id in sc.report.running && SpecOf(sc.specs, sc.report.running[id].spec) == Some(spec)
            && !spec.kind.External? && spec.hasImage && id in sc.answering
            && |Of(before, spec.id)| + |Newcomers(sc, snap, spec.id)| <= spec.maxReplicas ==>
              var d := sc.report.running[id];
              Find(reg, id) ==
                Some(d.(state := ReplicaState.Ready, sessionsActive := 0, sessionsMax := spec.seats))
    ensures id !in sc.report.running || id !in sc.answering || SpecOf(sc.specs, sc.report.running[id].spec).None? ==>
              Find(reg, id) == Find(before, id)
  {
  }

  lemma {:induction false} SnapshotMembers(specs: seq<Spec>, reg: Replicas, r: Replica)
    ensures r in Snapshot(specs, reg) <==> r in reg && SpecOf(specs, r.spec).Some?
  {
    if specs != [] {
      OfMembers(reg, specs[0].id, r);
      SnapshotMembers(specs[1..], reg, r);
    }
  }

  lemma {:induction false} SnapshotUnique(specs: seq<Spec>, reg: Replicas)
    requires UniqueIds(reg) && DistinctIds(specs)
    ensures UniqueIds(Snapshot(specs, reg))
  {
    if specs != [] {
      SnapshotUnique(specs[1..], reg);
      FindInPool(reg, specs[0].id, 0);
      var pool, rest := Of(reg, specs[0].id), Snapshot(specs[1..], reg);
      forall i, j | 0 <= i < |pool| && 0 <= j < |rest|
        ensures pool[i].id != rest[j].id
      {
        OfMembers(reg, specs[0].id, pool[i]);
        SnapshotMembers(specs[1..], reg, rest[j]);
        SpecOfSound(specs[1..], rest[j].spec);
        FindUnique(reg, pool[i]);
        FindUnique(reg, rest[j]);
      }
    }
  }

  /** A snapshot taken now is a known, complete pool. */
  lemma SnapshotFits(sc: Scan, reg: Replicas)
    requires UniqueIds(reg) && DistinctIds(sc.specs)
    ensures var snap := Snapshot(sc.specs, reg);
      && KnownPool(sc, snap) && Complete(sc, snap, reg) && FirstDone(sc, snap, reg, reg, 0)
      && (forall r :: r in snap ==> Find(reg, r.id) == Some(r) && sc.SpecFor(r).id == r.spec)
  {
    var snap := Snapshot(sc.specs, reg);
    SnapshotUnique(sc.specs, reg);
    forall r
      ensures r in snap <==> r in reg && sc.Knows(r)
      ensures r in snap ==> Find(reg, r.id) == Some(r) && sc.SpecFor(r).id == r.spec
    {
      SnapshotMembers(sc.specs, reg, r);
      SpecOfSound(sc.specs, r.spec);
      if r in reg {
        FindUnique(reg, r);
      }
    }
    forall id
      ensures Find(reg, id).Some? ==> Find(reg, id).value in reg && Find(reg, id).value.id == id
    {
      FindSound(reg, id);
    }
  }

  lemma FirstDoneIsUnique(sc: Scan, snap: Replicas, before: Replicas, reg: Replicas, i: nat)
    requires KnownPool(sc, snap) && i <= |snap| && FirstDone(sc, snap, before, reg, i)
    ensures UniqueIds(reg)
  {
  }

  lemma HeardSpeaksOf(sc: Scan, r: Replica)
    requires r.id in sc.report.running ==> sc.report.running[r.id].id == r.id
    ensures var heard := HeardOf(sc.report, sc.answering, r.id);
      heard.Runs? ==> heard.as_.id == r.id && (heard.ready <==> r.id in sc.answering)
  {
  }

  class Fleet {
    const registry: ReplicaRegistry
    const sessions: Sessions.InMemorySessionStore
    const backend: Backend

    constructor (registry: ReplicaRegistry, sessions: Sessions.InMemorySessionStore, backend: Backend)
      ensures this.registry == registry && this.sessions == sessions && this.backend == backend
    {
      this.registry, this.sessions, this.backend := registry, sessions, backend;
    }

    /** Registry row and sessions go together. */
    method Cleanup(id: ReplicaId) returns (removed: Option<Replica>)
      modifies registry, sessions
      ensures registry.replicas == Remove(old(registry.replicas), id) && removed == Find(old(registry.replicas), id)
      ensures sessions.sessions == Sessions.Forget(old(sessions.sessions), id)
    {
      removed := registry.RemoveById(id);
      var _ := sessions.DropReplica(id);
    }

    /** The backend's answer is reported only after the local state is gone, whatever it is. */
    method StopOne(id: ReplicaId) returns (ok: bool)
      modifies registry, sessions, backend`stops, backend`stopped
      ensures registry.replicas == Remove(old(registry.replicas), id)
      ensures sessions.sessions == Sessions.Forget(old(sessions.sessions), id)
      ensures backend.stops == old(backend.stops) + [id] && (backend.reliable ==> ok)
      ensures backend.stopped == old(backend.stopped) + if ok then [id] else []
    {
      ok := backend.Stop(id);
      var _ := Cleanup(id);
    }

    method MarkRestartDetected(id: ReplicaId, at: int)
      modifies registry, sessions
      ensures registry.replicas == MarkRestarting(old(registry.replicas), id, at)
      ensures sessions.sessions ==
              if Find(old(registry.replicas), id).Some?
              then Sessions.Forget(old(sessions.sessions), id) else old(sessions.sessions)
    {
      var marked := registry.MarkReplicaRestarting(id, at);
      if !marked {
        return;
      }
      var _ := sessions.DropReplica(id);
    }

    method ReadoptRunningReplica(spec: Spec, d: Replica)
      requires UniqueIds(registry.replicas)
      modifies registry, sessions, backend`stops, backend`stopped
      ensures registry.replicas == Readopted(old(registry.replicas), spec, d, d.id in backend.answering)
      ensures var rejected := Rejected(old(registry.replicas), spec, d, d.id in backend.answering);
        && backend.stops == old(backend.stops) + (if rejected then [d.id] else [])
        && sessions.sessions == if rejected && Find(Of(old(registry.replicas), spec.id), d.id).Some?
                                then Sessions.Forget(old(sessions.sessions), d.id) else old(sessions.sessions)
    {
      var replicas := registry.ReplicasOf(spec.id);
      FindInPool(registry.replicas, spec.id, d.id);
      LookupInPool(replicas, d.id);
      var alreadyReady := exists known :: known in replicas && known.id == d.id && known.state.Ready?;
      var samePresent := exists known :: known in replicas && known.id == d.id;
      if alreadyReady {
        return;
      }
      if !samePresent && |replicas| >= spec.maxReplicas {
        var _ := backend.Stop(d.id);
        return;
      }
      var ready := backend.WaitUntilReady(d.id);
      if !ready {
        var _ := backend.Stop(d.id);
        if samePresent {
          var _ := Cleanup(d.id);
        }
        return;
      }
      registry.UpsertReplica(Adopted(d, spec));
    }

    /** One replica of the snapshot. A pruned or freshly stopped replica loses its sessions. */
    method ReconcileOne(spec: Spec, r: Replica, heard: Heard, now: int)
      requires UniqueIds(registry.replicas)
      requires heard.Runs? ==> heard.as_.id == r.id && (heard.ready <==> r.id in backend.answering)
      modifies registry, sessions, backend`stops, backend`stopped
      ensures registry.replicas == FirstStep(old(registry.replicas), spec, r, heard, now)
      ensures sessions.sessions ==
              if Forgets(old(registry.replicas), spec, r, heard, now)
              then Sessions.Forget(old(sessions.sessions), r.id) else old(sessions.sessions)
      ensures backend.stops == old(backend.stops)
              + if heard.Stops? && StoppedForGood(r, now) then [r.id]
                else if heard.Runs? && r.state.Stopped?
                        && Rejected(old(registry.replicas), spec, heard.as_, heard.ready) then [r.id]
                else []
    {
      match heard {
        case Nothing =>
        case Gone =>
          var _ := Cleanup(r.id);
        case Stops =>
          if !r.state.Stopped? {
            MarkRestartDetected(r.id, now);
          } else if now - r.startedAt >= RESTART_GRACE_MS {
            var _ := backend.Stop(r.id);
            var _ := Cleanup(r.id);
          }
        case Runs(d, ready) =>
          if r.state.Stopped? {
            ReadoptRunningReplica(spec, d);
          }
      }
    }

    /** The running containers that were not a stopped replica of the snapshot, in any order. */
    method ReadoptLeftOver(sc: Scan, snap: Replicas, ghost before: Replicas, ghost table: Sessions.Table)
      requires KnownPool(sc, snap) && SecondDone(sc, snap, before, registry.replicas, LeftOver(sc, snap))
      requires DistinctIds(sc.specs) && LabelsAgree(before, sc.report.running) && Complete(sc, snap, before)
      requires (forall r :: r in snap ==> Find(before, r.id) == Some(r)) && sc.answering == backend.answering
      modifies registry, sessions, backend`stops, backend`stopped
      requires Welcomed(sc, snap, before, registry.replicas, LeftOver(sc, snap))
      requires sessions.sessions == ForgetAll(table, AllDropped(snap, registry.replicas))
      ensures SecondDone(sc, snap, before, registry.replicas, {}) && Welcomed(sc, snap, before, registry.replicas, {})
      ensures sessions.sessions == ForgetAll(table, AllDropped(snap, registry.replicas))
    {
      hide SecondDone, KnownPool, Complete, Readopted, Rejected, Welcomed, AllDropped, ForgetAll, Dropped, LeftOver;
      hide LabelsAgree, Sessions.Forget;
      var rest := LeftOver(sc, snap);
      while rest != {}
        invariant rest <= LeftOver(sc, snap) && SecondDone(sc, snap, before, registry.replicas, rest)
        invariant Welcomed(sc, snap, before, registry.replicas, rest)
        invariant sessions.sessions == ForgetAll(table, AllDropped(snap, registry.replicas))
        decreases |rest|
      {
        var id :| id in rest;
        LeftOverAt(sc, snap, before, registry.replicas, rest, id);
        var d := sc.report.running[id];
        SecondLoopStep(sc, snap, before, registry.replicas, rest, id);
        WelcomeNext(sc, snap, before, registry.replicas, rest, id);
        var spec := SpecOf(sc.specs, d.spec);
        if spec.Some? && !spec.value.kind.External? && spec.value.hasImage {
          LeftOverForgets(sc, snap, before, registry.replicas, rest, id);
          ForgetOneMore(table, AllDropped(snap, registry.replicas), id);
          ReadoptRunningReplica(spec.value, d);
        }
        rest := rest - {id};
      }
    }

    method RemoveOrphans(managed: seq<Container>, registered: set<string>, now: int)
      modifies backend`removals
      ensures backend.removals == old(backend.removals) + Orphans(managed, registered, now)
    {
      ghost var start := backend.removals;
      for i := 0 to |managed|
        invariant start + Orphans(managed, registered, now) == backend.removals + Orphans(managed[i..], registered, now)
      {
        var c := managed[i];
        assert managed[i..][1..] == managed[i + 1..];
        ghost var tail := Orphans(managed[i + 1..], registered, now);
        if c.running || c.id in registered || c.finishedAt.None? || now - c.finishedAt.value < RESTART_GRACE_MS {
          continue;
        }
        assert backend.removals + ([c.id] + tail) == backend.removals + [c.id] + tail;
        var _ := backend.RemoveContainer(c.id);
      }
      assert Orphans(managed[|managed|..], registered, now) == [];
    }

    /** One pass over an undisturbed registry. `snap` is the snapshot the backend was asked about. */
    method ReconcileBackendLiveness(specs: seq<Spec>, snap: Replicas, report: Report, now: int)
      requires DistinctIds(specs) && UniqueIds(registry.replicas) && snap == Snapshot(specs, registry.replicas)
      requires LabelsAgree(registry.replicas, report.running)
      modifies registry, sessions, backend`stops, backend`stopped, backend`removals
      ensures var sc := Scan(specs, report, backend.answering, now);
        && KnownPool(sc, snap) && SecondDone(sc, snap, old(registry.replicas), registry.replicas, {})
        && Welcomed(sc, snap, old(registry.replicas), registry.replicas, {})
      ensures sessions.sessions == ForgetAll(old(sessions.sessions), AllDropped(snap, registry.replicas))
      ensures backend.removals == old(backend.removals)
              + Orphans(report.managed, ContainersOf(snap) + ContainersOf(registry.replicas), now)
    {
      hide FirstDone, SecondDone, KnownPool, Complete, FirstStep, SecondStep, Readopted, Rejected, HeardOf;
      hide AllDropped, ForgetAll, Forgets, Welcomed, Sessions.Forget, LeftOver;
      var sc := Scan(specs, report, backend.answering, now);
      ghost var before := registry.replicas;
      SnapshotFits(sc, before);
      NothingDropped(snap, before);
      ghost var table := sessions.sessions;
      ForgetOneMore(table, {}, 0);
      for i := 0 to |snap|
        invariant sessions.sessions == ForgetAll(table, AllDropped(snap, registry.replicas))
        invariant UniqueIds(registry.replicas) && FirstDone(sc, snap, before, registry.replicas, i)
        invariant backend.removals == old(backend.removals)
      {
        var r := snap[i];
        assert r in snap && sc.Knows(r);
        FirstLoopStep(sc, snap, before, registry.replicas, i);
        HeardSpeaksOf(sc, r);
        ForgetsTheDropped(sc, snap, before, registry.replicas, i);
        ForgetOneMore(table, AllDropped(snap, registry.replicas), r.id);
        ReconcileOne(sc.SpecFor(r), r, HeardOf(report, backend.answering, r.id), now);
        FirstDoneIsUnique(sc, snap, before, registry.replicas, i + 1);
      }
      FirstLoopEnds(sc, snap, before, registry.replicas);
      WelcomeStarts(sc, snap, before, registry.replicas);
      ReadoptLeftOver(sc, snap, before, table);
      RemoveOrphans(report.managed, ContainersOf(snap) + ContainersOf(registry.replicas), now);
    }
  }
}
