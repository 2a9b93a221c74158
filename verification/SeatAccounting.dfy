/**
 Seat conservation: the counters of the registry against the session table while registrations,
 seat reservations, idle sweeps, logouts, replica removals, restart marks and re-adoptions
 interleave (crates/ruscker-admin/src/sessions.rs with its callers in scaler.rs and
 routes/proxy.rs). Every lock release is a step boundary.
 */
module SeatAccounting {
  import opened Wrappers
  import opened Registries
  import opened Sessions

  /** A session is pinned to one replica for life: its cookie carries both. */
  datatype Visit = Visit(serial: nat, replica: ReplicaId)

  /** What became of the registrations: counted in, decremented once applied, or purged without one. */
  datatype Ledger = Ledger(registered: multiset<Visit>, decremented: multiset<Visit>, purged: multiset<Visit>)

  /**
   `sessions` maps a tracked visit to whether its counter increment is still to come. `held` are
   seats reserved at pick time whose session is not registered yet. `incs` and `decs` are the
   counter updates decided on but not yet applied, `purging` the replicas whose sessions are
   being forgotten. `known` holds every id ever in the registry.
   */
  datatype State = State(
    reg: Replicas,
    known: set<ReplicaId>,
    sessions: map<Visit, bool>,
    held: multiset<ReplicaId>,
    incs: seq<Visit>,
    decs: seq<Visit>,
    purging: multiset<ReplicaId>,
    ledger: Ledger)

  /**
   Spawn: a fresh replica becomes Ready, perhaps with its first seat reserved. Reserve: a pick
   under the registry lock. Register: the session enters the table; unless its seat was reserved
   an increment follows. End: a logout or a sweep takes the session out; a decrement follows.
   Deregister and MarkStopped: the replica leaves the registry, or routing; a purge follows.
   */
  datatype Action =
    | Spawn(r: Replica, reserve: bool)
    | Reserve(id: ReplicaId)
    | Register(v: Visit, reserved: bool)
    | Increment(i: nat)
    | End(v: Visit)
    | Decrement(i: nat)
    | Deregister(id: ReplicaId)
    | MarkStopped(id: ReplicaId, at: int)
    | PurgeOne(v: Visit)
    | PurgeDone(id: ReplicaId)
    | Readopt(r: Replica)

  const Init := State([], {}, map[], multiset{}, [], [], multiset{}, Ledger(multiset{}, multiset{}, multiset{}))

  predicate Registered(s: State, id: ReplicaId) {
    Find(s.reg, id).Some?
  }

  /** In the registry and not held out of routing by a restart. */
  predicate Live(s: State, id: ReplicaId) {
    Registered(s, id) && !Find(s.reg, id).value.state.Stopped?
  }

  // The guards: a step whose guard fails changes nothing.

  predicate Spawns(s: State, a: Action, id: ReplicaId) {
    a.Spawn? && a.r.id == id && id !in s.known
  }

  predicate Registers(s: State, a: Action, v: Visit) {
    && a.Register? && a.v == v && v !in s.sessions && v.replica in s.known
    && (a.reserved ==> v.replica in s.held)
  }

  predicate Credits(s: State, a: Action, v: Visit) {
    a.Increment? && a.i < |s.incs| && s.incs[a.i] == v
  }

  predicate Debits(s: State, a: Action, v: Visit) {
    a.Decrement? && a.i < |s.decs| && s.decs[a.i] == v
  }

  predicate Leaves(s: State, a: Action, v: Visit) {
    a.End? && a.v == v && v in s.sessions
  }

  predicate Purges(s: State, a: Action, v: Visit) {
    a.PurgeOne? && a.v == v && v in s.sessions && v.replica in s.purging
  }

  function Without<T>(q: seq<T>, i: nat): seq<T>
    requires i < |q|
  {
    q[..i] + q[i + 1..]
  }

  function Ready(r: Replica): Replica {
    r.(state := ReplicaState.Ready, sessionsActive := 0)
  }

  function RegAfter(s: State, a: Action): Replicas {
    match a
    case Spawn(r, reserve) =>
      if r.id in s.known then s.reg
      else if reserve then Inc(s.reg + [Ready(r)], r.id) else s.reg + [Ready(r)]
    case Reserve(id) => Inc(s.reg, id)
    case Increment(i) => if i < |s.incs| then Inc(s.reg, s.incs[i].replica) else s.reg
    case Decrement(i) => if i < |s.decs| then Dec(s.reg, s.decs[i].replica) else s.reg
    case Deregister(id) => Remove(s.reg, id)
    case MarkStopped(id, at) => MarkRestarting(s.reg, id, at)
    case Readopt(r) => if Live(s, r.id) then s.reg else Upsert(s.reg, Ready(r))
    case _ => s.reg
  }

  function KnownAfter(s: State, a: Action): set<ReplicaId> {
    match a
    case Spawn(r, _) => s.known + {r.id}
    case Readopt(r) => s.known + {r.id}
    case Deregister(id) => s.known + {id}
    case MarkStopped(id, _) => s.known + {id}
    case _ => s.known
  }

  function TableAfter(s: State, a: Action): map<Visit, bool> {
    match a
    case Register(v, reserved) => if Registers(s, a, v) then s.sessions[v := !reserved] else s.sessions
    case Increment(i) =>
      if i < |s.incs| && s.incs[i] in s.sessions then s.sessions[s.incs[i] := false] else s.sessions
    case End(v) => s.sessions - {v}
    case PurgeOne(v) => if Purges(s, a, v) then s.sessions - {v} else s.sessions
    case _ => s.sessions
  }

  function HeldAfter(s: State, a: Action): multiset<ReplicaId> {
    match a
    case Spawn(r, reserve) => if reserve && Spawns(s, a, r.id) then s.held + multiset{r.id} else s.held
    case Reserve(id) => if Registered(s, id) then s.held + multiset{id} else s.held
    case Register(v, reserved) => if reserved && Registers(s, a, v) then s.held - multiset{v.replica} else s.held
    case _ => s.held
  }

  function IncsAfter(s: State, a: Action): seq<Visit> {
    match a
    case Register(v, reserved) => if !reserved && Registers(s, a, v) then s.incs + [v] else s.incs
    case Increment(i) => if i < |s.incs| then Without(s.incs, i) else s.incs
    case _ => s.incs
  }

  function DecsAfter(s: State, a: Action): seq<Visit> {
    match a
    case End(v) => if v in s.sessions then s.decs + [v] else s.decs
    case Decrement(i) => if i < |s.decs| then Without(s.decs, i) else s.decs
    case _ => s.decs
  }

  function PurgingAfter(s: State, a: Action): multiset<ReplicaId> {
    match a
    case Deregister(id) => s.purging + multiset{id}
    case MarkStopped(id, _) => if Registered(s, id) then s.purging + multiset{id} else s.purging
    case PurgeDone(id) => s.purging - multiset{id}
    case _ => s.purging
  }

  function LedgerAfter(s: State, a: Action): Ledger {
    var l := s.ledger;
    match a
    case Register(v, _) => if Registers(s, a, v) then l.(registered := l.registered + multiset{v}) else l
    case Decrement(i) => if i < |s.decs| then l.(decremented := l.decremented + multiset{s.decs[i]}) else l
    case PurgeOne(v) => if Purges(s, a, v) then l.(purged := l.purged + multiset{v}) else l
    case _ => l
  }

  function Apply(s: State, a: Action): State {
    State(RegAfter(s, a), KnownAfter(s, a), TableAfter(s, a), HeldAfter(s, a), IncsAfter(s, a), DecsAfter(s, a),
          PurgingAfter(s, a), LedgerAfter(s, a))
  }

  function Exec(s: State, actions: seq<Action>): State
    decreases |actions|
  {
    if actions == [] then s else Exec(Apply(s, actions[0]), actions[1..])
  }

  // ---- The equation ----

  function Tracked(table: map<Visit, bool>, id: ReplicaId): set<Visit> {
    set v | v in table && v.replica == id
  }

  /** Tracked sessions whose seat is already counted. */
  function Settled(table: map<Visit, bool>, id: ReplicaId): set<Visit> {
    set v | v in table && v.replica == id && !table[v]
  }

  function CountOn(q: seq<Visit>, id: ReplicaId): nat {
    if q == [] then 0 else (if q[0].replica == id then 1 else 0) + CountOn(q[1..], id)
  }

  /** Seats counted plus increments to come are sessions tracked, seats held and decrements to come. */
  predicate Balanced(s: State, id: ReplicaId) {
    Active(s.reg, id) + CountOn(s.incs, id) == |Tracked(s.sessions, id)| + s.held[id] + CountOn(s.decs, id)
  }

  // ---- What breaks it, exactly ----

  /**
   The steps that unbalance a live replica: a decrement that finds the counter at zero (and so
   saturates), and the purge of a session registered after the replica came back.
   */
  predicate Unbalances(s: State, a: Action, id: ReplicaId) {
    || (a.Decrement? && a.i < |s.decs| && s.decs[a.i].replica == id && Active(s.reg, id) == 0)
    || (a.PurgeOne? && a.v in s.sessions && a.v.replica == id && id in s.purging)
  }

  lemma {:induction false} CountAppend(q: seq<Visit>, v: Visit, id: ReplicaId)
    ensures CountOn(q + [v], id) == CountOn(q, id) + if v.replica == id then 1 else 0
  {
    if q == [] {
      assert q + [v] == [v];
    } else {
      CountAppend(q[1..], v, id);
      assert (q + [v])[1..] == q[1..] + [v];
    }
  }

  lemma {:induction false} CountWithout(q: seq<Visit>, i: nat, id: ReplicaId)
    requires i < |q|
    ensures CountOn(Without(q, i), id) == CountOn(q, id) - if q[i].replica == id then 1 else 0
    ensures multiset(Without(q, i)) == multiset(q) - multiset{q[i]}
  {
    assert q == q[..i] + [q[i]] + q[i + 1..];
    if i == 0 {
      assert Without(q, 0) == q[1..];
    } else {
      CountWithout(q[1..], i - 1, id);
      assert Without(q, i)[1..] == Without(q[1..], i - 1);
    }
  }

  lemma {:induction false} CountNone(q: seq<Visit>, id: ReplicaId)
    ensures CountOn(q, id) == 0 <==> forall v :: v in q ==> v.replica != id
  {
    if q != [] {
      CountNone(q[1..], id);
    }
  }

  lemma TableStep(s: State, a: Action, v: Visit)
    ensures v in TableAfter(s, a) <==> (v in s.sessions && !Leaves(s, a, v) && !Purges(s, a, v)) || Registers(s, a, v)
    ensures v in TableAfter(s, a) ==>
              (TableAfter(s, a)[v] <==> if Registers(s, a, v) then !a.reserved else s.sessions[v] && !Credits(s, a, v))
  {
  }

  lemma TrackedPut(t: map<Visit, bool>, v: Visit, owed: bool, id: ReplicaId)
    ensures |Tracked(t[v := owed], id)| == |Tracked(t, id)| + if v.replica == id && v !in t then 1 else 0
  {
    if v.replica == id {
      assert Tracked(t[v := owed], id) == Tracked(t, id) + {v};
    } else {
      assert Tracked(t[v := owed], id) == Tracked(t, id);
    }
  }

  lemma SettledPut(t: map<Visit, bool>, v: Visit, owed: bool, id: ReplicaId)
    requires v in t && v.replica == id ==> t[v] && !owed
    ensures |Settled(t[v := owed], id)| == |Settled(t, id)| + if v.replica == id && !owed then 1 else 0
  {
    if v.replica == id && !owed {
      assert Settled(t[v := owed], id) == Settled(t, id) + {v};
    } else {
      assert Settled(t[v := owed], id) == Settled(t, id);
    }
  }

  lemma TrackedDrop(t: map<Visit, bool>, v: Visit, id: ReplicaId)
    ensures |Tracked(t - {v}, id)| == |Tracked(t, id)| - if v.replica == id && v in t then 1 else 0
    ensures |Settled(t - {v}, id)| == |Settled(t, id)| - if v.replica == id && v in t && !t[v] then 1 else 0
  {
    assert Tracked(t - {v}, id) == Tracked(t, id) - {v};
    assert Settled(t - {v}, id) == Settled(t, id) - {v};
  }

  lemma TrackedStep(s: State, a: Action, id: ReplicaId)
    ensures |Tracked(TableAfter(s, a), id)| == |Tracked(s.sessions, id)|
      + (if a.Register? && a.v.replica == id && Registers(s, a, a.v) then 1 else 0)
      - (if a.End? && a.v.replica == id && Leaves(s, a, a.v) then 1 else 0)
      - (if a.PurgeOne? && a.v.replica == id && Purges(s, a, a.v) then 1 else 0)
  {
    hide Tracked, Settled;
    match a
    case Register(v, reserved) => TrackedPut(s.sessions, v, !reserved, id);
    case Increment(i) => if i < |s.incs| { TrackedPut(s.sessions, s.incs[i], false, id); }
    case End(v) => TrackedDrop(s.sessions, v, id);
    case PurgeOne(v) => TrackedDrop(s.sessions, v, id);
    case _ =>
  }

  /** What a step leaves in the registry under `id`, given what was there. */
  function LookedUp(s: State, a: Action, id: ReplicaId): Option<Replica> {
    var was := Find(s.reg, id);
    match a
    case Spawn(r, reserve) =>
      if r.id != id || r.id in s.known then was
      else Some(Ready(r).(sessionsActive := if reserve then 1 else 0))
    case Reserve(rid) => if rid == id && was.Some? then Some(WithOneMore(was.value)) else was
    case Increment(i) =>
      if i < |s.incs| && s.incs[i].replica == id && was.Some? then Some(WithOneMore(was.value)) else was
    case Decrement(i) =>
      if i < |s.decs| && s.decs[i].replica == id && was.Some? then Some(WithOneLess(was.value)) else was
    case Deregister(rid) => if rid == id then None else was
    case MarkStopped(rid, at) => if rid == id && was.Some? then Some(Restarting(was.value, at)) else was
    case Readopt(r) => if r.id == id && !Live(s, id) then Some(Ready(r)) else was
    case _ => was
  }

  ghost predicate IdsKnown(s: State) {
    && UniqueIds(s.reg)
    && forall id :: Registered(s, id) ==> id in s.known
  }

  lemma LookupStep(s: State, a: Action, id: ReplicaId)
    requires IdsKnown(s)
    ensures UniqueIds(RegAfter(s, a)) && Find(RegAfter(s, a), id) == LookedUp(s, a, id)
  {
    match a
    case Spawn(r, reserve) =>
      if r.id !in s.known {
        assert !Registered(s, r.id);
        UniqueAfterAdd(s.reg, Ready(r));
        FindAfterAdd(s.reg, Ready(r), id);
        FindAfterAdd(s.reg, Ready(r), r.id);
        FindAfterModify(s.reg + [Ready(r)], r.id, WithOneMore, id);
      }
    case Reserve(rid) => FindAfterModify(s.reg, rid, WithOneMore, id);
    case Increment(i) =>
      if i < |s.incs| { FindAfterModify(s.reg, s.incs[i].replica, WithOneMore, id); }
    case Decrement(i) =>
      if i < |s.decs| { FindAfterModify(s.reg, s.decs[i].replica, WithOneLess, id); }
    case Deregister(rid) => FindAfterRemove(s.reg, rid, id);
    case MarkStopped(rid, at) => FindAfterModify(s.reg, rid, (r: Replica) => Restarting(r, at), id);
    case Readopt(r) => FindAfterUpsert(s.reg, Ready(r), id);
    case _ =>
  }

  lemma IncsStep(s: State, a: Action, id: ReplicaId)
    ensures CountOn(IncsAfter(s, a), id) == CountOn(s.incs, id)
      + (if a.Register? && !a.reserved && a.v.replica == id && Registers(s, a, a.v) then 1 else 0)
      - (if a.Increment? && a.i < |s.incs| && s.incs[a.i].replica == id then 1 else 0)
  {
    hide CountOn, Without;
    match a
    case Register(v, _) => CountAppend(s.incs, v, id);
    case Increment(i) => if i < |s.incs| { CountWithout(s.incs, i, id); }
    case _ =>
  }

  lemma DecsStep(s: State, a: Action, id: ReplicaId)
    ensures CountOn(DecsAfter(s, a), id) == CountOn(s.decs, id)
      + (if a.End? && a.v.replica == id && Leaves(s, a, a.v) then 1 else 0)
      - (if a.Decrement? && a.i < |s.decs| && s.decs[a.i].replica == id then 1 else 0)
  {
    hide CountOn, Without;
    match a
    case End(v) => CountAppend(s.decs, v, id);
    case Decrement(i) => if i < |s.decs| { CountWithout(s.decs, i, id); }
    case _ =>
  }

  lemma HeldStep(s: State, a: Action, id: ReplicaId)
    ensures HeldAfter(s, a)[id] == s.held[id]
      + (if a.Reserve? && a.id == id && Registered(s, id) then 1 else 0)
      + (if a.Spawn? && a.reserve && Spawns(s, a, id) then 1 else 0)
      - (if a.Register? && a.reserved && a.v.replica == id && Registers(s, a, a.v) then 1 else 0)
  {
  }

  /** A step keeps a live, balanced replica balanced if and only if it is not one of those two. */
  lemma BalanceStep(s: State, a: Action, id: ReplicaId)
    requires IdsKnown(s) && Live(s, id) && Balanced(s, id) && Live(Apply(s, a), id)
    ensures Balanced(Apply(s, a), id) <==> !Unbalances(s, a, id)
  {
    hide RegAfter, TableAfter, HeldAfter, IncsAfter, DecsAfter, Tracked, CountOn;
    LookupStep(s, a, id);
    TrackedStep(s, a, id);
    IncsStep(s, a, id);
    DecsStep(s, a, id);
    HeldStep(s, a, id);
  }

  /** Re-adoption resets the counter, so it balances exactly when the references left over do. */
  lemma ReadoptBalancesIff(s: State, r: Replica)
    requires IdsKnown(s) && !Live(s, r.id)
    ensures Live(Apply(s, Readopt(r)), r.id)
    ensures Balanced(Apply(s, Readopt(r)), r.id) <==>
            CountOn(s.incs, r.id) == |Tracked(s.sessions, r.id)| + s.held[r.id] + CountOn(s.decs, r.id)
  {
    LookupStep(s, Readopt(r), r.id);
  }

  // ---- Runs ----

  /** Nothing refers to this replica any more. */
  ghost predicate Quiet(s: State, id: ReplicaId) {
    && (forall v :: v in s.sessions || v in s.incs || v in s.decs ==> v.replica != id)
    && id !in s.held && id !in s.purging
  }

  /** No session ends before its own increment, and replicas come back only when quiet. */
  ghost predicate Orderly(s: State, a: Action) {
    && (a.End? && a.v in s.sessions ==> !s.sessions[a.v])
    && (a.Readopt? ==> Quiet(s, a.r.id))
  }

  ghost predicate OrderlyRun(s: State, actions: seq<Action>)
    decreases |actions|
  {
    actions != [] ==> Orderly(s, actions[0]) && OrderlyRun(Apply(s, actions[0]), actions[1..])
  }

  ghost predicate RefsKnown(s: State) {
    && (forall v :: v in s.sessions || v in s.incs || v in s.decs ==> v.replica in s.known)
    && (forall id :: id in s.held || id in s.purging ==> id in s.known)
  }

  /** Each increment to come on this replica belongs to its own tracked session. */
  ghost predicate IncsOwed(s: State, id: ReplicaId) {
    forall v :: v in s.incs && v.replica == id ==> v in s.sessions && s.sessions[v] && multiset(s.incs)[v] == 1
  }

  ghost predicate Clean(s: State, id: ReplicaId) {
    && id !in s.purging && Balanced(s, id) && IncsOwed(s, id)
    && Active(s.reg, id) == |Settled(s.sessions, id)| + s.held[id] + CountOn(s.decs, id)
  }

  ghost predicate Inv(s: State) {
    IdsKnown(s) && RefsKnown(s) && forall id :: Live(s, id) ==> Clean(s, id)
  }

  lemma RefsStep(s: State, a: Action, v: Visit)
    ensures v in TableAfter(s, a) || v in IncsAfter(s, a) || v in DecsAfter(s, a) ==>
              v in s.sessions || v in s.incs || v in s.decs || Registers(s, a, v)
  {
    TableStep(s, a, v);
    hide TableAfter;
  }

  lemma HeldKnown(s: State, a: Action, id: ReplicaId)
    requires IdsKnown(s) && RefsKnown(s)
    ensures id in HeldAfter(s, a) || id in PurgingAfter(s, a) ==> id in KnownAfter(s, a)
  {
    hide Find;
    HeldStep(s, a, id);
    hide HeldAfter;
  }

  lemma KnownStep(s: State, a: Action)
    requires IdsKnown(s) && RefsKnown(s)
    ensures IdsKnown(Apply(s, a)) && RefsKnown(Apply(s, a))
  {
    RegisteredStep(s, a);
    forall v {
      RefsStep(s, a, v);
    }
    forall id {
      HeldKnown(s, a, id);
    }
    assert s.known <= KnownAfter(s, a);
    hide RegAfter, KnownAfter, TableAfter, IncsAfter, DecsAfter, HeldAfter, PurgingAfter, LedgerAfter;
  }

  lemma RegisteredStep(s: State, a: Action)
    requires IdsKnown(s)
    ensures IdsKnown(Apply(s, a))
  {
    LookupStep(s, a, 0);
    hide RegAfter, TableAfter, HeldAfter, IncsAfter, DecsAfter, PurgingAfter, LedgerAfter;
    forall id
      ensures Registered(Apply(s, a), id) ==> id in Apply(s, a).known
    {
      LookupStep(s, a, id);
      assert Registered(s, id) ==> id in s.known;
    }
  }

  lemma SettledStep(s: State, a: Action, id: ReplicaId)
    requires IncsOwed(s, id) && Orderly(s, a) && id !in s.purging
    ensures |Settled(TableAfter(s, a), id)| == |Settled(s.sessions, id)|
      + (if a.Register? && a.reserved && a.v.replica == id && Registers(s, a, a.v) then 1 else 0)
      + (if a.Increment? && a.i < |s.incs| && s.incs[a.i].replica == id then 1 else 0)
      - (if a.End? && a.v.replica == id && Leaves(s, a, a.v) then 1 else 0)
  {
    hide Tracked, Settled, CountOn;
    match a
    case Register(v, reserved) => if Registers(s, a, v) { SettledPut(s.sessions, v, !reserved, id); }
    case Increment(i) => 
      if i < |s.incs| { SettledPut(s.sessions, s.incs[i], false, id); }
    case End(v) => TrackedDrop(s.sessions, v, id);
    case PurgeOne(v) => TrackedDrop(s.sessions, v, id);
    case _ =>
  }

  lemma OwedStep(s: State, a: Action, id: ReplicaId)
    requires IncsOwed(s, id) && Orderly(s, a) && id !in s.purging
    ensures IncsOwed(Apply(s, a), id)
  {
    hide RegAfter, TableAfter, HeldAfter, DecsAfter, LedgerAfter, KnownAfter, PurgingAfter;
    var t := Apply(s, a);
    if a.Increment? && a.i < |s.incs| {
      CountWithout(s.incs, a.i, id);
    }
    forall v | v in t.incs && v.replica == id
      ensures v in t.sessions && t.sessions[v] && multiset(t.incs)[v] == 1
    {
      TableStep(s, a, v);
      assert v in s.incs ==> multiset(s.incs)[v] == 1;
    }
  }

  lemma StaysClean(s: State, a: Action, id: ReplicaId)
    requires Inv(s) && Orderly(s, a) && Live(s, id) && Live(Apply(s, a), id)
    ensures Clean(Apply(s, a), id)
  {
    hide RegAfter, TableAfter, HeldAfter, IncsAfter, DecsAfter, LedgerAfter, KnownAfter, Tracked, Settled, CountOn,
      Find;
    hide IncsOwed;
    assert Clean(s, id);
    OwedStep(s, a, id);
    SettledStep(s, a, id);
    DecsStep(s, a, id);
    HeldStep(s, a, id);
    CountNone(s.decs, id);
    LookupStep(s, a, id);
    BalanceStep(s, a, id);
  }

  lemma ComesUpClean(s: State, a: Action, id: ReplicaId)
    requires Inv(s) && Orderly(s, a) && !Live(s, id) && Live(Apply(s, a), id)
    ensures Clean(Apply(s, a), id)
  {
    LookupStep(s, a, id);
    assert (a.Spawn? && a.r.id == id && id !in s.known) || (a.Readopt? && a.r.id == id);
    assert Quiet(s, id);
    CountNone(s.incs, id);
    CountNone(s.decs, id);
    assert Tracked(s.sessions, id) == {} && Settled(s.sessions, id) == {};
  }

  lemma StepKeepsInv(s: State, a: Action)
    requires Inv(s) && Orderly(s, a)
    ensures Inv(Apply(s, a))
  {
    KnownStep(s, a);
    forall id | Live(Apply(s, a), id)
      ensures Clean(Apply(s, a), id)
    {
      if Live(s, id) {
        StaysClean(s, a, id);
      } else {
        ComesUpClean(s, a, id);
      }
    }
  }

  lemma {:induction false} ExecKeepsInv(s: State, actions: seq<Action>)
    requires Inv(s) && OrderlyRun(s, actions)
    ensures Inv(Exec(s, actions))
    decreases |actions|
  {
    if actions != [] {
      StepKeepsInv(s, actions[0]);
      ExecKeepsInv(Apply(s, actions[0]), actions[1..]);
    }
  }

  /** In every orderly run, the counter of every live replica accounts for its sessions exactly. */
  lemma SeatsAreConserved(actions: seq<Action>, id: ReplicaId)
    requires OrderlyRun(Init, actions) && Live(Exec(Init, actions), id)
    ensures var s := Exec(Init, actions);
      && Active(s.reg, id) + CountOn(s.incs, id) == |Tracked(s.sessions, id)| + s.held[id] + CountOn(s.decs, id)
      && (Quiet(s.(sessions := map[]), id) ==> Active(s.reg, id) == |Tracked(s.sessions, id)|)
  {
    ExecKeepsInv(Init, actions);
    var s := Exec(Init, actions);
    CountNone(s.incs, id);
    CountNone(s.decs, id);
  }

  // ---- No session is decremented twice, whatever the run ----

  ghost predicate Accounted(s: State, v: Visit) {
    s.ledger.registered[v]
      == (if v in s.sessions then 1 else 0) + multiset(s.decs)[v] + s.ledger.decremented[v] + s.ledger.purged[v]
  }

  lemma PendingDecsStep(s: State, a: Action, v: Visit)
    ensures multiset(DecsAfter(s, a))[v] == multiset(s.decs)[v]
      + (if Leaves(s, a, v) then 1 else 0) - (if Debits(s, a, v) then 1 else 0)
  {
    hide Without, CountOn;
    match a
    case End(w) => OneMore(s.decs, w, v);
    case Decrement(i) =>
      if i < |s.decs| { OneLess(s.decs, i, v); }
    case _ =>
  }

  lemma OneMore(q: seq<Visit>, w: Visit, v: Visit)
    ensures multiset(q + [w])[v] == multiset(q)[v] + if w == v then 1 else 0
  {
    assert multiset(q + [w]) == multiset(q) + multiset{w};
  }

  lemma OneLess(q: seq<Visit>, i: nat, v: Visit)
    requires i < |q|
    ensures multiset(Without(q, i))[v] == multiset(q)[v] - if q[i] == v then 1 else 0
  {
    CountWithout(q, i, 0);
    hide Without;
    assert q[i] in multiset(q);
  }

  lemma LedgerGrows(s: State, a: Action, v: Visit)
    ensures LedgerAfter(s, a).registered[v] == s.ledger.registered[v] + if Registers(s, a, v) then 1 else 0
    ensures LedgerAfter(s, a).decremented[v] == s.ledger.decremented[v] + if Debits(s, a, v) then 1 else 0
    ensures LedgerAfter(s, a).purged[v] == s.ledger.purged[v] + if Purges(s, a, v) then 1 else 0
  {
  }

  lemma LedgerStep(s: State, a: Action, v: Visit)
    requires Accounted(s, v)
    ensures Accounted(Apply(s, a), v)
  {
    hide RegAfter, KnownAfter, HeldAfter, IncsAfter, DecsAfter, PurgingAfter, TableAfter, LedgerAfter;
    TableStep(s, a, v);
    PendingDecsStep(s, a, v);
    LedgerGrows(s, a, v);
  }

  lemma {:induction false} LedgerHolds(s: State, actions: seq<Action>, v: Visit)
    requires Accounted(s, v)
    ensures Accounted(Exec(s, actions), v)
    decreases |actions|
  {
    if actions != [] {
      LedgerStep(s, actions[0], v);
      LedgerHolds(Apply(s, actions[0]), actions[1..], v);
    }
  }

  /** Each registration ends in one place: still tracked, decrement pending, decremented or purged. */
  lemma NoSecondDecrement(actions: seq<Action>, v: Visit)
    ensures var s := Exec(Init, actions);
      && s.ledger.registered[v]
         == (if v in s.sessions then 1 else 0) + multiset(s.decs)[v] + s.ledger.decremented[v] + s.ledger.purged[v]
      && s.ledger.decremented[v] <= s.ledger.registered[v]
  {
    LedgerHolds(Init, actions, v);
  }

  // ---- The two guards are needed ----

  lemma {:induction false} ExecAppend(s: State, actions: seq<Action>, more: seq<Action>)
    ensures Exec(s, actions + more) == Exec(Exec(s, actions), more)
    decreases |actions|
  {
    hide Apply;
    if actions == [] {
      assert actions + more == more;
    } else {
      ExecAppend(Apply(s, actions[0]), actions[1..], more);
      assert (actions + more)[1..] == actions[1..] + more;
    }
  }

  lemma ExecThree(s: State, a: Action, b: Action, c: Action)
    ensures Exec(s, [a, b, c]) == Apply(Apply(Apply(s, a), b), c)
  {
    hide Apply;
    assert [a, b, c][1..] == [b, c] && [b, c][1..] == [c];
    assert Exec(Apply(Apply(s, a), b), [c]) == Apply(Apply(Apply(s, a), b), c);
    assert Exec(Apply(s, a), [b, c]) == Exec(Apply(Apply(s, a), b), [c]);
  }

  /** One known replica; what the counterexamples below need to know of a state. */
  ghost predicate Looks(s: State, r: Replica, purging: nat, sessions: map<Visit, bool>, held: nat, incs: seq<Visit>,
                        decs: seq<Visit>)
  {
    && s.reg == [r] && s.known == {r.id} && s.purging[r.id] == purging && s.sessions == sessions
    && s.held == multiset{}[r.id := held] && s.incs == incs && s.decs == decs
  }

  lemma SpawnThenTwo(r: Replica, a: Action, b: Action) returns (s: State)
    ensures Looks(s, Ready(r), 0, map[], 0, [], [])
    ensures Exec(Init, [Spawn(r, false), a, b]) == Apply(Apply(s, a), b)
  {
    ExecThree(Init, Spawn(r, false), a, b);
    s := Apply(Init, Spawn(r, false));
    assert Init.known + {r.id} == {r.id} && Init.reg + [Ready(r)] == [Ready(r)];
  }

  /** A seat is taken on a live replica while nothing is tracked, held or pending. */
  ghost predicate LeakedSeat(s: State, id: ReplicaId) {
    && Live(s, id) && Active(s.reg, id) == 1
    && s.sessions == map[] && s.held == multiset{} && s.incs == [] && s.decs == []
  }

  lemma EndedUncounted(s: State, r: Replica, v: Visit) returns (t: State)
    requires Looks(s, Ready(r), 0, map[], 0, [], []) && v.replica == r.id
    ensures t == Apply(Apply(s, Register(v, false)), End(v)) && Looks(t, Ready(r), 0, map[], 0, [v], [v])
  {
    var u := Apply(s, Register(v, false));
    assert Looks(u, Ready(r), 0, map[v := true], 0, [v], []);
    t := Apply(u, End(v));
  }

  lemma DebitThenCredit(s: State, r: Replica, v: Visit)
    requires Looks(s, Ready(r), 0, map[], 0, [v], [v]) && v.replica == r.id
    ensures LeakedSeat(Apply(Apply(s, Decrement(0)), Increment(0)), r.id)
  {
    var u := Apply(s, Decrement(0));
    assert Looks(u, Ready(r), 0, map[], 0, [v], []);
  }

  /**
   A logout that lands between a registration and its increment: the decrement finds zero and
   saturates, the increment follows, and the replica keeps one seat taken for nobody.
   */
  lemma EndBeforeIncrementLeaksASeat(r: Replica) returns (actions: seq<Action>)
    ensures LeakedSeat(Exec(Init, actions), r.id)
  {
    hide Apply, Looks, LeakedSeat;
    var v := Visit(0, r.id);
    var first, second := [Spawn(r, false), Register(v, false), End(v)], [Decrement(0), Increment(0)];
    actions := first + second;
    ExecAppend(Init, first, second);
    var s := SpawnThenTwo(r, Register(v, false), End(v));
    var t := EndedUncounted(s, r, v);
    DebitThenCredit(t, r, v);
    ExecTwo(t, Decrement(0), Increment(0));
  }

  lemma ExecTwo(s: State, a: Action, b: Action)
    ensures Exec(s, [a, b]) == Apply(Apply(s, a), b)
  {
    hide Apply;
    assert [a, b][1..] == [b];
    assert Exec(Apply(s, a), [b]) == Apply(Apply(s, a), b);
  }

  lemma StoppedAndBack(s: State, r: Replica, at: int) returns (t: State)
    requires Looks(s, Ready(r), 0, map[], 0, [], [])
    ensures t == Apply(Apply(s, MarkStopped(r.id, at)), Readopt(r)) && Looks(t, Ready(r), 1, map[], 0, [], [])
  {
    var u := Apply(s, MarkStopped(r.id, at));
    assert Looks(u, Restarting(Ready(r), at), 1, map[], 0, [], []);
    t := Apply(u, Readopt(r));
  }

  lemma RegisteredThenPurged(s: State, r: Replica, v: Visit)
    requires Looks(s, Ready(r), 1, map[], 0, [], []) && v.replica == r.id
    ensures LeakedSeat(Apply(Apply(Apply(s, Reserve(r.id)), Register(v, true)), PurgeOne(v)), r.id)
  {
    var u := Apply(s, Reserve(r.id));
    assert Looks(u, WithOneMore(Ready(r)), 1, map[], 1, [], []);
    var t := Apply(u, Register(v, true));
    assert Looks(t, WithOneMore(Ready(r)), 1, map[v := false], 0, [], []);
  }

  /**
   Two reconcile passes overlap: one marks the replica stopped, the other re-adopts it and a
   visitor registers, and then the first pass's purge forgets the visitor but not the seat.
   */
  lemma PurgeAfterReadoptLeaksASeat(r: Replica, at: int) returns (actions: seq<Action>)
    ensures LeakedSeat(Exec(Init, actions), r.id)
  {
    hide Apply, Looks, LeakedSeat;
    var v := Visit(0, r.id);
    var first := [Spawn(r, false), MarkStopped(r.id, at), Readopt(r)];
    var second := [Reserve(r.id), Register(v, true), PurgeOne(v)];
    actions := first + second;
    ExecAppend(Init, first, second);
    var s := SpawnThenTwo(r, MarkStopped(r.id, at), Readopt(r));
    var t := StoppedAndBack(s, r, at);
    RegisteredThenPurged(t, r, v);
    ExecThree(t, Reserve(r.id), Register(v, true), PurgeOne(v));
  }
}
