/**
 Replicas and the process-local registry that the proxy, the session stores and the scaler
 share (crates/ruscker-core/src/replica.rs and `ReplicaRegistry` in crates/ruscker-core/src/lib.rs).

 The registry is one list in insertion order; the replicas of a spec are its sublist.
 */
module Registries {
  import opened Wrappers

  type ReplicaId = nat

  datatype ReplicaState = Starting | Ready | Draining | Stopped | Failed

  datatype Replica = Replica(
    id: ReplicaId,
    spec: string,
    container: string,
    state: ReplicaState,
    startedAt: int,
    sessionsActive: nat,
    sessionsMax: nat)
  {
    function AvailableSeats(): nat {
      if sessionsActive < sessionsMax then sessionsMax - sessionsActive else 0
    }

    predicate IsAccepting() {
      state.Ready? && AvailableSeats() > 0
    }
  }

  type Replicas = seq<Replica>

  function Of(reg: Replicas, spec: string): Replicas {
    if reg == [] then []
    else (if reg[0].spec == spec then [reg[0]] else []) + Of(reg[1..], spec)
  }

  function Find(reg: Replicas, id: ReplicaId): Option<Replica> {
    if reg == [] then None
    else if reg[0].id == id then Some(reg[0])
    else Find(reg[1..], id)
  }

  function Remove(reg: Replicas, id: ReplicaId): Replicas {
    if reg == [] then []
    else if reg[0].id == id then reg[1..]
    else [reg[0]] + Remove(reg[1..], id)
  }

  function Upsert(reg: Replicas, r: Replica): Replicas {
    Remove(reg, r.id) + [r]
  }

  /** Rewrite the replica with this id, leaving its place in the list. */
  function Modify(reg: Replicas, id: ReplicaId, f: Replica -> Replica): Replicas {
    if reg == [] then []
    else if reg[0].id == id then [f(reg[0])] + reg[1..]
    else [reg[0]] + Modify(reg[1..], id, f)
  }

  function WithOneMore(r: Replica): Replica {
    r.(sessionsActive := r.sessionsActive + 1)
  }

  /** Saturating, so a stray second decrement cannot underflow. */
  function WithOneLess(r: Replica): Replica {
    r.(sessionsActive := if r.sessionsActive > 0 then r.sessionsActive - 1 else 0)
  }

  function Inc(reg: Replicas, id: ReplicaId): Replicas {
    Modify(reg, id, WithOneMore)
  }

  function Dec(reg: Replicas, id: ReplicaId): Replicas {
    Modify(reg, id, WithOneLess)
  }

  function SetCount(reg: Replicas, id: ReplicaId, n: nat): Replicas {
    Modify(reg, id, (r: Replica) => r.(sessionsActive := n))
  }

  /** Every counter from one tally; replicas the tally does not mention drop to zero. */
  function SetCounts(reg: Replicas, counts: map<ReplicaId, nat>): Replicas {
    if reg == [] then []
    else [reg[0].(sessionsActive := if reg[0].id in counts then counts[reg[0].id] else 0)] + SetCounts(reg[1..], counts)
  }

  /** Out of routing but still in its slot; `startedAt` becomes the time the stop was noticed. */
  function Restarting(r: Replica, observedAt: int): Replica {
    r.(state := Stopped, startedAt := observedAt, sessionsActive := 0)
  }

  function MarkRestarting(reg: Replicas, id: ReplicaId, observedAt: int): Replicas {
    Modify(reg, id, (r: Replica) => Restarting(r, observedAt))
  }

  predicate UniqueIds(reg: Replicas) {
    forall i, j :: 0 <= i < j < |reg| ==> reg[i].id != reg[j].id
  }

  class ReplicaRegistry {
    var replicas: Replicas

    constructor ()
      ensures replicas == []
    {
      replicas := [];
    }

    method ReplicasOf(spec: string) returns (r: Replicas)
      ensures r == Of(replicas, spec)
    {
      r := Of(replicas, spec);
    }

    method Add(r: Replica)
      modifies this
      ensures replicas == old(replicas) + [r]
    {
      replicas := replicas + [r];
    }

    method RemoveById(id: ReplicaId) returns (removed: Option<Replica>)
      modifies this
      ensures replicas == Remove(old(replicas), id) && removed == Find(old(replicas), id)
    {
      var i := 0;
      while i < |replicas| && replicas[i].id != id
        invariant 0 <= i <= |replicas| && replicas == old(replicas)
        invariant Remove(replicas, id) == replicas[..i] + Remove(replicas[i..], id)
        invariant Find(replicas, id) == Find(replicas[i..], id)
      {
        assert replicas[i..][1..] == replicas[i + 1..];
        i := i + 1;
      }
      if i == |replicas| {
        return None;
      }
      removed := Some(replicas[i]);
      assert replicas[i..][1..] == replicas[i + 1..];
      replicas := replicas[..i] + replicas[i + 1..];
    }

    method UpsertReplica(r: Replica)
      modifies this
      ensures replicas == Upsert(old(replicas), r)
    {
      var _ := RemoveById(r.id);
      Add(r);
    }

    /** The position `find_mut` locates, or the length when the id is unknown. */
    method FindIndex(id: ReplicaId) returns (i: nat)
      ensures i <= |replicas|
      ensures forall f :: Modify(replicas, id, f) == if i < |replicas| then replicas[i := f(replicas[i])] else replicas
      ensures Find(replicas, id) == if i < |replicas| then Some(replicas[i]) else None
    {
      i := 0;
      while i < |replicas| && replicas[i].id != id
        invariant i <= |replicas| && forall j :: 0 <= j < i ==> replicas[j].id != id
      {
        i := i + 1;
      }
      FirstMatch(replicas, id, i);
      forall f {
        ModifyFirstMatch(replicas, id, i, f);
      }
    }

    method IncSessions(id: ReplicaId)
      modifies this
      ensures replicas == Inc(old(replicas), id)
    {
      var i := FindIndex(id);
      if i < |replicas| {
        replicas := replicas[i := replicas[i].(sessionsActive := replicas[i].sessionsActive + 1)];
      }
    }

    method DecSessions(id: ReplicaId)
      modifies this
      ensures replicas == Dec(old(replicas), id)
    {
      var i := FindIndex(id);
      if i < |replicas| && replicas[i].sessionsActive > 0 {
        replicas := replicas[i := replicas[i].(sessionsActive := replicas[i].sessionsActive - 1)];
      }
    }

    method SetSessionCount(id: ReplicaId, n: nat)
      modifies this
      ensures replicas == SetCount(old(replicas), id, n)
    {
      var i := FindIndex(id);
      if i < |replicas| {
        replicas := replicas[i := replicas[i].(sessionsActive := n)];
      }
    }

    method SetSessionCounts(counts: map<ReplicaId, nat>)
      modifies this
      ensures replicas == SetCounts(old(replicas), counts)
    {
      for i := 0 to |replicas|
        invariant |replicas| == |old(replicas)|
        invariant SetCounts(old(replicas), counts) == replicas[..i] + SetCounts(replicas[i..], counts)
      {
        ghost var done, rest := replicas[..i], replicas[i..];
        var n := if replicas[i].id in counts then counts[replicas[i].id] else 0;
        CountFirst(done, rest, counts);
        replicas := replicas[i := replicas[i].(sessionsActive := n)];
        assert replicas[i + 1..] == rest[1..] && replicas[..i + 1] == done + [replicas[i]];
        hide SetCounts;
      }
    }

    method MarkReplicaRestarting(id: ReplicaId, observedAt: int) returns (marked: bool)
      modifies this
      ensures replicas == MarkRestarting(old(replicas), id, observedAt)
      ensures marked <==> Find(old(replicas), id).Some?
    {
      var i := FindIndex(id);
      if i == |replicas| {
        return false;
      }
      replicas := replicas[i := Restarting(replicas[i], observedAt)];
      return true;
    }
  }

  lemma CountFirst(done: Replicas, rest: Replicas, counts: map<ReplicaId, nat>)
    requires rest != []
    ensures var r := rest[0].(sessionsActive := if rest[0].id in counts then counts[rest[0].id] else 0);
      done + SetCounts(rest, counts) == done + [r] + SetCounts(rest[1..], counts)
  {
  }

  lemma {:induction false} FirstMatch(reg: Replicas, id: ReplicaId, i: nat)
    requires i <= |reg| && forall j :: 0 <= j < i ==> reg[j].id != id
    requires i < |reg| ==> reg[i].id == id
    ensures Find(reg, id) == if i < |reg| then Some(reg[i]) else None
  {
    if i > 0 {
      FirstMatch(reg[1..], id, i - 1);
    }
  }

  lemma {:induction false} ModifyFirstMatch(reg: Replicas, id: ReplicaId, i: nat, f: Replica -> Replica)
    requires i <= |reg| && forall j :: 0 <= j < i ==> reg[j].id != id
    requires i < |reg| ==> reg[i].id == id
    ensures Modify(reg, id, f) == if i < |reg| then reg[i := f(reg[i])] else reg
  {
    if i > 0 {
      ModifyFirstMatch(reg[1..], id, i - 1, f);
    }
  }

  // ---- What the list operations do to lookups and to the size of a spec's pool ----

  lemma {:induction false} FindSound(reg: Replicas, id: ReplicaId)
    ensures Find(reg, id).Some? ==> Find(reg, id).value in reg && Find(reg, id).value.id == id
    ensures Find(reg, id).None? ==> forall r :: r in reg ==> r.id != id
  {
    if reg != [] && reg[0].id != id {
      FindSound(reg[1..], id);
    }
  }

  lemma {:induction false} FindUnique(reg: Replicas, r: Replica)
    requires UniqueIds(reg) && r in reg
    ensures Find(reg, r.id) == Some(r)
  {
    if reg[0] != r {
      FindUnique(reg[1..], r);
    }
  }

  lemma {:induction false} FindAfterAdd(reg: Replicas, r: Replica, id: ReplicaId)
    ensures Find(reg + [r], id) == if Find(reg, id).Some? then Find(reg, id) else if r.id == id then Some(r) else None
  {
    if reg == [] {
      assert reg + [r] == [r];
    } else {
      FindAfterAdd(reg[1..], r, id);
      assert (reg + [r])[1..] == reg[1..] + [r];
    }
  }

  lemma {:induction false} FindAfterRemove(reg: Replicas, gone: ReplicaId, id: ReplicaId)
    requires UniqueIds(reg)
    ensures UniqueIds(Remove(reg, gone))
    ensures Find(Remove(reg, gone), id) == if id == gone then None else Find(reg, id)
    ensures forall r :: r in Remove(reg, gone) <==> r in reg && r.id != gone
  {
    if reg != [] {
      if reg[0].id == gone {
        FindSound(reg[1..], gone);
      } else {
        FindAfterRemove(reg[1..], gone, id);
      }
    }
  }

  lemma UniqueAfterAdd(reg: Replicas, r: Replica)
    requires UniqueIds(reg) && Find(reg, r.id).None?
    ensures UniqueIds(reg + [r])
  {
    FindSound(reg, r.id);
  }

  lemma FindAfterUpsert(reg: Replicas, r: Replica, id: ReplicaId)
    requires UniqueIds(reg)
    ensures UniqueIds(Upsert(reg, r))
    ensures Find(Upsert(reg, r), id) == if id == r.id then Some(r) else Find(reg, id)
  {
    FindAfterRemove(reg, r.id, id);
    FindAfterRemove(reg, r.id, r.id);
    UniqueAfterAdd(Remove(reg, r.id), r);
    FindAfterAdd(Remove(reg, r.id), r, id);
  }

  lemma {:induction false} FindAfterModify(reg: Replicas, at: ReplicaId, f: Replica -> Replica, id: ReplicaId)
    requires UniqueIds(reg) && forall r: Replica :: f(r).id == r.id
    ensures UniqueIds(Modify(reg, at, f))
    ensures Find(Modify(reg, at, f), id) ==
            if id == at && Find(reg, id).Some? then Some(f(Find(reg, id).value)) else Find(reg, id)
    ensures |Modify(reg, at, f)| == |reg| && forall i :: 0 <= i < |reg| ==> Modify(reg, at, f)[i].id == reg[i].id
  {
    if reg != [] && reg[0].id != at {
      FindAfterModify(reg[1..], at, f, id);
    }
  }

  /** The three ways a seat counter moves: up by one, down by one but not below zero, and to a given count. */
  lemma FindAfterCounting(reg: Replicas, at: ReplicaId, n: nat, id: ReplicaId)
    requires UniqueIds(reg)
    ensures var was := Find(reg, id);
      if id != at || was.None?
      then Find(Inc(reg, at), id) == Find(Dec(reg, at), id) == Find(SetCount(reg, at, n), id) == was
      else var seats := was.value.sessionsActive;
        && Find(Inc(reg, at), id) == Some(was.value.(sessionsActive := seats + 1))
        && Find(Dec(reg, at), id) == Some(was.value.(sessionsActive := if seats > 0 then seats - 1 else 0))
        && Find(SetCount(reg, at, n), id) == Some(was.value.(sessionsActive := n))
  {
    FindAfterModify(reg, at, WithOneMore, id);
    FindAfterModify(reg, at, WithOneLess, id);
    FindAfterModify(reg, at, (r: Replica) => r.(sessionsActive := n), id);
  }

  lemma {:induction false} OfAfterAdd(reg: Replicas, r: Replica, spec: string)
    ensures Of(reg + [r], spec) == Of(reg, spec) + if r.spec == spec then [r] else []
  {
    if reg == [] {
      assert reg + [r] == [r];
    } else {
      OfAfterAdd(reg[1..], r, spec);
      assert (reg + [r])[1..] == reg[1..] + [r];
    }
  }

  lemma {:induction false} OfAfterRemove(reg: Replicas, id: ReplicaId, spec: string)
    ensures Of(Remove(reg, id), spec) ==
            if Find(reg, id).Some? && Find(reg, id).value.spec == spec then Remove(Of(reg, spec), id) else Of(reg, spec)
    ensures |Of(Remove(reg, id), spec)| ==
            |Of(reg, spec)| - if Find(reg, id).Some? && Find(reg, id).value.spec == spec then 1 else 0
  {
    if reg != [] && reg[0].id != id {
      OfAfterRemove(reg[1..], id, spec);
      var rest := Remove(reg[1..], id);
      assert Remove(reg, id) == [reg[0]] + rest && ([reg[0]] + rest)[1..] == rest;
      if reg[0].spec == spec {
        assert Of(reg, spec)[1..] == Of(reg[1..], spec);
      } else {
        assert Of(reg, spec) == Of(reg[1..], spec);
      }
    }
  }

  lemma {:induction false} OfMembers(reg: Replicas, spec: string, r: Replica)
    ensures r in Of(reg, spec) <==> r in reg && r.spec == spec
  {
    if reg != [] {
      OfMembers(reg[1..], spec, r);
    }
  }

  /** A lookup within a spec's pool finds what the registry has, if it belongs to the spec. */
  lemma {:induction false} FindInPool(reg: Replicas, spec: string, id: ReplicaId)
    requires UniqueIds(reg)
    ensures UniqueIds(Of(reg, spec))
    ensures Find(Of(reg, spec), id) ==
            if Find(reg, id).Some? && Find(reg, id).value.spec == spec then Find(reg, id) else None
  {
    if reg != [] {
      FindInPool(reg[1..], spec, id);
      FindSound(reg[1..], id);
      var pool := Of(reg[1..], spec);
      forall k | 0 <= k < |pool|
        ensures pool[k].id != reg[0].id
      {
        OfMembers(reg[1..], spec, pool[k]);
        assert pool[k] in pool;
        var j :| 0 <= j < |reg[1..]| && reg[1..][j] == pool[k];
        assert reg[j + 1] == pool[k];
      }
      FindSound(pool, id);
      if reg[0].spec == spec {
        assert Of(reg, spec) == [reg[0]] + pool && Of(reg, spec)[1..] == pool;
      } else {
        assert Of(reg, spec) == pool;
      }
    }
  }
}
