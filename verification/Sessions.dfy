/**
 The in-memory session store (crates/ruscker-admin/src/sessions.rs): the table of tracked
 sessions and what each operation does to the seat counters of the registry.
 */
module Sessions {
  import opened Registries

  type SessionId = nat

  datatype Session = Session(spec: string, replica: ReplicaId, lastSeen: int)

  type Table = map<SessionId, Session>

  /** The timeout that governs a session: its spec's override, else the global one. */
  function EffectiveTimeout(spec: string, globalMs: int, overrides: map<string, int>): int {
    if spec in overrides then overrides[spec] else globalMs
  }

  /** A negative timeout never expires; otherwise a session must be silent for longer than it. */
  predicate Expired(s: Session, globalMs: int, overrides: map<string, int>, now: int) {
    var timeout := EffectiveTimeout(s.spec, globalMs, overrides);
    timeout >= 0 && now - s.lastSeen > timeout
  }

  /** In the table's own terms: the spec's timeout if it has one, else the global one, strictly exceeded. */
  lemma ExpiredIff(s: Session, globalMs: int, overrides: map<string, int>, now: int)
    ensures Expired(s, globalMs, overrides, now) <==>
            if s.spec in overrides then overrides[s.spec] >= 0 && now > s.lastSeen + overrides[s.spec]
            else globalMs >= 0 && now > s.lastSeen + globalMs
  {
  }

  /** The sessions of `some` that are tracked on one replica. */
  function On(t: Table, some: set<SessionId>, id: ReplicaId): set<SessionId> {
    set sid | sid in some && sid in t && t[sid].replica == id
  }

  /** The table without the sessions of one replica. */
  function Forget(t: Table, id: ReplicaId): Table {
    t - On(t, t.Keys, id)
  }

  /** The sessions the idle pass must end at time `now`. */
  function Idle(t: Table, globalMs: int, overrides: map<string, int>, now: int): set<SessionId> {
    set sid | sid in t && Expired(t[sid], globalMs, overrides, now)
  }

  function Active(reg: Replicas, id: ReplicaId): nat {
    if Find(reg, id).Some? then Find(reg, id).value.sessionsActive else 0
  }

  /** Nothing about `r` other than its seat counter differs from `q`. */
  predicate SameButSeats(q: Replica, r: Replica) {
    r == q.(sessionsActive := r.sessionsActive)
  }

  /**
   From `before` to `after`, every registered replica lost one seat per session in `gone` that
   was tracked on it (never below zero), and nothing else changed.
   */
  ghost predicate SeatsReleased(before: Replicas, after: Replicas, t: Table, gone: set<SessionId>) {
    && |after| == |before|
    && (forall i :: 0 <= i < |before| ==> SameButSeats(before[i], after[i]))
    && (forall id :: Active(after, id) == Less(Active(before, id), |On(t, gone, id)|))
  }

  function Less(n: nat, k: nat): nat {
    if n >= k then n - k else 0
  }

  lemma ReleaseOne(before: Replicas, after: Replicas, t: Table, gone: set<SessionId>, sid: SessionId)
    requires UniqueIds(before) && SeatsReleased(before, after, t, gone) && sid in t && sid !in gone
    ensures SeatsReleased(before, Dec(after, t[sid].replica), t, gone + {sid})
  {
    assert UniqueIds(after);
    var rid := t[sid].replica;
    var dec := Dec(after, rid);
    forall id
      ensures Active(dec, id) == Less(Active(before, id), |On(t, gone + {sid}, id)|)
    {
      FindAfterModify(after, rid, WithOneLess, id);
      assert Active(after, id) == Less(Active(before, id), |On(t, gone, id)|);
      assert On(t, gone + {sid}, id) == if rid == id then On(t, gone, id) + {sid} else On(t, gone, id);
    }
    DecOnlySeats(after, rid);
    forall i | 0 <= i < |before|
      ensures SameButSeats(before[i], dec[i])
    {
      assert SameButSeats(before[i], after[i]) && SameButSeats(after[i], dec[i]);
    }
  }

  lemma {:induction false} DecOnlySeats(reg: Replicas, id: ReplicaId)
    ensures |Dec(reg, id)| == |reg| && forall i :: 0 <= i < |reg| ==> SameButSeats(reg[i], Dec(reg, id)[i])
  {
    if reg != [] && reg[0].id != id {
      DecOnlySeats(reg[1..], id);
    }
  }

  class InMemorySessionStore {
    var sessions: Table

    constructor ()
      ensures sessions == map[]
    {
      sessions := map[];
    }

    /** The seat is counted here only when the caller did not reserve it at pick time. */
    method TouchOrRegister(registry: ReplicaRegistry, sid: SessionId, spec: string, id: ReplicaId,
                           seatReserved: bool, now: int)
      returns (registered: bool)
      modifies this, registry
      ensures registered <==> sid !in old(sessions)
      ensures registered ==> sessions == old(sessions)[sid := Session(spec, id, now)]
      ensures !registered ==> sessions == old(sessions)[sid := old(sessions)[sid].(lastSeen := now)]
      ensures registered && !seatReserved ==> registry.replicas == Inc(old(registry.replicas), id)
      ensures !registered || seatReserved ==> registry.replicas == old(registry.replicas)
    {
      if sid in sessions {
        sessions := sessions[sid := sessions[sid].(lastSeen := now)];
        return false;
      }
      sessions := sessions[sid := Session(spec, id, now)];
      if !seatReserved {
        registry.IncSessions(id);
      }
      return true;
    }

    /** Collects the expired sessions of the table. */
    method Victims(globalMs: int, overrides: map<string, int>, now: int) returns (victims: seq<SessionId>)
      ensures forall sid :: sid in victims <==> sid in sessions && Expired(sessions[sid], globalMs, overrides, now)
      ensures forall i, j :: 0 <= i < j < |victims| ==> victims[i] != victims[j]
    {
      victims := [];
      var rest := sessions.Keys;
      while rest != {}
        invariant rest <= sessions.Keys
        invariant forall sid ::
          sid in victims <==> sid in sessions && sid !in rest && Expired(sessions[sid], globalMs, overrides, now)
        invariant forall i, j :: 0 <= i < j < |victims| ==> victims[i] != victims[j]
        decreases |rest|
      {
        var sid :| sid in rest;
        rest := rest - {sid};
        if Expired(sessions[sid], globalMs, overrides, now) {
          victims := victims + [sid];
        }
      }
    }

    /** One idle pass. Ending a session and giving its seat back go together, exactly once each. */
    method Sweep(registry: ReplicaRegistry, globalMs: int, overrides: map<string, int>, now: int) returns (evicted: nat)
      requires UniqueIds(registry.replicas)
      modifies this, registry
      ensures sessions == old(sessions) - Idle(old(sessions), globalMs, overrides, now)
      ensures evicted == |Idle(old(sessions), globalMs, overrides, now)|
      ensures SeatsReleased(old(registry.replicas), registry.replicas, old(sessions),
                            Idle(old(sessions), globalMs, overrides, now))
    {
      hide SeatsReleased;
      var victims := Victims(globalMs, overrides, now);
      ghost var table, before := sessions, registry.replicas;
      ghost var gone: set<SessionId> := {};
      evicted := 0;
      NothingReleased(before, table);
      for i := 0 to |victims|
        invariant (forall k :: 0 <= k < i ==> victims[k] in gone) && (forall sid :: sid in gone ==> sid in victims[..i])
        invariant evicted == |gone| && sessions == table - gone
        invariant SeatsReleased(before, registry.replicas, table, gone)
      {
        var sid := victims[i];
        assert sid in table && sid !in gone;
        ReleaseOne(before, registry.replicas, table, gone, sid);
        var id := sessions[sid].replica;
        sessions := sessions - {sid};
        registry.DecSessions(id);
        evicted := evicted + 1;
        gone := gone + {sid};
      }
      assert gone == Idle(table, globalMs, overrides, now);
    }

    /** A replica left the registry: forget its sessions. No counter is touched. */
    method DropReplica(id: ReplicaId) returns (removed: nat)
      modifies this
      ensures sessions == Forget(old(sessions), id)
      ensures removed == |On(old(sessions), old(sessions).Keys, id)|
    {
      ghost var table := sessions;
      var victims := set sid | sid in sessions && sessions[sid].replica == id;
      var rest := victims;
      while rest != {}
        invariant rest <= victims
        invariant sessions == table - (victims - rest)
        decreases |rest|
      {
        var sid :| sid in rest;
        rest := rest - {sid};
        sessions := sessions - {sid};
      }
      removed := |victims|;
      assert victims == On(table, table.Keys, id);
    }

    method EndSession(registry: ReplicaRegistry, sid: SessionId) returns (ended: bool)
      modifies this, registry
      ensures ended <==> sid in old(sessions)
      ensures sessions == old(sessions) - {sid}
      ensures ended ==> registry.replicas == Dec(old(registry.replicas), old(sessions)[sid].replica)
      ensures !ended ==> registry.replicas == old(registry.replicas)
    {
      if sid !in sessions {
        return false;
      }
      var id := sessions[sid].replica;
      sessions := sessions - {sid};
      registry.DecSessions(id);
      return true;
    }

    method Len() returns (n: nat)
      ensures n == |sessions|
    {
      n := |sessions|;
    }
  }

  lemma NothingReleased(reg: Replicas, t: Table)
    ensures SeatsReleased(reg, reg, t, {})
  {
    assert forall id :: On(t, {}, id) == {};
  }
}
