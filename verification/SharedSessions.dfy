/**
 The Postgres session store (crates/ruscker-admin/src/sessions_pg.rs): several nodes share one
 table of sessions; each caches how many rows it owns and mirrors the per-replica totals into
 its own registry. Here every operation runs in one piece; SessionCluster.dfy splits them.
 */
module SharedSessions {
  import opened Registries
  import Sessions

  type SessionId = nat
  type NodeId = nat

  datatype Row = Row(spec: string, replica: ReplicaId, owner: NodeId, createdAt: int, lastSeen: int)

  type Rows = map<SessionId, Row>

  function On(rows: Rows, id: ReplicaId): set<SessionId> {
    set sid | sid in rows && rows[sid].replica == id
  }

  function Owned(rows: Rows, node: NodeId): set<SessionId> {
    set sid | sid in rows && rows[sid].owner == node
  }

  /** INSERT … ON CONFLICT DO UPDATE: an existing row keeps its replica and creation time. */
  function Upserted(rows: Rows, sid: SessionId, spec: string, id: ReplicaId, me: NodeId, now: int): Rows {
    rows[sid := if sid in rows then rows[sid].(owner := me, lastSeen := now) else Row(spec, id, me, now, now)]
  }

  /** A first touch makes a row of this node; a later one keeps replica and creation time and moves the rest. */
  lemma RowAfterUpsert(rows: Rows, sid: SessionId, spec: string, id: ReplicaId, me: NodeId, now: int, other: SessionId)
    ensures var after := Upserted(rows, sid, spec, id, me, now);
      && sid in after && after[sid].owner == me && after[sid].lastSeen == now
      && (sid !in rows ==> after[sid] == Row(spec, id, me, now, now))
      && (sid in rows ==>
            && after[sid].spec == rows[sid].spec && after[sid].replica == rows[sid].replica
            && after[sid].createdAt == rows[sid].createdAt)
      && (other != sid ==> (other in after <==> other in rows) && (other in rows ==> after[other] == rows[other]))
  {
  }

  /** The rows the idle pass of a leader deletes: the expiry rule of the in-memory store. */
  function Idle(rows: Rows, globalMs: int, overrides: map<string, int>, now: int): set<SessionId> {
    set sid | sid in rows && Sessions.Expired(AsSession(rows[sid]), globalMs, overrides, now)
  }

  function AsSession(r: Row): Sessions.Session {
    Sessions.Session(r.spec, r.replica, r.lastSeen)
  }

  /** `last_seen < now - timeout`, as the DELETE statements put it. */
  predicate Stale(r: Row, timeout: int, now: int) {
    r.lastSeen < now - timeout
  }

  /** A DELETE's test and the in-memory store's are the same test. */
  lemma IdleIff(rows: Rows, globalMs: int, overrides: map<string, int>, now: int, sid: SessionId)
    ensures sid in Idle(rows, globalMs, overrides, now) <==>
            sid in rows &&
              if rows[sid].spec in overrides
              then overrides[rows[sid].spec] >= 0 && now - rows[sid].lastSeen > overrides[rows[sid].spec]
              else globalMs >= 0 && now - rows[sid].lastSeen > globalMs
  {
  }

  /** Stale rows of the specs without an override. */
  function StaleExcept(rows: Rows, timeout: int, specs: set<string>, now: int): set<SessionId> {
    set sid | sid in rows && Stale(rows[sid], timeout, now) && rows[sid].spec !in specs
  }

  function StaleOf(rows: Rows, timeout: int, spec: string, now: int): set<SessionId> {
    set sid | sid in rows && Stale(rows[sid], timeout, now) && rows[sid].spec == spec
  }

  /** The expired rows whose spec has had its DELETE; those in `rest` still wait for theirs. */
  function IdleBut(rows: Rows, globalMs: int, overrides: map<string, int>, now: int,
                   rest: set<string>): set<SessionId> {
    set sid | sid in Idle(rows, globalMs, overrides, now) && rows[sid].spec !in rest
  }

  lemma GlobalPass(rows: Rows, globalMs: int, overrides: map<string, int>, now: int)
    ensures IdleBut(rows, globalMs, overrides, now, overrides.Keys) ==
            if globalMs >= 0 then StaleExcept(rows, globalMs, overrides.Keys, now) else {}
  {
  }

  lemma OverridePass(rows: Rows, globalMs: int, overrides: map<string, int>, now: int, rest: set<string>, spec: string)
    requires spec in rest && spec in overrides
    ensures var gone := IdleBut(rows, globalMs, overrides, now, rest);
      IdleBut(rows, globalMs, overrides, now, rest - {spec}) ==
        gone + if overrides[spec] < 0 then {} else StaleOf(rows - gone, overrides[spec], spec, now)
  {
  }

  lemma RemoveTwice(rows: Rows, gone: set<SessionId>, timeout: int, spec: string, now: int)
    ensures var more := StaleOf(rows - gone, timeout, spec, now);
      rows - gone - more == rows - (gone + more) && |gone + more| == |gone| + |more|
  {
    var more := StaleOf(rows - gone, timeout, spec, now);
    assert gone !! more;
    assert (rows - gone - more).Keys == (rows - (gone + more)).Keys;
  }

  lemma NoneLeft(rows: Rows, globalMs: int, overrides: map<string, int>, now: int)
    ensures IdleBut(rows, globalMs, overrides, now, {}) == Idle(rows, globalMs, overrides, now)
  {
  }

  class SessionTable {
    var rows: Rows

    constructor ()
      ensures rows == map[]
    {
      rows := map[];
    }

    /** Whether the row reads as new, and who owned it before. */
    method Upsert(sid: SessionId, spec: string, id: ReplicaId, me: NodeId, now: int)
      returns (inserted: bool, prev: set<NodeId>)
      modifies this
      ensures rows == Upserted(old(rows), sid, spec, id, me, now)
      ensures inserted <==> sid !in old(rows) || old(rows)[sid].createdAt == now
      ensures prev == if sid in old(rows) then {old(rows)[sid].owner} else {}
    {
      prev := if sid in rows then {rows[sid].owner} else {};
      rows := rows[sid :=
        if sid in rows then rows[sid].(owner := me, lastSeen := now) else Row(spec, id, me, now, now)];
      inserted := rows[sid].createdAt == rows[sid].lastSeen;
    }

    method DeleteStaleExcept(timeout: int, specs: set<string>, now: int) returns (n: nat)
      modifies this
      ensures var gone := StaleExcept(old(rows), timeout, specs, now); rows == old(rows) - gone && n == |gone|
    {
      var gone := StaleExcept(rows, timeout, specs, now);
      rows := rows - gone;
      n := |gone|;
    }

    method DeleteStaleOf(timeout: int, spec: string, now: int) returns (n: nat)
      modifies this
      ensures var gone := StaleOf(old(rows), timeout, spec, now); rows == old(rows) - gone && n == |gone|
    {
      var gone := StaleOf(rows, timeout, spec, now);
      rows := rows - gone;
      n := |gone|;
    }

    method CountOn(id: ReplicaId) returns (n: nat)
      ensures n == |On(rows, id)|
    {
      n := |On(rows, id)|;
    }

    method CountOwned(me: NodeId) returns (n: nat)
      ensures n == |Owned(rows, me)|
    {
      n := |Owned(rows, me)|;
    }

    /** SELECT replica, count(*) GROUP BY replica. */
    method CountByReplica() returns (counts: map<ReplicaId, nat>)
      ensures Tallies(counts, rows)
    {
      hide Tallies;
      counts := map[];
      var rest := rows.Keys;
      TallyNone(rows);
      while rest != {}
        invariant rest <= rows.Keys && Tallies(counts, rows - rest)
        decreases |rest|
      {
        var sid :| sid in rest;
        var id := rows[sid].replica;
        TallyOne(counts, rows, rest, sid);
        rest := rest - {sid};
        counts := counts[id := 1 + if id in counts then counts[id] else 0];
      }
      assert rows - rest == rows;
    }
  }

  lemma TallyNone(rows: Rows)
    ensures Tallies(map[], rows - rows.Keys)
  {
    assert forall id :: On(rows - rows.Keys, id) == {};
  }

  lemma OnGrows(rows: Rows, rest: set<SessionId>, sid: SessionId, id: ReplicaId)
    requires rest <= rows.Keys && sid in rest
    ensures On(rows - (rest - {sid}), id) == On(rows - rest, id) + if id == rows[sid].replica then {sid} else {}
    ensures sid !in On(rows - rest, id)
  {
  }

  lemma TallyOne(counts: map<ReplicaId, nat>, rows: Rows, rest: set<SessionId>, sid: SessionId)
    requires rest <= rows.Keys && sid in rest && Tallies(counts, rows - rest)
    ensures var id := rows[sid].replica;
      Tallies(counts[id := 1 + if id in counts then counts[id] else 0], rows - (rest - {sid}))
  {
    var id := rows[sid].replica;
    var more := counts[id := 1 + if id in counts then counts[id] else 0];
    var seen, now := rows - rest, rows - (rest - {sid});
    forall k
      ensures (k in more <==> On(now, k) != {}) && (k in more ==> more[k] == |On(now, k)|)
    {
      OnGrows(rows, rest, sid, k);
      hide On;
      assert k in counts <==> On(seen, k) != {};
    }
  }

  /** `counts` is the per-replica tally of `rows`, with no entry for an empty replica. */
  ghost predicate Tallies(counts: map<ReplicaId, nat>, rows: Rows) {
    forall id :: (id in counts <==> On(rows, id) != {}) && (id in counts ==> counts[id] == |On(rows, id)|)
  }

  /** The registry with every counter set to the number of rows on its replica. */
  function Reconciled(reg: Replicas, rows: Rows): Replicas {
    seq(|reg|, i requires 0 <= i < |reg| => reg[i].(sessionsActive := |On(rows, reg[i].id)|))
  }

  lemma {:induction false} TallySetsCounts(reg: Replicas, counts: map<ReplicaId, nat>, rows: Rows)
    requires Tallies(counts, rows)
    ensures SetCounts(reg, counts) == Reconciled(reg, rows)
  {
    if reg != [] {
      TallySetsCounts(reg[1..], counts, rows);
      assert reg[0].id in counts <==> On(rows, reg[0].id) != {};
    }
  }

  /** Which kinds of statement the database answers: writes, replica counts, counts of a node's rows. */
  datatype Db = Db(writes: bool, counts: bool, recounts: bool)

  /** The first DELETE of a sweep fails; a node that issues none has nothing to fail. */
  predicate SweepFails(isLeader: bool, globalMs: int, overrides: map<string, int>, db: Db) {
    isLeader && !db.writes && (globalMs >= 0 || exists spec :: spec in overrides && overrides[spec] >= 0)
  }

  class PostgresSessionStore {
    const me: NodeId
    var localLen: nat

    constructor (me: NodeId)
      ensures this.me == me && localLen == 0
    {
      this.me := me;
      localLen := 0;
    }

    /**
     A fresh row sets the replica's counter to the committed count, so a reserved seat is not counted
     twice; without that count it adds one, unless a seat is reserved. A takeover only adds to this
     node's share.
     */
    method TouchOrRegister(registry: ReplicaRegistry, table: SessionTable, sid: SessionId, spec: string, id: ReplicaId,
                           seatReserved: bool, now: int, db: Db)
      returns (registered: bool)
      modifies `localLen, registry, table
      ensures table.rows == if db.writes then Upserted(old(table.rows), sid, spec, id, me, now) else old(table.rows)
      ensures registered <==> db.writes && (sid !in old(table.rows) || old(table.rows)[sid].createdAt == now)
      ensures registered && db.counts ==>
              registry.replicas == SetCount(old(registry.replicas), id, |On(table.rows, id)|)
      ensures registered && !db.counts ==>
              registry.replicas == if seatReserved then old(registry.replicas) else Inc(old(registry.replicas), id)
      ensures !registered ==> registry.replicas == old(registry.replicas)
      ensures localLen ==
              old(localLen) + if db.writes && (registered || sid !in Owned(old(table.rows), me)) then 1 else 0
    {
      if !db.writes {
        return false;
      }
      var inserted, prev := table.Upsert(sid, spec, id, me, now);
      var tookOver := !inserted && prev != {me};
      if inserted {
        if db.counts {
          var n := table.CountOn(id);
          registry.SetSessionCount(id, n);
        } else if !seatReserved {
          registry.IncSessions(id);
        }
        localLen := localLen + 1;
      } else if tookOver {
        localLen := localLen + 1;
      }
      return inserted;
    }

    /**
     Only the leader evicts; every node then reconciles its counters and its own share. A count that
     fails ends the sweep and loses the number of evictions, not the evictions.
     */
    method Sweep(registry: ReplicaRegistry, table: SessionTable, globalMs: int, overrides: map<string, int>,
                 isLeader: bool, now: int, db: Db)
      returns (evicted: nat)
      modifies `localLen, registry, table
      ensures SweepFails(isLeader, globalMs, overrides, db) ==>
              table.rows == old(table.rows) && registry.replicas == old(registry.replicas)
              && localLen == old(localLen) && evicted == 0
      ensures !SweepFails(isLeader, globalMs, overrides, db) ==>
              var idle := if isLeader then Idle(old(table.rows), globalMs, overrides, now) else {};
              && table.rows == old(table.rows) - idle
              && evicted == (if db.counts && db.recounts then |idle| else 0)
              && registry.replicas ==
                 (if db.counts then Reconciled(old(registry.replicas), table.rows) else old(registry.replicas))
              && localLen == (if db.counts && db.recounts then |Owned(table.rows, me)| else old(localLen))
    {
      if SweepFails(isLeader, globalMs, overrides, db) {
        return 0;
      }
      evicted := EvictIdle(table, globalMs, overrides, isLeader, now);
      if !db.counts {
        return 0;
      }
      var counts := table.CountByReplica();
      TallySetsCounts(registry.replicas, counts, table.rows);
      registry.SetSessionCounts(counts);
      if !db.recounts {
        return 0;
      }
      localLen := table.CountOwned(me);
    }

    method EvictIdle(table: SessionTable, globalMs: int, overrides: map<string, int>, isLeader: bool, now: int)
      returns (evicted: nat)
      modifies table
      ensures table.rows == old(table.rows) - if isLeader then Idle(old(table.rows), globalMs, overrides, now) else {}
      ensures evicted == if isLeader then |Idle(old(table.rows), globalMs, overrides, now)| else 0
    {
      hide Idle, IdleBut, StaleOf, StaleExcept, Stale, On, Owned;
      evicted := 0;
      ghost var all := table.rows;
      ghost var gone: set<SessionId> := {};
      GlobalPass(all, globalMs, overrides, now);
      assert all - gone == all;
      if isLeader && globalMs >= 0 {
        gone := StaleExcept(all, globalMs, overrides.Keys, now);
        evicted := table.DeleteStaleExcept(globalMs, overrides.Keys, now);
      }
      var rest := overrides.Keys;
      while rest != {}
        invariant rest <= overrides.Keys
        invariant table.rows == all - gone && evicted == |gone|
        invariant gone == if isLeader then IdleBut(all, globalMs, overrides, now, rest) else {}
        decreases |rest|
      {
        var spec :| spec in rest;
        var ms := overrides[spec];
        OverridePass(all, globalMs, overrides, now, rest, spec);
        RemoveTwice(all, gone, ms, spec, now);
        rest := rest - {spec};
        if isLeader && ms >= 0 {
          ghost var more := StaleOf(table.rows, ms, spec, now);
          var n := table.DeleteStaleOf(ms, spec, now);
          evicted := evicted + n;
          gone := gone + more;
        }
      }
      NoneLeft(all, globalMs, overrides, now);
    }

    /** The container is gone, so its sessions are dead on every node. */
    method DropReplica(table: SessionTable, id: ReplicaId, db: Db) returns (removed: nat)
      modifies `localLen, table
      ensures db.writes ==>
              table.rows == old(table.rows) - On(old(table.rows), id) && removed == |On(old(table.rows), id)|
      ensures !db.writes ==> table.rows == old(table.rows) && removed == 0
      ensures localLen == if db.writes && db.recounts then |Owned(table.rows, me)| else old(localLen)
    {
      if !db.writes {
        return 0;
      }
      removed := table.CountOn(id);
      table.rows := table.rows - On(table.rows, id);
      if db.recounts {
        localLen := table.CountOwned(me);
      }
    }

    /** An unknown session, or a failed DELETE, changes nothing. */
    method EndSession(registry: ReplicaRegistry, table: SessionTable, sid: SessionId, db: Db) returns (ended: bool)
      modifies `localLen, registry, table
      ensures ended <==> db.writes && sid in old(table.rows)
      ensures table.rows == if ended then old(table.rows) - {sid} else old(table.rows)
      ensures registry.replicas ==
              if ended && db.counts
              then SetCount(old(registry.replicas), old(table.rows)[sid].replica,
                            |On(table.rows, old(table.rows)[sid].replica)|)
              else old(registry.replicas)
      ensures localLen == if ended && db.recounts then |Owned(table.rows, me)| else old(localLen)
    {
      if !db.writes || sid !in table.rows {
        return false;
      }
      var id := table.rows[sid].replica;
      table.rows := table.rows - {sid};
      if db.counts {
        var n := table.CountOn(id);
        registry.SetSessionCount(id, n);
      }
      if db.recounts {
        localLen := table.CountOwned(me);
      }
      return true;
    }
  }
}
