/**
 Sign-in sessions in shared Postgres behind a node-local cache
 (crates/ruscker-admin/src/admin_sessions_pg.rs).

 The class is one node with nothing interleaving. The transition system runs any number of
 nodes and operations against one table; each database query, cache access and clock read
 is its own step. Monotone and wall clocks are read as one global time.
 */
module AdminSessions {
  import opened Wrappers

  const SWEEP_EVERY: nat := 512

  type Sid = nat

  datatype Role = Admin | Editor | Viewer

  datatype SessionInfo = SessionInfo(role: Role, actor: Option<string>)

  /** A table row; `info` is `None` when its role text is unknown. */
  datatype Row = Row(info: Option<SessionInfo>, expiresAt: int)

  /** A cached answer, positive or negative. */
  datatype CachedEntry = CachedEntry(info: Option<SessionInfo>, validUntil: int)

  type Cache = map<Sid, CachedEntry>

  function ClipToExpiry(cacheUntil: int, expiresAt: int, now: int): int {
    if expiresAt <= now then now else Min(cacheUntil, expiresAt)
  }

  /** The fresh cached answer for `sid` to a validate that read its clock at `t`. */
  function Lookup(cache: Cache, sid: Sid, t: int): Option<Option<SessionInfo>> {
    if sid in cache && cache[sid].validUntil > t then Some(cache[sid].info) else None
  }

  function Swept(cache: Cache, t: int): Cache {
    map sid | sid in cache && cache[sid].validUntil > t :: cache[sid]
  }

  /** The window an entry gets: `ttl` from `since`, clipped to the expiry of a positive answer. */
  function Window(since: int, ttl: int, expiresAt: Option<int>, now: int): int {
    if expiresAt.Some? then ClipToExpiry(since + ttl, expiresAt.value, now) else since + ttl
  }

  /** What the database answers at time `t`: the info and expiry of a live row. */
  function Select(rows: map<Sid, Row>, sid: Sid, t: int): Option<(SessionInfo, int)> {
    if sid in rows && rows[sid].info.Some? && rows[sid].expiresAt > t
    then Some((rows[sid].info.value, rows[sid].expiresAt)) else None
  }

  function ActorOf(info: Option<SessionInfo>): Option<string> {
    if info.Some? then info.value.actor else None
  }

  class AdminSessionTable {
    var rows: map<Sid, Row>

    constructor ()
      ensures rows == map[]
    {
      rows := map[];
    }
  }

  class PostgresAdminSessionStore {
    const db: AdminSessionTable
    const ttl: nat
    const cacheTtl: nat
    var cache: Cache
    var sinceSweep: nat

    constructor (db: AdminSessionTable, ttl: nat, cacheTtl: nat)
      ensures this.db == db && this.ttl == ttl && this.cacheTtl == cacheTtl && cache == map[] && sinceSweep == 0
    {
      this.db, this.ttl, this.cacheTtl := db, ttl, cacheTtl;
      cache, sinceSweep := map[], 0;
    }

    /** The insert happens at `now`, the write-through at `later`; a failed insert is cached all the same. */
    method Create(id: Sid, info: SessionInfo, insertOk: bool, now: int, later: int)
      modifies this, db
      ensures db.rows == if insertOk then old(db.rows)[id := Row(Some(info), now + ttl)] else old(db.rows)
      ensures cache == old(cache)[id := CachedEntry(Some(info), Window(later, cacheTtl, Some(now + ttl), later))]
    {
      var expiresAt := now + ttl;
      if insertOk {
        db.rows := db.rows[id := Row(Some(info), expiresAt)];
      }
      var validUntil := ClipToExpiry(later + cacheTtl, expiresAt, later);
      cache := cache[id := CachedEntry(Some(info), validUntil)];
    }

    /** The clock is read at `t`, the row selected at `queried`, the answer cached at `stored`. */
    method Validate(id: Sid, selectOk: bool, t: int, queried: int, stored: int) returns (info: Option<SessionInfo>)
      modifies this, db
      ensures sinceSweep == if old(sinceSweep) + 1 >= 512 then 0 else old(sinceSweep) + 1
      ensures Lookup(old(cache), id, t).Some? ==>
                && info == Lookup(old(cache), id, t).value
                && db.rows == old(db.rows)
                && cache == if old(sinceSweep) + 1 >= 512 then Swept(old(cache), t) else old(cache)
      ensures Lookup(old(cache), id, t).None? && !selectOk ==>
                && info == None && db.rows == old(db.rows)
                && cache == if old(sinceSweep) + 1 >= 512 then Swept(old(cache), t) else old(cache)
      ensures Lookup(old(cache), id, t).None? && selectOk ==>
                var answer := Select(old(db.rows), id, queried);
                && (info.Some? <==> answer.Some?) && (info.Some? ==> info.value == answer.value.0)
                && (info.Some? <==>
                      && id in old(db.rows) && old(db.rows)[id].info.Some? && old(db.rows)[id].expiresAt > queried)
                && (info.Some? ==> info == old(db.rows)[id].info)
                && cache - {id} == (if old(sinceSweep) + 1 >= 512 then Swept(old(cache), t) else old(cache)) - {id}
                && id in cache && cache[id] ==
                     CachedEntry(info, Window(t, cacheTtl, if answer.Some? then Some(answer.value.1) else None, stored))
                && (forall other :: other in db.rows ==> other in old(db.rows) && db.rows[other] == old(db.rows)[other])
                && (forall other :: other in old(db.rows) && other !in db.rows ==>
                      other == id && old(db.rows)[id].expiresAt <= queried)
    {
      sinceSweep := sinceSweep + 1;
      if sinceSweep >= SWEEP_EVERY {
        sinceSweep := 0;
        cache := Swept(cache, t);
      }
      if id in cache && cache[id].validUntil > t {
        return cache[id].info;
      }
      if !selectOk {
        return None;
      }
      var expiresAt: Option<int> := None;
      info := None;
      if id in db.rows {
        var row := db.rows[id];
        if row.info.None? {
          cache := cache[id := CachedEntry(None, t + cacheTtl)];
          return None;
        }
        if row.expiresAt <= queried {
          db.rows := db.rows - {id};
        } else {
          info, expiresAt := row.info, Some(row.expiresAt);
        }
      }
      var validUntil := if expiresAt.Some? then ClipToExpiry(t + cacheTtl, expiresAt.value, stored) else t + cacheTtl;
      cache := cache[id := CachedEntry(info, validUntil)];
    }

    method Remove(id: Sid, deleteOk: bool, stored: int)
      modifies this, db
      ensures db.rows == if deleteOk then old(db.rows) - {id} else old(db.rows)
      ensures cache == old(cache)[id := CachedEntry(None, stored + cacheTtl)]
    {
      if deleteOk {
        db.rows := db.rows - {id};
      }
      cache := cache - {id};
      cache := cache[id := CachedEntry(None, stored + cacheTtl)];
    }

    /** Afterwards neither the table nor this node's cache holds a positive answer for the actor. */
    method RevokeByActor(actor: string, deleteOk: bool)
      modifies this, db
      ensures forall sid :: sid in cache <==>
                sid in old(cache) && !(old(cache)[sid].info.Some? && old(cache)[sid].info.value.actor == Some(actor))
      ensures forall sid :: sid in cache ==> cache[sid] == old(cache)[sid]
      ensures deleteOk ==>
                && (forall sid :: sid in db.rows <==>
                      && sid in old(db.rows)
                      && !(old(db.rows)[sid].info.Some? && old(db.rows)[sid].info.value.actor == Some(actor)))
                && (forall sid :: sid in db.rows ==> db.rows[sid] == old(db.rows)[sid])
      ensures !deleteOk ==> db.rows == old(db.rows)
    {
      if deleteOk {
        db.rows := map sid | sid in db.rows && ActorOf(db.rows[sid].info) != Some(actor) :: db.rows[sid];
      }
      cache := map sid | sid in cache && ActorOf(cache[sid].info) != Some(actor) :: cache[sid];
    }
  }

  /** A sweep at clock `t` is invisible exactly to the validates whose clock reads `t` or later. */
  lemma SweepIsInvisibleIff(t: int, reader: int)
    ensures (forall cache, sid :: Lookup(Swept(cache, t), sid, reader) == Lookup(cache, sid, reader)) <==> reader >= t
  {
    if reader < t {
      var cache: Cache := map[0 := CachedEntry(None, t)];
      assert Lookup(cache, 0, reader).Some? && Lookup(Swept(cache, t), 0, reader).None?;
    }
  }

  // ---- Many nodes, every query and clock read its own step ----

  type Node = nat

  datatype Slot = Slot(node: Node, sid: Sid)

  /**
   A cache entry with the time it was stored: `pastExpiry` when that was after the session's expiry,
   `pastWindow` when the entry is valid for longer than one window from its operation's clock read.
   */
  datatype Stored = Stored(entry: CachedEntry, at: int, pastExpiry: bool, pastWindow: bool)

  datatype Op =
    | Creating(slot: Slot, info: SessionInfo)
    | Validating(slot: Slot, begun: int)
    | Fetched(slot: Slot, begun: int, answer: Option<(SessionInfo, int)>)

  /** A finished validate, with the marks of the cache entry that served it. */
  datatype Answer = Answer(sid: Sid, begun: int, info: Option<SessionInfo>, pastExpiry: bool, pastWindow: bool)

  datatype Config = Config(ttl: nat, cacheTtl: nat)

  /**
   `expiry` records the expiry of every session ever created, `revoked` the moment a committed
   delete first hit a session whose `create` had returned.
   */
  datatype State = State(
    now: int,
    rows: map<Sid, Row>,
    nextSid: Sid,
    caches: map<Slot, Stored>,
    ops: map<nat, Op>,
    expiry: map<Sid, int>,
    revoked: map<Sid, int>,
    answers: seq<Answer>)

  /**
   ValidateSelect is the query and the test of the row's expiry against the wall clock. Beginning an
   operation under a number in use drops the earlier one, as a cancelled request would be.
   */
  datatype Action =
    | Pass(dt: nat)
    | CreateInsert(op: nat, node: Node, info: SessionInfo, ok: bool)
    | CreateStore(op: nat)
    | ValidateBegin(op: nat, slot: Slot)
    | ValidateHit(op: nat)
    | ValidateSelect(op: nat, ok: bool)
    | ValidateStore(op: nat)
    | CommitDelete(sids: set<Sid>)
    | Tombstone(slot: Slot)
    | Forget(slot: Slot)

  function Init(now: int): State {
    State(now, map[], 0, map[], map[], map[], map[], [])
  }

  /** The expiry known to an operation about to store its answer. */
  function StoreEntry(c: Config, since: int, info: Option<SessionInfo>, expiresAt: Option<int>, now: int): Stored {
    var until := Window(since, c.cacheTtl, expiresAt, now);
    Stored(CachedEntry(info, until), now, expiresAt.Some? && expiresAt.value < now, until > since + c.cacheTtl)
  }

  /**
   A positive entry cached at `now`, for an operation that read its clock at `since`, tells no validate
   from the expiry on that the session is good if and only if it is cached no later than the expiry.
   */
  lemma StoreRespectsExpiryIff(c: Config, since: int, info: SessionInfo, x: int, now: int, sid: Sid)
    ensures (forall cache, t :: t >= x ==> !Serves(cache, sid, Cached(c, since, info, x, now), t)) <==> now <= x
  {
    if now > x {
      var cache: Cache := map[];
      assert Serves(cache, sid, Cached(c, since, info, x, now), x);
    }
  }

  /** And it serves for no more than one window from `since` if and only if it is cached in time for one of them. */
  lemma StoreRespectsWindowIff(c: Config, since: int, info: SessionInfo, x: int, now: int, sid: Sid)
    ensures (forall cache, t :: t >= since + c.cacheTtl ==> !Serves(cache, sid, Cached(c, since, info, x, now), t))
            <==> now < x || now <= since + c.cacheTtl
  {
    if now >= x && now > since + c.cacheTtl {
      var cache: Cache := map[];
      assert Serves(cache, sid, Cached(c, since, info, x, now), since + c.cacheTtl);
    }
  }

  /**
   For how long a cached positive answer serves, exactly: stored before the expiry, until the window from
   the clock read or the expiry, whichever comes first; stored later, for readers behind the store only.
   */
  lemma StoredServesUntil(c: Config, since: int, info: SessionInfo, x: int, now: int, cache: Cache, sid: Sid, t: int)
    ensures Serves(cache, sid, Cached(c, since, info, x, now), t) <==>
            if now < x then t < since + c.cacheTtl && t < x else t < now
    ensures Serves(cache, sid, Cached(c, since, info, x, now), t) ==>
            Lookup(cache[sid := Cached(c, since, info, x, now)], sid, t) == Some(Some(info))
  {
  }

  /** A cached refusal stands for exactly one window from the clock read, whenever it was stored. */
  lemma RefusalStandsFor(c: Config, since: int, now: int, cache: Cache, sid: Sid, t: int)
    ensures Lookup(cache[sid := StoreEntry(c, since, None, None, now).entry], sid, t) ==
            if t < since + c.cacheTtl then Some(None) else None
  {
  }

  /** Once `e` is cached for `sid`, a validate that read its clock at `t` is told the session is good. */
  predicate Serves(cache: Cache, sid: Sid, e: CachedEntry, t: int) {
    var answer := Lookup(cache[sid := e], sid, t);
    answer.Some? && answer.value.Some?
  }

  function Cached(c: Config, since: int, info: SessionInfo, x: int, now: int): CachedEntry {
    StoreEntry(c, since, Some(info), Some(x), now).entry
  }

  predicate BeingCreated(s: State, sid: Sid) {
    exists op :: op in s.ops && s.ops[op].Creating? && s.ops[op].slot.sid == sid
  }

  function Apply(c: Config, s: State, a: Action): State {
    match a
    case Pass(dt) => s.(now := s.now + dt)
    case CreateInsert(op, node, info, ok) =>
      var sid, expiresAt := s.nextSid, s.now + c.ttl;
      s.(nextSid := sid + 1, expiry := s.expiry[sid := expiresAt],
         rows := if ok then s.rows[sid := Row(Some(info), expiresAt)] else s.rows,
         ops := s.ops[op := Creating(Slot(node, sid), info)])
    case CreateStore(op) =>
      if op in s.ops && s.ops[op].Creating? && s.ops[op].slot.sid in s.expiry
      then
        var o := s.ops[op];
        s.(caches := s.caches[o.slot := StoreEntry(c, s.now, Some(o.info), Some(s.expiry[o.slot.sid]), s.now)],
           ops := s.ops - {op})
      else s
    case ValidateBegin(op, slot) => s.(ops := s.ops[op := Validating(slot, s.now)])
    case ValidateHit(op) =>
      if op in s.ops && s.ops[op].Validating? && s.ops[op].slot in s.caches
         && s.caches[s.ops[op].slot].entry.validUntil > s.ops[op].begun
      then
        var o, e := s.ops[op], s.caches[s.ops[op].slot];
        s.(answers := s.answers + [Answer(o.slot.sid, o.begun, e.entry.info, e.pastExpiry, e.pastWindow)],
           ops := s.ops - {op})
      else s
    case ValidateSelect(op, ok) =>
      if op in s.ops && s.ops[op].Validating?
      then
        var o := s.ops[op];
        if ok then s.(ops := s.ops[op := Fetched(o.slot, o.begun, Select(s.rows, o.slot.sid, s.now))])
        else s.(answers := s.answers + [Answer(o.slot.sid, o.begun, None, false, false)], ops := s.ops - {op})
      else s
    case ValidateStore(op) =>
      if op in s.ops && s.ops[op].Fetched?
      then
        var o := s.ops[op];
        var info := if o.answer.Some? then Some(o.answer.value.0) else None;
        var expiresAt := if o.answer.Some? then Some(o.answer.value.1) else None;
        s.(caches := s.caches[o.slot := StoreEntry(c, o.begun, info, expiresAt, s.now)],
           answers := s.answers + [Answer(o.slot.sid, o.begun, info, false, false)], ops := s.ops - {op})
      else s
    case CommitDelete(sids) =>
      s.(rows := s.rows - sids,
         revoked := map sid | sid in s.expiry && (sid in s.revoked || (sid in sids && !BeingCreated(s, sid))) ::
                      if sid in s.revoked then s.revoked[sid] else s.now)
    case Tombstone(slot) =>
      s.(caches := s.caches[slot := StoreEntry(c, s.now, None, None, s.now)])
    case Forget(slot) => s.(caches := s.caches - {slot})
  }

  function Exec(c: Config, s: State, actions: seq<Action>): State
    decreases |actions|
  {
    if actions == [] then s else Exec(c, Apply(c, s, actions[0]), actions[1..])
  }

  ghost predicate RowInv(s: State, sid: Sid)
    requires sid in s.rows
  {
    sid in s.expiry && s.rows[sid].expiresAt == s.expiry[sid] && sid !in s.revoked
  }

  ghost predicate EntryInv(c: Config, s: State, sid: Sid, e: Stored) {
    && e.at <= s.now && e.entry.validUntil <= e.at + c.cacheTtl
    && (e.entry.info.Some? ==>
          && sid in s.expiry
          && (!e.pastExpiry ==> e.entry.validUntil <= s.expiry[sid])
          && (!e.pastWindow && sid in s.revoked ==> e.entry.validUntil <= s.revoked[sid] + c.cacheTtl))
  }

  ghost predicate OpInv(s: State, o: Op) {
    match o
    case Creating(slot, _) => slot.sid in s.expiry && slot.sid !in s.revoked
    case Validating(_, begun) => begun <= s.now
    case Fetched(slot, begun, answer) =>
      && begun <= s.now
      && (answer.Some? ==>
            && slot.sid in s.expiry && answer.value.1 == s.expiry[slot.sid] && begun < answer.value.1
            && (slot.sid in s.revoked ==> begun <= s.revoked[slot.sid]))
  }

  ghost predicate AnswerInv(c: Config, s: State, a: Answer) {
    && a.begun <= s.now
    && (a.info.Some? ==>
          && a.sid in s.expiry
          && (!a.pastExpiry ==> a.begun < s.expiry[a.sid])
          && (!a.pastWindow && a.sid in s.revoked ==> a.begun < s.revoked[a.sid] + c.cacheTtl))
  }

  ghost predicate Inv(c: Config, s: State) {
    && c.cacheTtl > 0
    && (forall sid :: sid in s.expiry ==> sid < s.nextSid)
    && (forall sid :: sid in s.revoked ==> sid in s.expiry && s.revoked[sid] <= s.now)
    && (forall sid :: sid in s.rows ==> RowInv(s, sid))
    && (forall slot :: slot in s.caches ==> EntryInv(c, s, slot.sid, s.caches[slot]))
    && (forall op :: op in s.ops ==> OpInv(s, s.ops[op]))
    && (forall k :: 0 <= k < |s.answers| ==> AnswerInv(c, s, s.answers[k]))
  }

  /** The ledgers and the clock only grow, and a session is first revoked at the time it happens. */
  ghost predicate Extends(s: State, t: State) {
    && s.now <= t.now
    && (forall sid :: sid in s.expiry ==> sid in t.expiry && t.expiry[sid] == s.expiry[sid])
    && (forall sid :: sid in s.revoked ==> sid in t.revoked && t.revoked[sid] == s.revoked[sid])
    && (forall sid :: sid in t.revoked && sid !in s.revoked ==> t.revoked[sid] == s.now && !BeingCreated(s, sid))
  }

  lemma LedgerStep(c: Config, s: State, a: Action)
    requires Inv(c, s)
    ensures var t := Apply(c, s, a);
      && Extends(s, t)
      && (forall sid :: sid in t.expiry ==> sid < t.nextSid)
      && (forall sid :: sid in t.revoked ==> sid in t.expiry && t.revoked[sid] <= t.now)
      && (forall sid :: sid in t.rows ==> RowInv(t, sid))
  {
    var t := Apply(c, s, a);
    forall sid | sid in t.rows
      ensures RowInv(t, sid)
    {
      RowStep(c, s, a, sid);
    }
    ExpiryStep(c, s, a);
    RevokedStep(c, s, a);
    hide Apply, Inv, RowInv, BeingCreated;
  }

  lemma ExpiryStep(c: Config, s: State, a: Action)
    requires forall sid :: sid in s.expiry ==> sid < s.nextSid
    ensures var t := Apply(c, s, a);
      && s.now <= t.now && (forall sid :: sid in t.expiry ==> sid < t.nextSid)
      && (forall sid :: sid in s.expiry ==> sid in t.expiry && t.expiry[sid] == s.expiry[sid])
  {
    hide Window, StoreEntry, Select, BeingCreated;
    if a.CreateInsert? {
      assert s.nextSid !in s.expiry;
    }
  }

  lemma RevokedStep(c: Config, s: State, a: Action)
    requires forall sid :: sid in s.revoked ==> sid in s.expiry && s.revoked[sid] <= s.now
    ensures var t := Apply(c, s, a);
      && (forall sid :: sid in t.revoked ==> sid in t.expiry && t.revoked[sid] <= t.now)
      && (forall sid :: sid in s.revoked ==> sid in t.revoked && t.revoked[sid] == s.revoked[sid])
      && (forall sid :: sid in t.revoked && sid !in s.revoked ==> t.revoked[sid] == s.now && !BeingCreated(s, sid))
  {
    hide Window, StoreEntry, Select, BeingCreated;
  }

  lemma RowStep(c: Config, s: State, a: Action, sid: Sid)
    requires Inv(c, s) && sid in Apply(c, s, a).rows
    ensures RowInv(Apply(c, s, a), sid)
  {
    hide EntryInv, OpInv, AnswerInv, Window, StoreEntry, Select, BeingCreated;
    if a.CreateInsert? {
      assert s.nextSid !in s.expiry;
    }
    assert sid in s.rows ==> RowInv(s, sid);
  }

  lemma EntryFrame(c: Config, s: State, t: State, sid: Sid, e: Stored)
    requires Extends(s, t) && EntryInv(c, s, sid, e)
    ensures EntryInv(c, t, sid, e)
  {
  }

  lemma OpFrame(s: State, t: State, op: nat)
    requires Extends(s, t) && op in s.ops && OpInv(s, s.ops[op])
    ensures OpInv(t, s.ops[op])
  {
    assert s.ops[op].Creating? ==> BeingCreated(s, s.ops[op].slot.sid);
  }

  lemma AnswerFrame(c: Config, s: State, t: State, a: Answer)
    requires c.cacheTtl > 0 && Extends(s, t) && AnswerInv(c, s, a)
    ensures AnswerInv(c, t, a)
  {
  }

  lemma StoredEntryIsGood(c: Config, s: State, a: Action)
    requires Inv(c, s) && (a.CreateStore? || a.ValidateStore?) && a.op in s.ops
    requires if a.CreateStore? then s.ops[a.op].Creating? else s.ops[a.op].Fetched?
    ensures var t, slot := Apply(c, s, a), s.ops[a.op].slot;
            t.expiry == s.expiry && t.revoked == s.revoked && t.now == s.now
            && slot in t.caches && EntryInv(c, t, slot.sid, t.caches[slot])
            && forall other :: other != slot && other in t.caches ==>
               other in s.caches && t.caches[other] == s.caches[other]
  {
    assert OpInv(s, s.ops[a.op]);
  }

  lemma EntryStep(c: Config, s: State, a: Action, slot: Slot)
    requires Inv(c, s) && slot in Apply(c, s, a).caches
    ensures EntryInv(c, Apply(c, s, a), slot.sid, Apply(c, s, a).caches[slot])
  {
    var t := Apply(c, s, a);
    LedgerStep(c, s, a);
    if (a.CreateStore? || a.ValidateStore?) && a.op in s.ops
       && (if a.CreateStore? then s.ops[a.op].Creating? else s.ops[a.op].Fetched?) {
      StoredEntryIsGood(c, s, a);
    }
    if slot in s.caches && t.caches[slot] == s.caches[slot] {
      EntryFrame(c, s, t, slot.sid, s.caches[slot]);
    }
  }

  lemma NewOpStep(c: Config, s: State, a: Action, op: nat)
    requires Inv(c, s) && op in Apply(c, s, a).ops
    requires !(op in s.ops && Apply(c, s, a).ops[op] == s.ops[op])
    ensures OpInv(Apply(c, s, a), Apply(c, s, a).ops[op])
  {
    hide AnswerInv, EntryInv, Window, StoreEntry, BeingCreated;
    assert op in s.ops ==> OpInv(s, s.ops[op]);
    if a.ValidateSelect? && s.ops[a.op].slot.sid in s.rows {
      assert RowInv(s, s.ops[a.op].slot.sid);
    }
  }

  lemma OpStep(c: Config, s: State, a: Action, op: nat)
    requires Inv(c, s) && op in Apply(c, s, a).ops
    ensures OpInv(Apply(c, s, a), Apply(c, s, a).ops[op])
  {
    LedgerStep(c, s, a);
    hide Apply, OpInv, Extends;
    if op in s.ops && Apply(c, s, a).ops[op] == s.ops[op] {
      OpFrame(s, Apply(c, s, a), op);
    } else {
      NewOpStep(c, s, a, op);
    }
  }

  lemma AnswerStep(c: Config, s: State, a: Action, k: nat)
    requires Inv(c, s) && k < |Apply(c, s, a).answers|
    ensures AnswerInv(c, Apply(c, s, a), Apply(c, s, a).answers[k])
  {
    var t := Apply(c, s, a);
    LedgerStep(c, s, a);
    if k < |s.answers| {
      AnswerFrame(c, s, t, s.answers[k]);
    } else {
      hide RowInv, Window, StoreEntry, Select, BeingCreated;
      assert OpInv(s, s.ops[a.op]);
      if a.ValidateHit? {
        assert EntryInv(c, s, s.ops[a.op].slot.sid, s.caches[s.ops[a.op].slot]);
      }
    }
  }

  lemma StepKeepsInv(c: Config, s: State, a: Action)
    requires Inv(c, s)
    ensures Inv(c, Apply(c, s, a))
  {
    LedgerStep(c, s, a);
    var t := Apply(c, s, a);
    hide Apply, EntryInv, OpInv, AnswerInv, RowInv;
    forall slot | slot in t.caches ensures EntryInv(c, t, slot.sid, t.caches[slot]) {
      EntryStep(c, s, a, slot);
    }
    forall op | op in t.ops ensures OpInv(t, t.ops[op]) {
      OpStep(c, s, a, op);
    }
    forall k | 0 <= k < |t.answers| ensures AnswerInv(c, t, t.answers[k]) {
      AnswerStep(c, s, a, k);
    }
  }

  lemma {:induction false} ExecKeepsInv(c: Config, s: State, actions: seq<Action>)
    requires Inv(c, s)
    ensures Inv(c, Exec(c, s, actions))
    decreases |actions|
  {
    if actions != [] {
      StepKeepsInv(c, s, actions[0]);
      ExecKeepsInv(c, Apply(c, s, actions[0]), actions[1..]);
    }
  }

  /**
   A session is reported good only to validates that began before its expiry and less than one cache
   window after its revocation, unless the answer came from an entry cached too late for that bound.
   */
  lemma GoodAnswersAreBounded(c: Config, now: int, actions: seq<Action>, k: nat)
    requires c.cacheTtl > 0 && k < |Exec(c, Init(now), actions).answers|
    ensures var s := Exec(c, Init(now), actions);
      var a := s.answers[k];
      a.info.Some? ==>
        && a.sid in s.expiry
        && (!a.pastExpiry ==> a.begun < s.expiry[a.sid])
        && (!a.pastWindow && a.sid in s.revoked ==> a.begun < s.revoked[a.sid] + c.cacheTtl)
  {
    ExecKeepsInv(c, Init(now), actions);
    assert AnswerInv(c, Exec(c, Init(now), actions), Exec(c, Init(now), actions).answers[k]);
  }

  // ---- Which stores are in time ----

  /** The positive answer this action caches: when its operation read the clock, and the session's expiry. */
  function Caches(s: State, a: Action): Option<(int, int)> {
    if a.CreateStore? && a.op in s.ops && s.ops[a.op].Creating? && s.ops[a.op].slot.sid in s.expiry
    then Some((s.now, s.expiry[s.ops[a.op].slot.sid]))
    else if a.ValidateStore? && a.op in s.ops && s.ops[a.op].Fetched? && s.ops[a.op].answer.Some?
    then Some((s.ops[a.op].begun, s.ops[a.op].answer.value.1))
    else None
  }

  /** The guard of StoreRespectsExpiryIff. */
  predicate BeforeExpiry(s: State, a: Action) {
    Caches(s, a).Some? ==> s.now <= Caches(s, a).value.1
  }

  /** The guard of StoreRespectsWindowIff. */
  predicate WithinWindow(c: Config, s: State, a: Action) {
    Caches(s, a).Some? ==> s.now < Caches(s, a).value.1 || s.now <= Caches(s, a).value.0 + c.cacheTtl
  }

  ghost predicate AllBeforeExpiry(c: Config, s: State, actions: seq<Action>)
    decreases |actions|
  {
    actions == [] || (BeforeExpiry(s, actions[0]) && AllBeforeExpiry(c, Apply(c, s, actions[0]), actions[1..]))
  }

  ghost predicate AllWithinWindow(c: Config, s: State, actions: seq<Action>)
    decreases |actions|
  {
    actions == [] || (WithinWindow(c, s, actions[0]) && AllWithinWindow(c, Apply(c, s, actions[0]), actions[1..]))
  }

  ghost predicate NonePastExpiry(s: State) {
    && (forall slot :: slot in s.caches ==> !s.caches[slot].pastExpiry)
    && (forall k :: 0 <= k < |s.answers| ==> !s.answers[k].pastExpiry)
  }

  ghost predicate NonePastWindow(s: State) {
    && (forall slot :: slot in s.caches ==> !s.caches[slot].pastWindow)
    && (forall k :: 0 <= k < |s.answers| ==> !s.answers[k].pastWindow)
  }

  lemma MarkStep(c: Config, s: State, a: Action)
    ensures NonePastExpiry(s) && BeforeExpiry(s, a) ==> NonePastExpiry(Apply(c, s, a))
    ensures NonePastWindow(s) && WithinWindow(c, s, a) ==> NonePastWindow(Apply(c, s, a))
  {
    hide Select, BeingCreated;
  }

  lemma {:induction false} NoMarks(c: Config, s: State, actions: seq<Action>)
    ensures NonePastExpiry(s) && AllBeforeExpiry(c, s, actions) ==> NonePastExpiry(Exec(c, s, actions))
    ensures NonePastWindow(s) && AllWithinWindow(c, s, actions) ==> NonePastWindow(Exec(c, s, actions))
    decreases |actions|
  {
    hide Apply, NonePastExpiry, NonePastWindow, BeforeExpiry, WithinWindow;
    if actions != [] {
      MarkStep(c, s, actions[0]);
      NoMarks(c, Apply(c, s, actions[0]), actions[1..]);
    }
  }

  /**
   The expiry bound, cluster-wide: when no positive answer is cached after its session's expiry, a
   validate that begins at or after the expiry is told that the session is invalid.
   */
  lemma ExpiryIsFinal(c: Config, now: int, actions: seq<Action>, k: nat)
    requires c.cacheTtl > 0 && k < |Exec(c, Init(now), actions).answers|
    requires AllBeforeExpiry(c, Init(now), actions)
    requires var s := Exec(c, Init(now), actions);
      var a := s.answers[k];
      a.sid in s.expiry && a.begun >= s.expiry[a.sid]
    ensures Exec(c, Init(now), actions).answers[k].info == None
  {
    GoodAnswersAreBounded(c, now, actions, k);
    NoMarks(c, Init(now), actions);
  }

  /**
   The revocation bound, cluster-wide: when every positive answer is cached before its session's expiry
   or within one window of its clock read, a validate that begins at least one cache window after a
   revocation committed is told that the session is invalid.
   */
  lemma RevocationIsFinalWithinOneWindow(c: Config, now: int, actions: seq<Action>, k: nat)
    requires c.cacheTtl > 0 && k < |Exec(c, Init(now), actions).answers|
    requires AllWithinWindow(c, Init(now), actions)
    requires var s := Exec(c, Init(now), actions);
      var a := s.answers[k];
      a.sid in s.revoked && a.begun >= s.revoked[a.sid] + c.cacheTtl
    ensures Exec(c, Init(now), actions).answers[k].info == None
  {
    GoodAnswersAreBounded(c, now, actions, k);
    NoMarks(c, Init(now), actions);
  }

  // ---- When a logout holds on its own node ----

  /** The action serves a validate on `slot` from a positive cache entry. */
  predicate HitsPositive(s: State, a: Action, slot: Slot) {
    && a.ValidateHit? && a.op in s.ops && s.ops[a.op].Validating? && s.ops[a.op].slot == slot
    && slot in s.caches && s.caches[slot].entry.validUntil > s.ops[a.op].begun && s.caches[slot].entry.info.Some?
  }

  predicate EverHits(c: Config, s: State, actions: seq<Action>, slot: Slot)
    decreases |actions|
  {
    actions != [] && (HitsPositive(s, actions[0], slot) || EverHits(c, Apply(c, s, actions[0]), actions[1..], slot))
  }

  /** An operation on `slot` that selected the row while it was there and has yet to cache it. */
  predicate HoldsRow(s: State, slot: Slot, op: nat) {
    op in s.ops && s.ops[op].Fetched? && s.ops[op].slot == slot && s.ops[op].answer.Some?
  }

  /** The session was created at some time, its row is gone and no `create` is about to cache it here. */
  ghost predicate LoggedOut(s: State, slot: Slot) {
    && slot.sid < s.nextSid && slot.sid !in s.rows
    && forall op :: op in s.ops && s.ops[op].Creating? ==> s.ops[op].slot != slot
  }

  /** Nothing on this node can answer for the session any more. */
  ghost predicate DeadHere(s: State, slot: Slot) {
    && LoggedOut(s, slot)
    && (forall op :: op in s.ops ==> !HoldsRow(s, slot, op))
    && (slot in s.caches ==> s.caches[slot].entry.info.None?)
  }

  lemma DeadHereStep(c: Config, s: State, a: Action, slot: Slot)
    requires DeadHere(s, slot)
    ensures DeadHere(Apply(c, s, a), slot) && !HitsPositive(s, a, slot)
  {
    hide Window, BeingCreated;
    assert a.ValidateStore? ==> !HoldsRow(s, slot, a.op);
    var t := Apply(c, s, a);
    forall op | op in t.ops
      ensures !HoldsRow(t, slot, op)
    {
      assert op in s.ops ==> !HoldsRow(s, slot, op);
    }
  }

  lemma {:induction false} DeadHereStays(c: Config, s: State, actions: seq<Action>, slot: Slot)
    requires DeadHere(s, slot)
    ensures !EverHits(c, s, actions, slot)
    decreases |actions|
  {
    hide DeadHere, HitsPositive, Apply;
    if actions != [] {
      DeadHereStep(c, s, actions[0], slot);
      DeadHereStays(c, Apply(c, s, actions[0]), actions[1..], slot);
    }
  }

  /** A validate begins, the row is cached when the session has expired, and the validate is served. */
  function Resurrection(s: State, slot: Slot, op: nat): seq<Action>
    requires HoldsRow(s, slot, op)
  {
    var dt := if s.ops[op].answer.value.1 > s.now then s.ops[op].answer.value.1 - s.now else 1;
    [ValidateBegin(op + 1, slot), Pass(dt), ValidateStore(op), ValidateHit(op + 1)]
  }

  lemma HeldRowIsServed(c: Config, s: State, slot: Slot, op: nat)
    requires HoldsRow(s, slot, op)
    ensures EverHits(c, s, Resurrection(s, slot, op), slot)
  {
    var run := Resurrection(s, slot, op);
    var s1 := Apply(c, s, run[0]);
    var s2 := Apply(c, s1, run[1]);
    var s3 := Apply(c, s2, run[2]);
    assert s2.ops[op] == s.ops[op] && s2.ops[op + 1] == Validating(slot, s.now);
    assert HitsPositive(s3, run[3], slot);
    hide Apply, HitsPositive;
    assert run[1..][1..][1..] == [run[3]] && run[1..][0] == run[1] && run[1..][1..][0] == run[2];
    assert EverHits(c, s3, run[1..][1..][1..], slot);
    assert EverHits(c, s2, run[1..][1..], slot);
    assert EverHits(c, s1, run[1..], slot);
  }

  /**
   Once the row is deleted and the negative entry stored, no validate on this node is ever again served
   a positive entry if and only if no operation on this node holds the row it selected before.
   */
  lemma TombstoneHoldsIff(c: Config, s: State, slot: Slot)
    requires LoggedOut(s, slot)
    ensures (forall actions :: !EverHits(c, Apply(c, s, Tombstone(slot)), actions, slot)) <==>
            (forall op :: op in s.ops ==> !HoldsRow(s, slot, op))
  {
    var t := Apply(c, s, Tombstone(slot));
    assert t.ops == s.ops;
    if op :| op in s.ops && HoldsRow(s, slot, op) {
      HeldRowIsServed(c, t, slot, op);
    } else {
      assert DeadHere(t, slot);
      forall actions
        ensures !EverHits(c, t, actions, slot)
      {
        DeadHereStays(c, t, actions, slot);
      }
    }
  }

  // ---- An operation that nothing interrupts does what its method promises ----

  // Each lemma restates the postcondition of the method of PostgresAdminSessionStore it is named after.

  lemma ExecThree(c: Config, s: State, x: Action, y: Action, z: Action)
    ensures Exec(c, s, [x, y, z]) == Apply(c, Apply(c, Apply(c, s, x), y), z)
  {
    ExecFour(c, s, Pass(0), x, y, z);
    assert Apply(c, s, Pass(0)) == s;
    assert [Pass(0), x, y, z][1..] == [x, y, z];
    hide Apply;
  }

  lemma CreateUninterrupted(c: Config, s: State, op: nat, node: Node, info: SessionInfo, ok: bool, dt: nat)
    ensures var t := Exec(c, s, [CreateInsert(op, node, info, ok), Pass(dt), CreateStore(op)]);
      var sid, slot := s.nextSid, Slot(node, s.nextSid);
      && t.now == s.now + dt
      && t.rows == (if ok then s.rows[sid := Row(Some(info), s.now + c.ttl)] else s.rows)
      && t.caches.Keys == s.caches.Keys + {slot}
      && t.caches[slot].entry == CachedEntry(Some(info), Window(t.now, c.cacheTtl, Some(s.now + c.ttl), t.now))
      && forall other :: other in s.caches && other != slot ==> t.caches[other] == s.caches[other]
  {
    hide Window;
    ExecThree(c, s, CreateInsert(op, node, info, ok), Pass(dt), CreateStore(op));
  }

  /** The fresh entry of a slot, as the class looks it up. */
  function FreshIn(s: State, slot: Slot): Option<Option<SessionInfo>> {
    if slot in s.caches then Lookup(map[slot.sid := s.caches[slot].entry], slot.sid, s.now) else None
  }

  lemma ValidateHitUninterrupted(c: Config, s: State, op: nat, slot: Slot)
    requires FreshIn(s, slot).Some?
    ensures var t := Apply(c, Apply(c, s, ValidateBegin(op, slot)), ValidateHit(op));
      && t.rows == s.rows && t.caches == s.caches && |t.answers| == |s.answers| + 1
      && t.answers[|s.answers|].info == FreshIn(s, slot).value
  {
  }

  lemma ValidateMissUninterrupted(c: Config, s: State, op: nat, slot: Slot, ok: bool, wait: nat, stall: nat)
    requires FreshIn(s, slot).None?
    ensures var queried := Apply(c, Apply(c, s, ValidateBegin(op, slot)), Pass(wait));
      var t := Exec(c, queried, [ValidateSelect(op, ok), Pass(stall), ValidateStore(op)]);
      var found := if ok then Select(s.rows, slot.sid, s.now + wait) else None;
      var info := if found.Some? then Some(found.value.0) else None;
      && t.rows == s.rows && |t.answers| == |s.answers| + 1 && t.answers[|s.answers|].info == info
      && (!ok ==> t.caches == s.caches)
      && (ok ==>
           && t.caches.Keys == s.caches.Keys + {slot}
           && t.caches[slot].entry ==
                CachedEntry(info, Window(s.now, c.cacheTtl, if found.Some? then Some(found.value.1) else None, t.now))
           && forall other :: other in s.caches && other != slot ==> t.caches[other] == s.caches[other])
  {
    hide Window, Select;
    var queried := Apply(c, Apply(c, s, ValidateBegin(op, slot)), Pass(wait));
    ExecThree(c, queried, ValidateSelect(op, ok), Pass(stall), ValidateStore(op));
  }

  lemma RemoveUninterrupted(c: Config, s: State, slot: Slot)
    ensures var t := Apply(c, Apply(c, s, CommitDelete({slot.sid})), Tombstone(slot));
      && t.rows == s.rows - {slot.sid} && t.caches.Keys == s.caches.Keys + {slot}
      && t.caches[slot].entry == CachedEntry(None, s.now + c.cacheTtl)
      && forall other :: other in s.caches && other != slot ==> t.caches[other] == s.caches[other]
  {
    hide BeingCreated;
  }

  // ---- Runs ----

  lemma ExecFour(c: Config, s: State, w: Action, x: Action, y: Action, z: Action)
    ensures Exec(c, s, [w, x, y, z]) == Apply(c, Apply(c, Apply(c, Apply(c, s, w), x), y), z)
  {
    hide Apply;
    assert [w, x, y, z][1..] == [x, y, z] && [x, y, z][1..] == [y, z] && [y, z][1..] == [z] && [z][1..] == [];
    assert Exec(c, Apply(c, s, w), [x, y, z]) == Exec(c, Apply(c, Apply(c, s, w), x), [y, z]);
    assert Exec(c, Apply(c, Apply(c, Apply(c, s, w), x), y), [z])
      == Apply(c, Apply(c, Apply(c, Apply(c, s, w), x), y), z);
  }

  lemma {:induction false} ExecAppend(c: Config, s: State, a: seq<Action>, b: seq<Action>)
    ensures Exec(c, s, a + b) == Exec(c, Exec(c, s, a), b)
    decreases |a|
  {
    if a == [] {
      assert a + b == b;
    } else {
      assert (a + b)[1..] == a[1..] + b;
      ExecAppend(c, Apply(c, s, a[0]), a[1..], b);
    }
  }

  const Demo := Config(100, 5)

  /** Session 0 has been created on node 0 and a validate on `slot` has read its clock at 10. */
  function AfterCreate(slot: Slot, info: SessionInfo): State {
    State(10, map[0 := Row(Some(info), 100)], 1, map[Slot(0, 0) := Stored(CachedEntry(Some(info), 5), 0, false, false)],
          map[1 := Validating(slot, 10)], map[0 := 100], map[], [])
  }

  lemma CreateThenBegin(slot: Slot, info: SessionInfo)
    ensures Exec(Demo, Init(0), [CreateInsert(0, 0, info, true), CreateStore(0), Pass(10), ValidateBegin(1, slot)])
         == AfterCreate(slot, info)
  {
    ExecFour(Demo, Init(0), CreateInsert(0, 0, info, true), CreateStore(0), Pass(10), ValidateBegin(1, slot));
  }

  /** The row was selected at 10 and deleted at 10; at 101 the answer is still not stored. */
  function AfterStall(info: SessionInfo): State {
    State(101, map[], 1, map[Slot(0, 0) := Stored(CachedEntry(Some(info), 5), 0, false, false)],
          map[1 := Fetched(Slot(1, 0), 10, Some((info, 100))), 2 := Validating(Slot(1, 0), 101)],
          map[0 := 100], map[0 := 10], [])
  }

  lemma RevokeThenStall(info: SessionInfo)
    ensures Exec(Demo, AfterCreate(Slot(1, 0), info),
                 [ValidateSelect(1, true), CommitDelete({0}), Pass(91), ValidateBegin(2, Slot(1, 0))])
                   == AfterStall(info)
  {
    var s := AfterCreate(Slot(1, 0), info);
    ExecFour(Demo, s, ValidateSelect(1, true), CommitDelete({0}), Pass(91), ValidateBegin(2, Slot(1, 0)));
    var t := Apply(Demo, s, ValidateSelect(1, true));
    assert t == s.(ops := map[1 := Fetched(Slot(1, 0), 10, Some((info, 100)))]);
    assert Apply(Demo, t, CommitDelete({0})) == t.(rows := map[], revoked := map[0 := 10]);
  }

  lemma StoreLateThenHit(info: SessionInfo)
    ensures var s := Exec(Demo, AfterStall(info), [Pass(1), ValidateStore(1), ValidateHit(2), Pass(0)]);
            s.answers == [Answer(0, 10, Some(info), false, false), Answer(0, 101, Some(info), true, true)]
            && s.expiry == map[0 := 100] && s.revoked == map[0 := 10]
  {
    ExecFour(Demo, AfterStall(info), Pass(1), ValidateStore(1), ValidateHit(2), Pass(0));
  }

  /**
   A store too late for both guards breaks both bounds: its entry is valid until the current instant,
   and a validate that had read its clock just before is told that an expired and long revoked session
   is good. The run needs a stall between the expiry test and the store, two statements with no await
   between them; here the test is part of the select.
   */
  lemma LateStoreServesDeadSession(info: SessionInfo) returns (actions: seq<Action>)
    ensures var s := Exec(Demo, Init(0), actions);
      && s.answers == [Answer(0, 10, Some(info), false, false), Answer(0, 101, Some(info), true, true)]
      && s.expiry == map[0 := 100] && s.revoked == map[0 := 10]
  {
    hide Apply;
    var slot := Slot(1, 0);
    var create := [CreateInsert(0, 0, info, true), CreateStore(0), Pass(10), ValidateBegin(1, slot)];
    var revoke := [ValidateSelect(1, true), CommitDelete({0}), Pass(91), ValidateBegin(2, slot)];
    var late := [Pass(1), ValidateStore(1), ValidateHit(2), Pass(0)];
    actions := create + revoke + late;
    ExecAppend(Demo, Init(0), create + revoke, late);
    ExecAppend(Demo, Init(0), create, revoke);
    CreateThenBegin(slot, info);
    RevokeThenStall(info);
    StoreLateThenHit(info);
  }

  /** Logout on node 0 while a validate there holds the row it selected; that validate stores last. */
  function AfterLogout(info: SessionInfo): State {
    State(10, map[], 1, map[Slot(0, 0) := Stored(CachedEntry(Some(info), 15), 10, false, false)],
          map[], map[0 := 100], map[0 := 10], [Answer(0, 10, Some(info), false, false)])
  }

  lemma LogoutUnderValidate(info: SessionInfo)
    ensures Exec(Demo, AfterCreate(Slot(0, 0), info),
                 [ValidateSelect(1, true), CommitDelete({0}), Tombstone(Slot(0, 0)), ValidateStore(1)])
                   == AfterLogout(info)
  {
    var s := AfterCreate(Slot(0, 0), info);
    ExecFour(Demo, s, ValidateSelect(1, true), CommitDelete({0}), Tombstone(Slot(0, 0)), ValidateStore(1));
    var t := Apply(Demo, s, ValidateSelect(1, true));
    assert t == s.(ops := map[1 := Fetched(Slot(0, 0), 10, Some((info, 100)))]);
    var u := t.(rows := map[], revoked := map[0 := 10]);
    assert Apply(Demo, t, CommitDelete({0})) == u;
    TombstoneThenStore(u, info);
  }

  lemma TombstoneThenStore(u: State, info: SessionInfo)
    requires u == AfterCreate(Slot(0, 0), info).(
      ops := map[1 := Fetched(Slot(0, 0), 10, Some((info, 100)))], rows := map[], revoked := map[0 := 10])
    ensures Apply(Demo, Apply(Demo, u, Tombstone(Slot(0, 0))), ValidateStore(1)) == AfterLogout(info)
  {
  }

  lemma ValidateAgain(info: SessionInfo)
    ensures var s := Exec(Demo, AfterLogout(info), [Pass(1), ValidateBegin(2, Slot(0, 0)), ValidateHit(2), Pass(0)]);
            && s.answers == [Answer(0, 10, Some(info), false, false), Answer(0, 11, Some(info), false, false)]
            && s.revoked == map[0 := 10]
  {
    ExecFour(Demo, AfterLogout(info), Pass(1), ValidateBegin(2, Slot(0, 0)), ValidateHit(2), Pass(0));
  }

  /**
   The tombstone of a logout does not hold on its own node: a validate that selected the row
   before the delete replaces it with a positive entry, which serves for the rest of one window.
   */
  lemma TombstoneCanBeOverwritten(info: SessionInfo) returns (actions: seq<Action>)
    ensures var s := Exec(Demo, Init(0), actions);
            && s.answers == [Answer(0, 10, Some(info), false, false), Answer(0, 11, Some(info), false, false)]
            && s.revoked == map[0 := 10]
  {
    hide Apply;
    var slot := Slot(0, 0);
    var create := [CreateInsert(0, 0, info, true), CreateStore(0), Pass(10), ValidateBegin(1, slot)];
    var logout := [ValidateSelect(1, true), CommitDelete({0}), Tombstone(slot), ValidateStore(1)];
    var again := [Pass(1), ValidateBegin(2, slot), ValidateHit(2), Pass(0)];
    actions := create + logout + again;
    ExecAppend(Demo, Init(0), create + logout, again);
    ExecAppend(Demo, Init(0), create, logout);
    CreateThenBegin(slot, info);
    LogoutUnderValidate(info);
    ValidateAgain(info);
  }
}
