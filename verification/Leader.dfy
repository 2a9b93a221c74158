/**
 Leadership through a Postgres session-level advisory lock
 (crates/ruscker-admin/src/leader.rs).

 `PgLeaderLock` is the elector's code. The transition system runs any number of electors
 against one lock server whose sessions may die at any moment, whose replies may be lost,
 and which may still apply a request its sender has given up on.
 */
module Leadership {
  import opened Wrappers

  type Session = nat

  datatype Request = Ping | TryLock

  /** What the client sees of one bounded round-trip. */
  datatype Outcome<T> = Done(value: T) | Failed | TimedOut

  /** The elector's local state between calls. */
  datatype Local = Local(conn: Option<Session>, holds: bool)

  function Connected(s: Session): Local {
    Local(Some(s), false)
  }

  function NextRequest(l: Local): Request {
    if l.holds then Ping else TryLock
  }

  function OnReply(l: Local, request: Request, value: bool): Local {
    if request.Ping? then l else l.(holds := value)
  }

  const Dropped := Local(None, false)

  class PgLeaderLock {
    var local: Local

    constructor ()
      ensures local == Dropped
    {
      local := Dropped;
    }

    /** `asked` is the request put on the connection, if one was. */
    method IsLeader(connect: Outcome<Session>, reply: Outcome<bool>) returns (leads: bool, asked: Option<Request>)
      requires local.conn.None? ==> !local.holds
      modifies this
      ensures old(local).conn.None? && !connect.Done? ==> !leads && asked == None && local == old(local)
      ensures old(local).conn.Some? || connect.Done? ==>
        var l := if old(local).conn.Some? then old(local) else Connected(connect.value);
        && asked == Some(NextRequest(l))
        && local == (if reply.Done? then OnReply(l, asked.value, reply.value) else Dropped)
      ensures leads <==> local.holds && local.conn.Some?
      ensures leads <==>
                && (old(local).conn.Some? || connect.Done?) && reply.Done?
                && (reply.value || (old(local).conn.Some? && old(local).holds))
      ensures asked.Some? ==> (asked == Some(Ping) <==> old(local).conn.Some? && old(local).holds)
      ensures local.conn.None? ==> !local.holds
    {
      asked := None;
      if local.conn.None? {
        match connect {
          case Done(s) =>
            local := local.(conn := Some(s));
            local := local.(holds := false);
          case Failed => return false, None;
          case TimedOut => return false, None;
        }
      }
      if local.holds {
        asked := Some(Ping);
        if reply.Done? {
          return true, asked;
        }
        local := local.(conn := None);
        local := local.(holds := false);
        return false, asked;
      }
      asked := Some(TryLock);
      match reply {
        case Done(got) =>
          local := local.(holds := got);
          return got, asked;
        case Failed =>
          local := local.(conn := None);
          return false, asked;
        case TimedOut =>
          local := local.(conn := None);
          return false, asked;
      }
    }
  }

  // ---- Electors against the lock server ----

  datatype Phase =
    | Resting
    | Connecting(begun: nat)
    | Waiting(request: Request, begun: nat)

  datatype Elector = Elector(local: Local, phase: Phase)

  /** A reply in the pipe, stamped with the step that served it. */
  datatype Reply = Reply(value: bool, at: nat)

  /** A call that returned `true`: its session and the steps at which it began and ended. */
  datatype Win = Win(elector: nat, session: Session, begun: nat, ended: nat)

  /**
   `owners[k]` is the lock's owner after `k` steps. `queued` holds requests the server has not
   served yet, including those of connections their elector has dropped.
   */
  datatype State = State(
    electors: seq<Elector>,
    alive: set<Session>,
    nextSession: Session,
    owner: Option<Session>,
    depth: nat,
    queued: map<Session, Request>,
    replies: map<Session, Reply>,
    owners: seq<Option<Session>>,
    wins: seq<Win>)

  datatype Action =
    | Begin(e: nat)
    | ConnectOk(e: nat)
    | ConnectFails(e: nat, sessionLeftBehind: bool)
    | Serve(s: Session)
    | Receive(e: nat)
    | GiveUp(e: nat)
    | Die(s: Session)

  function Init(n: nat): State {
    State(seq(n, _ => Elector(Dropped, Resting)), {}, 0, None, 0, map[], map[], [None], [])
  }

  function Now(s: State): nat {
    if |s.owners| == 0 then 0 else |s.owners| - 1
  }

  function Send(s: State, e: nat, l: Local, begun: nat): State
    requires e < |s.electors| && l.conn.Some?
  {
    var request := NextRequest(l);
    s.(electors := s.electors[e := Elector(l, Waiting(request, begun))],
       queued := s.queued[l.conn.value := request])
  }

  function Effect(s: State, a: Action): State {
    match a
    case Begin(e) =>
      if e >= |s.electors| || !s.electors[e].phase.Resting? then s
      else if s.electors[e].local.conn.Some? then Send(s, e, s.electors[e].local, Now(s))
      else s.(electors := s.electors[e := s.electors[e].(phase := Connecting(Now(s)))])
    case ConnectOk(e) =>
      if e >= |s.electors| || !s.electors[e].phase.Connecting? then s
      else
        var t := s.(alive := s.alive + {s.nextSession}, nextSession := s.nextSession + 1);
        Send(t, e, Connected(s.nextSession), s.electors[e].phase.begun)
    case ConnectFails(e, sessionLeftBehind) =>
      if e >= |s.electors| || !s.electors[e].phase.Connecting? then s
      else
        s.(electors := s.electors[e := Elector(Dropped, Resting)],
           alive := if sessionLeftBehind then s.alive + {s.nextSession} else s.alive,
           nextSession := s.nextSession + 1)
    case Serve(i) =>
      if i !in s.queued || i !in s.alive then s
      else
        var granted := s.queued[i].TryLock? && (s.owner == None || s.owner == Some(i));
        s.(owner := if granted then Some(i) else s.owner,
           depth := if granted then s.depth + 1 else s.depth,
           queued := s.queued - {i},
           replies := s.replies[i := Reply(s.queued[i].Ping? || granted, Now(s) + 1)])
    case Receive(e) =>
      if e >= |s.electors| || !s.electors[e].phase.Waiting? || s.electors[e].local.conn.None?
         || s.electors[e].local.conn.value !in s.replies then s
      else
        var i, phase := s.electors[e].local.conn.value, s.electors[e].phase;
        var l := OnReply(s.electors[e].local, phase.request, s.replies[i].value);
        s.(electors := s.electors[e := Elector(l, Resting)],
           replies := s.replies - {i},
           wins := if l.holds then s.wins + [Win(e, i, phase.begun, Now(s) + 1)] else s.wins)
    case GiveUp(e) =>
      if e >= |s.electors| || !s.electors[e].phase.Waiting? then s
      else s.(electors := s.electors[e := Elector(Dropped, Resting)])
    case Die(i) =>
      s.(alive := s.alive - {i},
         queued := s.queued - {i},
         owner := if s.owner == Some(i) then None else s.owner,
         depth := if s.owner == Some(i) then 0 else s.depth)
  }

  /** One step, with the lock's owner afterwards appended to the history. */
  function Apply(s: State, a: Action): State {
    var t := Effect(s, a);
    t.(owners := s.owners + [t.owner])
  }

  function Exec(s: State, actions: seq<Action>): State
    decreases |actions|
  {
    if actions == [] then s else Exec(Apply(s, actions[0]), actions[1..])
  }

  // ---- The invariant ----

  /** The server's own bookkeeping: one owner, held once, by a live session. */
  ghost predicate ServerInv(s: State) {
    && (forall i :: i in s.alive || i in s.queued || i in s.replies ==> i < s.nextSession)
    && (s.owner.Some? ==> s.owner.value in s.alive && s.depth == 1)
    && (s.owner.None? ==> s.depth == 0)
    && (forall i :: i in s.queued && s.queued[i].TryLock? ==> s.owner != Some(i))
  }

  /** What an elector believes is true of the server as long as its session is alive. */
  ghost predicate ElectorInv(s: State, e: Elector) {
    && (e.local.conn.None? ==> !e.local.holds && !e.phase.Waiting?)
    && (e.phase.Connecting? ==> e.local.conn.None?)
    && (!e.phase.Resting? ==> e.phase.begun <= Now(s))
    && (e.local.conn.Some? ==> SessionInv(s, e, e.local.conn.value))
  }

  ghost predicate SessionInv(s: State, e: Elector, i: Session) {
    && i < s.nextSession
    && (e.phase.Waiting? ==> e.phase.request == NextRequest(e.local))
    && (i in s.queued || i in s.replies ==> e.phase.Waiting?)
    && (i in s.queued ==> s.queued[i] == NextRequest(e.local) && i !in s.replies)
    && (e.local.holds && i in s.alive ==> s.owner == Some(i))
    && (s.owner == Some(i) ==> e.local.holds || (i in s.replies && s.replies[i].value))
    && (i in s.replies ==>
          && e.phase.Waiting? && e.phase.begun <= s.replies[i].at < |s.owners|
          && (e.local.holds ==> s.replies[i].value)
          && (s.replies[i].value ==> s.owners[s.replies[i].at] == Some(i) && (i in s.alive ==> s.owner == Some(i))))
  }

  ghost predicate ElectorsInv(s: State) {
    && (forall e :: 0 <= e < |s.electors| ==> ElectorInv(s, s.electors[e]))
    && (forall d, e :: 0 <= d < e < |s.electors| && s.electors[d].local.conn.Some? ==>
          s.electors[d].local.conn != s.electors[e].local.conn)
  }

  /** The owner history: a session that lost the lock is dead and was never the owner again. */
  ghost predicate TenureInv(s: State) {
    && |s.owners| > 0 && s.owners[Now(s)] == s.owner
    && (forall k :: 0 <= k < |s.owners| && s.owners[k].Some? ==>
          s.owners[k].value < s.nextSession && (s.owners[k] == s.owner || s.owners[k].value !in s.alive))
    && (forall j, k, m :: 0 <= j < k < m < |s.owners| && s.owners[j].Some? && s.owners[j] == s.owners[m] ==>
          s.owners[k] == s.owners[j])
  }

  /** During the call that won, the lock belonged to the winner's session at some moment. */
  ghost predicate HeldDuring(s: State, w: Win) {
    exists k :: w.begun <= k <= w.ended && k < |s.owners| && s.owners[k] == Some(w.session)
  }

  ghost predicate Inv(s: State) {
    && ServerInv(s) && ElectorsInv(s) && TenureInv(s)
    && (forall w :: 0 <= w < |s.wins| ==> HeldDuring(s, s.wins[w]))
  }

  lemma InitInv(n: nat)
    ensures Inv(Init(n))
  {
  }

  lemma ServerStep(s: State, a: Action)
    requires Inv(s)
    ensures ServerInv(Apply(s, a))
  {
    hide TenureInv, HeldDuring;
    if a.Begin? && a.e < |s.electors| {
      assert ElectorInv(s, s.electors[a.e]);
    }
  }

  /** A step that leaves an elector and its session's traffic alone keeps its beliefs true. */
  lemma Untouched(s: State, t: State, e: Elector)
    requires ElectorInv(s, e) && |s.owners| > 0 && t.owners == s.owners + [t.owner] && s.nextSession <= t.nextSession
    requires e.local.conn.Some? ==>
      var i := e.local.conn.value;
      && (i in s.queued <==> i in t.queued) && (i in s.queued ==> s.queued[i] == t.queued[i])
      && (i in s.replies <==> i in t.replies) && (i in s.replies ==> s.replies[i] == t.replies[i])
      && (i in t.alive && i < s.nextSession ==> i in s.alive) && (t.owner == Some(i) <==> s.owner == Some(i))
    ensures ElectorInv(t, e)
  {
  }

  lemma ActorStep(s: State, a: Action)
    requires Inv(s) && !a.Serve? && !a.Die? && a.e < |s.electors|
    ensures ElectorInv(Apply(s, a), Apply(s, a).electors[a.e])
  {
    assert ElectorInv(s, s.electors[a.e]);
  }

  lemma ServedStep(s: State, i: Session, e: nat)
    requires Inv(s) && e < |s.electors| && s.electors[e].local.conn == Some(i)
    ensures ElectorInv(Apply(s, Serve(i)), s.electors[e])
  {
    assert ElectorInv(s, s.electors[e]);
  }

  lemma DiedStep(s: State, i: Session, e: nat)
    requires Inv(s) && e < |s.electors| && s.electors[e].local.conn == Some(i)
    ensures ElectorInv(Apply(s, Die(i)), s.electors[e])
  {
    assert ElectorInv(s, s.electors[e]);
  }

  lemma BystanderStep(s: State, a: Action, e: nat)
    requires Inv(s) && !a.Serve? && !a.Die? && e < |s.electors| && e != a.e
    ensures ElectorInv(Apply(s, a), Apply(s, a).electors[e])
  {
    assert |s.owners| > 0;
    hide TenureInv, HeldDuring, ServerInv;
    var t := Apply(s, a);
    assert ElectorInv(s, s.electors[e]);
    if a.e < |s.electors| {
      assert s.electors[e].local.conn.Some? ==> s.electors[e].local.conn != s.electors[a.e].local.conn;
    }
    Untouched(s, t, s.electors[e]);
  }

  lemma ElectorStep(s: State, a: Action, e: nat)
    requires Inv(s) && e < |s.electors|
    ensures ElectorInv(Apply(s, a), Apply(s, a).electors[e])
  {
    assert |s.owners| > 0;
    hide ElectorInv, ServerInv, TenureInv, HeldDuring;
    var t := Apply(s, a);
    match a
    case Serve(i) =>
      if s.electors[e].local.conn == Some(i) { ServedStep(s, i, e); } else { Untouched(s, t, s.electors[e]); }
    case Die(i) =>
      if s.electors[e].local.conn == Some(i) { DiedStep(s, i, e); } else { Untouched(s, t, s.electors[e]); }
    case _ =>
      if e == a.e { ActorStep(s, a); } else { BystanderStep(s, a, e); }
  }

  lemma DistinctStep(s: State, a: Action, d: nat, e: nat)
    requires Inv(s) && d < e < |s.electors|
    ensures var t := Apply(s, a);
            t.electors[d].local.conn.Some? ==> t.electors[d].local.conn != t.electors[e].local.conn
  {
    hide TenureInv, HeldDuring, ServerInv;
    assert ElectorInv(s, s.electors[d]) && ElectorInv(s, s.electors[e]);
  }

  lemma ElectorsStep(s: State, a: Action)
    requires Inv(s)
    ensures ElectorsInv(Apply(s, a))
  {
    hide ElectorInv, Inv;
    var t := Apply(s, a);
    forall e | 0 <= e < |s.electors| ensures ElectorInv(t, t.electors[e]) {
      ElectorStep(s, a, e);
    }
    forall d, e | 0 <= d < e < |s.electors| && t.electors[d].local.conn.Some?
      ensures t.electors[d].local.conn != t.electors[e].local.conn
    {
      DistinctStep(s, a, d, e);
    }
  }

  lemma OwnershipMoves(s: State, a: Action)
    requires Inv(s)
    ensures var t := Apply(s, a);
      && t.owners == s.owners + [t.owner]
      && (t.owner.Some? && t.owner != s.owner ==> t.owner.value in s.alive && t.owner.value < s.nextSession)
      && (s.owner.Some? && t.owner != s.owner ==> s.owner.value !in t.alive)
      && (forall i :: i in t.alive ==> i in s.alive || i >= s.nextSession)
      && s.nextSession <= t.nextSession
  {
    hide ElectorInv, TenureInv, HeldDuring;
  }

  lemma TenureStep(s: State, a: Action)
    requires Inv(s)
    ensures TenureInv(Apply(s, a))
  {
    hide ElectorInv, HeldDuring, Apply;
    var t := Apply(s, a);
    OwnershipMoves(s, a);
    var last := |s.owners|;
    forall k | 0 <= k < |t.owners| && t.owners[k].Some?
      ensures t.owners[k].value < t.nextSession && (t.owners[k] == t.owner || t.owners[k].value !in t.alive)
    {
      if k < last {
        assert t.owners[k] == s.owners[k];
      }
    }
    forall j, k, m | 0 <= j < k < m < |t.owners| && t.owners[j].Some? && t.owners[j] == t.owners[m]
      ensures t.owners[k] == t.owners[j]
    {
      assert t.owners[j] == s.owners[j] && t.owners[k] == s.owners[k];
      if m == last && k < last - 1 {
        assert s.owners[j] == s.owners[last - 1] ==> s.owners[k] == s.owners[j];
      }
    }
  }

  lemma WinsStep(s: State, a: Action)
    requires Inv(s)
    ensures forall w :: 0 <= w < |Apply(s, a).wins| ==> HeldDuring(Apply(s, a), Apply(s, a).wins[w])
  {
    hide TenureInv, ServerInv;
    var t := Apply(s, a);
    forall w | 0 <= w < |t.wins| ensures HeldDuring(t, t.wins[w]) {
      if w < |s.wins| {
        assert HeldDuring(s, s.wins[w]);
        var k :| s.wins[w].begun <= k <= s.wins[w].ended && k < |s.owners| && s.owners[k] == Some(s.wins[w].session);
        assert t.owners[k] == s.owners[k];
      } else {
        assert ElectorInv(s, s.electors[a.e]);
        var k := s.replies[t.wins[w].session].at;
        assert t.owners[k] == s.owners[k];
      }
    }
  }

  lemma StepKeepsInv(s: State, a: Action)
    requires Inv(s)
    ensures Inv(Apply(s, a))
  {
    ServerStep(s, a);
    ElectorsStep(s, a);
    TenureStep(s, a);
    WinsStep(s, a);
  }

  lemma {:induction false} ExecKeepsInv(s: State, actions: seq<Action>)
    requires Inv(s)
    ensures Inv(Exec(s, actions))
    decreases |actions|
  {
    if actions != [] {
      StepKeepsInv(s, actions[0]);
      ExecKeepsInv(Apply(s, actions[0]), actions[1..]);
    }
  }

  /** Every `true` was earned: at some step of that very call the lock was the elector's session's. */
  lemma EveryWinHeldTheLock(n: nat, actions: seq<Action>, w: nat)
    requires w < |Exec(Init(n), actions).wins|
    ensures var s := Exec(Init(n), actions);
            exists k ::
              s.wins[w].begun <= k <= s.wins[w].ended && k < |s.owners| && s.owners[k] == Some(s.wins[w].session)
  {
    InitInv(n);
    ExecKeepsInv(Init(n), actions);
    assert HeldDuring(Exec(Init(n), actions), Exec(Init(n), actions).wins[w]);
  }

  /** The lock is never taken twice over by its holder, so one dying session always frees it. */
  lemma LockDepthIsAtMostOne(n: nat, actions: seq<Action>)
    ensures Exec(Init(n), actions).depth <= 1
  {
    InitInv(n);
    ExecKeepsInv(Init(n), actions);
  }

  /** Once another session owned the lock, no call begun since then wins on the old session. */
  lemma OldSessionNeverWinsAgain(n: nat, actions: seq<Action>, w: nat, lost: nat)
    requires var s := Exec(Init(n), actions);
      && w < |s.wins| && lost < |s.owners|
      && s.owners[lost].Some? && s.owners[lost] != Some(s.wins[w].session)
      && (exists j :: 0 <= j < lost && s.owners[j] == Some(s.wins[w].session))
    ensures Exec(Init(n), actions).wins[w].begun < lost
  {
    var s := Exec(Init(n), actions);
    InitInv(n);
    ExecKeepsInv(Init(n), actions);
    hide Exec, Init, ElectorsInv, ServerInv, TenureInv;
    var j :| 0 <= j < lost && s.owners[j] == Some(s.wins[w].session);
    assert HeldDuring(s, s.wins[w]);
    var k :| s.wins[w].begun <= k <= s.wins[w].ended && k < |s.owners| && s.owners[k] == Some(s.wins[w].session);
    if lost < k {
      TenureIsAnInterval(s, j, lost, k);
    }
  }

  lemma TenureIsAnInterval(s: State, j: int, k: int, m: int)
    requires TenureInv(s) && 0 <= j < k < m < |s.owners| && s.owners[j].Some? && s.owners[j] == s.owners[m]
    ensures s.owners[k] == s.owners[j]
  {
  }

  /**
   When a call returns `true`, the lock is its session's at that step if and only if the session is
   still alive: a stale `true` needs a session that died while its reply was on the way.
   */
  lemma TrueIsStaleIffSessionDied(n: nat, actions: seq<Action>, e: nat)
    requires |Apply(Exec(Init(n), actions), Receive(e)).wins| > |Exec(Init(n), actions).wins|
    ensures var s := Exec(Init(n), actions);
      var t := Apply(s, Receive(e));
      var w := t.wins[|s.wins|];
      && |t.wins| == |s.wins| + 1 && w.elector == e && w.ended == |s.owners| < |t.owners|
      && (t.owners[w.ended] == Some(w.session) <==> w.session in s.alive)
  {
    var s := Exec(Init(n), actions);
    InitInv(n);
    ExecKeepsInv(Init(n), actions);
    assert ElectorInv(s, s.electors[e]);
  }

  lemma {:induction false} ExecAppend(s: State, a: seq<Action>, b: seq<Action>)
    ensures Exec(s, a + b) == Exec(Exec(s, a), b)
    decreases |a|
  {
    if a == [] {
      assert a + b == b;
    } else {
      assert (a + b)[1..] == a[1..] + b;
      ExecAppend(Apply(s, a[0]), a[1..], b);
    }
  }

  lemma ExecFour(s: State, a: Action, b: Action, c: Action, d: Action)
    ensures Exec(s, [a, b, c, d]) == Apply(Apply(Apply(Apply(s, a), b), c), d)
  {
    hide Apply;
    assert [a, b, c, d][1..] == [b, c, d] && [b, c, d][1..] == [c, d] && [c, d][1..] == [d] && [d][1..] == [];
    assert Exec(Apply(s, a), [b, c, d]) == Exec(Apply(Apply(s, a), b), [c, d]);
    assert Exec(Apply(Apply(Apply(s, a), b), c), [d]) == Apply(Apply(Apply(Apply(s, a), b), c), d);
  }

  /**
   The bound cannot be tightened to calls still under way: a liveness reply already in the pipe
   lets elector 0 return `true` after its session died and elector 1 took the lock.
   */
  lemma InFlightReplyOutlivesTheLock() returns (actions: seq<Action>)
    ensures var s := Exec(Init(2), actions);
            && |s.wins| == 3 && s.wins[1].session == 1 && s.wins[2].session == 0
            && s.wins[1].ended < s.wins[2].ended < |s.owners| && s.owners[s.wins[2].ended] == Some(1)
  {
    var acquire0 := [Begin(0), ConnectOk(0), Serve(0), Receive(0)];
    var pingThenDie := [Begin(0), Serve(0), Die(0), Begin(1)];
    var acquire1 := [ConnectOk(1), Serve(1), Receive(1), Receive(0)];
    actions := acquire0 + pingThenDie + acquire1;
    ExecAppend(Init(2), acquire0 + pingThenDie, acquire1);
    ExecAppend(Init(2), acquire0, pingThenDie);
    var s4, s8 := AfterFirstWin(), AfterFirstDeath();
    FirstWin();
    FirstDeath();
    SecondWinThenStaleReply();
  }

  const Leader0 := Elector(Local(Some(0), true), Resting)

  function AfterFirstWin(): State {
    State([Leader0, Elector(Dropped, Resting)], {0}, 1, Some(0), 1, map[], map[],
          [None, None, None, Some(0), Some(0)], [Win(0, 0, 0, 4)])
  }

  function AfterFirstDeath(): State {
    State([Leader0.(phase := Waiting(Ping, 4)), Elector(Dropped, Connecting(7))], {}, 1, None, 0, map[],
          map[0 := Reply(true, 6)],
          [None, None, None, Some(0), Some(0), Some(0), Some(0), None, None], [Win(0, 0, 0, 4)])
  }

  lemma FirstWin()
    ensures Exec(Init(2), [Begin(0), ConnectOk(0), Serve(0), Receive(0)]) == AfterFirstWin()
  {
    ExecFour(Init(2), Begin(0), ConnectOk(0), Serve(0), Receive(0));
  }

  lemma FirstDeath()
    ensures Exec(AfterFirstWin(), [Begin(0), Serve(0), Die(0), Begin(1)]) == AfterFirstDeath()
  {
    ExecFour(AfterFirstWin(), Begin(0), Serve(0), Die(0), Begin(1));
  }

  lemma SecondWinThenStaleReply()
    ensures var s := Exec(AfterFirstDeath(), [ConnectOk(1), Serve(1), Receive(1), Receive(0)]);
            && s.wins == [Win(0, 0, 0, 4), Win(1, 1, 7, 11), Win(0, 0, 4, 12)]
            && |s.owners| == 13 && s.owners[12] == Some(1)
  {
    ExecFour(AfterFirstDeath(), ConnectOk(1), Serve(1), Receive(1), Receive(0));
  }

  // ---- A call that nothing interrupts does what IsLeader promises ----

  lemma CallUninterrupted(s: State, e: nat, i: Session)
    requires e < |s.electors| && s.electors[e].phase.Resting? && s.electors[e].local.conn == Some(i) && i in s.alive
    ensures var t := Apply(Apply(Apply(s, Begin(e)), Serve(i)), Receive(e));
      var l := s.electors[e].local;
      var granted := s.owner == None || s.owner == Some(i);
      && t.electors[e] == Elector(l.(holds := l.holds || granted), Resting)
      && |t.wins| == |s.wins| + (if t.electors[e].local.holds then 1 else 0)
  {
  }

  /** Whenever a request is under way, giving up on it leaves the elector without a connection. */
  lemma TimedOutCall(s: State, e: nat)
    requires e < |s.electors| && s.electors[e].phase.Waiting?
    ensures var t := Apply(s, GiveUp(e)); t.electors[e] == Elector(Dropped, Resting) && t.wins == s.wins
  {
  }
}
