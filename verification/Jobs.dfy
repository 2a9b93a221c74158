/**
 Cron firing with a compare-and-set marker (crates/ruscker-admin/src/jobs.rs).

 Any number of schedulers, each with a clock of its own, list the schedules and try
 to claim the ones that are due. A claim only wins against the marker it listed.
 */
module Jobs {
  import opened Wrappers

  /**
   A parsed cron expression as the scheduler sees it: `next(t)` is the least occurrence
   strictly after `t`. An unparseable expression has no occurrence and no next one.
   */
  datatype Cron = Cron(occurs: int -> bool, next: int -> Option<int>)

  ghost predicate LeastAfter(c: Cron, after: int) {
    match c.next(after)
    case None => forall t :: t > after ==> !c.occurs(t)
    case Some(n) => n > after && c.occurs(n) && forall t :: after < t < n ==> !c.occurs(t)
  }

  ghost predicate Lawful(c: Cron) {
    forall after :: LeastAfter(c, after)
  }

  datatype Schedule = Schedule(id: nat, enabled: bool, cron: Cron, lastRunAt: Option<int>, createdAt: int)

  function Anchor(lastRunAt: Option<int>, createdAt: int): int {
    if lastRunAt.Some? then lastRunAt.value else createdAt
  }

  function IsDue(c: Cron, lastRunAt: Option<int>, createdAt: int, now: int): bool {
    match c.next(Anchor(lastRunAt, createdAt))
    case Some(next) => next <= now
    case None => false
  }

  /** The two tests a listed schedule must pass before its claim is attempted. */
  function Claims(c: Cron, lastRunAt: Option<int>, createdAt: int, now: int): bool {
    c.next(now).Some? && IsDue(c, lastRunAt, createdAt, now)
  }

  /** `Claims` without `next`: something to fire in the window, and something left to wait for. */
  lemma ClaimsIffOccurrencePending(c: Cron, lastRunAt: Option<int>, createdAt: int, now: int)
    requires Lawful(c)
    ensures Claims(c, lastRunAt, createdAt, now) <==>
      && (exists t :: Anchor(lastRunAt, createdAt) < t <= now && c.occurs(t))
      && (exists t :: t > now && c.occurs(t))
  {
    assert LeastAfter(c, Anchor(lastRunAt, createdAt)) && LeastAfter(c, now);
  }

  /** The `schedules` table, reduced to its fire markers. */
  class ScheduleTable {
    var lastRun: map<nat, Option<int>>

    constructor (lastRun: map<nat, Option<int>>)
      ensures this.lastRun == lastRun
    {
      this.lastRun := lastRun;
    }

    method MarkFired(id: nat, previous: Option<int>, now: int) returns (won: bool)
      modifies this
      ensures won <==> id in old(lastRun) && old(lastRun)[id] == previous
      ensures won ==> lastRun == old(lastRun)[id := Some(now)]
      ensures !won ==> lastRun == old(lastRun)
    {
      won := id in lastRun && lastRun[id] == previous;
      if won {
        lastRun := lastRun[id := Some(now)];
      }
    }

    /** One pass of one scheduler over a list it read earlier, which may be stale by now. */
    method Tick(schedules: seq<Schedule>, now: int) returns (fired: set<nat>)
      requires forall i, j :: 0 <= i < j < |schedules| ==> schedules[i].id != schedules[j].id
      modifies this
      ensures forall i :: 0 <= i < |schedules| ==> var s := schedules[i];
        s.id in fired <==>
          && s.enabled && Claims(s.cron, s.lastRunAt, s.createdAt, now)
          && s.id in old(lastRun) && old(lastRun)[s.id] == s.lastRunAt
      ensures fired <= old(lastRun).Keys
      ensures lastRun == map id | id in old(lastRun) :: if id in fired then Some(now) else old(lastRun)[id]
    {
      fired := {};
      for i := 0 to |schedules|
        invariant forall j :: 0 <= j < i ==> var s := schedules[j];
          s.id in fired <==>
            && s.enabled && Claims(s.cron, s.lastRunAt, s.createdAt, now)
            && s.id in old(lastRun) && old(lastRun)[s.id] == s.lastRunAt
        invariant forall j :: i <= j < |schedules| ==> schedules[j].id !in fired
        invariant fired <= old(lastRun).Keys
        invariant lastRun == map id | id in old(lastRun) :: if id in fired then Some(now) else old(lastRun)[id]
      {
        var s := schedules[i];
        if !s.enabled || s.cron.next(now).None? {
          continue;
        }
        if !IsDue(s.cron, s.lastRunAt, s.createdAt, now) {
          continue;
        }
        var won := MarkFired(s.id, s.lastRunAt, now);
        if won {
          fired := fired + {s.id};
        }
      }
    }
  }

  // ---- Competing schedulers, one schedule ----

  /** The half-open interval `(after, upTo]` a fire accounts for. */
  datatype Window = Window(after: int, upTo: int)

  predicate Covers(w: Window, t: int) {
    w.after < t <= w.upTo
  }

  /** `listed[i]` is the marker scheduler `i` last read. `fires` is the ledger of won claims. */
  datatype State = State(marker: Option<int>, listed: map<nat, Option<int>>, fires: seq<Window>)

  datatype Action =
    | List(scheduler: nat)
    | TryClaim(scheduler: nat, clock: int)

  function Init(): State {
    State(None, map[], [])
  }

  function Apply(c: Cron, createdAt: int, s: State, a: Action): State {
    match a
    case List(i) => s.(listed := s.listed[i := s.marker])
    case TryClaim(i, now) =>
      if i in s.listed && Claims(c, s.listed[i], createdAt, now) && s.marker == s.listed[i]
      then s.(marker := Some(now), fires := s.fires + [Window(Anchor(s.listed[i], createdAt), now)])
      else s
  }

  function Exec(c: Cron, createdAt: int, s: State, actions: seq<Action>): State
    decreases |actions|
  {
    if actions == [] then s else Exec(c, createdAt, Apply(c, createdAt, s, actions[0]), actions[1..])
  }

  /** Fire windows follow one another without gap from creation up to the marker, and none is idle. */
  ghost predicate Tiled(c: Cron, createdAt: int, s: State) {
    && (s.fires == [] ==> s.marker == None)
    && (s.fires != [] ==> s.fires[0].after == createdAt && s.marker == Some(s.fires[|s.fires| - 1].upTo))
    && (forall i, j :: 0 <= i && j == i + 1 < |s.fires| ==> s.fires[i].upTo == s.fires[j].after)
    && (forall i :: 0 <= i < |s.fires| ==>
          s.fires[i].after < s.fires[i].upTo && exists t :: Covers(s.fires[i], t) && c.occurs(t))
  }

  lemma ApplyKeepsTiling(c: Cron, createdAt: int, s: State, a: Action)
    requires Lawful(c) && Tiled(c, createdAt, s)
    ensures Tiled(c, createdAt, Apply(c, createdAt, s, a))
  {
    if a.TryClaim? && a.scheduler in s.listed && Claims(c, s.listed[a.scheduler], createdAt, a.clock) {
      var anchor := Anchor(s.listed[a.scheduler], createdAt);
      assert LeastAfter(c, anchor);
      assert Covers(Window(anchor, a.clock), c.next(anchor).value);
    }
  }

  lemma {:induction false} ExecKeepsTiling(c: Cron, createdAt: int, s: State, actions: seq<Action>)
    requires Lawful(c) && Tiled(c, createdAt, s)
    ensures Tiled(c, createdAt, Exec(c, createdAt, s, actions))
    decreases |actions|
  {
    if actions != [] {
      ApplyKeepsTiling(c, createdAt, s, actions[0]);
      ExecKeepsTiling(c, createdAt, Apply(c, createdAt, s, actions[0]), actions[1..]);
    }
  }

  /** Whatever the schedulers and their clocks do, the fires tile time from creation to the marker. */
  lemma FireWindowsTile(c: Cron, createdAt: int, actions: seq<Action>)
    requires Lawful(c)
    ensures Tiled(c, createdAt, Exec(c, createdAt, Init(), actions))
  {
    ExecKeepsTiling(c, createdAt, Init(), actions);
  }

  lemma {:induction false} WindowsAreOrdered(c: Cron, createdAt: int, s: State, i: nat, j: nat)
    requires Tiled(c, createdAt, s) && i < j < |s.fires|
    ensures s.fires[i].upTo <= s.fires[j].after
    decreases j
  {
    if i + 1 < j {
      WindowsAreOrdered(c, createdAt, s, i, j - 1);
    }
    assert s.fires[j - 1].upTo == s.fires[j].after;
  }

  lemma {:induction false} FindWindow(c: Cron, createdAt: int, s: State, t: int, n: nat) returns (k: nat)
    requires Tiled(c, createdAt, s) && 0 < n <= |s.fires|
    requires createdAt < t <= s.fires[n - 1].upTo
    ensures k < n && Covers(s.fires[k], t)
    decreases n
  {
    if t > s.fires[n - 1].after {
      k := n - 1;
    } else {
      assert n > 1 ==> s.fires[n - 2].upTo == s.fires[n - 1].after;
      k := FindWindow(c, createdAt, s, t, n - 1);
    }
  }

  /**
   Exactly once: an instant after creation falls in one fire window when it is not later than
   the marker, in none when it is, and never in two. Missed occurrences share a window.
   */
  lemma EveryOccurrenceFiresOnce(c: Cron, createdAt: int, actions: seq<Action>, t: int)
    requires Lawful(c) && createdAt < t
    ensures var s := Exec(c, createdAt, Init(), actions);
      && ((exists k :: 0 <= k < |s.fires| && Covers(s.fires[k], t)) <==> s.marker.Some? && t <= s.marker.value)
      && forall i, j :: 0 <= i < j < |s.fires| ==> !(Covers(s.fires[i], t) && Covers(s.fires[j], t))
  {
    var s := Exec(c, createdAt, Init(), actions);
    FireWindowsTile(c, createdAt, actions);
    forall i, j | 0 <= i < j < |s.fires| ensures s.fires[i].upTo <= s.fires[j].after {
      WindowsAreOrdered(c, createdAt, s, i, j);
    }
    if s.marker.Some? && t <= s.marker.value {
      var k := FindWindow(c, createdAt, s, t, |s.fires|);
    }
  }

  /** Of two schedulers that listed the same marker, only the first to claim can win. */
  lemma SecondClaimLoses(c: Cron, createdAt: int, s: State, i: nat, j: nat, clockI: int, clockJ: int)
    requires Lawful(c) && Tiled(c, createdAt, s)
    requires i in s.listed && j in s.listed && s.listed[i] == s.listed[j]
    requires Apply(c, createdAt, s, TryClaim(i, clockI)) != s
    ensures var t := Apply(c, createdAt, s, TryClaim(i, clockI));
            Apply(c, createdAt, t, TryClaim(j, clockJ)) == t
  {
    assert LeastAfter(c, Anchor(s.listed[i], createdAt));
  }

  /** A list followed at once by a claim fires exactly when an occurrence is pending and another lies ahead. */
  lemma UncontendedClaimFires(c: Cron, createdAt: int, s: State, i: nat, now: int)
    requires Lawful(c) && Tiled(c, createdAt, s)
    ensures var t := Exec(c, createdAt, s, [List(i), TryClaim(i, now)]);
      |t.fires| == |s.fires| + 1 <==>
        && (exists u :: Anchor(s.marker, createdAt) < u <= now && c.occurs(u))
        && (exists u :: u > now && c.occurs(u))
  {
    ClaimsIffOccurrencePending(c, s.marker, createdAt, now);
    var listed := Apply(c, createdAt, s, List(i));
    assert Exec(c, createdAt, s, [List(i), TryClaim(i, now)])
        == Exec(c, createdAt, listed, [TryClaim(i, now)])
        == Apply(c, createdAt, listed, TryClaim(i, now));
  }

  // ---- The last occurrence ----

  ghost predicate OccursAfter(c: Cron, t: int) {
    exists u :: u > t && c.occurs(u)
  }

  ghost predicate Fires(s: State, t: int) {
    exists k :: 0 <= k < |s.fires| && Covers(s.fires[k], t)
  }

  /** Every fire leaves an occurrence ahead of it. */
  ghost predicate LeavesMore(c: Cron, s: State) {
    forall k :: 0 <= k < |s.fires| ==> OccursAfter(c, s.fires[k].upTo)
  }

  lemma ClaimLeavesMore(c: Cron, createdAt: int, s: State, a: Action)
    requires Lawful(c) && LeavesMore(c, s)
    ensures LeavesMore(c, Apply(c, createdAt, s, a))
  {
    var t := Apply(c, createdAt, s, a);
    assert a.TryClaim? ==> LeastAfter(c, a.clock);
    forall k | 0 <= k < |t.fires|
      ensures OccursAfter(c, t.fires[k].upTo)
    {
      if k < |s.fires| {
        assert t.fires[k] == s.fires[k];
      } else {
        assert c.occurs(c.next(a.clock).value);
      }
    }
  }

  lemma {:induction false} RunsLeaveMore(c: Cron, createdAt: int, s: State, actions: seq<Action>)
    requires Lawful(c) && LeavesMore(c, s)
    ensures LeavesMore(c, Exec(c, createdAt, s, actions))
    decreases |actions|
  {
    if actions != [] {
      ClaimLeavesMore(c, createdAt, s, actions[0]);
      RunsLeaveMore(c, createdAt, Apply(c, createdAt, s, actions[0]), actions[1..]);
    }
  }

  /**
   An occurrence after creation can fire, in some run with some clocks, if and only if another one
   follows it: the last occurrence of a schedule never does.
   */
  lemma OccurrenceCanFireIff(c: Cron, createdAt: int, t: int)
    requires Lawful(c) && createdAt < t && c.occurs(t)
    ensures (exists actions :: Fires(Exec(c, createdAt, Init(), actions), t)) <==> OccursAfter(c, t)
  {
    if OccursAfter(c, t) {
      UncontendedClaimFires(c, createdAt, Init(), 0, t);
      var s := Exec(c, createdAt, Init(), [List(0), TryClaim(0, t)]);
      EveryOccurrenceFiresOnce(c, createdAt, [List(0), TryClaim(0, t)], t);
      FiredMarker(c, createdAt, t);
      assert Fires(s, t);
    }
    forall actions | Fires(Exec(c, createdAt, Init(), actions), t)
      ensures OccursAfter(c, t)
    {
      RunsLeaveMore(c, createdAt, Init(), actions);
    }
  }

  /** The marker of a schedule whose first claim, at `now`, won. */
  lemma FiredMarker(c: Cron, createdAt: int, now: int)
    requires |Exec(c, createdAt, Init(), [List(0), TryClaim(0, now)]).fires| == 1
    ensures Exec(c, createdAt, Init(), [List(0), TryClaim(0, now)]).marker == Some(now)
  {
    var listed := Apply(c, createdAt, Init(), List(0));
    assert Exec(c, createdAt, Init(), [List(0), TryClaim(0, now)])
        == Exec(c, createdAt, listed, [TryClaim(0, now)])
        == Apply(c, createdAt, listed, TryClaim(0, now));
  }

  /** A schedule that names two instants and no more. */
  const TWICE := Cron(t => t == 10 || t == 20, t => if t < 10 then Some(10) else if t < 20 then Some(20) else None)

  /**
   Created at 0, this schedule fires for 10 at any clock before 20; from 20 on no claim by any
   scheduler is even attempted, and in no run does 20 fire.
   */
  lemma LastOccurrenceIsLost(actions: seq<Action>, lastRunAt: Option<int>, now: int)
    ensures Lawful(TWICE)
    ensures 10 <= now < 20 ==> Claims(TWICE, None, 0, now)
    ensures now >= 20 ==> !Claims(TWICE, lastRunAt, 0, now)
    ensures !Fires(Exec(TWICE, 0, Init(), actions), 20)
  {
    OccurrenceCanFireIff(TWICE, 0, 20);
  }
}
