/**
 The liveness reconciler (crates/ruscker-admin/src/scaler.rs): what one pass does to every replica
 given the backend's report, and what runs of passes guarantee.
 */
module Liveness {
  import opened Wrappers
  import opened Registries
  import opened ScalingRules

  datatype Observed = Running | Stopped | Missing | Unknown

  /** A labelled container; `finishedAt` is set when Docker knows when it exited. */
  datatype Container = Container(id: string, running: bool, finishedAt: Option<int>)

  datatype Report = Report(observations: map<ReplicaId, Observed>, running: map<ReplicaId, Replica>,
                           managed: seq<Container>)

  // ---- The fate of one replica in one pass ----

  /** What a pass learns about one replica. */
  datatype Heard = Runs(as_: Replica, ready: bool) | Stops | Gone | Nothing

  /** A positive Running observation wins over the classification; no observation means Unknown. */
  function HeardOf(report: Report, answering: set<ReplicaId>, id: ReplicaId): Heard {
    if id in report.running then Runs(report.running[id], id in answering)
    else if id !in report.observations then Nothing
    else match report.observations[id]
      case Stopped => Stops
      case Missing => Gone
      case _ => Nothing
  }

  /** A container taken back into service: Ready, with no sessions and its spec's seats. */
  function Adopted(r: Replica, spec: Spec): Replica {
    r.(state := ReplicaState.Ready, sessionsActive := 0, sessionsMax := spec.seats)
  }

  predicate StoppedForGood(r: Replica, now: int) {
    r.state.Stopped? && now - r.startedAt >= RESTART_GRACE_MS
  }

  /** What the pass leaves under the id of a registered replica of `spec`. */
  function Fate(r: Replica, spec: Spec, heard: Heard, now: int): Option<Replica> {
    match heard
    case Nothing => Some(r)
    case Gone => None
    case Stops =>
      if !r.state.Stopped? then Some(Restarting(r, now))
      else if StoppedForGood(r, now) then None
      else Some(r)
    case Runs(d, ready) =>
      if r.state.Ready? || (!r.state.Stopped? && !spec.Managed()) then Some(r)
      else if ready then Some(Adopted(d, spec))
      else None
  }

  // ---- Runs of passes, for one replica ----

  datatype Pass = Pass(now: int, heard: Heard)

  /** What is registered under the replica's id after the passes; nothing brings back what has left. */
  function After(r: Option<Replica>, spec: Spec, passes: seq<Pass>): Option<Replica>
    decreases |passes|
  {
    if passes == [] || r.None? then r
    else After(Fate(r.value, spec, passes[0].heard, passes[0].now), spec, passes[1..])
  }

  /** A pass removes a registered replica exactly for one of the three reasons. */
  lemma LeavesIff(r: Replica, spec: Spec, p: Pass)
    ensures Fate(r, spec, p.heard, p.now).None? <==> TakesOut(r, spec, p)
  {
  }

  /** The three reasons. */
  predicate TakesOut(r: Replica, spec: Spec, p: Pass) {
    || p.heard.Gone?
    || (p.heard.Stops? && r.state.Stopped? && p.now - r.startedAt >= RESTART_GRACE_MS)
    || (p.heard.Runs? && !p.heard.ready && (r.state.Stopped? || (spec.Managed() && !r.state.Ready?)))
  }

  /** Over a whole run, a replica is gone exactly if some pass found it there and had a reason to take it out. */
  lemma {:induction false} GoneIff(r: Replica, spec: Spec, passes: seq<Pass>)
    ensures After(Some(r), spec, passes).None? <==>
            exists n: nat ::
              n < |passes| && At(r, spec, passes, n).Some? && TakesOut(At(r, spec, passes, n).value, spec, passes[n])
    decreases |passes|
  {
    hide Fate, TakesOut;
    if passes != [] {
      var n := |passes| - 1;
      var before := passes[..n];
      GoneIff(r, spec, before);
      forall k: nat | k < n
        ensures At(r, spec, passes, k) == At(r, spec, before, k) && passes[k] == before[k]
      {
        assert passes[..k] == before[..k];
      }
      AtStep(r, spec, passes, n);
      assert passes[..n + 1] == passes;
      assert At(r, spec, passes, n) == After(Some(r), spec, before);
      if At(r, spec, passes, n).Some? {
        LeavesIff(At(r, spec, passes, n).value, spec, passes[n]);
      }
      hide After;
    }
  }

  /** Passes that learn nothing change nothing. */
  lemma {:induction false} UnknownChangesNothing(r: Replica, spec: Spec, passes: seq<Pass>)
    requires forall p :: p in passes ==> p.heard.Nothing?
    ensures After(Some(r), spec, passes) == Some(r)
    decreases |passes|
  {
    if passes != [] {
      assert passes[0] in passes && forall p :: p in passes[1..] ==> p in passes;
      UnknownChangesNothing(r, spec, passes[1..]);
    }
  }

  /** Passes that see the replica stopped, or nothing, and end before the grace does. */
  predicate StoppedWithinGrace(passes: seq<Pass>, since: int) {
    forall p :: p in passes ==> (p.heard.Stops? || p.heard.Nothing?) && p.now < since + RESTART_GRACE_MS
  }

  /** A stopped replica keeps its slot, and the time its stop was noticed, throughout the grace. */
  lemma {:induction false} SlotIsHeld(r: Replica, spec: Spec, passes: seq<Pass>)
    requires r.state.Stopped? && StoppedWithinGrace(passes, r.startedAt)
    ensures After(Some(r), spec, passes) == Some(r)
    decreases |passes|
  {
    if passes != [] {
      assert passes[0] in passes && forall p :: p in passes[1..] ==> p in passes;
      SlotIsHeld(r, spec, passes[1..]);
    }
  }

  lemma {:induction false} AfterAppend(r: Option<Replica>, spec: Spec, passes: seq<Pass>, more: seq<Pass>)
    ensures After(r, spec, passes + more) == After(After(r, spec, passes), spec, more)
    decreases |passes|
  {
    if passes == [] {
      assert passes + more == more;
    } else if r.Some? {
      AfterAppend(Fate(r.value, spec, passes[0].heard, passes[0].now), spec, passes[1..], more);
      assert (passes + more)[1..] == passes[1..] + more;
    }
  }

  /**
   A restart within the grace: whatever number of passes see the replica stopped in between, the
   first pass that sees it running and answering leaves it Ready, in its slot, with the reported
   container. Its seats start from zero.
   */
  lemma RestartWithinGraceEndsReady(r: Replica, spec: Spec, t0: int, between: seq<Pass>, back: int, d: Replica)
    requires r.state.Ready? && d.id == r.id && d.spec == r.spec && StoppedWithinGrace(between, t0)
    ensures var passes := [Pass(t0, Stops)] + between + [Pass(back, Runs(d, true))];
      var end := After(Some(r), spec, passes);
      && end.Some? && end.value.state.Ready? && end.value.id == r.id && end.value.spec == r.spec
      && end.value.container == d.container && end.value.sessionsActive == 0 && end.value.sessionsMax == spec.seats
  {
    var stop, run := Pass(t0, Stops), Pass(back, Runs(d, true));
    var held := Restarting(r, t0);
    assert [stop] + between + [run] == [stop] + (between + [run]);
    AfterAppend(Some(r), spec, [stop], between + [run]);
    assert After(Some(r), spec, [stop]) == After(Some(held), spec, []);
    SlotIsHeld(held, spec, between);
    AfterAppend(Some(held), spec, between, [run]);
    assert After(Some(held), spec, [run]) == After(Fate(held, spec, Runs(d, true), back), spec, []);
  }

  /** The passes from `k` on never adopted the replica and never saw it gone. */
  predicate StayedStopped(passes: seq<Pass>, k: nat, to: nat)
    requires k <= to <= |passes|
  {
    forall m :: k < m < to ==> passes[m].heard.Stops? || passes[m].heard.Nothing?
  }

  /** State of the replica before pass `n`. */
  function At(r: Replica, spec: Spec, passes: seq<Pass>, n: nat): Option<Replica>
    requires n <= |passes|
  {
    After(Some(r), spec, passes[..n])
  }

  lemma AtStep(r: Replica, spec: Spec, passes: seq<Pass>, n: nat)
    requires n < |passes|
    ensures At(r, spec, passes, n + 1) ==
            if At(r, spec, passes, n).None? then None
            else Fate(At(r, spec, passes, n).value, spec, passes[n].heard, passes[n].now)
  {
    assert passes[..n + 1] == passes[..n] + [passes[n]];
    AfterAppend(Some(r), spec, passes[..n], [passes[n]]);
    var here := At(r, spec, passes, n);
    if here.Some? {
      assert After(here, spec, [passes[n]]) == After(Fate(here.value, spec, passes[n].heard, passes[n].now), spec, []);
    }
  }

  /** A replica found stopped was marked by a pass that saw it stop, and no pass has seen it running since. */
  lemma {:induction false} StoppedWasSeenToStop(r: Replica, spec: Spec, passes: seq<Pass>, n: nat) returns (k: nat)
    requires n <= |passes| && !r.state.Stopped?
    requires At(r, spec, passes, n).Some? && At(r, spec, passes, n).value.state.Stopped?
    ensures k < n && passes[k].heard.Stops? && StayedStopped(passes, k, n)
    ensures At(r, spec, passes, n).value.startedAt == passes[k].now
    decreases n
  {
    hide After;
    if n == 0 {
      StartsAsGiven(r, spec, passes);
      assert false;
    }
    AtStep(r, spec, passes, n - 1);
    var before := At(r, spec, passes, n - 1).value;
    if before.state.Stopped? {
      k := StoppedWasSeenToStop(r, spec, passes, n - 1);
    } else {
      k := n - 1;
    }
  }

  lemma StartsAsGiven(r: Replica, spec: Spec, passes: seq<Pass>)
    ensures At(r, spec, passes, 0) == Some(r)
  {
  }

  /**
   A replica pruned because its restart timed out was seen stopping by an earlier pass at least
   thirty seconds before, and no pass in between saw it running.
   */
  lemma TimeoutMeansLongStopped(r: Replica, spec: Spec, passes: seq<Pass>, n: nat) returns (k: nat)
    requires n < |passes| && !r.state.Stopped? && passes[n].heard.Stops?
    requires At(r, spec, passes, n).Some? && At(r, spec, passes, n + 1).None?
    ensures k < n && passes[k].heard.Stops? && passes[n].now - passes[k].now >= RESTART_GRACE_MS
    ensures StayedStopped(passes, k, n)
  {
    AtStep(r, spec, passes, n);
    k := StoppedWasSeenToStop(r, spec, passes, n);
  }
}
