/**
 Spawning, re-adopting and cold-starting replicas of one spec while any number of tasks interleave
 (`spawn_one` and `readopt_running_replica` in crates/ruscker-admin/src/scaler.rs, `pick_or_spawn`
 in crates/ruscker-admin/src/routes/proxy.rs). The per-spec mutex is held across every await of a
 critical section; prunes, restart marks and seat changes do not take it.
 */
module SpawnProtocol {
  import opened Wrappers
  import opened Registries
  import opened Scaler

  datatype Config = Config(max: nat, seats: nat, api: bool)

  /** What a task is for: `Ensure` and `Add` are the two spawn intents, `Pick` a proxied first request. */
  datatype Job = Ensure | Add | Pick | Adopt(d: Replica)

  datatype End = Coalesced | Full | Spawned | SpawnFailed | Picked | Kept | Excess | Adopted | Dropped

  datatype Task =
    | Queued(job: Job)
    | Entered(job: Job)
    | CapCheck(job: Job)
    | Spawning(job: Job)
    | Created(job: Job, id: ReplicaId)
    | Probing(d: Replica, same: bool)
    | Done(end: End)

  predicate InCritical(t: Task) {
    !t.Queued? && !t.Done?
  }

  /** The spec's pool, its mutex, the tasks, and how many containers spawns have created. */
  datatype State = State(pool: Replicas, lock: Option<nat>, tasks: map<nat, Task>, nextId: ReplicaId, spawns: nat)

  datatype Action =
    | Start(t: nat, job: Job)
    | Acquire(t: nat)
    | Check(t: nat)
    | SpawnOk(t: nat)
    | SpawnFail(t: nat)
    | AddReplica(t: nat)
    | ProbeOk(t: nat)
    | ProbeFail(t: nat)
    | Prune(id: ReplicaId)
    | MarkStopped(id: ReplicaId, at: int)
    | SetSeats(id: ReplicaId, n: nat)

  predicate At(s: State, t: nat, task: Task) {
    t in s.tasks && s.tasks[t] == task
  }

  /** The task goes on, still holding the mutex. */
  function Goes(s: State, t: nat, to: Task): State {
    s.(tasks := s.tasks[t := to])
  }

  /** The task ends and the mutex is free. */
  function Ends(s: State, t: nat, end: End): State {
    s.(tasks := s.tasks[t := Done(end)], lock := None)
  }

  predicate SomeReady(pool: Replicas) {
    exists r :: r in pool && r.state.Ready?
  }

  /** A replica a pick can use without overload: accepting, or coming up with a free seat. */
  predicate Usable(pool: Replicas) {
    exists r :: r in pool && (r.IsAccepting() || (r.state.Starting? && r.AvailableSeats() > 0))
  }

  /** The checks under the mutex; `Ensure` reads the registry twice, so it has a second check to come. */
  function Checked(cfg: Config, s: State, t: nat): State
    requires t in s.tasks
  {
    match s.tasks[t]
    case Entered(Ensure) => if Available(s.pool) then Ends(s, t, End.Coalesced) else Goes(s, t, CapCheck(Ensure))
    case Entered(Add) => if |s.pool| >= cfg.max then Ends(s, t, Full) else Goes(s, t, Spawning(Add))
    case CapCheck(job) => if |s.pool| >= cfg.max then Ends(s, t, Full) else Goes(s, t, Spawning(job))
    case Entered(Pick) =>
      if Usable(s.pool) || ((cfg.api || |s.pool| >= cfg.max) && SomeReady(s.pool)) then Ends(s, t, Picked)
      else Goes(s, t, Spawning(Pick))
    case Entered(Adopt(d)) =>
      var here := Find(s.pool, d.id);
      if here.Some? && here.value.state.Ready? then Ends(s, t, Kept)
      else if here.None? && |s.pool| >= cfg.max then Ends(s, t, Excess)
      else Goes(s, t, Probing(d, here.Some?))
    case _ => s
  }

  function NewReplica(cfg: Config, id: ReplicaId): Replica {
    Replica(id, "", "", ReplicaState.Ready, 0, 0, cfg.seats)
  }

  /** What a finished spawn adds: a first request keeps the first seat for itself, unless it is an API's. */
  function Added(cfg: Config, job: Job, id: ReplicaId): Replica {
    if job.Pick? && !cfg.api then NewReplica(cfg, id).(sessionsActive := 1) else NewReplica(cfg, id)
  }

  function Back(cfg: Config, d: Replica): Replica {
    d.(state := ReplicaState.Ready, sessionsActive := 0, sessionsMax := cfg.seats)
  }

  /** A step whose guard fails changes nothing. */
  function Apply(cfg: Config, s: State, a: Action): State {
    match a
    case Start(t, job) =>
      if t in s.tasks || (job.Adopt? && job.d.id >= s.nextId) then s else s.(tasks := s.tasks[t := Queued(job)])
    case Acquire(t) =>
      if t in s.tasks && s.tasks[t].Queued? && s.lock.None?
      then s.(tasks := s.tasks[t := Entered(s.tasks[t].job)], lock := Some(t)) else s
    case Check(t) => if t in s.tasks then Checked(cfg, s, t) else s
    case SpawnOk(t) =>
      if t in s.tasks && s.tasks[t].Spawning?
      then Goes(s, t, Created(s.tasks[t].job, s.nextId)).(nextId := s.nextId + 1, spawns := s.spawns + 1) else s
    case SpawnFail(t) => if t in s.tasks && s.tasks[t].Spawning? then Ends(s, t, SpawnFailed) else s
    case AddReplica(t) =>
      if t in s.tasks && s.tasks[t].Created?
      then Ends(s, t, End.Spawned).(pool := s.pool + [Added(cfg, s.tasks[t].job, s.tasks[t].id)]) else s
    case ProbeOk(t) =>
      if t in s.tasks && s.tasks[t].Probing?
      then Ends(s, t, Adopted).(pool := Upsert(s.pool, Back(cfg, s.tasks[t].d))) else s
    case ProbeFail(t) =>
      if t in s.tasks && s.tasks[t].Probing?
      then Ends(s, t, Dropped).(pool := if s.tasks[t].same then Remove(s.pool, s.tasks[t].d.id) else s.pool) else s
    case Prune(id) => s.(pool := Remove(s.pool, id))
    case MarkStopped(id, at) => s.(pool := MarkRestarting(s.pool, id, at))
    case SetSeats(id, n) => s.(pool := SetCount(s.pool, id, n))
  }

  function Exec(cfg: Config, s: State, actions: seq<Action>): State
    decreases |actions|
  {
    if actions == [] then s else Exec(cfg, Apply(cfg, s, actions[0]), actions[1..])
  }

  // ---- The cap ----

  /** What a task relies on: what it checked under the mutex still holds. */
  ghost predicate Relies(cfg: Config, s: State, t: Task) {
    match t
    case Queued(job) => job.Adopt? ==> job.d.id < s.nextId
    case Entered(job) => job.Adopt? ==> job.d.id < s.nextId
    case Spawning(_) => |s.pool| < cfg.max
    case Created(_, id) => |s.pool| < cfg.max && id < s.nextId && Find(s.pool, id).None?
    case Probing(d, _) => d.id < s.nextId && (Find(s.pool, d.id).Some? || |s.pool| < cfg.max)
    case _ => true
  }

  ghost predicate Inv(cfg: Config, s: State) {
    && Issued(s.pool, s.nextId) && |s.pool| <= cfg.max
    && (forall t :: t in s.tasks && InCritical(s.tasks[t]) ==> s.lock == Some(t))
    && (forall t :: t in s.tasks ==> Relies(cfg, s, s.tasks[t]))
  }

  /** No first request meets a full pool with nothing Ready and nothing usable coming up. */
  ghost predicate Steady(cfg: Config, s: State, a: Action) {
    a.Check? && At(s, a.t, Entered(Pick)) && |s.pool| >= cfg.max ==> SomeReady(s.pool) || Usable(s.pool)
  }

  ghost predicate SteadyRun(cfg: Config, s: State, actions: seq<Action>)
    decreases |actions|
  {
    actions != [] ==> Steady(cfg, s, actions[0]) && SteadyRun(cfg, Apply(cfg, s, actions[0]), actions[1..])
  }

  /** The steps that need no mutex only remove replicas or rewrite them in place. */
  ghost predicate PoolOnlyShrinks(before: Replicas, after: Replicas, next: ReplicaId) {
    && Issued(after, next) && |after| <= |before|
    && (forall id :: Find(after, id).Some? ==> Find(before, id).Some?)
    && (forall id :: Find(before, id).Some? && Find(after, id).None? ==> |after| < |before|)
  }

  lemma {:induction false} RemoveShortens(pool: Replicas, id: ReplicaId)
    ensures |Remove(pool, id)| == |pool| - if Find(pool, id).Some? then 1 else 0
  {
    if pool != [] && pool[0].id != id {
      RemoveShortens(pool[1..], id);
    }
  }

  lemma RemoveShrinks(pool: Replicas, id: ReplicaId, next: ReplicaId)
    requires Issued(pool, next)
    ensures PoolOnlyShrinks(pool, Remove(pool, id), next)
  {
    RemoveShortens(pool, id);
    FindAfterRemove(pool, id, id);
    forall other
      ensures Find(Remove(pool, id), other) == if other == id then None else Find(pool, other)
    {
      FindAfterRemove(pool, id, other);
    }
  }

  lemma ModifyShrinks(pool: Replicas, id: ReplicaId, f: Replica -> Replica, next: ReplicaId)
    requires Issued(pool, next) && forall r: Replica :: f(r).id == r.id
    ensures PoolOnlyShrinks(pool, Modify(pool, id, f), next)
  {
    var after := Modify(pool, id, f);
    forall other
      ensures Find(after, other).Some? <==> Find(pool, other).Some?
    {
      FindAfterModify(pool, id, f, other);
    }
    FindAfterModify(pool, id, f, id);
    forall r | r in after
      ensures r.id < next
    {
      var k :| 0 <= k < |after| && after[k] == r;
      assert pool[k] in pool && pool[k].id == r.id;
    }
  }

  lemma ShrinkKeepsInv(cfg: Config, s: State, after: Replicas)
    requires Inv(cfg, s) && PoolOnlyShrinks(s.pool, after, s.nextId)
    ensures Inv(cfg, s.(pool := after))
  {
    var u := s.(pool := after);
    forall t | t in s.tasks
      ensures Relies(cfg, u, s.tasks[t])
    {
      assert Relies(cfg, s, s.tasks[t]);
    }
  }

  /** Ending the only critical task keeps the invariant, whatever it did to the pool within the cap. */
  lemma EndKeepsInv(cfg: Config, s: State, t: nat, end: End, after: Replicas)
    requires Inv(cfg, s) && t in s.tasks && s.lock == Some(t) && Issued(after, s.nextId) && |after| <= cfg.max
    ensures Inv(cfg, Ends(s, t, end).(pool := after))
  {
    var u := Ends(s, t, end).(pool := after);
    forall k | k in u.tasks
      ensures Relies(cfg, u, u.tasks[k]) && !InCritical(u.tasks[k])
    {
      assert k != t ==> Relies(cfg, s, s.tasks[k]) && !InCritical(s.tasks[k]);
    }
  }

  lemma GoKeepsInv(cfg: Config, s: State, t: nat, to: Task)
    requires Inv(cfg, s) && t in s.tasks && s.lock == Some(t) && Relies(cfg, s, to)
    ensures Inv(cfg, Goes(s, t, to))
  {
  }

  lemma CheckKeepsInv(cfg: Config, s: State, t: nat)
    requires Inv(cfg, s) && t in s.tasks && Steady(cfg, s, Check(t))
    ensures Inv(cfg, Checked(cfg, s, t))
  {
    hide Available, Usable, SomeReady, Inv, Issued, UniqueIds;
    assert Inv(cfg, s) && InCritical(s.tasks[t]) ==> s.lock == Some(t) && Relies(cfg, s, s.tasks[t]) by {
      InvAt(cfg, s, t);
    }
    InvPool(cfg, s);
    if InCritical(s.tasks[t]) {
      var u := Checked(cfg, s, t);
      if u != s {
        if u.tasks[t].Done? {
          EndKeepsInv(cfg, s, t, u.tasks[t].end, s.pool);
        } else {
          GoKeepsInv(cfg, s, t, u.tasks[t]);
        }
      }
    }
  }

  lemma InvAt(cfg: Config, s: State, t: nat)
    requires Inv(cfg, s) && t in s.tasks
    ensures InCritical(s.tasks[t]) ==> s.lock == Some(t)
    ensures Relies(cfg, s, s.tasks[t])
  {
  }

  lemma InvPool(cfg: Config, s: State)
    requires Inv(cfg, s)
    ensures Issued(s.pool, s.nextId) && |s.pool| <= cfg.max
  {
  }

  lemma IssuedAfterUpsert(pool: Replicas, r: Replica, next: ReplicaId)
    requires Issued(pool, next) && r.id < next
    ensures Issued(Upsert(pool, r), next)
    ensures |Upsert(pool, r)| == |pool| + if Find(pool, r.id).Some? then 0 else 1
  {
    RemoveShortens(pool, r.id);
    FindAfterRemove(pool, r.id, r.id);
    FindAfterUpsert(pool, r, r.id);
  }

  lemma IssuedAfterAppend(pool: Replicas, r: Replica, next: ReplicaId)
    requires Issued(pool, next) && r.id < next && Find(pool, r.id).None?
    ensures Issued(pool + [r], next)
  {
    UniqueAfterAdd(pool, r);
  }

  lemma AddKeepsInv(cfg: Config, s: State, t: nat)
    requires Inv(cfg, s) && t in s.tasks && s.tasks[t].Created?
    ensures Inv(cfg, Apply(cfg, s, AddReplica(t)))
  {
    InvAt(cfg, s, t);
    var r := Added(cfg, s.tasks[t].job, s.tasks[t].id);
    IssuedAfterAppend(s.pool, r, s.nextId);
    EndKeepsInv(cfg, s, t, End.Spawned, s.pool + [r]);
  }

  lemma ProbeOkKeepsInv(cfg: Config, s: State, t: nat)
    requires Inv(cfg, s) && t in s.tasks && s.tasks[t].Probing?
    ensures Inv(cfg, Apply(cfg, s, ProbeOk(t)))
  {
    InvAt(cfg, s, t);
    var r := Back(cfg, s.tasks[t].d);
    IssuedAfterUpsert(s.pool, r, s.nextId);
    EndKeepsInv(cfg, s, t, Adopted, Upsert(s.pool, r));
  }

  lemma ProbeFailKeepsInv(cfg: Config, s: State, t: nat)
    requires Inv(cfg, s) && t in s.tasks && s.tasks[t].Probing?
    ensures Inv(cfg, Apply(cfg, s, ProbeFail(t)))
  {
    InvAt(cfg, s, t);
    var d := s.tasks[t].d;
    RemoveShrinks(s.pool, d.id, s.nextId);
    EndKeepsInv(cfg, s, t, Dropped, if s.tasks[t].same then Remove(s.pool, d.id) else s.pool);
  }

  lemma SpawnOkKeepsInv(cfg: Config, s: State, t: nat)
    requires Inv(cfg, s) && t in s.tasks && s.tasks[t].Spawning?
    ensures Inv(cfg, Apply(cfg, s, SpawnOk(t)))
  {
    InvAt(cfg, s, t);
    var u := Apply(cfg, s, SpawnOk(t));
    FindSound(s.pool, s.nextId);
    forall k | k in u.tasks
      ensures Relies(cfg, u, u.tasks[k])
    {
      if k != t {
        assert Relies(cfg, s, s.tasks[k]);
      }
    }
  }

  lemma StartKeepsInv(cfg: Config, s: State, a: Action)
    requires Inv(cfg, s) && (a.Start? || a.Acquire?)
    ensures Inv(cfg, Apply(cfg, s, a))
  {
    var u := Apply(cfg, s, a);
    forall k | k in u.tasks
      ensures Relies(cfg, u, u.tasks[k]) && (InCritical(u.tasks[k]) ==> u.lock == Some(k))
    {
      if k in s.tasks {
        assert Relies(cfg, s, s.tasks[k]);
      }
    }
  }

  lemma StepKeepsInv(cfg: Config, s: State, a: Action)
    requires Inv(cfg, s) && Steady(cfg, s, a)
    ensures Inv(cfg, Apply(cfg, s, a))
  {
    hide Inv, Checked;
    InvPool(cfg, s);
    match a
    case Start(_, _) => StartKeepsInv(cfg, s, a);
    case Acquire(_) => StartKeepsInv(cfg, s, a);
    case Check(t) => if t in s.tasks { CheckKeepsInv(cfg, s, t); }
    case SpawnOk(t) => if t in s.tasks && s.tasks[t].Spawning? { SpawnOkKeepsInv(cfg, s, t); }
    case SpawnFail(t) =>
      if t in s.tasks && s.tasks[t].Spawning? {
        InvAt(cfg, s, t);
        EndKeepsInv(cfg, s, t, SpawnFailed, s.pool);
      }
    case AddReplica(t) => if t in s.tasks && s.tasks[t].Created? { AddKeepsInv(cfg, s, t); }
    case ProbeOk(t) => if t in s.tasks && s.tasks[t].Probing? { ProbeOkKeepsInv(cfg, s, t); }
    case ProbeFail(t) => if t in s.tasks && s.tasks[t].Probing? { ProbeFailKeepsInv(cfg, s, t); }
    case Prune(id) =>
      RemoveShrinks(s.pool, id, s.nextId);
      ShrinkKeepsInv(cfg, s, Remove(s.pool, id));
    case MarkStopped(id, at) =>
      ModifyShrinks(s.pool, id, (r: Replica) => Restarting(r, at), s.nextId);
      ShrinkKeepsInv(cfg, s, MarkRestarting(s.pool, id, at));
    case SetSeats(id, n) =>
      ModifyShrinks(s.pool, id, (r: Replica) => r.(sessionsActive := n), s.nextId);
      ShrinkKeepsInv(cfg, s, SetCount(s.pool, id, n));
  }

  lemma {:induction false} ExecKeepsInv(cfg: Config, s: State, actions: seq<Action>)
    requires Inv(cfg, s) && SteadyRun(cfg, s, actions)
    ensures Inv(cfg, Exec(cfg, s, actions))
    decreases |actions|
  {
    hide Inv, Steady;
    if actions != [] {
      StepKeepsInv(cfg, s, actions[0]);
      ExecKeepsInv(cfg, Apply(cfg, s, actions[0]), actions[1..]);
    }
  }

  /** A pool nobody is working on yet. */
  ghost predicate Calm(cfg: Config, s: State) {
    Issued(s.pool, s.nextId) && |s.pool| <= cfg.max && s.lock.None? && s.tasks == map[]
  }

  ghost predicate OneAtATime(s: State) {
    forall t, u :: t in s.tasks && u in s.tasks && InCritical(s.tasks[t]) && InCritical(s.tasks[u]) ==> t == u
  }

  /**
   However spawns, re-adoptions, first requests, prunes and restart marks interleave, a pool within
   `max-replicas` stays within it and no replica id appears twice, as long as no first request
   meets a full pool with nothing Ready and nothing usable coming up.
   */
  lemma CapIsKept(cfg: Config, s: State, actions: seq<Action>)
    requires Calm(cfg, s) && SteadyRun(cfg, s, actions)
    ensures |Exec(cfg, s, actions).pool| <= cfg.max && UniqueIds(Exec(cfg, s, actions).pool)
    ensures OneAtATime(Exec(cfg, s, actions))
  {
    ExecKeepsInv(cfg, s, actions);
  }

  lemma {:induction false} ExecAppend(cfg: Config, s: State, actions: seq<Action>, more: seq<Action>)
    ensures Exec(cfg, s, actions + more) == Exec(cfg, Exec(cfg, s, actions), more)
    decreases |actions|
  {
    hide Apply;
    if actions == [] {
      assert actions + more == more;
    } else {
      ExecAppend(cfg, Apply(cfg, s, actions[0]), actions[1..], more);
      assert (actions + more)[1..] == actions[1..] + more;
    }
  }

  lemma ExecThree(cfg: Config, s: State, a: Action, b: Action, c: Action)
    ensures Exec(cfg, s, [a, b, c]) == Apply(cfg, Apply(cfg, Apply(cfg, s, a), b), c)
  {
    hide Apply;
    assert [a, b, c][1..] == [b, c] && [b, c][1..] == [c];
    assert Exec(cfg, Apply(cfg, Apply(cfg, s, a), b), [c]) == Apply(cfg, Apply(cfg, Apply(cfg, s, a), b), c);
    assert Exec(cfg, Apply(cfg, s, a), [b, c]) == Exec(cfg, Apply(cfg, Apply(cfg, s, a), b), [c]);
  }

  /**
   A first request, left alone with a backend that answers, leaves one replica more exactly when no
   replica that is Ready or coming up has a free seat and it may not fall back on a full one: an API
   always may, any other spec only at its cap, and either only on a Ready replica.
   */
  lemma PickSpawnsIff(cfg: Config, s: State, t: nat)
    requires At(s, t, Entered(Pick))
    ensures var after := Exec(cfg, s, [Check(t), SpawnOk(t), AddReplica(t)]);
      var seat := exists r :: r in s.pool && (r.state.Ready? || r.state.Starting?) && r.sessionsActive < r.sessionsMax;
      var fallback := (cfg.api || |s.pool| >= cfg.max) && exists r :: r in s.pool && r.state.Ready?;
      if seat || fallback
      then after.pool == s.pool && At(after, t, Done(Picked)) && after.lock.None?
      else && At(after, t, Done(End.Spawned)) && after.lock.None?
           && after.pool == s.pool
              + [Replica(s.nextId, "", "", ReplicaState.Ready, 0, if cfg.api then 0 else 1, cfg.seats)]
  {
    ExecThree(cfg, s, Check(t), SpawnOk(t), AddReplica(t));
    UsableMeansSeat(s.pool);
    var checked := Apply(cfg, s, Check(t));
    if Usable(s.pool) || ((cfg.api || |s.pool| >= cfg.max) && SomeReady(s.pool)) {
      assert At(checked, t, Done(Picked));
    } else {
      assert At(checked, t, Spawning(Pick));
      assert At(Apply(cfg, checked, SpawnOk(t)), t, Created(Pick, s.nextId));
    }
  }

  lemma UsableMeansSeat(pool: Replicas)
    ensures Usable(pool) <==>
            exists r :: r in pool && (r.state.Ready? || r.state.Starting?) && r.sessionsActive < r.sessionsMax
  {
    forall r | r in pool
      ensures r.IsAccepting() || (r.state.Starting? && r.AvailableSeats() > 0) <==>
              (r.state.Ready? || r.state.Starting?) && r.sessionsActive < r.sessionsMax
    {
    }
  }

  /**
   While every replica of a full pool is stopped and held for its restart, one first request takes
   the pool past `max-replicas`.
   */
  lemma StoppedPoolIsOverspawned(cfg: Config, s: State) returns (actions: seq<Action>)
    requires Calm(cfg, s) && |s.pool| == cfg.max && forall r :: r in s.pool ==> r.state.Stopped?
    ensures |Exec(cfg, s, actions).pool| == cfg.max + 1
  {
    var first, second := [Start(0, Pick), Acquire(0), Check(0)], [SpawnOk(0), AddReplica(0)];
    actions := first + second;
    ExecAppend(cfg, s, first, second);
    ExecThree(cfg, s, first[0], first[1], first[2]);
    var s1 := s.(tasks := map[0 := Queued(Pick)]);
    assert Apply(cfg, s, first[0]) == s1;
    var s2 := s.(tasks := map[0 := Entered(Pick)], lock := Some(0));
    assert Apply(cfg, s1, first[1]) == s2;
    assert !SomeReady(s.pool) && !Usable(s.pool);
    var s3 := s2.(tasks := map[0 := Spawning(Pick)]);
    assert Apply(cfg, s2, first[2]) == s3;
    hide SomeReady, Usable, Issued;
    OverspawnEnds(cfg, s3);
  }

  lemma OverspawnEnds(cfg: Config, s: State)
    requires s.tasks == map[0 := Spawning(Pick)]
    ensures |Exec(cfg, s, [SpawnOk(0), AddReplica(0)]).pool| == |s.pool| + 1
  {
    var s1 := Apply(cfg, s, SpawnOk(0));
    assert s1.pool == s.pool && At(s1, 0, Created(Pick, s.nextId));
    assert Apply(cfg, s1, AddReplica(0)).pool == s.pool + [Added(cfg, Pick, s.nextId)];
    assert [SpawnOk(0), AddReplica(0)][1..] == [AddReplica(0)];
    assert Exec(cfg, s1, [AddReplica(0)]) == Exec(cfg, Apply(cfg, s1, AddReplica(0)), []);
  }

  // ---- Cold start ----

  /** Splash requests and their spawns, with nothing else touching the pool. */
  predicate ColdStep(a: Action) {
    match a
    case Start(_, job) => job.Ensure?
    case Acquire(_) => true
    case Check(_) => true
    case SpawnOk(_) => true
    case SpawnFail(_) => true
    case AddReplica(_) => true
    case _ => false
  }

  predicate ColdTask(cfg: Config, s: State, k: nat, t: Task) {
    && (InCritical(t) ==> s.lock == Some(k))
    && match t
       case Queued(job) => job.Ensure?
       case Entered(job) => job.Ensure? && (s.spawns == 0 || s.pool != [])
       case CapCheck(job) => job.Ensure? && s.spawns == 0
       case Spawning(job) => job.Ensure? && s.spawns == 0
       case Created(job, _) => job.Ensure? && s.spawns == 1 && s.pool == []
       case Probing(_, _) => false
       case Done(end) => end.SpawnFailed? || ((end.Coalesced? || end.Spawned?) && s.pool != [])
  }

  /** Nothing spawned; or one container created and its replica about to be added; or that one replica. */
  ghost predicate ColdInv(cfg: Config, s: State) {
    && (forall k :: k in s.tasks ==> ColdTask(cfg, s, k, s.tasks[k]))
    && (s.spawns == 0 ==> s.pool == [])
    && (s.pool != [] ==> s.spawns == 1 && exists id :: s.pool == [NewReplica(cfg, id)])
    && (s.pool == [] && s.spawns > 0 ==>
          s.spawns == 1 && s.lock.Some? && s.lock.value in s.tasks && s.tasks[s.lock.value].Created?)
  }

  lemma NewIsAvailable(cfg: Config, id: ReplicaId)
    requires cfg.seats >= 1
    ensures Available([NewReplica(cfg, id)])
  {
    var r := NewReplica(cfg, id);
    assert r in [r] && r.IsAccepting();
  }

  lemma ColdCheckStep(cfg: Config, s: State, t: nat)
    requires ColdInv(cfg, s) && cfg.seats >= 1 && cfg.max >= 1 && t in s.tasks
    ensures ColdInv(cfg, Checked(cfg, s, t))
  {
    assert ColdTask(cfg, s, t, s.tasks[t]);
    var u := Checked(cfg, s, t);
    if s.pool != [] {
      var id :| s.pool == [NewReplica(cfg, id)];
      NewIsAvailable(cfg, id);
    } else {
      assert !Available(s.pool);
    }
    forall k | k in u.tasks
      ensures ColdTask(cfg, u, k, u.tasks[k])
    {
      assert k in s.tasks && ColdTask(cfg, s, k, s.tasks[k]);
    }
  }

  lemma ColdStepKeepsInv(cfg: Config, s: State, a: Action)
    requires ColdInv(cfg, s) && ColdStep(a) && cfg.seats >= 1 && cfg.max >= 1
    ensures ColdInv(cfg, Apply(cfg, s, a))
  {
    hide Checked, Available;
    if a.Check? {
      if a.t in s.tasks {
        ColdCheckStep(cfg, s, a.t);
      }
    } else {
      var u := Apply(cfg, s, a);
      if a.t in s.tasks {
        assert ColdTask(cfg, s, a.t, s.tasks[a.t]);
      }
      forall k | k in u.tasks
        ensures ColdTask(cfg, u, k, u.tasks[k])
      {
        assert k in s.tasks ==> ColdTask(cfg, s, k, s.tasks[k]);
      }
      if a.AddReplica? && u != s {
        assert u.pool == [NewReplica(cfg, s.tasks[a.t].id)];
      }
    }
  }

  lemma {:induction false} ColdExecKeepsInv(cfg: Config, s: State, actions: seq<Action>)
    requires ColdInv(cfg, s) && cfg.seats >= 1 && cfg.max >= 1 && forall a :: a in actions ==> ColdStep(a)
    ensures ColdInv(cfg, Exec(cfg, s, actions))
    decreases |actions|
  {
    hide ColdInv, ColdStep;
    if actions != [] {
      assert actions[0] in actions && forall a :: a in actions[1..] ==> a in actions;
      ColdStepKeepsInv(cfg, s, actions[0]);
      ColdExecKeepsInv(cfg, Apply(cfg, s, actions[0]), actions[1..]);
    }
  }

  /** Some caller was told that capacity exists. */
  ghost predicate SomeoneServed(s: State) {
    exists t :: t in s.tasks && (s.tasks[t] == Done(End.Coalesced) || s.tasks[t] == Done(End.Spawned))
  }

  /**
   From an empty pool, any number of cold-start callers in any order create at most one container;
   as soon as one of them succeeds there is exactly one, and its replica is in the pool.
   */
  lemma ColdStartIsSingleFlight(cfg: Config, nextId: ReplicaId, actions: seq<Action>)
    requires cfg.seats >= 1 && cfg.max >= 1 && forall a :: a in actions ==> ColdStep(a)
    ensures var s := Exec(cfg, State([], None, map[], nextId, 0), actions);
      && s.spawns <= 1
      && (SomeoneServed(s) ==> s.spawns == 1 && |s.pool| == 1)
      && (forall t :: t in s.tasks ==> s.tasks[t] != Done(Full))
  {
    var init := State([], None, map[], nextId, 0);
    ColdExecKeepsInv(cfg, init, actions);
    var s := Exec(cfg, init, actions);
    forall t | t in s.tasks
      ensures ColdTask(cfg, s, t, s.tasks[t])
    {
    }
  }

  /** A failed attempt leaves nothing behind: the next waiter takes the mutex and spawns in its turn. */
  lemma NextWaiterRetries(cfg: Config, s: State, t: nat, w: nat)
    requires cfg.max >= 1 && s.pool == [] && t != w
    requires At(s, t, Spawning(Ensure)) && At(s, w, Queued(Ensure))
    ensures var failed := Apply(cfg, s, SpawnFail(t));
      && failed == s.(tasks := s.tasks[t := Done(SpawnFailed)], lock := None)
      && At(Exec(cfg, failed, [Acquire(w), Check(w), Check(w)]), w, Spawning(Ensure))
  {
    var failed := Apply(cfg, s, SpawnFail(t));
    ExecThree(cfg, failed, Acquire(w), Check(w), Check(w));
    assert !Available([]);
    var entered := Apply(cfg, failed, Acquire(w));
    assert At(entered, w, Entered(Ensure));
    assert At(Apply(cfg, entered, Check(w)), w, CapCheck(Ensure));
  }

  // ---- A task that nothing interrupts does what its method promises ----

  /** The postcondition of `AutoScaler.SpawnOne`, for one spec's pool and a backend that answers. */
  lemma SpawnUninterrupted(cfg: Config, s: State, t: nat, job: Job)
    requires At(s, t, Queued(job)) && (job.Ensure? || job.Add?) && s.lock.None?
    ensures var checked := Apply(cfg, Apply(cfg, s, Acquire(t)), Check(t));
      var u := Exec(cfg, checked, [Check(t), SpawnOk(t), AddReplica(t)]);
      var able := exists r ::
        r in s.pool && (r.state.Starting? || (r.state.Ready? && r.sessionsActive < r.sessionsMax));
      var end := if job.Ensure? && able then End.Coalesced else if |s.pool| >= cfg.max then Full else End.Spawned;
      && At(u, t, Done(end)) && u.lock.None?
      && u.pool == s.pool
         + (if end.Spawned? then [Replica(s.nextId, "", "", ReplicaState.Ready, 0, 0, cfg.seats)] else [])
      && u.nextId == s.nextId + (if end.Spawned? then 1 else 0)
  {
    AvailableIff(s.pool);
    hide Available;
    var entered := Apply(cfg, s, Acquire(t));
    assert At(entered, t, Entered(job));
    ExecThree(cfg, Apply(cfg, entered, Check(t)), Check(t), SpawnOk(t), AddReplica(t));
  }

  /** What `Fleets.Readopted` says of one spec's pool. */
  lemma ReadoptUninterrupted(cfg: Config, s: State, t: nat, d: Replica, answers: bool)
    requires At(s, t, Queued(Adopt(d))) && s.lock.None?
    ensures var u := Exec(cfg, s, [Acquire(t), Check(t), if answers then ProbeOk(t) else ProbeFail(t)]);
      var here := Find(s.pool, d.id);
      && u.lock.None?
      && u.pool == (if (here.Some? && here.value.state.Ready?) || (here.None? && |s.pool| >= cfg.max) then s.pool
                    else if answers
                    then Upsert(s.pool, d.(state := ReplicaState.Ready, sessionsActive := 0, sessionsMax := cfg.seats))
                    else if here.Some? then Remove(s.pool, d.id) else s.pool)
  {
    hide Find, Upsert, Remove;
    ExecThree(cfg, s, Acquire(t), Check(t), if answers then ProbeOk(t) else ProbeFail(t));
    assert At(Apply(cfg, s, Acquire(t)), t, Entered(Adopt(d)));
  }
}
