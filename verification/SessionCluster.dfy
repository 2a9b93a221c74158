/**
 Any number of nodes over one Postgres session table (crates/ruscker-admin/src/sessions_pg.rs). Each
 statement the database answers, each write of a registry counter and each update of a node's cached
 length is a step of its own, so operations of one node and of different nodes interleave freely.
 */
module SessionCluster {
  import opened Registries
  import opened SharedSessions

  datatype Node = Node(localLen: nat, reg: Replicas)

  /** An operation between two of its steps, at node `n`. */
  datatype Op =
    | Inserted(n: NodeId, sid: SessionId, id: ReplicaId)
    | ReplicaCounted(n: NodeId, sid: SessionId, id: ReplicaId, k: nat)
    | Landing(n: NodeId, sid: SessionId)
    | Ending(n: NodeId, id: ReplicaId)
    | EndCounted(n: NodeId, id: ReplicaId, k: nat)
    | Tallied(n: NodeId, seen: Rows)
    | Recounting(n: NodeId)
    | Recounted(n: NodeId, counted: set<SessionId>)
  {
    /** A touch that gave its node a row and has not added to its length yet. */
    predicate Owes() {
      Inserted? || ReplicaCounted? || Landing?
    }
  }

  datatype State = State(rows: Rows, nodes: map<NodeId, Node>, ops: map<nat, Op>)

  /**
   Touch, Tally, Drop and End commit a statement and open operation `o`; Count reads the count it waits
   for and Fail stands for a count that does not come; Set writes the registry; Finish adds to or stores
   the node's length. Evict is one idle DELETE.
   Local is anything a node does to its own registry.
   */
  datatype Action =
    | Touch(o: nat, n: NodeId, sid: SessionId, spec: string, id: ReplicaId, now: int)
    | Tally(o: nat, n: NodeId)
    | Drop(o: nat, n: NodeId, id: ReplicaId)
    | End(o: nat, n: NodeId, sid: SessionId)
    | Count(o: nat)
    | Fail(o: nat)
    | Set(o: nat)
    | Finish(o: nat)
    | Evict(sids: set<SessionId>)
    | Local(n: NodeId, reg: Replicas)

  /** A new operation may start: its number is free and its node exists. */
  predicate Opens(s: State, o: nat, n: NodeId) {
    o !in s.ops && n in s.nodes
  }

  predicate ReadsAsNew(rows: Rows, sid: SessionId, now: int) {
    sid !in rows || rows[sid].createdAt == now
  }

  function RowsAfter(s: State, a: Action): Rows {
    match a
    case Touch(o, n, sid, spec, id, now) => if Opens(s, o, n) then Upserted(s.rows, sid, spec, id, n, now) else s.rows
    case Drop(o, n, id) => if Opens(s, o, n) then s.rows - On(s.rows, id) else s.rows
    case End(o, n, sid) => if Opens(s, o, n) then s.rows - {sid} else s.rows
    case Evict(sids) => s.rows - sids
    case _ => s.rows
  }

  function OpsAfter(s: State, a: Action): map<nat, Op> {
    match a
    case Touch(o, n, sid, _, id, now) =>
      if !Opens(s, o, n) then s.ops
      else if ReadsAsNew(s.rows, sid, now) then s.ops[o := Inserted(n, sid, id)]
      else if sid !in Owned(s.rows, n) then s.ops[o := Landing(n, sid)]
      else s.ops
    case Tally(o, n) => if Opens(s, o, n) then s.ops[o := Tallied(n, s.rows)] else s.ops
    case Drop(o, n, _) => if Opens(s, o, n) then s.ops[o := Recounting(n)] else s.ops
    case End(o, n, sid) => if Opens(s, o, n) && sid in s.rows then s.ops[o := Ending(n, s.rows[sid].replica)] else s.ops
    case Count(o) =>
      if o !in s.ops then s.ops
      else (match s.ops[o]
        case Inserted(n, sid, id) => s.ops[o := ReplicaCounted(n, sid, id, |On(s.rows, id)|)]
        case Ending(n, id) => s.ops[o := EndCounted(n, id, |On(s.rows, id)|)]
        case Recounting(n) => s.ops[o := Recounted(n, Owned(s.rows, n))]
        case _ => s.ops)
    case Fail(o) =>
      if o !in s.ops then s.ops
      else (match s.ops[o]
        case Inserted(n, sid, _) => s.ops[o := Landing(n, sid)]
        case Ending(n, _) => s.ops[o := Recounting(n)]
        case Recounting(_) => s.ops - {o}
        case _ => s.ops)
    case Set(o) =>
      if o !in s.ops then s.ops
      else (match s.ops[o]
        case ReplicaCounted(n, sid, _, _) => s.ops[o := Landing(n, sid)]
        case EndCounted(n, _, _) => s.ops[o := Recounting(n)]
        case Tallied(n, _) => s.ops[o := Recounting(n)]
        case _ => s.ops)
    case Finish(o) => if o in s.ops && (s.ops[o].Landing? || s.ops[o].Recounted?) then s.ops - {o} else s.ops
    case _ => s.ops
  }

  /** What the step does to node `n`. */
  function NodeAfter(s: State, a: Action, n: NodeId): Node
    requires n in s.nodes
  {
    var node := s.nodes[n];
    match a
    case Set(o) =>
      if o !in s.ops || s.ops[o].n != n then node
      else (match s.ops[o]
        case ReplicaCounted(_, _, id, k) => node.(reg := SetCount(node.reg, id, k))
        case EndCounted(_, id, k) => node.(reg := SetCount(node.reg, id, k))
        case Tallied(_, seen) => node.(reg := Reconciled(node.reg, seen))
        case _ => node)
    case Finish(o) =>
      if o !in s.ops || s.ops[o].n != n then node
      else (match s.ops[o]
        case Landing(_, _) => node.(localLen := node.localLen + 1)
        case Recounted(_, counted) => node.(localLen := |counted|)
        case _ => node)
    case Local(m, reg) => if m == n then node.(reg := reg) else node
    case _ => node
  }

  function Apply(s: State, a: Action): State {
    State(RowsAfter(s, a), map n | n in s.nodes :: NodeAfter(s, a, n), OpsAfter(s, a))
  }

  function Exec(s: State, actions: seq<Action>): State
    decreases |actions|
  {
    if actions == [] then s else Exec(Apply(s, actions[0]), actions[1..])
  }

  /** An empty table and idle nodes that track nothing. */
  ghost predicate Initial(s: State) {
    s.rows == map[] && s.ops == map[] && forall n :: n in s.nodes ==> s.nodes[n].localLen == 0
  }

  // ---- When a node's length, with the additions still to come, covers its rows ----

  /** The touches of `n` that still owe their addition. */
  function Owing(ops: map<nat, Op>, n: NodeId): set<nat> {
    set o | o in ops && ops[o].Owes() && ops[o].n == n
  }

  ghost predicate Covers(s: State, n: NodeId) {
    n in s.nodes && s.nodes[n].localLen + |Owing(s.ops, n)| >= |Owned(s.rows, n)|
  }

  /** This step stores a count of `n`'s rows as its length. */
  predicate Stores(s: State, a: Action, n: NodeId) {
    a.Finish? && a.o in s.ops && s.ops[a.o].Recounted? && s.ops[a.o].n == n
  }

  /**
   The rows `n` gained since the count are no more than those it lost since and the additions
   still to come.
   */
  ghost predicate StoreIsSafe(s: State, n: NodeId, counted: set<SessionId>) {
    |Owned(s.rows, n) - counted| <= |counted - Owned(s.rows, n)| + |Owing(s.ops, n)|
  }

  /** Every count that this step stores is still good. */
  ghost predicate StepIsSafe(s: State, a: Action, n: NodeId) {
    Stores(s, a, n) ==> StoreIsSafe(s, n, s.ops[a.o].counted)
  }

  lemma CardSubset<T>(a: set<T>, b: set<T>)
    requires a <= b
    ensures |a| <= |b|
  {
    assert b == a + (b - a) && a !! (b - a);
  }

  lemma SetSplit<T>(a: set<T>, b: set<T>)
    ensures |a| == |a * b| + |a - b|
  {
    assert a == (a * b) + (a - b) && (a * b) !! (a - b);
  }

  /** Of all steps only a touch by the node itself gives it a row, and only the one. */
  lemma OwnedSetStep(s: State, a: Action, n: NodeId)
    ensures Gains(s, a, n) ==> Owned(RowsAfter(s, a), n) == Owned(s.rows, n) + {a.sid}
    ensures !Gains(s, a, n) ==> Owned(RowsAfter(s, a), n) <= Owned(s.rows, n)
  {
  }

  lemma OwnedStep(s: State, a: Action, n: NodeId)
    ensures |Owned(RowsAfter(s, a), n)| <= |Owned(s.rows, n)| + if Gains(s, a, n) then 1 else 0
  {
    OwnedSetStep(s, a, n);
    hide Owned, RowsAfter;
    if !Gains(s, a, n) {
      CardSubset(Owned(RowsAfter(s, a), n), Owned(s.rows, n));
    }
  }

  predicate Gains(s: State, a: Action, n: NodeId) {
    a.Touch? && a.n == n && Opens(s, a.o, n) && a.sid !in Owned(s.rows, n)
  }

  predicate Lands(s: State, a: Action, n: NodeId) {
    a.Finish? && a.o in s.ops && s.ops[a.o].Landing? && s.ops[a.o].n == n
  }

  /** Which operations owe after a step. */
  lemma OwesStep(s: State, a: Action, n: NodeId, o: nat)
    ensures o in Owing(OpsAfter(s, a), n) <==>
            || (o in Owing(s.ops, n) && !(Lands(s, a, n) && a.o == o))
            || (o in Owing(OpsAfter(s, a), n) && a.Touch? && a.n == n && a.o == o && o !in s.ops)
    ensures Gains(s, a, n) ==> a.o in Owing(OpsAfter(s, a), n) && a.o !in Owing(s.ops, n)
    ensures Lands(s, a, n) ==> a.o in Owing(s.ops, n)
  {
  }

  lemma OwingStep(s: State, a: Action, n: NodeId)
    ensures Gains(s, a, n) ==> |Owing(OpsAfter(s, a), n)| == |Owing(s.ops, n)| + 1
    ensures Lands(s, a, n) ==> |Owing(OpsAfter(s, a), n)| == |Owing(s.ops, n)| - 1
    ensures !Lands(s, a, n) ==> |Owing(OpsAfter(s, a), n)| >= |Owing(s.ops, n)|
    ensures Stores(s, a, n) ==> Owing(OpsAfter(s, a), n) == Owing(s.ops, n)
  {
    var before, after := Owing(s.ops, n), Owing(OpsAfter(s, a), n);
    forall o {
      OwesStep(s, a, n, o);
    }
    hide OpsAfter, Owing;
    if Gains(s, a, n) {
      assert after == before + {a.o};
    } else if Lands(s, a, n) {
      assert after == before - {a.o};
    } else {
      assert before <= after;
      CardSubset(before, after);
    }
  }

  lemma StoreKeepsRows(s: State, a: Action, n: NodeId)
    requires Stores(s, a, n)
    ensures RowsAfter(s, a) == s.rows
  {
  }

  lemma StoredCountIsGoodIff(s: State, n: NodeId, counted: set<SessionId>)
    ensures StoreIsSafe(s, n, counted) <==> |counted| + |Owing(s.ops, n)| >= |Owned(s.rows, n)|
  {
    hide Owned, Owing;
    var owned := Owned(s.rows, n);
    SetSplit(counted, owned);
    SetSplit(owned, counted);
    assert counted * owned == owned * counted;
  }

  /** A step keeps a covering length covering if and only if it stores no stale count. */
  lemma CoverageStep(s: State, a: Action, n: NodeId)
    requires Covers(s, n)
    ensures Covers(Apply(s, a), n) <==> StepIsSafe(s, a, n)
  {
    hide Owned, Owing, RowsAfter, OpsAfter;
    OwnedStep(s, a, n);
    OwingStep(s, a, n);
    if Stores(s, a, n) {
      StoredCountIsGoodIff(s, n, s.ops[a.o].counted);
      assert RowsAfter(s, a) == s.rows by { StoreKeepsRows(s, a, n); }
    }
  }

  /** The step safe for `n` at every point of the run. */
  ghost predicate RunIsSafe(s: State, actions: seq<Action>, n: NodeId)
    decreases |actions|
  {
    actions != [] ==> StepIsSafe(s, actions[0], n) && RunIsSafe(Apply(s, actions[0]), actions[1..], n)
  }

  /** The length covers at every point of the run. */
  ghost predicate AlwaysCovers(s: State, actions: seq<Action>, n: NodeId)
    decreases |actions|
  {
    Covers(s, n) && (actions != [] ==> AlwaysCovers(Apply(s, actions[0]), actions[1..], n))
  }

  /**
   In every run from a covering state, the length and the additions to come cover the node's rows at
   every point if and only if no count was stored after the node gained more rows than it lost and
   still owes for.
   */
  lemma {:induction false} LenCoversOwnRowsIff(s: State, actions: seq<Action>, n: NodeId)
    requires Covers(s, n)
    ensures AlwaysCovers(s, actions, n) <==> RunIsSafe(s, actions, n)
    decreases |actions|
  {
    hide Covers, StepIsSafe, Apply;
    if actions != [] {
      CoverageStep(s, actions[0], n);
      if Covers(Apply(s, actions[0]), n) {
        LenCoversOwnRowsIff(Apply(s, actions[0]), actions[1..], n);
      } else {
        NotAlways(Apply(s, actions[0]), actions[1..], n);
      }
    }
  }

  lemma NotAlways(s: State, actions: seq<Action>, n: NodeId)
    requires !Covers(s, n)
    ensures !AlwaysCovers(s, actions, n)
  {
  }

  // ---- A condition on the order of steps that is enough ----

  /** Between a count and its store, `n` adds to its length only for rows the count saw. */
  ghost predicate AddsInTime(s: State, a: Action, n: NodeId) {
    Lands(s, a, n) ==>
      forall o :: o in s.ops && s.ops[o].Recounted? && s.ops[o].n == n ==> s.ops[a.o].sid in s.ops[o].counted
  }

  ghost predicate TimelyRun(s: State, actions: seq<Action>, n: NodeId)
    decreases |actions|
  {
    actions != [] ==> AddsInTime(s, actions[0], n) && TimelyRun(Apply(s, actions[0]), actions[1..], n)
  }

  /** The touches of `n` that still owe, for rows outside `counted`. */
  function OwingFor(ops: map<nat, Op>, n: NodeId, counted: set<SessionId>): set<nat> {
    set o | o in ops && ops[o].Owes() && ops[o].n == n && ops[o].sid !in counted
  }

  /** Whatever `n` gained since each open count is still owed for. */
  ghost predicate CountsFresh(s: State, n: NodeId) {
    forall o :: o in s.ops && s.ops[o].Recounted? && s.ops[o].n == n ==> FreshCount(s, n, s.ops[o].counted)
  }

  ghost predicate FreshCount(s: State, n: NodeId, counted: set<SessionId>) {
    |Owned(s.rows, n) - counted| <= |OwingFor(s.ops, n, counted)|
  }

  lemma FreshIsSafe(s: State, n: NodeId, counted: set<SessionId>)
    requires FreshCount(s, n, counted)
    ensures StoreIsSafe(s, n, counted)
  {
    CardSubset(OwingFor(s.ops, n, counted), Owing(s.ops, n));
  }

  lemma GainedStep(s: State, a: Action, n: NodeId, counted: set<SessionId>)
    ensures |Owned(RowsAfter(s, a), n) - counted| <=
            |Owned(s.rows, n) - counted| + if Gains(s, a, n) && a.sid !in counted then 1 else 0
  {
    OwnedSetStep(s, a, n);
    hide Owned, RowsAfter;
    var had, has := Owned(s.rows, n) - counted, Owned(RowsAfter(s, a), n) - counted;
    if Gains(s, a, n) && a.sid !in counted {
      assert has == had + {a.sid};
    } else {
      CardSubset(has, had);
    }
  }

  lemma OwesForStep(s: State, a: Action, n: NodeId, counted: set<SessionId>, o: nat)
    requires Lands(s, a, n) ==> s.ops[a.o].sid in counted
    ensures o in OwingFor(s.ops, n, counted) ==> o in OwingFor(OpsAfter(s, a), n, counted)
    ensures Gains(s, a, n) && a.sid !in counted ==>
            a.o in OwingFor(OpsAfter(s, a), n, counted) && a.o !in OwingFor(s.ops, n, counted)
  {
  }

  lemma OwingForStep(s: State, a: Action, n: NodeId, counted: set<SessionId>)
    requires Lands(s, a, n) ==> s.ops[a.o].sid in counted
    ensures |OwingFor(OpsAfter(s, a), n, counted)| >=
            |OwingFor(s.ops, n, counted)| + if Gains(s, a, n) && a.sid !in counted then 1 else 0
  {
    var before, after := OwingFor(s.ops, n, counted), OwingFor(OpsAfter(s, a), n, counted);
    forall o {
      OwesForStep(s, a, n, counted, o);
    }
    hide OpsAfter, OwingFor;
    if Gains(s, a, n) && a.sid !in counted {
      CardSubset(before + {a.o}, after);
    } else {
      CardSubset(before, after);
    }
  }

  lemma FreshStep(s: State, a: Action, n: NodeId, counted: set<SessionId>)
    requires FreshCount(s, n, counted) && (Lands(s, a, n) ==> s.ops[a.o].sid in counted)
    ensures FreshCount(Apply(s, a), n, counted)
  {
    hide Owned, OwingFor, RowsAfter, OpsAfter;
    GainedStep(s, a, n, counted);
    OwingForStep(s, a, n, counted);
  }

  lemma CountsStayFresh(s: State, a: Action, n: NodeId)
    requires CountsFresh(s, n) && AddsInTime(s, a, n)
    ensures CountsFresh(Apply(s, a), n)
  {
    hide FreshCount;
    var t := Apply(s, a);
    forall o | o in t.ops && t.ops[o].Recounted? && t.ops[o].n == n
      ensures FreshCount(t, n, t.ops[o].counted)
    {
      if o in s.ops && s.ops[o] == t.ops[o] {
        FreshStep(s, a, n, s.ops[o].counted);
      } else {
        JustCounted(t, n);
      }
    }
  }

  lemma JustCounted(s: State, n: NodeId)
    ensures FreshCount(s, n, Owned(s.rows, n))
  {
    assert Owned(s.rows, n) - Owned(s.rows, n) == {};
  }

  lemma {:induction false} TimelyRunsAreSafe(s: State, actions: seq<Action>, n: NodeId)
    requires CountsFresh(s, n) && TimelyRun(s, actions, n)
    ensures RunIsSafe(s, actions, n)
    decreases |actions|
  {
    hide CountsFresh, AddsInTime, StepIsSafe, Apply;
    if actions != [] {
      FreshStepIsSafe(s, actions[0], n);
      CountsStayFresh(s, actions[0], n);
      TimelyRunsAreSafe(Apply(s, actions[0]), actions[1..], n);
    }
  }

  lemma FreshStepIsSafe(s: State, a: Action, n: NodeId)
    requires CountsFresh(s, n)
    ensures StepIsSafe(s, a, n)
  {
    if Stores(s, a, n) {
      FreshIsSafe(s, n, s.ops[a.o].counted);
    }
  }

  lemma {:induction false} AlwaysCoversEnds(s: State, actions: seq<Action>, n: NodeId)
    requires AlwaysCovers(s, actions, n)
    ensures Covers(Exec(s, actions), n)
    decreases |actions|
  {
    hide Covers, Apply;
    if actions != [] {
      AlwaysCoversEnds(Apply(s, actions[0]), actions[1..], n);
    }
  }

  /** In a timely run a length of zero, with no touch under way, means that nothing is left to drain. */
  lemma ZeroMeansDrained(init: State, actions: seq<Action>, n: NodeId)
    requires Initial(init) && n in init.nodes && TimelyRun(init, actions, n)
    ensures var s := Exec(init, actions);
      && Covers(s, n)
      && (s.nodes[n].localLen == 0 && Owing(s.ops, n) == {} ==> forall sid :: sid in s.rows ==> s.rows[sid].owner != n)
  {
    assert Owned(init.rows, n) == {};
    TimelyRunsAreSafe(init, actions, n);
    LenCoversOwnRowsIff(init, actions, n);
    AlwaysCoversEnds(init, actions, n);
    var s := Exec(init, actions);
    if s.nodes[n].localLen == 0 && Owing(s.ops, n) == {} {
      assert Owned(s.rows, n) == {};
      forall sid | sid in s.rows
        ensures s.rows[sid].owner != n
      {
        assert sid !in Owned(s.rows, n);
      }
    }
  }

  // ---- The store that loses an addition ----

  lemma {:induction false} ExecAppend(s: State, actions: seq<Action>, more: seq<Action>)
    ensures Exec(s, actions + more) == Exec(Exec(s, actions), more)
    decreases |actions|
  {
    hide Apply;
    if actions == [] {
      assert actions + more == more;
    } else {
      ExecAppend(Apply(s, actions[0]), actions[1..], more);
      assert (actions + more)[1..] == actions[1..] + more;
    }
  }

  lemma ExecFour(s: State, a: Action, b: Action, c: Action, d: Action)
    ensures Exec(s, [a, b, c, d]) == Apply(Apply(Apply(Apply(s, a), b), c), d)
  {
    hide Apply;
    assert [a, b, c, d][1..] == [b, c, d] && [b, c, d][1..] == [c, d] && [c, d][1..] == [d] && [d][1..] == [];
    assert Exec(Apply(Apply(Apply(s, a), b), c), [d]) == Apply(Apply(Apply(Apply(s, a), b), c), d);
    assert Exec(Apply(Apply(s, a), b), [c, d]) == Exec(Apply(Apply(Apply(s, a), b), c), [d]);
    assert Exec(Apply(s, a), [b, c, d]) == Exec(Apply(Apply(s, a), b), [c, d]);
  }

  /** A lone node that has just started. */
  const LONE := State(map[], map[0 := Node(0, [])], map[])

  /** The lone node owns session 7. */
  function Owning(id: ReplicaId): Rows {
    map[7 := Row("app", id, 0, 5, 5)]
  }

  lemma SweepHasCounted(id: ReplicaId)
    ensures Exec(LONE, [Tally(0, 0), Set(0), Count(0), Touch(1, 0, 7, "app", id, 5)]) ==
            State(Owning(id), map[0 := Node(0, [])], map[0 := Recounted(0, {}), 1 := Inserted(0, 7, id)])
  {
    ExecFour(LONE, Tally(0, 0), Set(0), Count(0), Touch(1, 0, 7, "app", id, 5));
    var s1 := LONE.(ops := map[0 := Tallied(0, map[])]);
    assert Apply(LONE, Tally(0, 0)) == s1;
    assert Reconciled([], map[]) == [];
    var s2 := LONE.(ops := map[0 := Recounting(0)]);
    assert Apply(s1, Set(0)) == s2;
    assert Owned(map[], 0) == {};
    var s3 := LONE.(ops := map[0 := Recounted(0, {})]);
    assert Apply(s2, Count(0)) == s3;
    assert Upserted(map[], 7, "app", id, 0, 5) == Owning(id);
  }

  lemma TouchLands(id: ReplicaId, s: State)
    requires s == State(Owning(id), map[0 := Node(0, [])], map[0 := Recounted(0, {}), 1 := Inserted(0, 7, id)])
    ensures Apply(Apply(s, Count(1)), Set(1)) ==
            s.(ops := map[0 := Recounted(0, {}), 1 := Landing(0, 7)])
  {
    var s1 := s.(ops := s.ops[1 := ReplicaCounted(0, 7, id, |On(s.rows, id)|)]);
    assert Apply(s, Count(1)) == s1;
    assert SetCount([], id, |On(s.rows, id)|) == [];
  }

  lemma LandsThenStore(id: ReplicaId, s: State)
    requires s == State(Owning(id), map[0 := Node(0, [])], map[0 := Recounted(0, {}), 1 := Landing(0, 7)])
    ensures Apply(Apply(s, Finish(1)), Finish(0)) == State(Owning(id), map[0 := Node(0, [])], map[])
  {
    var s1 := State(s.rows, map[0 := Node(1, [])], map[0 := Recounted(0, {})]);
    assert Apply(s, Finish(1)) == s1;
  }

  lemma HasOneRow(id: ReplicaId)
    ensures Owned(Owning(id), 0) == {7} && Owing(map[], 0) == {}
  {
  }

  /**
   A sweep counts no rows, a touch on the same node inserts one and adds to the length, and the sweep
   stores its count: the length is zero while the node owns a row and nothing is under way.
   */
  lemma SweepStoreHidesASession(id: ReplicaId) returns (actions: seq<Action>)
    ensures Initial(LONE)
    ensures var s := Exec(LONE, actions);
      s.nodes == map[0 := Node(0, [])] && s.ops == map[] && Owned(s.rows, 0) == {7} && !Covers(s, 0)
  {
    hide Apply, Exec, Owning, Owned, Owing;
    var first := [Tally(0, 0), Set(0), Count(0), Touch(1, 0, 7, "app", id, 5)];
    var second := [Count(1), Set(1), Finish(1), Finish(0)];
    actions := first + second;
    ExecAppend(LONE, first, second);
    SweepHasCounted(id);
    var s := Exec(LONE, first);
    ExecFour(s, Count(1), Set(1), Finish(1), Finish(0));
    TouchLands(id, s);
    LandsThenStore(id, Apply(Apply(s, Count(1)), Set(1)));
    HasOneRow(id);
  }

  // ---- A takeover moves ownership and nothing else ----

  /** A touch of a session that exists, by a node of the cluster, after the instant of its creation. */
  predicate Returns(rows: Rows, a: Action) {
    a.Touch? && a.sid in rows && rows[a.sid].createdAt != a.now
  }

  lemma TakeoverStep(s: State, a: Action, id: ReplicaId)
    requires Returns(s.rows, a)
    ensures var t := Apply(s, a);
      && On(t.rows, id) == On(s.rows, id) && t.rows.Keys == s.rows.Keys
      && (forall n :: n in s.nodes ==> n in t.nodes && t.nodes[n] == s.nodes[n])
      && (forall sid :: sid in s.rows ==> t.rows[sid].createdAt == s.rows[sid].createdAt)
  {
  }

  /** However sessions move between nodes, no per-replica total changes and no registry does. */
  lemma {:induction false} TakeoversKeepCounts(s: State, touches: seq<Action>, id: ReplicaId)
    requires forall k :: 0 <= k < |touches| ==> Returns(s.rows, touches[k])
    ensures var t := Exec(s, touches);
      && On(t.rows, id) == On(s.rows, id) && t.rows.Keys == s.rows.Keys
      && (forall n :: n in s.nodes ==> n in t.nodes && t.nodes[n] == s.nodes[n])
    decreases |touches|
  {
    hide Apply, On, Owned;
    if touches != [] {
      TakeoverStep(s, touches[0], id);
      TakeoversKeepCounts(Apply(s, touches[0]), touches[1..], id);
    }
  }

  // ---- One sweep per node on a quiet table puts everything right ----

  ghost predicate CountersRight(s: State, n: NodeId) {
    && n in s.nodes
    && forall i :: 0 <= i < |s.nodes[n].reg| ==> s.nodes[n].reg[i].sessionsActive == |On(s.rows, s.nodes[n].reg[i].id)|
  }

  ghost predicate Settled(s: State, n: NodeId) {
    CountersRight(s, n) && s.nodes[n].localLen == |Owned(s.rows, n)|
  }

  /** A step of some node's sweep, or an idle DELETE that finds nothing. */
  ghost predicate Quiet(s: State, a: Action) {
    a.Tally? || a.Count? || a.Set? || a.Finish? || (a.Evict? && s.rows - a.sids == s.rows)
  }

  /** Only sweeps are under way, and what they have read so far is the table. */
  ghost predicate OnlySweeps(s: State) {
    forall o :: o in s.ops ==> SweepOp(s, s.ops[o])
  }

  ghost predicate SweepOp(s: State, op: Op) {
    match op
    case Tallied(_, seen) => seen == s.rows
    case Recounting(n) => n in s.nodes ==> CountersRight(s, n)
    case Recounted(n, counted) => (n in s.nodes ==> CountersRight(s, n)) && counted == Owned(s.rows, n)
    case _ => false
  }

  lemma ReconciledIsRight(reg: Replicas, rows: Rows)
    ensures forall i :: 0 <= i < |reg| ==>
      Reconciled(reg, rows)[i].sessionsActive == |On(rows, Reconciled(reg, rows)[i].id)|
  {
  }

  /** A quiet step leaves every right counter and length right. */
  lemma QuietNodeStep(s: State, a: Action, n: NodeId)
    requires OnlySweeps(s) && Quiet(s, a) && n in s.nodes
    ensures Apply(s, a).rows == s.rows && Apply(s, a).nodes.Keys == s.nodes.Keys
    ensures CountersRight(s, n) ==> CountersRight(Apply(s, a), n)
    ensures Settled(s, n) ==> Settled(Apply(s, a), n)
    ensures Stores(s, a, n) ==> Settled(Apply(s, a), n)
    ensures a.Set? && a.o in s.ops && s.ops[a.o].Tallied? && s.ops[a.o].n == n ==> CountersRight(Apply(s, a), n)
  {
    if (a.Set? || a.Finish?) && a.o in s.ops {
      assert SweepOp(s, s.ops[a.o]);
    }
    ReconciledIsRight(s.nodes[n].reg, s.rows);
  }

  lemma QuietStep(s: State, a: Action)
    requires OnlySweeps(s) && Quiet(s, a)
    ensures OnlySweeps(Apply(s, a)) && Apply(s, a).rows == s.rows && Apply(s, a).nodes.Keys == s.nodes.Keys
  {
    var t := Apply(s, a);
    forall n | n in s.nodes
      ensures CountersRight(s, n) ==> CountersRight(t, n)
      ensures a.Set? && a.o in s.ops && s.ops[a.o].Tallied? && s.ops[a.o].n == n ==> CountersRight(t, n)
    {
      QuietNodeStep(s, a, n);
    }
    assert t.rows == s.rows;
    hide CountersRight;
    forall o | o in t.ops
      ensures SweepOp(t, t.ops[o])
    {
      if o in s.ops {
        assert SweepOp(s, s.ops[o]);
      }
    }
  }

  ghost predicate QuietRun(s: State, actions: seq<Action>)
    decreases |actions|
  {
    actions != [] ==> Quiet(s, actions[0]) && QuietRun(Apply(s, actions[0]), actions[1..])
  }

  /** Some sweep of `n` runs to its end. */
  ghost predicate Completes(s: State, actions: seq<Action>, n: NodeId)
    decreases |actions|
  {
    actions != [] && (Stores(s, actions[0], n) || Completes(Apply(s, actions[0]), actions[1..], n))
  }

  lemma {:induction false} SweepsSettle(s: State, sweeps: seq<Action>, n: NodeId)
    requires OnlySweeps(s) && QuietRun(s, sweeps) && n in s.nodes && (Settled(s, n) || Completes(s, sweeps, n))
    ensures Exec(s, sweeps).rows == s.rows && Settled(Exec(s, sweeps), n)
    decreases |sweeps|
  {
    hide Apply, OnlySweeps, Quiet, Stores, Settled;
    if sweeps != [] {
      QuietNodeStep(s, sweeps[0], n);
      QuietStep(s, sweeps[0]);
      SweepsSettle(Apply(s, sweeps[0]), sweeps[1..], n);
    }
  }

  function SumLen(s: State, order: seq<NodeId>): nat {
    if order == [] then 0
    else (if order[0] in s.nodes then s.nodes[order[0]].localLen else 0) + SumLen(s, order[1..])
  }

  function OwnedByAny(rows: Rows, order: seq<NodeId>): set<SessionId> {
    set sid | sid in rows && rows[sid].owner in order
  }

  lemma SharesSplit(rows: Rows, order: seq<NodeId>)
    requires order != [] && order[0] !in order[1..]
    ensures |OwnedByAny(rows, order)| == |Owned(rows, order[0])| + |OwnedByAny(rows, order[1..])|
  {
    assert order == [order[0]] + order[1..];
    assert OwnedByAny(rows, order) == Owned(rows, order[0]) + OwnedByAny(rows, order[1..]);
    assert Owned(rows, order[0]) !! OwnedByAny(rows, order[1..]);
  }

  /** The shares of settled nodes neither overlap nor miss a row. */
  lemma {:induction false} SharesAddUp(s: State, order: seq<NodeId>)
    requires forall i, j :: 0 <= i < j < |order| ==> order[i] != order[j]
    requires forall k :: 0 <= k < |order| ==> Settled(s, order[k])
    ensures SumLen(s, order) == |OwnedByAny(s.rows, order)|
  {
    if order == [] {
      assert OwnedByAny(s.rows, order) == {};
    } else {
      assert Settled(s, order[0]);
      hide OwnedByAny, Owned, CountersRight;
      SharesAddUp(s, order[1..]);
      SharesSplit(s.rows, order);
    }
  }

  /** `order` lists every node once. */
  ghost predicate Lists(s: State, order: seq<NodeId>) {
    && (forall i, j :: 0 <= i < j < |order| ==> order[i] != order[j])
    && (forall n :: n in order <==> n in s.nodes)
  }

  ghost predicate OwnersExist(s: State) {
    forall sid :: sid in s.rows ==> s.rows[sid].owner in s.nodes
  }

  lemma {:induction false} OwnersStay(s: State, actions: seq<Action>)
    requires OwnersExist(s)
    ensures OwnersExist(Exec(s, actions)) && Exec(s, actions).nodes.Keys == s.nodes.Keys
    decreases |actions|
  {
    if actions != [] {
      OwnersStep(s, actions[0]);
      hide Apply;
      OwnersStay(Apply(s, actions[0]), actions[1..]);
    }
  }

  lemma OwnersStep(s: State, a: Action)
    requires OwnersExist(s)
    ensures OwnersExist(Apply(s, a)) && Apply(s, a).nodes.Keys == s.nodes.Keys
  {
    hide NodeAfter, OpsAfter;
  }

  lemma AllSettledAddUp(s: State, order: seq<NodeId>)
    requires OwnersExist(s) && Lists(s, order) && forall n :: n in s.nodes ==> Settled(s, n)
    ensures SumLen(s, order) == |s.rows|
  {
    SharesAddUp(s, order);
    assert s.rows.Keys == OwnedByAny(s.rows, order);
  }

  /**
   After any history, and once the operations under way have ended, one sweep per node, interleaved in
   any way and finding nothing to evict, makes each registry show the cluster-wide totals and the
   nodes' lengths add up to the number of rows.
   */
  lemma QuietSweepsReconcile(init: State, history: seq<Action>, sweeps: seq<Action>, order: seq<NodeId>)
    requires Initial(init) && Lists(init, order) && Exec(init, history).ops == map[]
    requires QuietRun(Exec(init, history), sweeps)
    requires forall n :: n in init.nodes ==> Completes(Exec(init, history), sweeps, n)
    ensures var s := Exec(init, history);
      var t := Exec(s, sweeps);
      && SumLen(t, order) == |t.rows| && forall n :: n in init.nodes ==> t.rows == s.rows && Settled(t, n)
  {
    var s := Exec(init, history);
    var t := Exec(s, sweeps);
    OwnersStay(init, history);
    OwnersStay(s, sweeps);
    assert OnlySweeps(s);
    hide Exec, Apply, Settled, OnlySweeps, QuietRun, Completes, OwnersExist;
    forall n | n in init.nodes
      ensures t.rows == s.rows && Settled(t, n)
    {
      SweepsSettle(s, sweeps, n);
    }
    AllSettledAddUp(t, order);
  }

  // ---- An operation that nothing interrupts does what its method promises ----

  // Each lemma restates the postcondition of the method of PostgresSessionStore it is named after.

  lemma TouchUninterrupted(s: State, o: nat, n: NodeId, sid: SessionId, spec: string, id: ReplicaId, now: int)
    requires Opens(s, o, n)
    ensures var t := Exec(s, [Touch(o, n, sid, spec, id, now), Count(o), Set(o), Finish(o)]);
      var registered := ReadsAsNew(s.rows, sid, now);
      && t.rows == Upserted(s.rows, sid, spec, id, n, now) && n in t.nodes
      && t.nodes[n].reg == (if registered then SetCount(s.nodes[n].reg, id, |On(t.rows, id)|) else s.nodes[n].reg)
      && t.nodes[n].localLen == s.nodes[n].localLen + (if registered || sid !in Owned(s.rows, n) then 1 else 0)
  {
    ExecFour(s, Touch(o, n, sid, spec, id, now), Count(o), Set(o), Finish(o));
    hide On, Owned, Upserted, SetCount;
  }

  lemma SweepUninterrupted(s: State, o: nat, n: NodeId)
    requires Opens(s, o, n)
    ensures var t := Exec(s, [Tally(o, n), Set(o), Count(o), Finish(o)]);
      && t.rows == s.rows && n in t.nodes
      && t.nodes[n] == Node(|Owned(s.rows, n)|, Reconciled(s.nodes[n].reg, s.rows))
  {
    hide Owned, Reconciled;
    ExecFour(s, Tally(o, n), Set(o), Count(o), Finish(o));
    RecountUninterrupted(Apply(Apply(s, Tally(o, n)), Set(o)), o, n);
  }

  /** The last two steps of a sweep, a drop and a logout. */
  lemma RecountUninterrupted(s: State, o: nat, n: NodeId)
    requires o in s.ops && s.ops[o] == Recounting(n) && n in s.nodes
    ensures var t := Apply(Apply(s, Count(o)), Finish(o));
      t.rows == s.rows && n in t.nodes && t.nodes[n] == s.nodes[n].(localLen := |Owned(s.rows, n)|)
  {
    hide Owned;
  }

  lemma DropUninterrupted(s: State, o: nat, n: NodeId, id: ReplicaId)
    requires Opens(s, o, n)
    ensures var t := Apply(Apply(Apply(s, Drop(o, n, id)), Count(o)), Finish(o));
      && t.rows == s.rows - On(s.rows, id) && n in t.nodes
      && t.nodes[n] == s.nodes[n].(localLen := |Owned(t.rows, n)|)
  {
    hide Owned, On;
    RecountUninterrupted(Apply(s, Drop(o, n, id)), o, n);
  }

  lemma EndUninterrupted(s: State, o: nat, n: NodeId, sid: SessionId)
    requires Opens(s, o, n) && sid in s.rows
    ensures var t := Exec(Apply(s, End(o, n, sid)), [Count(o), Set(o), Count(o), Finish(o)]);
      var id := s.rows[sid].replica;
      && t.rows == s.rows - {sid} && n in t.nodes
      && t.nodes[n] == Node(|Owned(t.rows, n)|, SetCount(s.nodes[n].reg, id, |On(t.rows, id)|))
  {
    hide Owned, On, SetCount;
    var ended := Apply(s, End(o, n, sid));
    ExecFour(ended, Count(o), Set(o), Count(o), Finish(o));
    RecountUninterrupted(Apply(Apply(ended, Count(o)), Set(o)), o, n);
  }
}
