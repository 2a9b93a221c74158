/**
 Per-spec access counting (crates/ruscker-admin/src/access_counter.rs):
 increments land in an in-memory buffer that flush tasks drain into the database.

 The class is the code run by one caller at a time. The transition system below it
 lets bumps and any number of flush tasks interleave between their database writes.
 */
module AccessCounters {
  import opened Wrappers

  const MAX_PENDING_KEYS: nat := 4096

  datatype Bucket = Bucket(spec: string, day: string)

  type Deltas = map<Bucket, nat>

  function Get(m: Deltas, k: Bucket): nat {
    if k in m then m[k] else 0
  }

  function Merge(a: Deltas, b: Deltas): Deltas {
    map k | k in a.Keys + b.Keys :: Get(a, k) + Get(b, k)
  }

  /** A bucket is admitted unless it is new and the buffer is at its backstop. */
  predicate Admits(pending: Deltas, k: Bucket) {
    |pending| < MAX_PENDING_KEYS || k in pending
  }

  /** The persisted totals; a write either applies in full or not at all. */
  class SpecAccessTable {
    var counts: Deltas

    constructor ()
      ensures counts == map[]
    {
      counts := map[];
    }

    method RecordDelta(k: Bucket, delta: nat) returns (ok: bool)
      modifies this
      ensures ok ==> counts == old(counts)[k := Get(old(counts), k) + delta]
      ensures !ok ==> counts == old(counts)
    {
      ok := *;
      if ok {
        counts := counts[k := Get(counts, k) + delta];
      }
    }
  }

  class AccessCounter {
    var pending: Deltas
    var dropped: nat
    var flushFailures: nat

    constructor ()
      ensures pending == map[] && dropped == 0 && flushFailures == 0
    {
      pending, dropped, flushFailures := map[], 0, 0;
    }

    method Bump(k: Bucket)
      modifies this
      ensures |old(pending)| < 4096 || k in old(pending) ==>
                pending == old(pending)[k := Get(old(pending), k) + 1] && dropped == old(dropped)
      ensures |old(pending)| >= 4096 && k !in old(pending) ==> pending == old(pending) && dropped == old(dropped) + 1
      ensures flushFailures == old(flushFailures)
    {
      if |pending| >= MAX_PENDING_KEYS && k !in pending {
        dropped := dropped + 1;
        return;
      }
      pending := pending[k := Get(pending, k) + 1];
    }

    /**
     A flush nobody interleaves with. Success moves the whole buffer into the table;
     failure keeps every unwritten delta, and neither loses nor repeats an increment.
     */
    method Flush(db: SpecAccessTable) returns (r: Result<nat, Bucket>)
      modifies this, db
      ensures Merge(db.counts, pending) == Merge(old(db.counts), old(pending))
      ensures dropped == old(dropped)
      ensures r.Success? ==>
                && r.value == |old(pending)|
                && pending == map[]
                && flushFailures == old(flushFailures)
      ensures r.Failure? ==>
                && r.error in old(pending) && Get(pending, r.error) == old(pending)[r.error]
                && flushFailures == old(flushFailures) + 1
    {
      hide Merge;
      var entries := pending;
      ghost var taken, start := pending, db.counts;
      pending := map[];
      var total := |entries|;
      while entries != map[]
        invariant pending == map[] && dropped == old(dropped) && flushFailures == old(flushFailures)
        invariant Part(entries, taken)
        invariant Merge(db.counts, entries) == Merge(start, taken)
        decreases |entries|
      {
        var k :| k in entries;
        var delta, rest := entries[k], entries - {k};
        ghost var counts := db.counts;
        RemovalShrinks(entries, k);
        var ok := db.RecordDelta(k, delta);
        if !ok {
          MergeEmpty(entries);
          MergeBack(entries);
          flushFailures := flushFailures + 1;
          return Failure(k);
        }
        MergeOneEntry(counts, entries, k);
        entries := rest;
      }
      return Success(total);
    }

    method MergeBack(deltas: Deltas)
      modifies this
      ensures pending == Merge(old(pending), deltas)
      ensures dropped == old(dropped) && flushFailures == old(flushFailures)
    {
      hide Merge;
      var rest := deltas;
      while rest != map[]
        invariant Merge(pending, rest) == Merge(old(pending), deltas)
        invariant dropped == old(dropped) && flushFailures == old(flushFailures)
        decreases |rest|
      {
        var k :| k in rest;
        MergeOneEntry(pending, rest, k);
        RemovalShrinks(rest, k);
        pending := pending[k := Get(pending, k) + rest[k]];
        rest := rest - {k};
      }
      MergeEmpty(pending);
    }
  }

  /** `part` holds some of the entries of `whole`. */
  ghost predicate Part(part: Deltas, whole: Deltas) {
    forall k :: k in part ==> k in whole && part[k] == whole[k]
  }

  lemma MergeEmpty(m: Deltas)
    ensures Merge(map[], m) == m == Merge(m, map[])
  {
  }

  lemma RemovalShrinks(entries: Deltas, k: Bucket)
    requires k in entries
    ensures |entries - {k}| < |entries|
  {
    var rest := entries - {k};
    assert rest.Keys == entries.Keys - {k};
    assert |rest.Keys| == |rest|;
  }

  lemma MergeOneEntry(counts: Deltas, entries: Deltas, k: Bucket)
    requires k in entries
    ensures Merge(counts[k := Get(counts, k) + entries[k]], entries - {k}) == Merge(counts, entries)
  {
    var rest := entries - {k};
    var next := counts[k := Get(counts, k) + entries[k]];
    assert next.Keys + rest.Keys == counts.Keys + entries.Keys;
    assert forall b :: Get(next, b) + Get(rest, b) == Get(counts, b) + Get(entries, b);
  }

  // ---- Interleaved bumps and flush tasks ----

  /**
   `inFlight[f]` is what flush task `f` has taken and not yet written. `dropped` and
   `bumps` are ledgers of the increments refused and of all increments made.
   */
  datatype State = State(
    pending: Deltas,
    inFlight: seq<Deltas>,
    persisted: Deltas,
    dropped: multiset<Bucket>,
    bumps: multiset<Bucket>)

  /** One lock-protected section or one database write. */
  datatype Action =
    | BumpOne(k: Bucket)
    | Take(f: nat)
    | Write(f: nat, k: Bucket)
    | GiveUp(f: nat)

  function Init(tasks: nat): State {
    State(map[], seq(tasks, _ => map[]), map[], multiset{}, multiset{})
  }

  /** An action that is not enabled leaves the state alone. */
  function Apply(s: State, a: Action): State {
    match a
    case BumpOne(k) =>
      if Admits(s.pending, k)
      then s.(pending := s.pending[k := Get(s.pending, k) + 1], bumps := s.bumps + multiset{k})
      else s.(dropped := s.dropped + multiset{k}, bumps := s.bumps + multiset{k})
    case Take(f) =>
      if f < |s.inFlight| && s.inFlight[f] == map[]
      then s.(pending := map[], inFlight := s.inFlight[f := s.pending])
      else s
    case Write(f, k) =>
      if f < |s.inFlight| && k in s.inFlight[f]
      then s.(persisted := s.persisted[k := Get(s.persisted, k) + s.inFlight[f][k]],
              inFlight := s.inFlight[f := s.inFlight[f] - {k}])
      else s
    case GiveUp(f) =>
      if f < |s.inFlight|
      then s.(pending := Merge(s.pending, s.inFlight[f]), inFlight := s.inFlight[f := map[]])
      else s
  }

  function Exec(s: State, actions: seq<Action>): State
    decreases |actions|
  {
    if actions == [] then s else Exec(Apply(s, actions[0]), actions[1..])
  }

  function Held(inFlight: seq<Deltas>, k: Bucket): nat {
    if inFlight == [] then 0 else Get(inFlight[0], k) + Held(inFlight[1..], k)
  }

  /** Where the increments of bucket `k` are. */
  ghost predicate Conserved(s: State, k: Bucket) {
    Get(s.persisted, k) + Held(s.inFlight, k) + Get(s.pending, k) + s.dropped[k] == s.bumps[k]
  }

  lemma {:induction false} HeldUpdate(inFlight: seq<Deltas>, f: nat, m: Deltas, k: Bucket)
    requires f < |inFlight|
    ensures Held(inFlight[f := m], k) == Held(inFlight, k) - Get(inFlight[f], k) + Get(m, k)
  {
    if f > 0 {
      HeldUpdate(inFlight[1..], f - 1, m, k);
      assert inFlight[f := m][1..] == inFlight[1..][f - 1 := m];
    } else {
      assert inFlight[f := m][1..] == inFlight[1..];
    }
  }

  lemma {:induction false} IdleHoldsNothing(inFlight: seq<Deltas>, k: Bucket)
    requires forall f :: 0 <= f < |inFlight| ==> inFlight[f] == map[]
    ensures Held(inFlight, k) == 0
  {
    if inFlight != [] {
      IdleHoldsNothing(inFlight[1..], k);
    }
  }

  lemma ApplyConserves(s: State, a: Action, k: Bucket)
    requires Conserved(s, k)
    ensures Conserved(Apply(s, a), k)
  {
    if !a.BumpOne? && a.f < |s.inFlight| {
      HeldUpdate(s.inFlight, a.f, Apply(s, a).inFlight[a.f], k);
    }
  }

  lemma {:induction false} ExecConserves(s: State, actions: seq<Action>, k: Bucket)
    requires Conserved(s, k)
    ensures Conserved(Exec(s, actions), k)
    decreases |actions|
  {
    if actions != [] {
      ApplyConserves(s, actions[0], k);
      ExecConserves(Apply(s, actions[0]), actions[1..], k);
    }
  }

  /** No interleaving of bumps, takes, writes and failed flushes loses or repeats an increment. */
  lemma EveryBumpIsAccountedFor(tasks: nat, actions: seq<Action>, k: Bucket)
    ensures var s := Exec(Init(tasks), actions);
            Get(s.persisted, k) + Held(s.inFlight, k) + Get(s.pending, k) + s.dropped[k] == s.bumps[k]
  {
    IdleHoldsNothing(Init(tasks).inFlight, k);
    ExecConserves(Init(tasks), actions, k);
  }

  /** A task writing out the listed buckets one after the other. */
  function WriteAll(f: nat, keys: seq<Bucket>): seq<Action> {
    seq(|keys|, i requires 0 <= i < |keys| => Write(f, keys[i]))
  }

  lemma {:induction false} WritesEmptyTheTask(s: State, f: nat, keys: seq<Bucket>)
    requires f < |s.inFlight| && forall k :: k in s.inFlight[f] ==> k in keys
    ensures var t := Exec(s, WriteAll(f, keys));
            && t.pending == s.pending && t.dropped == s.dropped && t.bumps == s.bumps
            && t.inFlight == s.inFlight[f := map[]]
    decreases |keys|
  {
    if keys == [] {
      assert s.inFlight[f] == map[];
      assert s.inFlight[f := map[]] == s.inFlight;
    } else {
      var t := Apply(s, Write(f, keys[0]));
      assert WriteAll(f, keys)[1..] == WriteAll(f, keys[1..]);
      forall k | k in t.inFlight[f] ensures k in keys[1..] {
        assert k in keys && k != keys[0];
      }
      WritesEmptyTheTask(t, f, keys[1..]);
      assert t.inFlight[f := map[]] == s.inFlight[f := map[]];
    }
  }

  /** After any history, a flush that succeeds while no other is under way leaves nothing unpersisted. */
  lemma SuccessfulFlushPersistsTheRemainder(tasks: nat, actions: seq<Action>, f: nat, keys: seq<Bucket>, k: Bucket)
    requires f < tasks
    requires var s := Exec(Init(tasks), actions);
             && |s.inFlight| == tasks
             && (forall i :: 0 <= i < tasks ==> s.inFlight[i] == map[])
             && (forall b :: b in s.pending ==> b in keys)
    ensures var t := Exec(Apply(Exec(Init(tasks), actions), Take(f)), WriteAll(f, keys));
            t.pending == map[] && Get(t.persisted, k) + t.dropped[k] == t.bumps[k]
  {
    var s := Exec(Init(tasks), actions);
    var taken := Apply(s, Take(f));
    var t := Exec(taken, WriteAll(f, keys));
    EveryBumpIsAccountedFor(tasks, actions, k);
    ApplyConserves(s, Take(f), k);
    ExecConserves(taken, WriteAll(f, keys), k);
    WritesEmptyTheTask(taken, f, keys);
    IdleHoldsNothing(t.inFlight, k);
  }

  // ---- A flush that nothing interrupts does what Flush promises ----

  /** A bump at the backstop of 4096 buckets is dropped if its bucket is new, and counted otherwise. */
  lemma BumpUninterrupted(s: State, k: Bucket)
    ensures var t := Apply(s, BumpOne(k));
      if |s.pending| >= 4096 && k !in s.pending
      then t == s.(dropped := s.dropped + multiset{k}, bumps := s.bumps + multiset{k})
      else && t.dropped == s.dropped && t.bumps == s.bumps + multiset{k}
           && t.pending == s.pending[k := 1 + if k in s.pending then s.pending[k] else 0]
  {
  }

  lemma {:induction false} WritesMove(s: State, f: nat, keys: seq<Bucket>)
    requires f < |s.inFlight|
    ensures var t := Exec(s, WriteAll(f, keys));
      && t.pending == s.pending && |t.inFlight| == |s.inFlight|
      && Merge(t.persisted, t.inFlight[f]) == Merge(s.persisted, s.inFlight[f])
    decreases |keys|
  {
    hide Merge;
    if keys != [] {
      assert WriteAll(f, keys)[1..] == WriteAll(f, keys[1..]);
      if keys[0] in s.inFlight[f] {
        MergeOneEntry(s.persisted, s.inFlight[f], keys[0]);
      }
      WritesMove(Apply(s, Write(f, keys[0])), f, keys[1..]);
    }
  }

  /** Success moves the buffer into the table. */
  lemma FlushUninterrupted(s: State, f: nat, keys: seq<Bucket>)
    requires f < |s.inFlight| && s.inFlight[f] == map[] && forall k :: k in s.pending ==> k in keys
    ensures var t := Exec(Apply(s, Take(f)), WriteAll(f, keys));
      && |t.inFlight| == |s.inFlight| && t.inFlight[f] == map[] && t.pending == map[]
      && t.persisted == Merge(s.persisted, s.pending)
  {
    hide Merge;
    var taken := Apply(s, Take(f));
    WritesMove(taken, f, keys);
    WritesEmptyTheTask(taken, f, keys);
    MergeEmpty(Exec(taken, WriteAll(f, keys)).persisted);
  }

  /** A failure after any of the writes keeps the rest pending. */
  lemma FailedFlushUninterrupted(s: State, f: nat, written: seq<Bucket>)
    requires f < |s.inFlight| && s.inFlight[f] == map[]
    ensures var t := Apply(Exec(Apply(s, Take(f)), WriteAll(f, written)), GiveUp(f));
      && |t.inFlight| == |s.inFlight| && t.inFlight[f] == map[]
      && Merge(t.persisted, t.pending) == Merge(s.persisted, s.pending)
  {
    hide Merge;
    var taken := Apply(s, Take(f));
    WritesMove(taken, f, written);
    MergeEmpty(Exec(taken, WriteAll(f, written)).inFlight[f]);
  }
}
