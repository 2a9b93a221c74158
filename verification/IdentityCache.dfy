/**
 The identity cache of the proxy's hot path (`IdentityCache` in
 crates/ruscker-admin/src/lib.rs) and the fill, mutate and read protocols around it.

 The class is the code. The transition system interleaves any number of fills,
 mutations and reads at the granularity of one atomic operation each.
 */
module IdentityCaching {
  import opened Wrappers

  /** One cached value of type `V`: its fill generation, when it was stored, and the value. */
  datatype Entry<V> = Entry(generation: nat, filledAt: nat, value: V)

  /** An entry may be served while its generation is current and it is younger than the TTL. */
  predicate Servable<V>(e: Entry<V>, generation: nat, now: nat, ttl: nat) {
    e.generation == generation && now < e.filledAt + ttl
  }

  /** A stored value is served for exactly the TTL, until the next invalidation. */
  lemma ServedForTheTtl<V>(snapshot: nat, at: nat, v: V, generation: nat, now: nat, ttl: nat)
    ensures Servable(Entry(snapshot, at, v), generation, now, ttl) <==> snapshot == generation && now - at < ttl
  {
  }

  class IdentityCache<V> {
    var entries: map<string, Entry<V>>
    var generation: nat

    constructor ()
      ensures entries == map[] && generation == 0
    {
      entries, generation := map[], 0;
    }

    method Get(user: string, ttl: nat, now: nat) returns (r: Option<V>)
      ensures r.Some? <==>
                user in entries && entries[user].generation == generation && now < entries[user].filledAt + ttl
      ensures r.Some? ==> r.value == entries[user].value
    {
      if user !in entries {
        return None;
      }
      var e := entries[user];
      return if e.generation == generation && now < e.filledAt + ttl then Some(e.value) else None;
    }

    method Store(snapshot: nat, user: string, value: V, now: nat)
      modifies this
      ensures entries == old(entries)[user := Entry(snapshot, now, value)]
      ensures generation == old(generation)
    {
      entries := entries[user := Entry(snapshot, now, value)];
    }

    /** Nothing stored so far can be served again, nor anything whose fill has already begun. */
    method Invalidate()
      requires forall u :: u in entries ==> entries[u].generation <= generation
      modifies this
      ensures generation == old(generation) + 1 && entries == map[]
      ensures forall snapshot: nat, at: nat, now: nat, ttl: nat, v: V ::
        snapshot <= old(generation) ==> !Servable(Entry(snapshot, at, v), generation, now, ttl)
    {
      generation := generation + 1;
      entries := map[];
    }
  }

  // ---- Fills, mutations and reads in any interleaving ----

  /** A database read: the version it returned and the step at which it began. */
  datatype Read = Read(version: nat, begun: nat)

  /** A fill snapshots the generation, then begins its read, then gets the row, then stores it. */
  datatype Fill =
    | Snapshotted(generation: nat)
    | Reading(generation: nat, begun: nat)
    | Fetched(generation: nat, read: Read)

  /** A reader has copied an entry and will compare its generation next. */
  datatype Reader = Reader(entry: Option<Entry<Read>>)

  /**
   One user's identity. `version` counts the writes to its row, `covered` is the newest version
   whose writer has bumped the generation, `lastBump` the step of the latest bump. `served` is
   the ledger of the answers handed out from the cache.
   */
  datatype State = State(
    step: nat,
    version: nat,
    covered: nat,
    lastBump: nat,
    generation: nat,
    entry: Option<Entry<Read>>,
    fills: map<nat, Fill>,
    writers: map<nat, nat>,
    readers: map<nat, Reader>,
    served: seq<Read>)

  datatype Action =
    | Snapshot(f: nat)
    | BeginRead(f: nat)
    | FetchRow(f: nat)
    | StoreFill(f: nat)
    | WriteRow(w: nat)
    | Bump(w: nat)
    | BumpForOtherUser
    | Clear
    | LookUp(r: nat)
    | Compare(r: nat, young: bool)

  const Init := State(1, 0, 0, 0, 0, None, map[], map[], map[], [])

  function Effect(s: State, a: Action): State {
    match a
    case Snapshot(f) => s.(fills := s.fills[f := Snapshotted(s.generation)])
    case BeginRead(f) =>
      if f in s.fills && s.fills[f].Snapshotted?
      then s.(fills := s.fills[f := Reading(s.fills[f].generation, s.step)]) else s
    case FetchRow(f) =>
      if f in s.fills && s.fills[f].Reading?
      then s.(fills := s.fills[f := Fetched(s.fills[f].generation, Read(s.version, s.fills[f].begun))]) else s
    case StoreFill(f) =>
      if f in s.fills && s.fills[f].Fetched?
      then s.(entry := Some(Entry(s.fills[f].generation, s.step, s.fills[f].read)), fills := s.fills - {f}) else s
    case WriteRow(w) => s.(version := s.version + 1, writers := s.writers[w := s.version + 1])
    case Bump(w) =>
      if w in s.writers
      then s.(generation := s.generation + 1, lastBump := s.step, covered := Max(s.covered, s.writers[w]),
              writers := s.writers - {w})
      else s
    case BumpForOtherUser => s.(generation := s.generation + 1, lastBump := s.step)
    case Clear => s.(entry := None)
    case LookUp(r) => s.(readers := s.readers[r := Reader(s.entry)])
    case Compare(r, young) =>
      if r in s.readers && s.readers[r].entry.Some? && s.readers[r].entry.value.generation == s.generation && young
      then s.(served := s.served + [s.readers[r].entry.value.value], readers := s.readers - {r})
      else s.(readers := s.readers - {r})
  }

  function Apply(s: State, a: Action): State {
    var t := Effect(s, a);
    t.(step := s.step + 1)
  }

  function Exec(s: State, actions: seq<Action>): State
    decreases |actions|
  {
    if actions == [] then s else Exec(Apply(s, actions[0]), actions[1..])
  }

  /** A read is current when it began after the latest bump and saw every write bumped so far. */
  ghost predicate Current(s: State, r: Read) {
    r.begun > s.lastBump && r.version >= s.covered
  }

  ghost predicate FillInv(s: State, f: Fill) {
    && f.generation <= s.generation
    && (f.Reading? && f.generation == s.generation ==> f.begun > s.lastBump)
    && (f.Fetched? && f.generation == s.generation ==> Current(s, f.read))
  }

  ghost predicate EntryInv(s: State, e: Option<Entry<Read>>) {
    e.Some? ==> e.value.generation <= s.generation && (e.value.generation == s.generation ==> Current(s, e.value.value))
  }

  ghost predicate Inv(s: State) {
    && s.lastBump < s.step && s.covered <= s.version
    && (forall w :: w in s.writers ==> s.writers[w] <= s.version)
    && (forall f :: f in s.fills ==> FillInv(s, s.fills[f]))
    && (forall r :: r in s.readers ==> EntryInv(s, s.readers[r].entry))
    && EntryInv(s, s.entry)
  }

  lemma FillStep(s: State, a: Action, f: nat)
    requires Inv(s) && f in Apply(s, a).fills
    ensures FillInv(Apply(s, a), Apply(s, a).fills[f])
  {
    assert f in s.fills ==> FillInv(s, s.fills[f]);
  }

  lemma ReaderStep(s: State, a: Action, r: nat)
    requires Inv(s) && r in Apply(s, a).readers
    ensures EntryInv(Apply(s, a), Apply(s, a).readers[r].entry)
  {
    assert r in s.readers ==> EntryInv(s, s.readers[r].entry);
  }

  /** What one step does to the ledger: at most one answer, and that one current. */
  ghost predicate Grows(s: State, t: State) {
    && s.covered <= t.covered && s.lastBump <= t.lastBump
    && |s.served| <= |t.served| <= |s.served| + 1
    && (forall k :: 0 <= k < |s.served| ==> t.served[k] == s.served[k])
    && (|s.served| < |t.served| ==> Current(t, t.served[|s.served|]))
  }

  lemma ScalarStep(s: State, a: Action)
    requires Inv(s)
    ensures var t := Apply(s, a);
      && t.lastBump < t.step && t.covered <= t.version && EntryInv(t, t.entry) && Grows(s, t)
      && forall w :: w in t.writers ==> t.writers[w] <= t.version
  {
    if a.StoreFill? && a.f in s.fills { assert FillInv(s, s.fills[a.f]); }
    if a.Compare? && a.r in s.readers { assert EntryInv(s, s.readers[a.r].entry); }
  }

  lemma StepKeepsInv(s: State, a: Action)
    requires Inv(s)
    ensures Inv(Apply(s, a)) && Grows(s, Apply(s, a))
  {
    var t := Apply(s, a);
    ScalarStep(s, a);
    hide Apply, Effect, FillInv, EntryInv, Grows;
    forall f | f in t.fills ensures FillInv(t, t.fills[f]) {
      FillStep(s, a, f);
    }
    forall r | r in t.readers ensures EntryInv(t, t.readers[r].entry) {
      ReaderStep(s, a, r);
    }
  }

  /** Answer number `k` of `t`, if handed out after `s`, is current as of `s`. */
  ghost predicate CurrentSince(s: State, t: State, k: nat) {
    && |s.served| <= |t.served|
    && (|s.served| <= k < |t.served| ==> Current(s, t.served[k]))
    && (k < |s.served| ==> t.served[k] == s.served[k])
  }

  lemma GrowsThenCurrent(s: State, next: State, t: State, k: nat)
    requires Grows(s, next) && CurrentSince(next, t, k)
    ensures CurrentSince(s, t, k)
  {
  }

  lemma {:induction false} ExecServesCurrent(s: State, actions: seq<Action>, k: nat)
    requires Inv(s)
    ensures CurrentSince(s, Exec(s, actions), k)
    decreases |actions|
  {
    if actions != [] {
      hide Apply, Inv;
      StepKeepsInv(s, actions[0]);
      ExecServesCurrent(Apply(s, actions[0]), actions[1..], k);
      GrowsThenCurrent(s, Apply(s, actions[0]), Exec(s, actions), k);
    }
  }

  lemma {:induction false} ExecKeepsInv(s: State, actions: seq<Action>)
    requires Inv(s)
    ensures Inv(Exec(s, actions))
    decreases |actions|
  {
    if actions != [] {
      StepKeepsInv(s, actions[0]);
      ExecKeepsInv(Apply(s, actions[0]), actions[1..]);
    }
  }

  /**
   Once a mutation's invalidation has bumped the generation, whatever else is in flight, every
   identity served from the cache was read after that bump began and saw that mutation.
   */
  lemma NothingStaleAfterInvalidation(before: seq<Action>, w: nat, after: seq<Action>, k: nat)
    requires w in Exec(Init, before).writers
    requires var s, t := Exec(Init, before), Exec(Apply(Exec(Init, before), Bump(w)), after);
             |s.served| <= k < |t.served|
    ensures var s, t := Exec(Init, before), Exec(Apply(Exec(Init, before), Bump(w)), after);
            t.served[k].begun > s.step && t.served[k].version >= s.writers[w]
  {
    ExecKeepsInv(Init, before);
    StepKeepsInv(Exec(Init, before), Bump(w));
    ExecServesCurrent(Apply(Exec(Init, before), Bump(w)), after, k);
  }

  // ---- An operation that nothing interrupts does what its method promises ----

  lemma GetUninterrupted(s: State, r: nat, young: bool)
    ensures var t := Apply(Apply(s, LookUp(r)), Compare(r, young));
      && t.entry == s.entry && t.generation == s.generation
      && t.served == s.served + (if s.entry.Some? && s.entry.value.generation == s.generation && young
                                 then [s.entry.value.value] else [])
  {
  }

  lemma StoreUninterrupted(s: State, f: nat)
    ensures var t := Apply(Apply(Apply(Apply(s, Snapshot(f)), BeginRead(f)), FetchRow(f)), StoreFill(f));
      t.entry == Some(Entry(s.generation, s.step + 3, Read(s.version, s.step + 1))) && t.generation == s.generation
  {
  }

  lemma InvalidateUninterrupted(s: State, w: nat)
    requires w in s.writers
    ensures var t := Apply(Apply(s, Bump(w)), Clear); t.entry == None && t.generation == s.generation + 1
  {
  }
}
