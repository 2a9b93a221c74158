/**
 The effective spec catalog and its signature-validated cache
 (crates/ruscker-admin/src/catalog.rs).
 */
module Catalogs {
  import opened Wrappers

  /** A spec, reduced to its id and an opaque body. */
  datatype Spec = Spec(id: string, body: string)

  type Catalog = seq<Spec>

  function Ids(specs: Catalog): set<string> {
    set s | s in specs :: s.id
  }

  /** The specs of `yaml` whose id the database does not have, in order. */
  function Unshadowed(yaml: Catalog, dbIds: set<string>): Catalog {
    if yaml == [] then []
    else (if yaml[0].id in dbIds then [] else [yaml[0]]) + Unshadowed(yaml[1..], dbIds)
  }

  /** The database catalog followed by the YAML specs it does not shadow. */
  function Union(db: Catalog, yaml: Catalog): Catalog {
    db + Unshadowed(yaml, Ids(db))
  }

  /** The answer of the database's list call; a failure falls back to the YAML. */
  method EffectiveSpecs(listed: Option<Catalog>, yaml: Catalog) returns (out: Catalog)
    ensures out == if listed.Some? then Union(listed.value, yaml) else yaml
  {
    match listed {
      case None => out := yaml;
      case Some(dbSpecs) =>
        var dbIds := set s | s in dbSpecs :: s.id;
        out := dbSpecs;
        for i := 0 to |yaml|
          invariant out + Unshadowed(yaml[i..], dbIds) == Union(dbSpecs, yaml)
        {
          assert yaml[i..][1..] == yaml[i + 1..];
          if yaml[i].id !in dbIds {
            out := out + [yaml[i]];
          }
        }
    }
  }

  ghost predicate Distinct(specs: Catalog) {
    forall i, j :: 0 <= i < j < |specs| ==> specs[i].id != specs[j].id
  }

  lemma {:induction false} UnshadowedMembers(yaml: Catalog, dbIds: set<string>, s: Spec)
    ensures s in Unshadowed(yaml, dbIds) <==> s in yaml && s.id !in dbIds
  {
    if yaml != [] {
      UnshadowedMembers(yaml[1..], dbIds, s);
    }
  }

  lemma {:induction false} UnshadowedDistinct(yaml: Catalog, dbIds: set<string>)
    requires Distinct(yaml)
    ensures Distinct(Unshadowed(yaml, dbIds))
  {
    if yaml != [] {
      var rest := Unshadowed(yaml[1..], dbIds);
      UnshadowedDistinct(yaml[1..], dbIds);
      forall i | 0 <= i < |rest| ensures rest[i].id != yaml[0].id {
        UnshadowedMembers(yaml[1..], dbIds, rest[i]);
      }
    }
  }

  /** The union keeps every id of either side, resolves a shared id to the database, and repeats none. */
  lemma UnionShadows(db: Catalog, yaml: Catalog, s: Spec)
    requires Distinct(db) && Distinct(yaml)
    ensures Distinct(Union(db, yaml)) && db <= Union(db, yaml)
    ensures Ids(Union(db, yaml)) == Ids(db) + Ids(yaml)
    ensures s in Union(db, yaml) <==> s in db || (s in yaml && s.id !in Ids(db))
  {
    var extra := Unshadowed(yaml, Ids(db));
    UnshadowedDistinct(yaml, Ids(db));
    forall x: Spec ensures x in extra <==> x in yaml && x.id !in Ids(db) {
      UnshadowedMembers(yaml, Ids(db), x);
    }
    forall i, j | 0 <= i < |db| && 0 <= j < |extra| ensures db[i].id != extra[j].id {
      assert extra[j] in extra && db[i] in db;
    }
    forall id | id in Ids(yaml) ensures id in Ids(Union(db, yaml)) {
      var x :| x in yaml && x.id == id;
      assert x in Union(db, yaml) || id in Ids(db);
    }
  }

  // ---- The `specs` table and its signature ----

  datatype Row = Row(spec: Spec, version: nat, updatedAt: int)

  function Specs(rows: seq<Row>): Catalog {
    seq(|rows|, i requires 0 <= i < |rows| => rows[i].spec)
  }

  /** Insert at version one, or bump the version of a changed row; an unchanged row is not written. */
  function Upsert(rows: seq<Row>, spec: Spec, now: int): seq<Row> {
    if rows == [] then [Row(spec, 1, now)]
    else if rows[0].spec == spec then rows
    else if rows[0].spec.id == spec.id then [Row(spec, rows[0].version + 1, now)] + rows[1..]
    else [rows[0]] + Upsert(rows[1..], spec, now)
  }

  /** An import writes its specs at one time, given here by id, as rows of one instant are listed. */
  function UpsertAll(rows: seq<Row>, specs: Catalog, now: int): seq<Row>
    decreases |specs|
  {
    if specs == [] then rows else UpsertAll(Upsert(rows, specs[0], now), specs[1..], now)
  }

  /** Archiving rewrites the body and bumps the version, and leaves `updated_at` alone. */
  function Archive(rows: seq<Row>, id: string, body: string): seq<Row> {
    if rows == [] then []
    else if rows[0].spec.id != id then [rows[0]] + Archive(rows[1..], id, body)
    else if rows[0].spec.body == body then rows
    else [Row(Spec(id, body), rows[0].version + 1, rows[0].updatedAt)] + rows[1..]
  }

  function Delete(rows: seq<Row>, id: string): seq<Row> {
    if rows == [] then []
    else if rows[0].spec.id == id then rows[1..]
    else [rows[0]] + Delete(rows[1..], id)
  }

  /** Row count, sum of the versions, newest `updated_at`. */
  datatype Signature = Signature(count: nat, versions: nat, newest: Option<int>)

  function SignatureOf(rows: seq<Row>): Signature {
    if rows == [] then Signature(0, 0, None)
    else
      var rest := SignatureOf(rows[1..]);
      Signature(rest.count + 1, rest.versions + rows[0].version,
                Some(if rest.newest.Some? then Max(rest.newest.value, rows[0].updatedAt) else rows[0].updatedAt))
  }

  datatype CacheSlot = CacheSlot(signature: Signature, catalog: Catalog)

  class CatalogCache {
    var slot: Option<CacheSlot>

    constructor ()
      ensures slot == None
    {
      slot := None;
    }

    /**
     The cached read when nothing interleaves. `signature` and `listed` are the database's
     answers, `None` when the query fails. A failed list is cached like any other.
     */
    method EffectiveSpecsCached(signature: Option<Signature>, listed: Option<Catalog>, yaml: Catalog)
      returns (specs: Catalog)
      modifies this
      ensures signature.Some? && old(slot).Some? && old(slot).value.signature == signature.value ==>
                specs == old(slot).value.catalog && slot == old(slot)
      ensures !(signature.Some? && old(slot).Some? && old(slot).value.signature == signature.value) ==>
                && specs == (if listed.Some? then Union(listed.value, yaml) else yaml)
                && slot == (if signature.Some? then Some(CacheSlot(signature.value, specs)) else old(slot))
    {
      if signature.None? {
        specs := EffectiveSpecs(listed, yaml);
        return;
      }
      if slot.Some? && slot.value.signature == signature.value {
        return slot.value.catalog;
      }
      specs := EffectiveSpecs(listed, yaml);
      slot := Some(CacheSlot(signature.value, specs));
    }
  }

  // ---- The cached read against a table that keeps changing ----

  /** A request has read the signature of version `at`; it may then have listed a version, or failed to. */
  datatype Request =
    | SignatureRead(signature: Signature, at: nat)
    | Listed(signature: Signature, at: nat, listed: Option<nat>)

  /** The cached answer; the fill that stored it read the signature of version `of` and listed `listed`. */
  datatype Filled = Filled(slot: CacheSlot, of: nat, listed: Option<nat>)

  /**
   An answered request: the versions current when its signature was read and when it returned, and
   the fill its answer comes from, which is its own unless it hit the cache.
   */
  datatype Answer = Answer(at: nat, until: nat, catalog: Catalog, hit: bool, of: nat, listed: Option<nat>)

  /** `history` is every content the table has had, the last being current. */
  datatype State = State(
    history: seq<seq<Row>>,
    cache: Option<Filled>,
    requests: map<nat, Request>,
    answers: seq<Answer>)

  datatype Action =
    | Save(specs: Catalog, now: int)
    | SetState(id: string, body: string)
    | Drop(id: string)
    | ReadSignature(r: nat)
    | ReadCache(r: nat)
    | ListDb(r: nat, ok: bool)
    | FillCache(r: nat)

  const Init := State([[]], None, map[], [])

  function Version(s: State): nat {
    if |s.history| == 0 then 0 else |s.history| - 1
  }

  function Table(s: State): seq<Row> {
    if |s.history| == 0 then [] else s.history[|s.history| - 1]
  }

  function Write(s: State, rows: seq<Row>): State {
    if rows == Table(s) then s else s.(history := s.history + [rows])
  }

  /** What listing this version builds; a failed list leaves the YAML. */
  function Listing(yaml: Catalog, history: seq<seq<Row>>, listed: Option<nat>): Catalog {
    if listed.Some? && listed.value < |history| then Union(Specs(history[listed.value]), yaml) else yaml
  }

  function Apply(yaml: Catalog, s: State, a: Action): State {
    match a
    case Save(specs, now) => Write(s, UpsertAll(Table(s), specs, now))
    case SetState(id, body) => Write(s, Archive(Table(s), id, body))
    case Drop(id) => Write(s, Delete(Table(s), id))
    case ReadSignature(r) =>
      s.(requests := s.requests[r := SignatureRead(SignatureOf(Table(s)), Version(s))])
    case ReadCache(r) =>
      if r in s.requests && s.requests[r].SignatureRead?
         && s.cache.Some? && s.cache.value.slot.signature == s.requests[r].signature
      then
        var c := s.cache.value;
        s.(answers := s.answers + [Answer(s.requests[r].at, Version(s), c.slot.catalog, true, c.of, c.listed)],
           requests := s.requests - {r})
      else s
    case ListDb(r, ok) =>
      if r in s.requests && s.requests[r].SignatureRead?
      then
        var q := s.requests[r];
        s.(requests := s.requests[r := Listed(q.signature, q.at, if ok then Some(Version(s)) else None)])
      else s
    case FillCache(r) =>
      if r in s.requests && s.requests[r].Listed?
      then
        var q := s.requests[r];
        var specs := Listing(yaml, s.history, q.listed);
        s.(cache := Some(Filled(CacheSlot(q.signature, specs), q.at, q.listed)),
           answers := s.answers + [Answer(q.at, Version(s), specs, false, q.at, q.listed)],
           requests := s.requests - {r})
      else s
  }

  function Exec(yaml: Catalog, s: State, actions: seq<Action>): State
    decreases |actions|
  {
    if actions == [] then s else Exec(yaml, Apply(yaml, s, actions[0]), actions[1..])
  }

  // ---- What a table may turn into while its signature comes back ----

  /** The rows last saved no later than `newest`. */
  function Aged(rows: seq<Row>, newest: Option<int>): seq<Row> {
    if rows == [] then []
    else (if newest.Some? && rows[0].updatedAt <= newest.value then [rows[0]] else []) + Aged(rows[1..], newest)
  }

  /** The same row, or the same row archived in between. */
  predicate Bumped(x: Row, y: Row) {
    x == y || (x.version < y.version && x.updatedAt == y.updatedAt)
  }

  /** `ys` is `xs` with rows deleted and rows archived. */
  predicate Thinned(xs: seq<Row>, ys: seq<Row>) {
    ys == [] || (xs != [] && ((Bumped(xs[0], ys[0]) && Thinned(xs[1..], ys[1..])) || Thinned(xs[1..], ys)))
  }

  lemma {:induction false} ThinnedRefl(xs: seq<Row>)
    ensures Thinned(xs, xs)
  {
    if xs != [] {
      ThinnedRefl(xs[1..]);
    }
  }

  lemma {:induction false} ThinnedTrans(xs: seq<Row>, ys: seq<Row>, zs: seq<Row>)
    requires Thinned(xs, ys) && Thinned(ys, zs)
    ensures Thinned(xs, zs)
    decreases |xs| + |ys|
  {
    if zs != [] {
      if Thinned(xs[1..], ys) {
        ThinnedTrans(xs[1..], ys, zs);
      } else if Thinned(ys[1..], zs) {
        ThinnedTrans(xs[1..], ys[1..], zs);
      } else {
        ThinnedTrans(xs[1..], ys[1..], zs[1..]);
      }
    }
  }

  lemma ThinnedTails(head: seq<Row>, xs: seq<Row>, ys: seq<Row>)
    requires |head| <= 1 && Thinned(xs, ys)
    ensures Thinned(head + xs, head + ys) && Thinned(head + xs, ys)
  {
    if head != [] {
      assert (head + xs)[1..] == xs && (head + ys)[1..] == ys;
    } else {
      assert head + xs == xs && head + ys == ys;
    }
  }

  /** The first row, if it is aged. */
  function AgedHead(rows: seq<Row>, newest: Option<int>): seq<Row>
    requires rows != []
  {
    if newest.Some? && rows[0].updatedAt <= newest.value then [rows[0]] else []
  }

  lemma {:induction false} UpsertThins(rows: seq<Row>, spec: Spec, now: int, newest: Option<int>)
    requires Before(newest, now)
    ensures Thinned(Aged(rows, newest), Aged(Upsert(rows, spec, now), newest))
  {
    ThinnedRefl(Aged(rows, newest));
    if rows != [] && rows[0].spec != spec {
      var head, rest := AgedHead(rows, newest), Aged(rows[1..], newest);
      if rows[0].spec.id != spec.id {
        UpsertThins(rows[1..], spec, now, newest);
        assert Upsert(rows, spec, now)[1..] == Upsert(rows[1..], spec, now);
        ThinnedTails(head, rest, Aged(Upsert(rows[1..], spec, now), newest));
      } else {
        assert Upsert(rows, spec, now)[1..] == rows[1..];
        assert Aged(Upsert(rows, spec, now), newest) == rest;
        ThinnedRefl(rest);
        ThinnedTails(head, rest, rest);
      }
    }
  }

  lemma {:induction false} UpsertAllThins(rows: seq<Row>, specs: Catalog, now: int, newest: Option<int>)
    requires Before(newest, now)
    ensures Thinned(Aged(rows, newest), Aged(UpsertAll(rows, specs, now), newest))
    decreases |specs|
  {
    if specs == [] {
      ThinnedRefl(Aged(rows, newest));
    } else {
      var first := Upsert(rows, specs[0], now);
      UpsertThins(rows, specs[0], now, newest);
      UpsertAllThins(first, specs[1..], now, newest);
      ThinnedTrans(Aged(rows, newest), Aged(first, newest), Aged(UpsertAll(rows, specs, now), newest));
    }
  }

  lemma ThinnedPair(x: seq<Row>, y: seq<Row>, rest: seq<Row>)
    requires |x| == |y| <= 1 && (x != [] ==> Bumped(x[0], y[0])) && Thinned(rest, rest)
    ensures Thinned(x + rest, y + rest)
  {
    if x != [] {
      assert (x + rest)[1..] == rest && (y + rest)[1..] == rest;
    } else {
      assert x + rest == rest && y + rest == rest;
    }
  }

  lemma {:induction false} ArchiveThins(rows: seq<Row>, id: string, body: string, newest: Option<int>)
    ensures Thinned(Aged(rows, newest), Aged(Archive(rows, id, body), newest))
  {
    ThinnedRefl(Aged(rows, newest));
    if rows != [] && rows[0].spec.id != id {
      ArchiveThins(rows[1..], id, body, newest);
      assert Archive(rows, id, body)[1..] == Archive(rows[1..], id, body);
      ThinnedTails(AgedHead(rows, newest), Aged(rows[1..], newest), Aged(Archive(rows[1..], id, body), newest));
    } else if rows != [] && rows[0].spec.body != body {
      var after := Archive(rows, id, body);
      ThinnedRefl(Aged(rows[1..], newest));
      assert after[1..] == rows[1..];
      ThinnedPair(AgedHead(rows, newest), AgedHead(after, newest), Aged(rows[1..], newest));
    }
  }

  lemma {:induction false} DeleteThins(rows: seq<Row>, id: string, newest: Option<int>)
    ensures Thinned(Aged(rows, newest), Aged(Delete(rows, id), newest))
  {
    ThinnedRefl(Aged(rows, newest));
    if rows != [] {
      var head, rest := AgedHead(rows, newest), Aged(rows[1..], newest);
      if rows[0].spec.id != id {
        DeleteThins(rows[1..], id, newest);
        assert Delete(rows, id)[1..] == Delete(rows[1..], id);
        ThinnedTails(head, rest, Aged(Delete(rows[1..], id), newest));
      } else {
        ThinnedRefl(rest);
        ThinnedTails(head, rest, rest);
      }
    }
  }

  lemma {:induction false} AllAged(rows: seq<Row>, newest: Option<int>)
    requires rows != [] ==> newest.Some? && SignatureOf(rows).newest.value <= newest.value
    ensures Aged(rows, newest) == rows
  {
    if rows != [] {
      AllAged(rows[1..], newest);
    }
  }

  /** Deleting lowers the count and archiving raises the versions, so neither makes up for the other. */
  lemma {:induction false} ThinnedCounts(xs: seq<Row>, ys: seq<Row>)
    requires Thinned(xs, ys)
    ensures |ys| <= |xs|
    ensures |ys| == |xs| ==> SignatureOf(xs).versions <= SignatureOf(ys).versions
    ensures |ys| == |xs| && SignatureOf(xs).versions == SignatureOf(ys).versions ==> xs == ys
  {
    if ys != [] {
      if Bumped(xs[0], ys[0]) && Thinned(xs[1..], ys[1..]) {
        ThinnedCounts(xs[1..], ys[1..]);
      } else {
        ThinnedCounts(xs[1..], ys);
      }
    }
  }

  lemma {:induction false} CountsRows(rows: seq<Row>)
    ensures SignatureOf(rows).count == |rows|
  {
    if rows != [] {
      CountsRows(rows[1..]);
    }
  }

  /** Later than every save time the table has shown. */
  ghost predicate LaterThanAll(history: seq<seq<Row>>, now: int) {
    forall i :: 0 <= i < |history| ==> Before(SignatureOf(history[i]).newest, now)
  }

  predicate Before(newest: Option<int>, now: int) {
    newest.Some? ==> newest.value < now
  }

  /** Save times strictly increase; everything else is free. */
  ghost predicate Forward(yaml: Catalog, s: State, actions: seq<Action>)
    decreases |actions|
  {
    actions == []
    || ((actions[0].Save? ==> LaterThanAll(s.history, actions[0].now))
        && Forward(yaml, Apply(yaml, s, actions[0]), actions[1..]))
  }

  /** Whatever a later content has kept from an earlier one was deleted from or archived since. */
  ghost predicate Descends(history: seq<seq<Row>>) {
    forall i, j :: 0 <= i <= j < |history| ==> DescendsAt(history, i, j)
  }

  ghost predicate DescendsAt(history: seq<seq<Row>>, i: nat, j: nat)
    requires i < |history| && j < |history|
  {
    Thinned(history[i], Aged(history[j], SignatureOf(history[i]).newest))
  }

  lemma WriteThins(yaml: Catalog, s: State, a: Action, newest: Option<int>)
    requires a.Save? ==> Before(newest, a.now)
    ensures Thinned(Aged(Table(s), newest), Aged(Table(Apply(yaml, s, a)), newest))
  {
    var rows := Table(s);
    ThinnedRefl(Aged(rows, newest));
    match a
    case Save(specs, now) => UpsertAllThins(rows, specs, now, newest);
    case SetState(id, body) => ArchiveThins(rows, id, body, newest);
    case Drop(id) => DeleteThins(rows, id, newest);
    case _ =>
  }

  lemma WriteDescends(yaml: Catalog, s: State, a: Action)
    requires |s.history| > 0 && Descends(s.history) && (a.Save? ==> LaterThanAll(s.history, a.now))
    ensures |Apply(yaml, s, a).history| > 0 && Descends(Apply(yaml, s, a).history)
    ensures s.history <= Apply(yaml, s, a).history
  {
    var t := Apply(yaml, s, a);
    var n := |s.history| - 1;
    assert t.history == s.history || t.history == s.history + [Table(t)];
    forall i, j | 0 <= i <= j < |t.history|
      ensures DescendsAt(t.history, i, j)
    {
      if j <= n {
        assert DescendsAt(s.history, i, j);
      } else if i <= n {
        var newest := SignatureOf(s.history[i]).newest;
        assert DescendsAt(s.history, i, n);
        assert a.Save? ==> Before(newest, a.now);
        WriteThins(yaml, s, a, newest);
        ThinnedTrans(s.history[i], Aged(Table(s), newest), Aged(Table(t), newest));
      } else {
        AllAged(Table(t), SignatureOf(Table(t)).newest);
        ThinnedRefl(Table(t));
      }
    }
  }

  /** A signature that comes back belongs to a table that has come back. */
  lemma SignatureTells(history: seq<seq<Row>>, i: nat, j: nat)
    requires Descends(history) && i < |history| && j < |history|
    requires SignatureOf(history[i]) == SignatureOf(history[j])
    ensures history[i] == history[j]
  {
    var a, b := if i <= j then i else j, if i <= j then j else i;
    assert DescendsAt(history, a, b);
    CountsRows(history[a]);
    CountsRows(history[b]);
    AllAged(history[b], SignatureOf(history[a]).newest);
    ThinnedCounts(history[a], history[b]);
  }

  // ---- When a cached answer is current ----

  /** `catalog` is the union for some content the table had between versions `from` and `until`. */
  ghost predicate HeldBetween(yaml: Catalog, history: seq<seq<Row>>, from: nat, until: nat, catalog: Catalog) {
    exists v :: from <= v <= until && v < |history| && catalog == Listing(yaml, history, Some(v))
  }

  /** The fill listed the content, or one with the same union, whose signature it had read. */
  predicate Honest(yaml: Catalog, history: seq<seq<Row>>, of: nat, listed: Option<nat>) {
    Listing(yaml, history, listed) == Listing(yaml, history, Some(of))
  }

  predicate Within(history: seq<seq<Row>>, of: nat, listed: Option<nat>) {
    of < |history| && (listed.Some? ==> of <= listed.value < |history|)
  }

  ghost predicate CacheInv(yaml: Catalog, history: seq<seq<Row>>, c: Filled) {
    && Within(history, c.of, c.listed) && c.slot.signature == SignatureOf(history[c.of])
    && c.slot.catalog == Listing(yaml, history, c.listed)
  }

  ghost predicate RequestInv(history: seq<seq<Row>>, r: Request) {
    && Within(history, r.at, if r.Listed? then r.listed else None)
    && r.signature == SignatureOf(history[r.at])
  }

  ghost predicate AnswerInv(yaml: Catalog, history: seq<seq<Row>>, a: Answer) {
    && Within(history, a.of, a.listed) && a.at <= a.until < |history|
    && SignatureOf(history[a.of]) == SignatureOf(history[a.at])
    && a.catalog == Listing(yaml, history, a.listed)
    && (!a.hit ==> a.of == a.at && (a.listed.Some? ==> a.listed.value <= a.until))
  }

  ghost predicate Inv(yaml: Catalog, s: State) {
    && |s.history| > 0 && Descends(s.history)
    && (s.cache.Some? ==> CacheInv(yaml, s.history, s.cache.value))
    && (forall r :: r in s.requests ==> RequestInv(s.history, s.requests[r]))
    && (forall k :: 0 <= k < |s.answers| ==> AnswerInv(yaml, s.history, s.answers[k]))
  }

  /** What was recorded of earlier contents stays true as the history grows. */
  lemma RecordsStay(yaml: Catalog, s: State, later: seq<seq<Row>>)
    requires Inv(yaml, s) && s.history <= later
    ensures s.cache.Some? ==> CacheInv(yaml, later, s.cache.value)
    ensures forall r :: r in s.requests ==> RequestInv(later, s.requests[r])
    ensures forall k :: 0 <= k < |s.answers| ==> AnswerInv(yaml, later, s.answers[k])
  {
    hide Union, Specs, SignatureOf, Descends;
    forall r | r in s.requests
      ensures RequestInv(later, s.requests[r])
    {
      assert RequestInv(s.history, s.requests[r]);
    }
    forall k | 0 <= k < |s.answers|
      ensures AnswerInv(yaml, later, s.answers[k])
    {
      assert AnswerInv(yaml, s.history, s.answers[k]);
    }
  }

  lemma StepKeepsInv(yaml: Catalog, s: State, a: Action)
    requires Inv(yaml, s) && (a.Save? ==> LaterThanAll(s.history, a.now))
    ensures Inv(yaml, Apply(yaml, s, a))
  {
    WriteDescends(yaml, s, a);
    RecordsStay(yaml, s, Apply(yaml, s, a).history);
    hide Union, Specs, SignatureOf, Descends, Listing, LaterThanAll, UpsertAll, Archive, Delete;
    if (a.ReadCache? || a.FillCache? || a.ListDb?) && a.r in s.requests {
      assert RequestInv(s.history, s.requests[a.r]);
    }
  }

  lemma {:induction false} ExecKeepsInv(yaml: Catalog, s: State, actions: seq<Action>)
    requires Inv(yaml, s) && Forward(yaml, s, actions)
    ensures Inv(yaml, Exec(yaml, s, actions))
    decreases |actions|
  {
    hide Inv, Apply, LaterThanAll;
    if actions != [] {
      StepKeepsInv(yaml, s, actions[0]);
      ExecKeepsInv(yaml, Apply(yaml, s, actions[0]), actions[1..]);
    }
  }

  lemma InitInv(yaml: Catalog)
    ensures Inv(yaml, Init)
  {
    assert DescendsAt(Init.history, 0, 0);
  }

  /** While save times increase, two contents of the table with one signature are the same content. */
  lemma EqualSignaturesEqualTables(yaml: Catalog, actions: seq<Action>, i: nat, j: nat)
    requires Forward(yaml, Init, actions)
    requires i < |Exec(yaml, Init, actions).history| && j < |Exec(yaml, Init, actions).history|
    ensures var h := Exec(yaml, Init, actions).history;
      SignatureOf(h[i]) == SignatureOf(h[j]) <==> h[i] == h[j]
  {
    InitInv(yaml);
    ExecKeepsInv(yaml, Init, actions);
    var h := Exec(yaml, Init, actions).history;
    if SignatureOf(h[i]) == SignatureOf(h[j]) {
      SignatureTells(h, i, j);
    }
  }

  /**
   In every run whose save times increase, an answer is the union for the table its request read the
   signature of if and only if the fill it comes from listed such a content for its own signature.
   */
  lemma AnswerIsCurrentIff(yaml: Catalog, actions: seq<Action>, k: nat)
    requires Forward(yaml, Init, actions) && k < |Exec(yaml, Init, actions).answers|
    ensures var s := Exec(yaml, Init, actions);
      var a := s.answers[k];
      && a.at <= a.until < |s.history| && a.of < |s.history|
      && (a.catalog == Union(Specs(s.history[a.at]), yaml) <==> Honest(yaml, s.history, a.of, a.listed))
  {
    InitInv(yaml);
    ExecKeepsInv(yaml, Init, actions);
    var s := Exec(yaml, Init, actions);
    var a := s.answers[k];
    assert AnswerInv(yaml, s.history, a);
    SignatureTells(s.history, a.at, a.of);
  }

  /**
   An answer was held by the table during its request when its request listed it itself, and, for an
   answer from the cache, when its fill was honest; only then, if no write fell in the request.
   */
  lemma EveryAnswerWasHeld(yaml: Catalog, actions: seq<Action>, k: nat)
    requires Forward(yaml, Init, actions) && k < |Exec(yaml, Init, actions).answers|
    ensures var s := Exec(yaml, Init, actions);
      var a := s.answers[k];
      && (!a.hit && a.listed.Some? ==> HeldBetween(yaml, s.history, a.at, a.until, a.catalog))
      && (Honest(yaml, s.history, a.of, a.listed) ==> HeldBetween(yaml, s.history, a.at, a.until, a.catalog))
      && (a.at == a.until && HeldBetween(yaml, s.history, a.at, a.until, a.catalog) ==>
            Honest(yaml, s.history, a.of, a.listed))
  {
    AnswerIsCurrentIff(yaml, actions, k);
    InitInv(yaml);
    ExecKeepsInv(yaml, Init, actions);
    var s := Exec(yaml, Init, actions);
    hide Exec, Forward, Descends, HeldBetween, Honest;
    assert AnswerInv(yaml, s.history, s.answers[k]);
    HeldIf(yaml, s.history, s.answers[k]);
  }

  lemma HeldIf(yaml: Catalog, history: seq<seq<Row>>, a: Answer)
    requires AnswerInv(yaml, history, a)
    requires a.catalog == Listing(yaml, history, Some(a.at)) <==> Honest(yaml, history, a.of, a.listed)
    ensures !a.hit && a.listed.Some? ==> HeldBetween(yaml, history, a.at, a.until, a.catalog)
    ensures Honest(yaml, history, a.of, a.listed) ==> HeldBetween(yaml, history, a.at, a.until, a.catalog)
    ensures a.at == a.until && HeldBetween(yaml, history, a.at, a.until, a.catalog) ==>
            Honest(yaml, history, a.of, a.listed)
  {
    hide Listing, Honest, SignatureOf;
  }

  /** A fill between whose signature and list no write fell is honest. */
  lemma UndisturbedFillIsHonest(yaml: Catalog, history: seq<seq<Row>>, of: nat, listed: Option<nat>)
    ensures listed == Some(of) ==> Honest(yaml, history, of, listed)
  {
  }

  /** Two saves at one time: deleting one spec and adding another can leave the signature as it was. */
  lemma EqualTimesHideAReplacement(a: Spec, b: Spec, now: int)
    requires a.id != b.id
    ensures var s1 := Apply([], Init, Save([a], now));
      var s2 := Apply([], Apply([], s1, Drop(a.id)), Save([b], now));
      SignatureOf(Table(s2)) == SignatureOf(Table(s1)) && Specs(Table(s1)) == [a] && Specs(Table(s2)) == [b]
  {
    var s1 := Apply([], Init, Save([a], now));
    assert UpsertAll([], [a], now) == [Row(a, 1, now)] && UpsertAll([], [b], now) == [Row(b, 1, now)];
    assert Table(s1) == [Row(a, 1, now)];
    assert Table(Apply([], s1, Drop(a.id))) == [];
    var s2 := Apply([], Apply([], s1, Drop(a.id)), Save([b], now));
    assert Table(s2) == [Row(b, 1, now)];
  }

  /** After a save the table holds the saved spec and, unchanged, every row of another id. */
  lemma {:induction false} RowsAfterUpsert(rows: seq<Row>, spec: Spec, now: int, r: Row)
    requires Distinct(Specs(rows))
    ensures spec in Specs(Upsert(rows, spec, now)) && (spec in Specs(rows) ==> Upsert(rows, spec, now) == rows)
    ensures r.spec.id != spec.id ==> (r in Upsert(rows, spec, now) <==> r in rows)
    ensures r.spec.id == spec.id && r in Upsert(rows, spec, now) ==> r.spec == spec
    ensures r in Upsert(rows, spec, now) && r !in rows ==> r.updatedAt == now
  {
    var after := Upsert(rows, spec, now);
    if rows == [] {
      assert Specs(after)[0] == spec;
    } else if rows[0].spec.id == spec.id {
      assert Specs(after)[0] == spec;
      if spec in Specs(rows) {
        var k :| 0 <= k < |rows| && Specs(rows)[k] == spec;
        assert Specs(rows)[0].id == spec.id;
      }
      assert rows == [rows[0]] + rows[1..] && after[1..] == rows[1..];
      if r in rows[1..] {
        IdElsewhere(rows, r);
      }
    } else {
      assert Distinct(Specs(rows[1..])) by { DistinctTail(rows); }
      RowsAfterUpsert(rows[1..], spec, now, r);
      if spec in Specs(rows) {
        var k :| 0 <= k < |rows| && Specs(rows)[k] == spec;
        assert Specs(rows[1..])[k - 1] == spec;
      }
      assert after == [rows[0]] + Upsert(rows[1..], spec, now) && rows == [rows[0]] + rows[1..];
      var k :| 0 <= k < |Specs(Upsert(rows[1..], spec, now))| && Specs(Upsert(rows[1..], spec, now))[k] == spec;
      assert Specs(after)[k + 1] == spec;
    }
  }

  lemma DistinctTail(rows: seq<Row>)
    requires rows != [] && Distinct(Specs(rows))
    ensures Distinct(Specs(rows[1..]))
  {
    assert forall i :: 0 <= i < |rows[1..]| ==> Specs(rows[1..])[i] == Specs(rows)[i + 1];
  }

  lemma IdElsewhere(rows: seq<Row>, r: Row)
    requires rows != [] && Distinct(Specs(rows)) && r in rows[1..]
    ensures r.spec.id != rows[0].spec.id
  {
    var k :| 0 <= k < |rows[1..]| && rows[1..][k] == r;
    assert Specs(rows)[k + 1] == r.spec && Specs(rows)[0] == rows[0].spec;
  }

  /** After a delete every row is there but the deleted one; an archive flip rewrites the one body. */
  lemma {:induction false} RowsAfterDelete(rows: seq<Row>, id: string, body: string, r: Row)
    requires Distinct(Specs(rows))
    ensures r in Delete(rows, id) <==> r in rows && r.spec.id != id
    ensures r.spec.id != id ==> (r in Archive(rows, id, body) <==> r in rows)
    ensures r.spec.id == id && r in Archive(rows, id, body) ==> r.spec.body == body
    ensures r.spec.id == id && r in rows ==> exists q :: q in Archive(rows, id, body) && q.spec == Spec(id, body)
    ensures r.spec == Spec(id, body) && r in rows ==> Archive(rows, id, body) == rows
  {
    if rows != [] {
      assert rows == [rows[0]] + rows[1..];
      if rows[0].spec.id == id {
        if r in rows[1..] {
          IdElsewhere(rows, r);
        }
        assert r in rows && r.spec.id == id ==> r == rows[0];
        assert Archive(rows, id, body)[1..] == rows[1..];
        var q := Archive(rows, id, body)[0];
        assert q in Archive(rows, id, body) && q.spec == Spec(id, body);
      } else {
        DistinctTail(rows);
        RowsAfterDelete(rows[1..], id, body, r);
        assert Delete(rows, id) == [rows[0]] + Delete(rows[1..], id);
        assert Archive(rows, id, body) == [rows[0]] + Archive(rows[1..], id, body);
      }
    }
  }

  /** A save that changes anything moves the signature: the version sum always differs. */
  lemma {:induction false} SaveMovesTheSignature(rows: seq<Row>, spec: Spec, now: int)
    ensures Upsert(rows, spec, now) == rows
            || SignatureOf(Upsert(rows, spec, now)).versions == SignatureOf(rows).versions + 1
  {
    if rows != [] && rows[0].spec.id != spec.id {
      SaveMovesTheSignature(rows[1..], spec, now);
      assert Upsert(rows, spec, now)[1..] == Upsert(rows[1..], spec, now);
    } else if rows != [] && rows[0].spec != spec {
      assert Upsert(rows, spec, now)[1..] == rows[1..];
    }
  }

  /** A delete that removes anything moves the signature: the row count differs. */
  lemma {:induction false} DeleteMovesTheSignature(rows: seq<Row>, id: string)
    ensures Delete(rows, id) == rows || SignatureOf(Delete(rows, id)).count + 1 == SignatureOf(rows).count
  {
    if rows != [] && rows[0].spec.id != id {
      DeleteMovesTheSignature(rows[1..], id);
      assert Delete(rows, id)[1..] == Delete(rows[1..], id);
    }
  }

  /** Archiving moves the signature as a save does, by the version sum alone. */
  lemma {:induction false} ArchiveMovesTheSignature(rows: seq<Row>, id: string, body: string)
    ensures var after := SignatureOf(Archive(rows, id, body));
      Archive(rows, id, body) == rows || after == SignatureOf(rows).(versions := SignatureOf(rows).versions + 1)
  {
    if rows != [] && rows[0].spec.id != id {
      ArchiveMovesTheSignature(rows[1..], id, body);
      assert Archive(rows, id, body)[1..] == Archive(rows[1..], id, body);
    } else if rows != [] && rows[0].spec.body != body {
      assert Archive(rows, id, body)[1..] == rows[1..];
    }
  }

  /** After the fill that straddled the addition of `spec`. */
  function Straddled(spec: Spec, now: int): State {
    State([[], [Row(spec, 1, now)]], Some(Filled(CacheSlot(Signature(0, 0, None), [spec]), 0, Some(1))), map[],
          [Answer(0, 1, [spec], false, 0, Some(1))])
  }

  lemma FillStraddles(spec: Spec, now: int)
    ensures Exec([], Apply([], Init, ReadSignature(0)), [Save([spec], now), ListDb(0, true), FillCache(0)])
         == Straddled(spec, now)
  {
    var rows := [Row(spec, 1, now)];
    var s1 := Apply([], Init, ReadSignature(0));
    assert s1 == State([[]], None, map[0 := SignatureRead(Signature(0, 0, None), 0)], []);
    ExecThree([], s1, Save([spec], now), ListDb(0, true), FillCache(0));
    var s2 := Apply([], s1, Save([spec], now));
    assert UpsertAll([], [spec], now) == rows;
    assert s2 == s1.(history := [[], rows]);
    var s3 := Apply([], s2, ListDb(0, true));
    assert s3.requests == map[0 := Listed(Signature(0, 0, None), 0, Some(1))];
    assert Specs(rows) == [spec] && Union([spec], []) == [spec];
    assert Apply([], s3, FillCache(0)) == Straddled(spec, now);
  }

  lemma StaleHit(spec: Spec, now: int)
    ensures var s := Exec([], Straddled(spec, now), [Drop(spec.id), ReadSignature(1), ReadCache(1)]);
            && s.history == [[], [Row(spec, 1, now)], []]
            && s.answers == Straddled(spec, now).answers + [Answer(2, 2, [spec], true, 0, Some(1))]
  {
    var s4 := Straddled(spec, now);
    ExecThree([], s4, Drop(spec.id), ReadSignature(1), ReadCache(1));
    var s5 := Apply([], s4, Drop(spec.id));
    assert s5 == s4.(history := [[], [Row(spec, 1, now)], []]);
    var s6 := Apply([], s5, ReadSignature(1));
    assert s6.requests == map[1 := SignatureRead(Signature(0, 0, None), 2)];
  }

  /**
   Moving on every write is not enough. Adding a spec and deleting it again restores the old
   signature, and a fill that straddled the addition then serves the deleted spec as current.
   */
  lemma RestoredSignatureServesDeletedSpec(spec: Spec, now: int) returns (actions: seq<Action>)
    ensures Forward([], Init, actions)
    ensures var s := Exec([], Init, actions);
            && Table(s) == [] && |s.answers| == 2 && s.answers[1].hit
            && s.answers[1].at == s.answers[1].until == Version(s) && s.answers[1].catalog == [spec]
  {
    var fill := [Save([spec], now), ListDb(0, true), FillCache(0)];
    var hit := [Drop(spec.id), ReadSignature(1), ReadCache(1)];
    actions := [ReadSignature(0)] + (fill + hit);
    var s1 := Apply([], Init, ReadSignature(0));
    FillStraddles(spec, now);
    StaleHit(spec, now);
    ExecAppend([], s1, fill, hit);
    assert actions[1..] == fill + hit;
    OneSaveIsForward([], s1, (fill + hit)[1..], fill + hit);
  }

  lemma OneSaveIsForward(yaml: Catalog, s: State, rest: seq<Action>, actions: seq<Action>)
    requires actions != [] && actions[0].Save? && actions[1..] == rest && NoSaves(rest) && s.history == [[]]
    ensures Forward(yaml, s, actions)
  {
    NoSavesIsForward(yaml, Apply(yaml, s, actions[0]), rest);
  }

  predicate NoSaves(actions: seq<Action>) {
    forall k :: 0 <= k < |actions| ==> !actions[k].Save?
  }

  lemma {:induction false} NoSavesIsForward(yaml: Catalog, s: State, actions: seq<Action>)
    requires NoSaves(actions)
    ensures Forward(yaml, s, actions)
    decreases |actions|
  {
    hide Apply;
    if actions != [] {
      NoSavesIsForward(yaml, Apply(yaml, s, actions[0]), actions[1..]);
    }
  }

  lemma ExecThree(yaml: Catalog, s: State, a: Action, b: Action, c: Action)
    ensures Exec(yaml, s, [a, b, c]) == Apply(yaml, Apply(yaml, Apply(yaml, s, a), b), c)
  {
    hide Apply;
    assert [a, b, c][1..] == [b, c] && [b, c][1..] == [c] && [c][1..] == [];
    assert Exec(yaml, Apply(yaml, Apply(yaml, s, a), b), [c]) == Apply(yaml, Apply(yaml, Apply(yaml, s, a), b), c);
  }

  lemma {:induction false} ExecAppend(yaml: Catalog, s: State, a: seq<Action>, b: seq<Action>)
    ensures Exec(yaml, s, a + b) == Exec(yaml, Exec(yaml, s, a), b)
    decreases |a|
  {
    if a == [] {
      assert a + b == b;
    } else {
      assert (a + b)[1..] == a[1..] + b;
      ExecAppend(yaml, Apply(yaml, s, a[0]), a[1..], b);
    }
  }

  // ---- A read that nothing interrupts does what EffectiveSpecsCached promises ----

  lemma HitUninterrupted(yaml: Catalog, s: State, r: nat)
    requires s.cache.Some? && s.cache.value.slot.signature == SignatureOf(Table(s))
    ensures var t := Apply(yaml, Apply(yaml, s, ReadSignature(r)), ReadCache(r));
      && t.cache == s.cache && |t.answers| == |s.answers| + 1
      && t.answers[|s.answers|].catalog == s.cache.value.slot.catalog
  {
    hide SignatureOf;
  }

  lemma FillUninterrupted(yaml: Catalog, s: State, r: nat, ok: bool)
    requires |s.history| > 0
    ensures var t := Exec(yaml, s, [ReadSignature(r), ListDb(r, ok), FillCache(r)]);
      var specs := if ok then Union(Specs(Table(s)), yaml) else yaml;
      && t.cache.Some? && t.cache.value.slot == CacheSlot(SignatureOf(Table(s)), specs)
      && |t.answers| == |s.answers| + 1 && t.answers[|s.answers|].catalog == specs
  {
    hide SignatureOf, Union, Specs;
    ExecThree(yaml, s, ReadSignature(r), ListDb(r, ok), FillCache(r));
  }
}
