/**
 The scaler's decisions over a snapshot (crates/ruscker-admin/src/scaler.rs) and the settings of
 a spec they depend on (crates/ruscker-config/src/schema.rs). Times are milliseconds; thresholds
 are fractions.
 */
module ScalingRules {
  import opened Wrappers
  import opened Registries

  datatype Kind = App | Api | External

  /** A threshold `num / den`. */
  datatype Fraction = Fraction(num: nat, den: nat)

  datatype Spec = Spec(
    id: string,
    kind: Kind,
    hasImage: bool,
    minReplicas: nat,
    maxReplicas: nat,
    seats: nat,
    requestsPerReplica: nat,
    scaleUpThreshold: Option<Fraction>,
    scaleDownThreshold: Option<Fraction>,
    scaleDownGrace: Option<nat>,
    scaleDownCooldown: Option<nat>,
    maxLifetime: Option<int>,
    containerLifetime: Option<int>,
    drainTimeout: int)
  {
    predicate Managed() {
      !kind.External? && hasImage
    }
  }

  const INTERVAL_SECS: nat := 10
  const IDLE_GRACE_TICKS: nat := 3
  const SATURATION_GRACE_TICKS: nat := 2
  const COOLDOWN_SECS: nat := 60
  const YOUNG_REPLICA_GRACE_MS: int := 60_000
  const RESTART_GRACE_MS: int := 30_000
  const U32_MAX: nat := 0xFFFF_FFFF
  const I64_MAX: int := 0x7FFF_FFFF_FFFF_FFFF

  // ---- Load ----

  predicate AllSaturated(rs: Replicas) {
    rs != [] && forall r :: r in rs ==> r.AvailableSeats() == 0
  }

  function Seats(rs: Replicas): nat {
    if rs == [] then 0 else rs[0].sessionsMax + Seats(rs[1..])
  }

  function Sessions(rs: Replicas): nat {
    if rs == [] then 0 else rs[0].sessionsActive + Sessions(rs[1..])
  }

  /** Utilization above `t`; a pool without seats has utilization zero. */
  predicate BusierThan(rs: Replicas, t: Fraction) {
    Seats(rs) > 0 && Sessions(rs) * t.den > t.num * Seats(rs)
  }

  predicate QuieterThan(rs: Replicas, t: Fraction) {
    if Seats(rs) == 0 then t.num > 0 else Sessions(rs) * t.den < t.num * Seats(rs)
  }

  predicate ScaleUpTriggered(rs: Replicas, up: Option<Fraction>) {
    match up
    case Some(t) => rs != [] && BusierThan(rs, t)
    case None => AllSaturated(rs)
  }

  /** A saturated pool has no idle replica to drop, unless that replica has no seats at all. */
  lemma SaturatedPoolHasNoIdleReplica(rs: Replicas, r: Replica)
    requires ScaleUpTriggered(rs, None) && r in rs
    ensures r.sessionsActive == 0 ==> r.sessionsMax == 0
  {
    assert r.AvailableSeats() == 0;
  }

  /** Seats never outnumber sessions in a saturated pool, so no threshold up to 1 is stricter. */
  lemma {:induction false} SaturationIsFullUtilization(rs: Replicas)
    ensures (forall r :: r in rs ==> r.AvailableSeats() == 0) ==> Sessions(rs) >= Seats(rs)
    ensures (forall r :: r in rs ==> r.sessionsActive <= r.sessionsMax) ==>
              Sessions(rs) <= Seats(rs)
              && (Sessions(rs) == Seats(rs) <==> forall r :: r in rs ==> r.AvailableSeats() == 0)
  {
    if rs != [] {
      SaturationIsFullUtilization(rs[1..]);
      assert rs[0] in rs && forall r :: r in rs[1..] ==> r in rs;
      assert forall r :: r in rs ==> r == rs[0] || r in rs[1..];
    }
  }

  /** Load adds up over the replicas of a pool. */
  lemma {:induction false} LoadAdds(a: Replicas, b: Replicas)
    ensures Seats(a + b) == Seats(a) + Seats(b) && Sessions(a + b) == Sessions(a) + Sessions(b)
  {
    if a == [] {
      assert a + b == b;
    } else {
      LoadAdds(a[1..], b);
      assert (a + b)[1..] == a[1..] + b;
    }
  }

  /** Busy replicas and seats of a pool of one are its own, so the sums are the pool's totals. */
  lemma LoadOfOne(r: Replica)
    ensures Seats([r]) == r.sessionsMax && Sessions([r]) == r.sessionsActive
  {
    assert [r][1..] == [];
  }

  /**
   A pool asks for one more replica when its share of taken seats exceeds the threshold, or, without
   one, when it is not empty and every replica's seats are taken.
   */
  lemma ScaleUpTriggeredIff(rs: Replicas, up: Option<Fraction>)
    requires up.Some? ==> up.value.den > 0
    ensures ScaleUpTriggered(rs, up) <==>
            if up.None? then rs != [] && forall r :: r in rs ==> r.sessionsActive >= r.sessionsMax
            else Seats(rs) > 0
                 && Sessions(rs) as real / Seats(rs) as real > up.value.num as real / up.value.den as real
  {
    if up.None? {
      assert forall r: Replica :: r.AvailableSeats() == 0 <==> r.sessionsActive >= r.sessionsMax;
    } else if Seats(rs) > 0 {
      CompareFractions(up.value.num, up.value.den, Sessions(rs), Seats(rs));
    }
  }

  /** A pool is quiet below the threshold; one without seats counts as a share of zero. */
  lemma QuieterThanIff(rs: Replicas, t: Fraction)
    requires t.den > 0
    ensures QuieterThan(rs, t) <==>
            (if Seats(rs) == 0 then 0.0 else Sessions(rs) as real / Seats(rs) as real) < t.num as real / t.den as real
  {
    if Seats(rs) == 0 {
      CompareFractions(0, 1, t.num, t.den);
    } else {
      CompareFractions(Sessions(rs), Seats(rs), t.num, t.den);
    }
  }

  lemma CompareFractions(a: nat, b: nat, c: nat, d: nat)
    requires b > 0 && d > 0
    ensures a as real / b as real < c as real / d as real <==> a * d < c * b
  {
    var x, y, p, q := a as real, c as real, b as real, d as real;
    assert (x / p) * (p * q) == x * q && (y / q) * (p * q) == y * p;
    assert p * q > 0.0;
    if x / p < y / q {
      RealMonotone(x / p, y / q, p * q);
    } else {
      RealMonotone(y / q, x / p, p * q);
    }
    assert (a * d) as real == x * q && (c * b) as real == y * p;
  }

  lemma RealMonotone(a: real, b: real, c: real)
    requires c > 0.0
    ensures a < b ==> a * c < b * c
    ensures a <= b ==> a * c <= b * c
  {
  }

  // ---- Seconds to ticks ----

  function DivCeil(n: nat, d: nat): nat
    requires d > 0
  {
    (n + d - 1) / d
  }

  /** Rounded up, at least one tick, within a u32. */
  function GraceTicks(secs: nat, interval: nat): nat {
    Min(Max(DivCeil(secs, Max(interval, 1)), 1), U32_MAX)
  }

  /** Zero disables the cooldown. */
  function CooldownTicks(secs: nat, interval: nat): nat {
    if secs == 0 then 0 else GraceTicks(secs, interval)
  }

  /** Unless it hits the u32 cap, the grace is the least whole number of ticks, one or more, that covers the seconds. */
  lemma GraceTicksIsLeast(secs: nat, interval: nat, n: nat)
    requires interval >= 1
    ensures 1 <= GraceTicks(secs, interval) <= U32_MAX
    ensures GraceTicks(secs, interval) < U32_MAX ==>
              (GraceTicks(secs, interval) <= n <==> n >= 1 && n * interval >= secs)
    ensures GraceTicks(secs, interval) == 0xFFFF_FFFF ==> 0xFFFF_FFFE * interval < secs
  {
    var q := DivCeil(secs, interval);
    assert q * interval >= secs && (q - 1) * interval < secs by {
      DivCeilBounds(secs, interval);
    }
    if q >= U32_MAX {
      MulMonotone(U32_MAX - 1, q - 1, interval);
    }
    if n >= q {
      MulMonotone(q, n, interval);
    } else {
      MulMonotone(n, q - 1, interval);
    }
  }

  /** A cooldown of zero seconds is none; any other is the grace of as many seconds. */
  lemma CooldownIsLeast(secs: nat, interval: nat, n: nat)
    requires interval >= 1
    ensures CooldownTicks(secs, interval) < 0xFFFF_FFFF ==>
              (CooldownTicks(secs, interval) <= n <==> n * interval >= secs)
  {
    if secs > 0 {
      GraceTicksIsLeast(secs, interval, n);
      if n == 0 {
        assert n * interval == 0;
      }
    } else {
      MulMonotone(0, n, interval);
    }
  }

  lemma DivCeilBounds(n: nat, d: nat)
    requires d > 0
    ensures DivCeil(n, d) * d >= n && (DivCeil(n, d) - 1) * d < n
  {
    var m := n + d - 1;
    assert m == (m / d) * d + m % d;
    assert (m / d - 1) * d == (m / d) * d - d;
  }

  lemma MulMonotone(a: int, b: int, c: nat)
    requires a <= b
    ensures a * c <= b * c
  {
  }

  // ---- Lifetime ----

  /** Whole seconds since `startedAt`, truncated toward zero. */
  function AgeSecs(startedAt: int, now: int): int {
    if now >= startedAt then (now - startedAt) / 1000 else -((startedAt - now) / 1000)
  }

  function SaturatingAdd(a: int, b: int): int {
    Min(a + b, I64_MAX)
  }

  predicate PastHardCap(r: Replica, now: int, hard: Option<int>, drain: int) {
    hard.Some?
    && AgeSecs(r.startedAt, now) >= if r.sessionsActive == 0 then hard.value else SaturatingAdd(hard.value, drain)
  }

  predicate PastSoftCap(r: Replica, now: int, soft: Option<int>) {
    soft.Some? && AgeSecs(r.startedAt, now) >= soft.value && r.sessionsActive == 0
  }

  /** The replicas to recycle, in pool order. */
  function LifetimeReap(rs: Replicas, now: int, hard: Option<int>, soft: Option<int>, drain: int): seq<ReplicaId> {
    if rs == [] then []
    else (if PastHardCap(rs[0], now, hard, drain) || PastSoftCap(rs[0], now, soft) then [rs[0].id] else [])
         + LifetimeReap(rs[1..], now, hard, soft, drain)
  }

  /** An age in whole seconds reaches a cap once that many full seconds, counted toward zero, have passed. */
  lemma AgeReachesIff(startedAt: int, now: int, cap: int)
    ensures AgeSecs(startedAt, now) >= cap <==> now - startedAt >= 1000 * cap - if cap >= 1 then 0 else 999
  {
  }

  /**
   In milliseconds: a busy replica is recycled only by the hard cap and only after the drain window; an
   idle one by whichever cap it has passed.
   */
  lemma {:induction false} ReapedIff(rs: Replicas, now: int, hard: Option<int>, soft: Option<int>, drain: int,
                                     r: Replica)
    requires UniqueIds(rs) && r in rs
    ensures var age := now - r.startedAt;
      r.id in LifetimeReap(rs, now, hard, soft, drain) <==>
        if r.sessionsActive == 0
        then (hard.Some? && age >= 1000 * hard.value - if hard.value >= 1 then 0 else 999)
          || (soft.Some? && age >= 1000 * soft.value - if soft.value >= 1 then 0 else 999)
        else hard.Some? && var cap := if hard.value + drain <= 0x7FFF_FFFF_FFFF_FFFF then hard.value + drain
                                      else 0x7FFF_FFFF_FFFF_FFFF;
          age >= 1000 * cap - if cap >= 1 then 0 else 999
  {
    if hard.Some? {
      AgeReachesIff(r.startedAt, now, hard.value);
      AgeReachesIff(r.startedAt, now, SaturatingAdd(hard.value, drain));
    }
    if soft.Some? {
      AgeReachesIff(r.startedAt, now, soft.value);
    }
    ReapMembers(rs, now, hard, soft, drain, r.id);
    forall q | q in rs && q.id == r.id
      ensures q == r
    {
      FindUnique(rs, q);
      FindUnique(rs, r);
    }
  }

  lemma {:induction false} ReapMembers(rs: Replicas, now: int, hard: Option<int>, soft: Option<int>, drain: int,
                                       id: ReplicaId)
    ensures id in LifetimeReap(rs, now, hard, soft, drain) <==>
            exists r :: r in rs && r.id == id && (PastHardCap(r, now, hard, drain) || PastSoftCap(r, now, soft))
  {
    if rs != [] {
      ReapMembers(rs[1..], now, hard, soft, drain, id);
      assert forall r :: r in rs <==> r == rs[0] || r in rs[1..];
    }
  }

  // ---- Request-based capacity ----

  /** For an API spec, in-flight requests stand in for sessions and the request cap for seats. */
  function Overlay(rs: Replicas, spec: Spec, inflight: map<ReplicaId, nat>): Replicas {
    if !spec.kind.Api? then rs else seq(|rs|, i requires 0 <= i < |rs| => Loaded(rs[i], spec, inflight))
  }

  function Loaded(r: Replica, spec: Spec, inflight: map<ReplicaId, nat>): Replica {
    r.(sessionsActive := if r.id in inflight then inflight[r.id] else 0, sessionsMax := spec.requestsPerReplica)
  }

  /**
   The pool the decisions see: the same replicas in the same order, with requests in flight for
   sessions and the request cap for seats if the spec is an API, and untouched otherwise.
   */
  lemma OverlayShows(rs: Replicas, spec: Spec, inflight: map<ReplicaId, nat>, i: nat)
    requires i < |rs|
    ensures |Overlay(rs, spec, inflight)| == |rs|
    ensures !spec.kind.Api? ==> Overlay(rs, spec, inflight)[i] == rs[i]
    ensures spec.kind.Api? ==>
      Overlay(rs, spec, inflight)[i] ==
        rs[i].(sessionsActive := if rs[i].id in inflight then inflight[rs[i].id] else 0,
               sessionsMax := spec.requestsPerReplica)
  {
  }
}
