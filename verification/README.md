# Ruscker: verified models of the orchestrator's state machines

Ruscker runs containerized web apps and proxies visitors to them. Its hard parts are not the
containers but the shared state around them: who may start a replica, which seats are taken,
which cached answer may still be served, which node leads. This project models those parts in
Dafny 4.11 and proves what they keep. `dafny verify dfyconfig.toml` checks all of it.

Two kinds of model appear side by side. An operation that changes state in the program is a class
method with the program's own fields, branches and loops, proved against a specification function.
Where tasks interleave, a transition system runs any number of them, one step per lock release or
await, and theorems are proved for every finite run. A step whose guard fails changes nothing, so a
run is any sequence of actions. For most operations that have both models, a lemma with a name in
`Uninterrupted` shows that the steps in a row do what the class method promises.

| file | models |
|---|---|
| `Registry.dfy` | replicas and the registry the whole process shares |
| `ScalingRules.dfy` | the scaler's pure decisions and the spec settings they read |
| `Hysteresis.dfy`, `ScaleTiming.dfy` | idle, saturation and cooldown counters over ticks and the flap bound; exactly when a tick spawns or drops |
| `Backend.dfy` | the container backend as an oracle with a record of its calls |
| `Liveness.dfy`, `Fleet.dfy` | fate of a replica over reconcile passes; the pass itself, re-adoption, stop and cleanup |
| `Scaler.dfy`, `ScalerTick.dfy`, `ScalerRuns.dfy` | spawning and one spec's turn; one whole tick; runs of ticks |
| `SpawnProtocol.dfy` | spawns, re-adoptions, cold starts and first requests racing for one spec |
| `Sessions.dfy`, `SeatAccounting.dfy` | the in-memory session store; seat counters under every interleaving |
| `SharedSessions.dfy`, `SessionCluster.dfy` | the Postgres session store; any number of nodes over one table |
| `AdminSessions.dfy` | sign-in sessions behind node-local caches |
| `IdentityCache.dfy`, `Catalog.dfy` | the identity cache; the catalog and its signature-checked cache |
| `Leader.dfy`, `Jobs.dfy` | advisory-lock leadership; compare-and-set cron firing |
| `RateLimit.dfy`, `AccessCounter.dfy`, `LogBuffer.dfy` | windows, counters and buffers against their full history |
| `EnvInterpolation.dfy` | `${VAR}` interpolation of raw YAML |
| `Wrappers.dfy` | option and result types |

## How the scaler's parts fit

`ScalerTick.Tick` is the imperative tick: idle accounting, liveness pass, then every spec in
turn. Its contract is the relation `ScalerTick.Ticked` between the world before and after: each
spec's counters take exactly one step of the machine in `Hysteresis`, on the pools that tick saw.
`ScalerRuns` chains such ticks. Between two ticks sessions, prunes, restart marks and spawns may do
what they like to the registry, except that a replica that has left does not come back; the flap
bound is proved there, from `Ticked` alone. The theorems of `Hysteresis` itself assume nothing about
how one tick's snapshots follow from the last, so they hold even if other passes overlap the ticks.
The limits of `Tick` are for an undisturbed tick; with interference, the cap is the theorem of
`SpawnProtocol`.

## Where the code and its words part

The model follows the code. Each item has a lemma with concrete steps that break the promise and a
theorem, over all runs or all continuations, that says when it holds.

- The replica cap. The first-request path says it never exceeds `max-replicas`, but at the cap
  with nothing Ready it falls through to a spawn (crates/ruscker-admin/src/routes/proxy.rs:1754-1763).
  Replicas held stopped for a restart are enough: `SpawnProtocol.StoppedPoolIsOverspawned`,
  `SpawnProtocol.PickSpawnsIff`, `SpawnProtocol.CapIsKept`.
- The flap bound (crates/ruscker-admin/src/scaler.rs:29-32). Idle counters read the registry
  before the liveness pass and without the API overlay. When that read and the decision's disagree
  a drop can follow a spawn by one tick: `ScalerRuns.ApiPoolFlapsFaster`. Exactly when it can is
  `Hysteresis.DropWaitsOutTheIdleGraceIff`; for specs that are no API the reads cannot disagree about
  a replica that stays, and the bound holds: `ScalerRuns.FlapCycleBound`.
- Seats. A session ended between its registration and its increment leaks a seat, and so does a
  purge that lands after another pass has re-adopted the replica: `SeatAccounting.BalanceStep`
  says exactly which steps unbalance a replica in service.
- The node's session count. It is stored after a count and an await, so it can wipe out an addition
  made in between and read zero while the node owns a session
  (crates/ruscker-admin/src/sessions_pg.rs:289-297): `SessionCluster.SweepStoreHidesASession`. When a
  run keeps it covering is `SessionCluster.LenCoversOwnRowsIff`.
- Admin sessions. Clamping a cache window to the current time lets an answer stored after the
  expiry serve a validate that read its clock earlier, which takes a stall between two adjacent
  statements: `AdminSessions.LateStoreServesDeadSession`. Which stores are harmless is
  `AdminSessions.StoreRespectsExpiryIff` and `AdminSessions.StoreRespectsWindowIff`. And the negative
  entry of a logout can be overwritten on its own node: `AdminSessions.TombstoneCanBeOverwritten`,
  exactly when a validate there still holds the row: `AdminSessions.TombstoneHoldsIff`.
- The catalog cache. Its signature returns to an old value when a spec is added and deleted, so a
  slow fill can be served as current: `Catalogs.RestoredSignatureServesDeletedSpec`. A failed list is
  cached like a good one. An answer is current exactly if its fill was honest:
  `Catalogs.AnswerIsCurrentIff`.
- Leadership. A liveness reply already under way may still say true after another elector won:
  `Leadership.InFlightReplyOutlivesTheLock`. A true is stale exactly if its session has died:
  `Leadership.TrueIsStaleIffSessionDied`.
- Cron. A schedule whose expression has no occurrence after now is skipped, so the last occurrence
  of a finite expression never fires: `Jobs.LastOccurrenceIsLost`, `Jobs.OccurrenceCanFireIff`.

## Model

| member | source | states |
|---|---|---|
| ScalerRuns.FlapCycleBound | crates/ruscker-admin/src/scaler.rs:19-32 | In every run of ticks, with anything in between but a replica that has left coming back, for a spec that is no API, has no scale-up threshold and whose replicas have seats: a scale-down, a later saturation spawn and a later drop are at least cooldown + saturation grace + idle grace ticks apart |
| ScalerRuns.DropWaitsOutTheIdleGrace | crates/ruscker-admin/src/scaler.rs:779-991 | In such a run no replica of the spec is dropped before a full idle grace has passed since a saturation spawn |
| ScalerRuns.SpawnTickSeesNoneIdle | crates/ruscker-admin/src/scaler.rs:690-991 | In a tick that spawns on saturation for such a spec, a replica that the idle counters read as idle is not in the pool the decision saw, nor in the pool the tick leaves |
| ScalerRuns.TicksRunTheMachine | crates/ruscker-admin/src/scaler.rs:693-702 | Over a run of ticks the scaler's counters for a spec are the machine's counters over what its turns saw, and the raw snapshot of each tick is the registry the tick began with |
| ScalerRuns.ApiPoolFlapsFaster | crates/ruscker-admin/src/scaler.rs:715-722 | Why an API is excluded: three concrete ticks, each a full tick of an answering backend starting where the one before ended, in which an API replica is dropped one tick after a saturation spawn |
| Hysteresis.FlapCycleBound | crates/ruscker-admin/src/scaler.rs:19-32 | The same distance over arbitrary snapshots, so whatever passes overlap the ticks, if the spawn tick's two reads agree on the replica dropped |
| Hysteresis.SpawnWaitsOutTheCooldown | crates/ruscker-admin/src/scaler.rs:779-789 | A saturation spawn comes at least cooldown + saturation grace ticks after every earlier scale-down in which some stop succeeded, whatever the snapshots show |
| Hysteresis.DroppedAfterAFullStreak | crates/ruscker-admin/src/scaler.rs:942-955 | A replica is stopped as idle only if every one of the last idle-grace snapshots, this tick's included, showed it with no session and started at least sixty seconds before |
| Hysteresis.DropWaitsOutTheIdleGraceIff | crates/ruscker-admin/src/scaler.rs:917-991 | After a saturation spawn, every continuation keeps a replica for a full idle grace if and only if its idle counter is zero right after the spawn tick, or the grace is one tick, or the scale-down threshold is zero |
| Hysteresis.KeptForAFullGraceIff | crates/ruscker-admin/src/scaler.rs:917-991 | The same from any counters whatever: exactly when a drop can come early |
| Hysteresis.SaturatedTickShowsNoneIdle | crates/ruscker-admin/src/scaler.rs:690-694 | In a tick that spawns on saturation, a pool with seats shows no idle replica to the idle counters if the tick's two reads agree: scale-up and scale-down exclude each other |
| Hysteresis.CounterIsAStreak | crates/ruscker-admin/src/scaler.rs:1000-1024 | An idle counter of n stands for n consecutive idle snapshots just before, over any run |
| Hysteresis.VictimsAreIdle | crates/ruscker-admin/src/scaler.rs:942-955 | Whatever is picked for dropping has no session in the snapshot and a full idle streak |
| ScaleTiming.SpawnsExactly | crates/ruscker-admin/src/scaler.rs:862-915 | In a streak of ticks in which the pool has room, asks for more, and has no scale-down within the cooldown behind it, exactly every saturation-grace-th tick spawns; outside such streaks none does |
| ScaleTiming.SaturationIsAStreak | crates/ruscker-admin/src/scaler.rs:862-919 | A saturation counter of n stands for n ticks in a row, just before, of a pool between its bounds that asks for more: any quiet tick starts it over |
| ScaleTiming.SpawnsAfterAFullStreak | crates/ruscker-admin/src/scaler.rs:862-915 | A saturation spawn comes only after a full saturation grace of such ticks in a row, its own included |
| ScaleTiming.CoolingIff | crates/ruscker-admin/src/scaler.rs:775-789 | The scaler is cooling down exactly while some scale-down in which a stop succeeded is less than a cooldown of ticks old |
| ScaleTiming.FillsTheGap | crates/ruscker-admin/src/scaler.rs:843-860 | A tick that sees fewer replicas than the minimum plans to spawn exactly the missing ones, and no other tick does |
| ScaleTiming.VictimsIff | crates/ruscker-admin/src/scaler.rs:942-963 | Of the replicas without a session and with a full idle streak, exactly the first ones in pool order are picked, as many as are above the minimum |
| ScaleTiming.DropsAtIff | crates/ruscker-admin/src/scaler.rs:917-963 | A tick drops a replica exactly if the pool is above its minimum, does not ask for more and is below its scale-down threshold, and the replica is one of those |
| ScaleTiming.FullStreakIsDropped | crates/ruscker-admin/src/scaler.rs:942-963 | A full idle grace is enough: the tick that ends it drops the replica from a spare pool unless enough candidates come before it |
| ScalingRules.SaturatedPoolHasNoIdleReplica | crates/ruscker-admin/src/scaler.rs:1028-1030 | In an all-saturated pool a replica without sessions is one without seats |
| ScalingRules.SaturationIsFullUtilization | crates/ruscker-admin/src/scaler.rs:1035-1053 | For a pool within its seats, all-saturated and utilization 1.0 are the same thing |
| ScalingRules.ScaleUpTriggeredIff | crates/ruscker-admin/src/scaler.rs:1035-1053 | A pool asks for more exactly if its share of taken seats, as a real number, exceeds the threshold, or, without a threshold, if it is not empty and no replica has a free seat |
| ScalingRules.QuieterThanIff | crates/ruscker-admin/src/scaler.rs:936-943 | A pool is below the scale-down threshold exactly if its share of taken seats is, one without seats counting as zero |
| ScalingRules.GraceTicksIsLeast | crates/ruscker-admin/src/scaler.rs:1058-1063 | Below the u32 cap, the tick count is the least number of ticks, one or more, that covers the configured seconds |
| ScalingRules.CooldownIsLeast | crates/ruscker-admin/src/scaler.rs:1063-1072 | A cooldown of zero seconds is no tick; any other is the least number of ticks that covers it |
| ScalingRules.ReapedIff | crates/ruscker-admin/src/scaler.rs:1144-1169 | In milliseconds since the start: an idle replica is recycled exactly when its hard or its soft cap has passed in full seconds; a busy one exactly when the hard cap plus the drain window, saturating at 64 bits, has; never a busy one by the soft cap |
| ScalingRules.OverlayShows | crates/ruscker-admin/src/scaler.rs:1116-1129 | The decisions see an API replica with its requests in flight for sessions and the request cap for seats, any other replica as it is, each in its place |
| Scaler.AutoScaler.UpdateIdleTicks | crates/ruscker-admin/src/scaler.rs:1000-1024 | The in-place counters end as the stateless count: one more for each idle, no longer young replica of the snapshot and no entry for any other |
| Scaler.AutoScaler.SpawnOne | crates/ruscker-admin/src/scaler.rs:1277-1382 | Coalesces exactly when the cold start already has capacity, refuses exactly at the cap, otherwise adds one fresh Ready replica with the spec's seats; a failure changes nothing |
| Scaler.AutoScaler.ReapPass | crates/ruscker-admin/src/scaler.rs:799-835 | Exactly the replicas past their lifetime leave the registry and lose their idle counters, and the pool is read again |
| Scaler.ReapedAfterLifetime | crates/ruscker-admin/src/scaler.rs:799-835 | What reaping leaves, by the spec's own settings: a busy replica of the spec goes at max-lifetime plus drain-timeout, an idle one at max-lifetime or container-lifetime, in milliseconds, with requests in flight making an API replica busy; every other replica stays as it was |
| Scaler.PolicyFollowsSpec | crates/ruscker-admin/src/scaler.rs:773-938 | A spec's own grace and cooldown seconds become the least numbers of ticks that cover them, the grace counting ten seconds a tick and the cooldown the scaler's interval; without them the caller's defaults or sixty seconds hold |
| Scaler.AutoScaler.FillToMin | crates/ruscker-admin/src/scaler.rs:843-860 | Grows the pool to the minimum in one tick by fresh replicas only, never past the cap, stopping at the first failure |
| Scaler.AutoScaler.DropIdle | crates/ruscker-admin/src/scaler.rs:965-991 | Every victim leaves the registry whatever the backend answers; the result says whether some stop succeeded, which is what arms the cooldown |
| Scaler.AutoScaler.ShrinkPass | crates/ruscker-admin/src/scaler.rs:917-991 | Above the minimum and below the threshold the first candidates idle for a full grace, as many as are above the minimum, leave the registry and lose their counters; exactly a successful stop arms the cooldown, of this spec only |
| Scaler.AutoScaler.ScalePass | crates/ruscker-admin/src/scaler.rs:843-991 | The branch taken is the hysteresis machine's plan for the pool as seen, the plan is carried out on the registry, and the spec's counters end as the machine's; no other spec's counters move |
| Scaler.AutoScaler.ScaleSpec | crates/ruscker-admin/src/scaler.rs:771-991 | One spec's turn: cooldown read before it is decremented, then reaping, then the scale passes over the pool that reaping left |
| ScalerTick.Tick | crates/ruscker-admin/src/scaler.rs:693-991 | After an undisturbed tick: a pool that was within its maximum still is, even if backend calls fail, and if they succeed every managed pool is at least at its minimum; every managed spec's counters took exactly one step of the hysteresis machine on that tick's snapshots; and each pool is what the liveness pass left, less the replicas past their lifetime, with that step's plan carried out on it |
| ScalerTick.TurnKeepsLimits | crates/ruscker-admin/src/scaler.rs:799-991 | Whatever the decision, a turn keeps its spec's pool under the cap, brings it to the minimum when spawns succeed, and leaves all other pools as they were |
| ScalerTick.TurnIsTick | crates/ruscker-admin/src/scaler.rs:693-702 | A turn with what it left in the maps is one step of the per-spec machine, although the maps are shared by all specs |
| SpawnProtocol.CapIsKept | crates/ruscker-admin/src/scaler.rs:1310-1323 | For any interleaving of scaler spawns, manual spawns, cold starts, re-adoptions, first requests, prunes, restart marks and seat changes, with awaits inside the critical sections, a pool within max-replicas stays within it, no id appears twice and one task at a time is in the critical section, if no first request meets a full pool with nothing Ready and nothing usable coming up: the case of PickSpawnsIff in which it overshoots |
| SpawnProtocol.PickSpawnsIff | crates/ruscker-admin/src/routes/proxy.rs:1711-1845 | For every pool: a first request with a backend that answers spawns exactly when no Ready or Starting replica has a free seat and it may not fall back on a full one, which needs a Ready replica and either an API or a pool at its cap; it then adds one Ready replica with its own seat taken, and otherwise leaves the pool as it was |
| SpawnProtocol.StoppedPoolIsOverspawned | crates/ruscker-admin/src/routes/proxy.rs:1754-1763 | From any full pool whose replicas are all stopped for a restart: one first request takes the pool to max-replicas + 1, against the comment at line 1751 |
| SpawnProtocol.ColdStartIsSingleFlight | crates/ruscker-admin/src/scaler.rs:1245-1308 | From an empty pool with seats, any number of cold-start callers in any order create at most one container, and exactly one as soon as any caller succeeds; none is refused for the cap |
| SpawnProtocol.NextWaiterRetries | crates/ruscker-admin/src/scaler.rs:1242-1244 | A failed cold-start attempt changes nothing but its own outcome and the freed mutex, and the next waiter reaches the backend in its turn |
| SpawnProtocol.SpawnUninterrupted | crates/ruscker-admin/src/scaler.rs:1277-1382 | The steps of a spawn in a row: coalesced exactly if a replica is coming up or has a free seat and the caller only wants capacity, refused exactly at the cap, otherwise one Ready replica with the spec's seats |
| SpawnProtocol.ReadoptUninterrupted | crates/ruscker-admin/src/scaler.rs:470-546 | The steps of a re-adoption in a row: kept if Ready, turned away if unknown and the pool is full, else Ready with no sessions and the spec's seats if it answers, and gone if it does not |
| Liveness.GoneIff | crates/ruscker-admin/src/scaler.rs:586-625 | Over any run of passes, a replica is gone exactly if some pass found it registered and reported its container missing, or stopped for the whole grace, or running but failing readiness |
| Liveness.UnknownChangesNothing | crates/ruscker-admin/src/scaler.rs:586-600 | Any number of passes that learn nothing about a replica leave it exactly as it was |
| Liveness.SlotIsHeld | crates/ruscker-admin/src/scaler.rs:440-465 | A stopped replica keeps its slot, and the time its stop was noticed, through every pass within the grace |
| Liveness.RestartWithinGraceEndsReady | crates/ruscker-admin/src/scaler.rs:540-546 | Ready, seen stopped, then seen running and answering within the grace: the replica ends Ready under its own id with the reported container and no sessions, however many passes saw it stopped in between |
| Liveness.TimeoutMeansLongStopped | crates/ruscker-admin/src/scaler.rs:611-625 | A replica pruned for a timed-out restart was seen to stop by an earlier pass at least 30 s before, and no pass in between saw it running |
| Liveness.StoppedWasSeenToStop | crates/ruscker-admin/src/scaler.rs:440-455 | A replica found stopped carries the time of the pass that saw it stop, with no adoption since |
| Fleets.Fleet.ReconcileBackendLiveness | crates/ruscker-admin/src/scaler.rs:548-669 | One pass over an undisturbed registry: every replica of the snapshot gets the fate the report calls for, newcomers are taken in within the caps, the sessions of exactly the replicas that left or newly stopped are forgotten, and exactly the unregistered stopped containers past the grace are removed |
| Fleets.SilentReplicaAfterPass | crates/ruscker-admin/src/scaler.rs:569-625 | In the report's own terms, for a replica with no running container: Missing prunes it at once; Stopped takes it out of routing with no sessions from now on, and prunes it once it has been so for thirty seconds; Unknown, or nothing, changes nothing |
| Fleets.RunningReplicaAfterPass | crates/ruscker-admin/src/scaler.rs:569-641 | For a replica with a running container, whatever was observed besides: a Ready one is untouched, a stopped one, or any other of a spec the scaler runs, is back with the reported container if it answers and gone if it does not |
| Fleets.NewcomerAfterPass | crates/ruscker-admin/src/scaler.rs:628-641 | An unregistered running container of a known spec that runs containers, and that answers, is taken in Ready with no sessions and the spec's seats if there is room for all such containers of the spec; nothing else new appears |
| Fleets.Fleet.ReconcileOne | crates/ruscker-admin/src/scaler.rs:578-626 | What the pass does for one replica of the snapshot, with the stop calls it makes and the sessions it forgets |
| Fleets.Fleet.ReadoptRunningReplica | crates/ruscker-admin/src/scaler.rs:467-546 | A Ready replica is left alone, an unknown container beyond the cap or one that fails readiness is stopped, and otherwise the container is Ready in the registry under its id with no sessions |
| Fleets.Fleet.MarkRestartDetected | crates/ruscker-admin/src/scaler.rs:440-465 | A noticed stop takes the replica out of routing in its slot and forgets its sessions |
| Fleets.Fleet.Cleanup | crates/ruscker-admin/src/scaler.rs:405-414 | Registry row and sessions of a replica go together |
| Fleets.Fleet.StopOne | crates/ruscker-admin/src/scaler.rs:1175-1186 | Local state is gone after a stop whatever the backend answered, and the answer is still reported |
| Fleets.OrphansIff | crates/ruscker-admin/src/scaler.rs:635-669 | A container is removed only if it is reported stopped, past the grace since it exited, and neither the snapshot nor the registry holds it |
| Fleets.ReadoptEffect | crates/ruscker-admin/src/scaler.rs:476-546 | Re-adoption changes only what is registered under the container's id, keeps ids unique and never adds beyond the cap |
| Fleets.RejectedIffUnregistered | crates/ruscker-admin/src/scaler.rs:470-546 | A container offered for re-adoption is stopped exactly when the call leaves nothing registered under its id |
| Fleets.SnapshotFits | crates/ruscker-admin/src/scaler.rs:715-721 | The snapshot holds every replica of every spec of the catalog, once |
| Registries.ReplicaRegistry.RemoveById | crates/ruscker-core/src/lib.rs:808-815 | Removes the replica with this id and returns it, or nothing |
| Registries.ReplicaRegistry.UpsertReplica | crates/ruscker-core/src/lib.rs:820-823 | Replaces the replica with the same id, or adds it |
| Registries.ReplicaRegistry.IncSessions | crates/ruscker-core/src/lib.rs:873-877 | One more session on that replica, nothing when it is gone |
| Registries.ReplicaRegistry.DecSessions | crates/ruscker-core/src/lib.rs:882-886 | One session less, never below zero, nothing when it is gone |
| Registries.ReplicaRegistry.SetSessionCounts | crates/ruscker-core/src/lib.rs:910-919 | Every counter is overwritten, replicas without an entry drop to zero |
| Registries.ReplicaRegistry.MarkReplicaRestarting | crates/ruscker-core/src/lib.rs:828-840 | The replica is stopped in its slot with the observation time and no sessions; reports whether it was there |
| Registries.FindAfterUpsert | crates/ruscker-core/src/lib.rs:817-823 | After an upsert the id maps to the new replica, every other id as before, and ids stay unique |
| Registries.FindAfterRemove | crates/ruscker-core/src/lib.rs:806-815 | After a removal the id is gone and every other lookup is unchanged |
| Registries.FindAfterCounting | crates/ruscker-core/src/lib.rs:873-905 | An increment adds one, a decrement takes one unless the counter is zero, a set count is the count, for that replica and no other |
| Registries.OfAfterRemove | crates/ruscker-core/src/lib.rs:806-815 | A removal shrinks only the pool of the removed replica's spec, by one |
| Sessions.InMemorySessionStore.TouchOrRegister | crates/ruscker-admin/src/sessions.rs:183-224 | Registers exactly when the id is new, counts the seat exactly when it is new and was not reserved, and otherwise only refreshes it |
| Sessions.InMemorySessionStore.Sweep | crates/ruscker-admin/src/sessions.rs:238-283 | Exactly the sessions past their own timeout go (negative never expires), and every replica's counter falls by the number of its sessions among them and nothing else in the registry moves |
| Sessions.ExpiredIff | crates/ruscker-admin/src/sessions.rs:238-263 | A session ends once it has been silent for strictly longer than its spec's timeout, or the global one without an override; a negative one never ends it |
| Sessions.InMemorySessionStore.Victims | crates/ruscker-admin/src/sessions.rs:250-263 | Collects exactly the expired sessions, each once |
| Sessions.InMemorySessionStore.DropReplica | crates/ruscker-admin/src/sessions.rs:289-301 | Forgets exactly the sessions of one replica and counts them |
| Sessions.InMemorySessionStore.EndSession | crates/ruscker-admin/src/sessions.rs:306-318 | Ends and decrements exactly when the session was tracked |
| SeatAccounting.SeatsAreConserved | crates/ruscker-admin/src/sessions.rs:183-318 | In every orderly interleaving, each replica in service has counter + pending increments = tracked sessions + held reservations + pending decrements; at rest the counter is the number of tracked sessions |
| SeatAccounting.BalanceStep | crates/ruscker-admin/src/sessions.rs:200-318 | A step unbalances a replica in service if and only if it is a decrement that finds zero or the purge of a session registered since the replica came back |
| SeatAccounting.ReadoptBalancesIff | crates/ruscker-admin/src/scaler.rs:536-539 | Re-adoption with its counter reset balances exactly when the references left over from before do |
| SeatAccounting.NoSecondDecrement | crates/ruscker-admin/src/sessions.rs:266-281 | In every run each registration is still tracked, awaiting its one decrement, decremented once, or purged: never decremented twice |
| SeatAccounting.EndBeforeIncrementLeaksASeat | crates/ruscker-admin/src/sessions.rs:212-219 | A concrete sequence of steps: a session that ends before its own increment leaves a seat taken for nobody |
| SeatAccounting.PurgeAfterReadoptLeaksASeat | crates/ruscker-admin/src/scaler.rs:440-465 | A concrete sequence of steps: the purge of one reconcile pass lands after another pass re-adopted the replica and a visitor registered; the visitor's seat stays taken |
| SeatAccounting.StepKeepsInv | crates/ruscker-admin/src/sessions.rs:183-318 | Every orderly step keeps every replica in service balanced, with its increments owed to its own sessions and no purge pending on it |
| SharedSessions.PostgresSessionStore.TouchOrRegister | crates/ruscker-admin/src/sessions_pg.rs:305-357 | One upsert decides new, takeover or repeat; a new row sets the replica's counter to the committed count, or, when that count fails, adds one unless the seat was reserved; a takeover only adds to this node's length; a failed upsert changes nothing |
| SharedSessions.SessionTable.Upsert | crates/ruscker-admin/src/sessions_pg.rs:150-201 | An existing row keeps its replica and creation time, and reads as inserted only if it is new or was created at this very instant |
| SharedSessions.RowAfterUpsert | crates/ruscker-admin/src/sessions_pg.rs:160-187 | Every touch makes the row this node's and current; a new row takes the given spec and replica, an old one keeps its own and its creation time; no other row changes |
| SharedSessions.IdleIff | crates/ruscker-admin/src/sessions_pg.rs:235-279 | The rows a leader evicts are those silent for strictly longer than their spec's timeout or the global one, negative meaning never: the in-memory store's rule |
| SharedSessions.PostgresSessionStore.EvictIdle | crates/ruscker-admin/src/sessions_pg.rs:235-279 | The global and the per-spec DELETE statements together evict exactly the sessions the in-memory store's expiry rule evicts, and only on the leader |
| SharedSessions.PostgresSessionStore.Sweep | crates/ruscker-admin/src/sessions_pg.rs:221-300 | When the database answers, every counter of the registry is the number of rows on its replica and the cached length the number of rows this node owns; a count that fails leaves what it would have set, and evictions already made stay |
| SharedSessions.SessionTable.CountByReplica | crates/ruscker-admin/src/sessions_pg.rs:283-294 | The grouped count has an entry for exactly the replicas with rows, with their number |
| SharedSessions.PostgresSessionStore.DropReplica | crates/ruscker-admin/src/sessions_pg.rs:381-406 | Deletes exactly the rows of the replica and re-derives this node's length, which a failed count leaves alone; a failed DELETE changes nothing |
| SharedSessions.PostgresSessionStore.EndSession | crates/ruscker-admin/src/sessions_pg.rs:413-447 | Deletes the row if it is there, then sets its replica's counter and this node's length to the committed counts, each if its count succeeds |
| SessionCluster.LenCoversOwnRowsIff | crates/ruscker-admin/src/sessions_pg.rs:281-447 | With every statement, registry write and length update a step of its own: a node's length plus the additions still to come covers the rows it owns at every point of a run if and only if no count was stored after the node had gained more rows than it had lost and still owed for |
| SessionCluster.CoverageStep | crates/ruscker-admin/src/sessions_pg.rs:281-447 | The same for one step from any covering state: only the store of an outdated count can break it |
| SessionCluster.ZeroMeansDrained | crates/ruscker-admin/src/sessions_pg.rs:290-345 | In a run in which no node adds to its length, between a count and its store, for a row the count did not see: a length of zero with no touch under way means nothing is left to drain |
| SessionCluster.SweepStoreHidesASession | crates/ruscker-admin/src/sessions_pg.rs:289-297 | A concrete sequence of steps: a sweep counts no rows, a touch of the same node inserts one and adds to the length, the sweep stores its zero; the node owns a row and reports none |
| SessionCluster.TakeoversKeepCounts | crates/ruscker-admin/src/sessions_pg.rs:334-344 | However existing sessions move between nodes, no per-replica total changes, no row comes or goes and no registry is touched |
| SessionCluster.QuietSweepsReconcile | crates/ruscker-admin/src/sessions_pg.rs:281-297 | After any history whose operations have ended, one sweep per node, their steps interleaved in any way and nothing to evict, makes every registry equal the table's totals and the lengths add up to the number of rows |
| SessionCluster.SharesAddUp | crates/ruscker-admin/src/sessions_pg.rs:290-297 | The lengths of settled nodes add up to the rows they own together: shares neither overlap nor miss a row |
| SessionCluster.TouchUninterrupted | crates/ruscker-admin/src/sessions_pg.rs:305-345 | The steps of a touch in a row do what the class method promises: the link between the two models, as for the sweep, the drop and the logout |
| SessionCluster.SweepUninterrupted | crates/ruscker-admin/src/sessions_pg.rs:281-297 | The steps of a sweep in a row leave registry and length as the class method does |
| SessionCluster.DropUninterrupted | crates/ruscker-admin/src/sessions_pg.rs:381-406 | The steps of a replica's removal in a row leave rows and length as the class method does |
| SessionCluster.EndUninterrupted | crates/ruscker-admin/src/sessions_pg.rs:413-447 | The steps of a logout in a row leave rows, counter and length as the class method does |
| AdminSessions.RevocationIsFinalWithinOneWindow | crates/ruscker-admin/src/admin_sessions_pg.rs:240-354 | For any number of nodes and any interleaving of queries, cache accesses and clock reads: a validate that begins one cache window after a committed revocation, or later, is told the session is invalid, if every positive answer was cached before the session's expiry or within one window of its clock read, the exact guard of StoreRespectsWindowIff |
| AdminSessions.ExpiryIsFinal | crates/ruscker-admin/src/admin_sessions_pg.rs:240-329 | Likewise a validate that begins at or after the expiry is told the session is invalid, if no positive answer was cached after it, the exact guard of StoreRespectsExpiryIff |
| AdminSessions.StoreRespectsExpiryIff | crates/ruscker-admin/src/admin_sessions_pg.rs:165-176 | An answer cached at some time serves no validate from the expiry on if and only if it is cached no later than the expiry |
| AdminSessions.StoreRespectsWindowIff | crates/ruscker-admin/src/admin_sessions_pg.rs:165-176 | It serves no validate from one window after its clock read on if and only if it is cached before the expiry or within that window |
| AdminSessions.StoredServesUntil | crates/ruscker-admin/src/admin_sessions_pg.rs:165-176 | How long a cached good answer serves, exactly: cached before the expiry, until one window from the clock read or the expiry, whichever is first; cached later, only readers whose clock is behind |
| AdminSessions.RefusalStandsFor | crates/ruscker-admin/src/admin_sessions_pg.rs:310-352 | A cached refusal stands for exactly one window from its clock read |
| AdminSessions.GoodAnswersAreBounded | crates/ruscker-admin/src/admin_sessions_pg.rs:165-329 | In every run, each bound holds for every answer but those from an entry cached too late for that bound |
| AdminSessions.SweepIsInvisibleIff | crates/ruscker-admin/src/admin_sessions_pg.rs:249-263 | A sweep changes no answer exactly for the validates whose clock is not behind the sweep's |
| AdminSessions.LateStoreServesDeadSession | crates/ruscker-admin/src/admin_sessions_pg.rs:286-318 | A concrete sequence of steps, with a stall between the expiry test and the store: an entry stored after the expiry answers a validate that read its clock just before |
| AdminSessions.TombstoneHoldsIff | crates/ruscker-admin/src/admin_sessions_pg.rs:331-354 | Once the row is deleted and the negative entry stored, no validate on this node is ever again served a positive entry if and only if no operation on this node still holds the row it had selected, in every continuation, with no create of that session under way here |
| AdminSessions.TombstoneCanBeOverwritten | crates/ruscker-admin/src/admin_sessions_pg.rs:331-354 | The failing case in concrete steps: a logout's negative entry is replaced by a validate that had selected the row before the delete, and serves for the rest of one window on the logout's own node |
| AdminSessions.PostgresAdminSessionStore.Create | crates/ruscker-admin/src/admin_sessions_pg.rs:197-238 | Row and write-through entry, which is stored even when the insert fails, with the window clipped to the expiry |
| AdminSessions.PostgresAdminSessionStore.Validate | crates/ruscker-admin/src/admin_sessions_pg.rs:240-329 | A fresh entry answers without the database; otherwise the session is good exactly if its row is there, has a known role and has not expired, the answer is cached for a window that never outlives it, and an expired row is deleted; a failed query caches nothing; every 512th call drops exactly the stale entries |
| AdminSessions.PostgresAdminSessionStore.Remove | crates/ruscker-admin/src/admin_sessions_pg.rs:331-354 | The row goes and a negative entry takes its place in the cache |
| AdminSessions.PostgresAdminSessionStore.RevokeByActor | crates/ruscker-admin/src/admin_sessions_pg.rs:356-372 | Exactly the actor's rows and this node's positive entries for the actor go, every other entry stays |
| IdentityCaching.NothingStaleAfterInvalidation | crates/ruscker-admin/src/lib.rs:110-157 | In every interleaving, any identity served after a mutation's generation bump came from a read that began after the bump and saw the mutation, even when a stale fill lands after the clear |
| IdentityCaching.IdentityCache.Get | crates/ruscker-admin/src/lib.rs:128-134 | Serves an entry exactly when its generation is current and it is younger than the TTL |
| IdentityCaching.ServedForTheTtl | crates/ruscker-admin/src/lib.rs:128-134 | A stored value can be served for exactly its TTL, under the generation its fill began with |
| IdentityCaching.IdentityCache.Invalidate | crates/ruscker-admin/src/lib.rs:152-156 | Afterwards nothing stored, and nothing whose fill took its snapshot before, can be served at any time |
| Catalogs.EffectiveSpecs | crates/ruscker-admin/src/catalog.rs:38-61 | The database list followed by the YAML specs it does not shadow; only YAML when the list fails |
| Catalogs.UnionShadows | crates/ruscker-admin/src/catalog.rs:38-61 | The union holds every id of either side once, with the database's spec on a shared id |
| Catalogs.CatalogCache.EffectiveSpecsCached | crates/ruscker-admin/src/catalog.rs:71-90 | A matching signature answers from the slot; otherwise the union is built and, when the signature was read, cached, a failed list included |
| Catalogs.AnswerIsCurrentIff | crates/ruscker-admin/src/catalog.rs:71-90 | In every run whose save times increase, failed lists included, an answer is the union for the table its request read the signature of if and only if the fill it comes from listed a content with the union that belongs to its own signature |
| Catalogs.EveryAnswerWasHeld | crates/ruscker-admin/src/catalog.rs:71-90 | In such a run an answer was held by the table during its request if its request listed it itself or the fill behind it was honest, and only then if no write fell in the request |
| Catalogs.EqualSignaturesEqualTables | crates/ruscker-admin/src/db/specs.rs:227-246 | While save times increase, two contents the table ever had carry one signature if and only if they are the same content, deletes and archive flips included |
| Catalogs.EqualTimesHideAReplacement | crates/ruscker-admin/src/db/specs.rs:227-246 | Why save times must increase: with two saves at one time, deleting one spec and adding another leaves the signature as it was |
| Catalogs.SaveMovesTheSignature | crates/ruscker-admin/src/db/specs.rs:227-246 | A save that changes anything raises the version sum |
| Catalogs.RowsAfterUpsert | crates/ruscker-admin/src/db/specs.rs:658-766 | After a save the table holds the saved spec, every row of another id is as it was, and saving what is there already writes nothing |
| Catalogs.RowsAfterDelete | crates/ruscker-admin/src/db/specs.rs:470-590 | A delete takes exactly the one spec; an archive flip gives the one spec its new body and touches no other, and nothing at all if the body is that already |
| Catalogs.DeleteMovesTheSignature | crates/ruscker-admin/src/db/specs.rs:227-246 | A delete that removes anything lowers the row count |
| Catalogs.ArchiveMovesTheSignature | crates/ruscker-admin/src/db/specs.rs:532-590 | An archive flip that changes anything raises the version sum by one and nothing else, so the newest save time stays |
| Catalogs.RestoredSignatureServesDeletedSpec | crates/ruscker-admin/src/db/specs.rs:227-236 | A concrete sequence of steps: adding and deleting a spec restores the old signature, and a fill that straddled the addition then serves the deleted spec as current, against the comment that the cache is never stale |
| Leadership.EveryWinHeldTheLock | crates/ruscker-admin/src/leader.rs:125-199 | Over any run with dying sessions, lost replies and requests served after their sender gave up, every true has a moment during its call at which the lock belongs to that elector's session |
| Leadership.LockDepthIsAtMostOne | crates/ruscker-admin/src/leader.rs:91-97 | The lock is never stacked, so one dying session always frees it |
| Leadership.OldSessionNeverWinsAgain | crates/ruscker-admin/src/leader.rs:125-199 | Once another session has owned the lock, no call begun since then returns true on the old session |
| Leadership.TrueIsStaleIffSessionDied | crates/ruscker-admin/src/leader.rs:125-199 | In every run, at the step at which a call returns true, the lock is its session's if and only if that session is still alive |
| Leadership.InFlightReplyOutlivesTheLock | crates/ruscker-admin/src/leader.rs:138-160 | The failing case in concrete steps: a liveness reply already in the pipe lets a call return true after its session died and another elector won |
| Leadership.PgLeaderLock.IsLeader | crates/ruscker-admin/src/leader.rs:125-199 | True exactly when the session is kept and holds; a holder only pings and never locks twice; any failure or timeout drops the connection and the claim |
| Jobs.FireWindowsTile | crates/ruscker-admin/src/jobs.rs:143-168 | Whatever any number of schedulers and their clocks do, fire windows follow one another without gap from creation to the marker, each non-empty and with an occurrence in it |
| Jobs.EveryOccurrenceFiresOnce | crates/ruscker-admin/src/jobs.rs:4-16 | An instant after creation lies in exactly one fire window when it is not later than the marker, in none otherwise, never in two |
| Jobs.ClaimsIffOccurrencePending | crates/ruscker-admin/src/jobs.rs:61-71 | A claim is attempted exactly when an occurrence is pending and another one lies ahead |
| Jobs.OccurrenceCanFireIff | crates/ruscker-admin/src/jobs.rs:61-71 | An occurrence after creation fires in some run, with some clocks, if and only if another occurrence follows it |
| Jobs.LastOccurrenceIsLost | crates/ruscker-admin/src/jobs.rs:143-150 | A concrete schedule with two occurrences: the first fires at any clock before the second, from the second on nothing is ever claimed, and in no run does the second fire |
| Jobs.SecondClaimLoses | crates/ruscker-admin/src/jobs.rs:159-167 | Of two schedulers that listed the same marker only the first to claim wins |
| Jobs.UncontendedClaimFires | crates/ruscker-admin/src/jobs.rs:143-168 | A list followed at once by a claim fires exactly under that condition, from any reachable state |
| Jobs.ScheduleTable.MarkFired | crates/ruscker-admin/src/db/schedules.rs:248-277 | The marker moves exactly when it still is the one listed |
| Jobs.ScheduleTable.Tick | crates/ruscker-admin/src/jobs.rs:127-168 | One pass over a possibly stale list fires exactly the enabled schedules whose claim is due and whose marker has not moved, and touches no other marker |
| RateLimiting.ApiRateLimiter.Check | crates/ruscker-admin/src/ratelimit.rs:90-136 | Pruned queues and idle sweeps included, the answer is the one the full history of allowed requests calls for |
| RateLimiting.EveryWindowIsBounded | crates/ruscker-admin/src/ratelimit.rs:90-136 | For any arrival times, any closed interval of the window's length holds at most max allowed requests |
| RateLimiting.AllowIff | crates/ruscker-admin/src/ratelimit.rs:100-134 | A request is allowed exactly when fewer than max allowed ones lie in the closed window that ends with it |
| RateLimiting.RetryAfterIsExact | crates/ruscker-admin/src/ratelimit.rs:121-134 | With no request in between, a retry is allowed exactly from the advertised second on |
| RateLimiting.ApiRateLimiter.SweepIdle | crates/ruscker-admin/src/ratelimit.rs:140-144 | Drops exactly the keys whose newest request is older than the widest window seen, and no answer changes |
| RateLimiting.PrunedQueueDecides | crates/ruscker-admin/src/ratelimit.rs:100-134 | A queue whose front is fresh decides as the full history does |
| AccessCounters.EveryBumpIsAccountedFor | crates/ruscker-admin/src/access_counter.rs:65-117 | In every interleaving of bumps and flush tasks, persisted + in flight + pending + dropped equals the bumps made, per spec and day |
| AccessCounters.SuccessfulFlushPersistsTheRemainder | crates/ruscker-admin/src/access_counter.rs:83-107 | After any history, a flush that succeeds alone leaves nothing pending and everything but the drops persisted |
| AccessCounters.AccessCounter.Flush | crates/ruscker-admin/src/access_counter.rs:83-107 | Neither loses nor repeats an increment; success empties the buffer, failure keeps every unwritten amount |
| AccessCounters.AccessCounter.Bump | crates/ruscker-admin/src/access_counter.rs:65-76 | Counts a bucket that exists or finds fewer than 4096, drops only a new bucket at that backstop |
| AccessCounters.AccessCounter.MergeBack | crates/ruscker-admin/src/access_counter.rs:109-117 | Adds every amount back, whatever arrived meanwhile |
| LogBuffers.PollsYieldTheTailOfEachBatch | crates/ruscker-admin/src/logbuf.rs:83-109 | Chained polls hand over exactly the last cap lines pushed since the previous poll, each once and in order |
| LogBuffers.PollsAreCompleteIffBatchesFit | crates/ruscker-admin/src/logbuf.rs:83-109 | Nothing is missed exactly when at most cap lines arrive between two polls |
| LogBuffers.LogBuffer.PushLine | crates/ruscker-admin/src/logbuf.rs:50-61 | The buffered sequence numbers stay the contiguous range ending at the next one, over the full history |
| LogBuffers.LogBuffer.TailWithCursor | crates/ruscker-admin/src/logbuf.rs:83-89 | Tail, total and cursor of one moment of the history |
| LogBuffers.LogBuffer.Since | crates/ruscker-admin/src/logbuf.rs:100-109 | Exactly the still buffered lines from the cursor on |
| EnvInterpolation.Interpolate | crates/ruscker-config/src/env.rs:50-117 | The walk with its one state variable computes the stateless definition: each line kept or rendered by looking only at the lines before it, the first failing line deciding the error |
| EnvInterpolation.BlockStep | crates/ruscker-config/src/env.rs:68-106 | A line is block content to the walk exactly when some earlier container-env key line has all significant lines after it, this one included, deeper than its key's column |
| EnvInterpolation.SplitInlineComment | crates/ruscker-config/src/env.rs:127-143 | Splits at the first # outside quotes and after a blank, tab or line start; code and comment together are the line |
| EnvInterpolation.TokenAtIff | crates/ruscker-config/src/env.rs:31-36 | The pattern matches at a position exactly where a well-spelled token starts, with its name and default |
| EnvInterpolation.ReferenceRendersTo | crates/ruscker-config/src/env.rs:197-216 | A reference renders to its variable's value if that is set, default or no default, and to the default only if it is absent; absent without default, and not Unicode, are the two errors; a default that contains a reference is refused whatever is set |
| EnvInterpolation.FirstReferenceIsReplaced | crates/ruscker-config/src/env.rs:168-221 | End to end: the text before a line's first reference is kept, the reference gives way to the value or the default, and the rest is interpolated on its own |
| EnvInterpolation.LineShape | crates/ruscker-config/src/env.rs:61-106 | For a line of blanks, list dashes, blanks, a key and a colon: indent, key, and the key's own column past the dash |
| EnvInterpolation.SiblingsAreInterpolated | crates/ruscker-config/src/env.rs:89-105 | A list item that begins with container-env keeps none of the lines at its key's column or left of it, and the deeper line after it is kept |
| EnvInterpolation.KeyDecides | crates/ruscker-config/src/env.rs:82-112 | Outside every block a line is kept for the two secret keys and rendered, its comment excepted, for any other |
| EnvInterpolation.CommentIsTheFirst | crates/ruscker-config/src/env.rs:127-143 | The comment starts at the first # outside quotation that is first on the line or follows a blank or tab |
| EnvInterpolation.QuotationRuns | crates/ruscker-config/src/env.rs:127-143 | A quotation lasts to the next quote of its own kind, whatever the other kind does in it |
| EnvInterpolation.InterpolateLine | crates/ruscker-config/src/env.rs:168-221 | The scan with its copied gaps equals rendering the tokens one by one, the first failing token deciding the error |
| EnvInterpolation.SegmentsCoverTheLine | crates/ruscker-config/src/env.rs:168-221 | The split into characters and tokens loses nothing: its source texts are the line |
| EnvInterpolation.FirstFailureDecides | crates/ruscker-config/src/env.rs:50-117 | The text fails with an error exactly if its first failing line fails with that error |
| EnvInterpolation.OutputIsLineByLine | crates/ruscker-config/src/env.rs:50-117 | When no line fails the output is one output per line in order, kept lines byte for byte |
| EnvInterpolation.OnlyReferencedVariablesMatter | crates/ruscker-config/src/env.rs:42-49 | Variables that occur only in kept lines or comments cannot influence the result, not even as an error |
| EnvInterpolation.NothingToInterpolate | crates/ruscker-config/src/env.rs:145-150 | A text whose only references are in kept lines and comments comes back unchanged in any environment |
| EnvInterpolation.LinesAreCut | crates/ruscker-config/src/env.rs:61-62 | The text is cut after each newline and nowhere else |

## Left out

- Docker, HTTP, TLS, SQL text, templates, the command line, i18n and themes; only the backend and database effects named above remain, as atomic steps.
- Cryptography and encodings, cron parsing and time zones (`Jobs` assumes only a least occurrence strictly after an instant), metrics, activity and alert buffers, roles and access rules.
- Logging, alerts, image dates, and the network, label, volume and credential part of a spawn: one oracle step that may fail.
- ScalerRuns.FlapCycleBound: with a scale-up threshold the spawn tick may well show an idle replica, a replica without seats is saturated and idle at once, and an API replica always reads as idle, so it asks for seats, no threshold and no API; and it does not cover an event-driven re-adoption that brings back, between two ticks, a replica the registry had lost. `Hysteresis.SpawnWaitsOutTheCooldown` and `Hysteresis.DroppedAfterAFullStreak` need none of these.
- ScalerTick.Tick: runs without interference, with one clock reading for all lifetimes of the tick, one value per replica for in-flight API requests, distinct spec ids and a fixed catalog; `tick_with_interval` with no backend returns at once and is not shown.
- Fleets.NewcomerAfterPass: with more newcomers of a spec than there is room for, which of them get in depends on the order of a hash map and is left open.
- Fleets.Fleet.ReconcileBackendLiveness: the snapshot is the registry at the time of the pass, and a container's labels name the spec it is registered under; overlapping passes appear only as steps in `SeatAccounting` and `SpawnProtocol`.
- Scaler.ReapedAfterLifetime: stated for caps of at least one second whose sum with the drain window fits a 64-bit integer; `ScalingRules.ReapedIff` has neither limit.
- SpawnProtocol.PickSpawnsIff: which of several usable replicas a pick takes, by round-robin or load, is not modelled, nor the seat it takes there, which is a seat change of its own.
- Scaler.AutoScaler.SpawnOne: sequential; its interleavings are in `SpawnProtocol`, where the pool is one spec's and specs are otherwise independent.
- ScalingRules.SaturationIsFullUtilization: utilization is an exact fraction, not a rounded double.
- Backends.Backend.Spawn: a new container is reported Ready; the states Starting and Draining reach the registry only through the pools the theorems start from.
- SeatAccounting.SeatsAreConserved: one direction; `SeatAccounting.BalanceStep` and `SeatAccounting.ReadoptBalancesIff` give the exact condition per step. A session id stands with the replica its cookie is pinned to.
- SessionCluster.LenCoversOwnRowsIff: a request dropped between its upsert and its addition, and a write that took effect but was reported as failed, are not covered; a registry's counters may change in any way, so the fallback increment is one of many.
- SharedSessions.PostgresSessionStore.Sweep: when a DELETE fails it is the sweep's first; one that fails after others took effect is not shown.
- AdminSessions.RevocationIsFinalWithinOneWindow: monotone and wall clocks are one global time, and the two clock samples of the expiry clip are one.
- AdminSessions.TombstoneHoldsIff: the continuations include ones in which a held row is cached only after the session's expiry.
- Catalogs.AnswerIsCurrentIff: save times strictly increase (`Catalogs.EqualTimesHideAReplacement` shows why); an archive flip carries its new body, and rows of one import are listed by id.
- IdentityCaching.NothingStaleAfterInvalidation: one user's identity; other users' invalidations are a step of their own.
- AccessCounters.EveryBumpIsAccountedFor: a failed write persists nothing, and a shutdown that abandons a flush midway loses what that task still held.
- RateLimiting.ApiRateLimiter.Check: one policy per spec for the limiter's life, and clock readings in lock order.
- LogBuffers.LogBuffer.PushLine: sequence numbers, like generation and seat counters elsewhere, do not wrap around.
- EnvInterpolation.Interpolate: text is a sequence of Unicode scalar values whose widths in UTF-8 give the columns; the environment does not change during a call; `is_pure_env_ref` is not modelled.
- Jobs after their claim: running them, recording their outcome and their alerts.
