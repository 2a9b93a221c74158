/**
 The container backend as the scaler sees it: an oracle whose answers are fixed but unknown, and
 a record of the calls that matter. Nothing is assumed of a call that fails except that it
 created nothing.
 */
module Backends {
  import opened Wrappers
  import opened Registries

  class Backend {
    /** Every call succeeds. */
    const reliable: bool
    /** The replicas whose readiness probe succeeds. */
    const answering: set<ReplicaId>

    /** Replica ids are never reused. */
    var nextId: ReplicaId
    /** Spawns begun. */
    var tries: nat
    /** Replicas created, stop calls, those of them that succeeded, and container removals, in order. */
    var spawned: seq<ReplicaId>
    var stops: seq<ReplicaId>
    var stopped: seq<ReplicaId>
    var removals: seq<string>

    constructor (reliable: bool, answering: set<ReplicaId>)
      ensures this.reliable == reliable && this.answering == answering
      ensures nextId == 0 && tries == 0 && spawned == [] && stops == [] && stopped == [] && removals == []
    {
      this.reliable, this.answering := reliable, answering;
      nextId, tries, spawned, stops, stopped, removals := 0, 0, [], [], [], [];
    }

    /** Credentials and environment of a spawn resolve. */
    method Preflight() returns (ok: bool)
      modifies this`tries
      ensures reliable ==> ok
      ensures tries == old(tries) + 1
    {
      tries := tries + 1;
      ok := *;
      if reliable {
        ok := true;
      }
    }

    method Spawn(spec: string) returns (r: Option<Replica>)
      modifies this`nextId, this`spawned
      ensures reliable ==> r.Some?
      ensures r.Some? ==>
                && r.value.id == old(nextId) && r.value.spec == spec && r.value.state.Ready?
                   && r.value.sessionsActive == 0
                && nextId == old(nextId) + 1 && spawned == old(spawned) + [r.value.id]
      ensures r.None? ==> nextId == old(nextId) && spawned == old(spawned)
    {
      var ok: bool := *;
      if !(ok || reliable) {
        return None;
      }
      var container: string := *;
      var startedAt: int := *;
      r := Some(Replica(nextId, spec, container, Ready, startedAt, 0, 0));
      spawned := spawned + [nextId];
      nextId := nextId + 1;
    }

    method Stop(id: ReplicaId) returns (ok: bool)
      modifies this`stops, this`stopped
      ensures reliable ==> ok
      ensures stops == old(stops) + [id] && stopped == old(stopped) + if ok then [id] else []
    {
      ok := *;
      if reliable {
        ok := true;
      }
      stops := stops + [id];
      if ok {
        stopped := stopped + [id];
      }
    }

    method WaitUntilReady(id: ReplicaId) returns (ok: bool)
      ensures ok <==> id in answering
    {
      ok := id in answering;
    }

    method RemoveContainer(container: string) returns (ok: bool)
      modifies this`removals
      ensures removals == old(removals) + [container]
    {
      ok := *;
      removals := removals + [container];
    }
  }
}
