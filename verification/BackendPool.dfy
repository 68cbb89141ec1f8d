/**
 The shared pool of upstream backends: every other component writes these objects.

 A backend's id is its position in the pool: src/config/backends.js derives the id `backend-<n>` from the index.
 An id outside the pool stands for an unknown backend.
 */
module BackendPool {
  type Id = nat

  datatype Status = Healthy | Degraded | Unhealthy | Draining | Offline

  /** The mutable part of a backend. `onDrainComplete` says whether the callback property is attached; `drainNo`
      counts the drains begun, and names a drain as its start time does. */
  datatype BackendState = BackendState(
    healthy: bool,
    status: Status,
    adminDisabled: bool,
    activeConnections: nat,
    onDrainComplete: bool,
    drainNo: nat)

  /** What the writers keep between `healthy` and `status`: a healthy flag comes with a serving status, and the status
      'healthy' with a healthy flag. */
  predicate Consistent(s: BackendState) {
    && (s.healthy ==> s.status == Healthy || s.status == Degraded)
    && (s.status == Healthy ==> s.healthy)
  }

  const FRESH: BackendState := BackendState(true, Healthy, false, 0, false, 0)

  class Backend {
    const id: Id
    var weight: nat
    var healthy: bool
    var status: Status
    var adminDisabled: bool
    var activeConnections: nat
    var onDrainComplete: bool
    var drainNo: nat

    ghost function State(): BackendState
      reads this
    {
      BackendState(healthy, status, adminDisabled, activeConnections, onDrainComplete, drainNo)
    }

    constructor (id: Id)
      ensures this.id == id && State() == FRESH
      ensures weight == if id == 0 then 3 else if id == 1 then 2 else 1
      ensures healthy && status == Healthy && !adminDisabled && activeConnections == 0 && !onDrainComplete
    {
      this.id := id;
      weight := if id == 0 then 3 else if id == 1 then 2 else 1;
      healthy, status, adminDisabled := true, Healthy, false;
      activeConnections, onDrainComplete, drainNo := 0, false, 0;
    }
  }

  ghost predicate ValidPool(pool: seq<Backend>) {
    forall i :: 0 <= i < |pool| ==> pool[i].id == i
  }
}
