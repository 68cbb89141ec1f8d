/**
 Connection draining: the drain manager, its timers, the per-request connection leases, and the event loop's set of
 pending timers. A timer handle names one `setTimeout`; `pending` is what the event loop may still fire.
 */
module ConnectionDrain {
  import opened BackendPool

  type Handle = nat

  /** A pending timer: the backend its closure captured, its due time, and the drain that armed it. */
  datatype Pending = Pending(backend: Id, deadline: int, drainNo: nat)

  datatype Timers = Timers(drainTimers: map<Id, Handle>, pending: map<Handle, Pending>, next: Handle)

  const NO_TIMERS: Timers := Timers(map[], map[], 0)

  /** setTimeout turns a delay below 1 or above 2147483647 milliseconds into 1. */
  function TimerDelay(ms: int): nat {
    if 1 <= ms <= 2147483647 then ms else 1
  }

  // ---------------------------------------------------------------- the operations on one backend

  /** Going offline: clears the backend's timer and detaches the callback. */
  function CompleteDrain(s: BackendState, d: Timers, id: Id): (BackendState, Timers) {
    (s.(status := Offline, healthy := false, onDrainComplete := false),
     if id in d.drainTimers
     then d.(drainTimers := d.drainTimers - {id}, pending := d.pending - {d.drainTimers[id]})
     else d)
  }

  function Drain(s: BackendState, d: Timers, id: Id, timeoutSec: int, now: int): (BackendState, Timers) {
    if s.status == Draining then (s, d)
    else
      var t := s.(healthy := false, status := Draining, drainNo := s.drainNo + 1);
      if s.activeConnections == 0 then CompleteDrain(t, d, id)
      else
        var kept := if id in d.drainTimers then d.pending - {d.drainTimers[id]} else d.pending;
        var armed := Pending(id, now + TimerDelay(timeoutSec * 1000), t.drainNo);
        (t.(onDrainComplete := true),
         Timers(d.drainTimers[id := d.next], kept[d.next := armed], d.next + 1))
  }

  function Undrain(s: BackendState, d: Timers, id: Id): (BackendState, Timers) {
    (s.(onDrainComplete := false, status := Healthy, healthy := true),
     if id in d.drainTimers
     then d.(drainTimers := d.drainTimers - {id}, pending := d.pending - {d.drainTimers[id]})
     else d)
  }

  /** The timer callback; `drainTimers` keeps the spent handle when the backend is no longer draining. */
  function Fire(s: BackendState, d: Timers, h: Handle): (BackendState, Timers)
    requires h in d.pending
  {
    var fired := d.(pending := d.pending - {h});
    if s.status == Draining then CompleteDrain(s, fired, d.pending[h].backend) else (s, fired)
  }

  function LeaseTaken(s: BackendState): BackendState {
    s.(activeConnections := s.activeConnections + 1)
  }

  /** Math.max(0, (activeConnections || 1) - 1) */
  function Decremented(active: nat): nat {
    if active == 0 then 0 else active - 1
  }

  /** The first finish or close event of a lease: the decrement, and the drain callback at zero. */
  function LeaseReleased(s: BackendState, d: Timers, id: Id): (BackendState, Timers) {
    var t := s.(activeConnections := Decremented(s.activeConnections));
    if t.onDrainComplete && t.activeConnections == 0 && t.status == Draining then CompleteDrain(t, d, id) else (t, d)
  }

  // ---------------------------------------------------------------- the manager object

  datatype DrainReply = UnknownBackend | AlreadyDraining | WentOffline | DrainStarted

  class ConnectionDrainManager {
    const pool: seq<Backend>
    var drainTimers: map<Id, Handle>
    var pending: map<Handle, Pending>
    var next: Handle

    ghost function State(): Timers
      reads this
    {
      Timers(drainTimers, pending, next)
    }

    constructor (pool: seq<Backend>)
      ensures this.pool == pool && State() == NO_TIMERS
    {
      this.pool := pool;
      drainTimers, pending, next := map[], map[], 0;
    }

    method SetTimeout(id: Id, ms: int, now: int, drainNo: nat) returns (h: Handle)
      modifies this`pending, this`next
      ensures h == old(next) && next == old(next) + 1
      ensures pending == old(pending)[h := Pending(id, now + TimerDelay(ms), drainNo)]
    {
      h := next;
      pending := pending[h := Pending(id, now + TimerDelay(ms), drainNo)];
      next := next + 1;
    }

    method DrainBackend(id: Id, timeoutSec: int, now: int) returns (reply: DrainReply)
      requires ValidPool(pool)
      modifies this, if id < |pool| then {pool[id]} else {}
      ensures reply == UnknownBackend <==> id >= |pool|
      ensures reply == UnknownBackend ==> State() == old(State())
      ensures id < |pool| ==>
        && (pool[id].State(), State()) == Drain(old(pool[id].State()), old(State()), id, timeoutSec, now)
        && (reply == AlreadyDraining <==> old(pool[id].status) == Draining)
        && (reply == WentOffline <==> old(pool[id].status) != Draining && old(pool[id].activeConnections) == 0)
      ensures forall j: Id :: j < |pool| && j != id ==> pool[j].State() == old(pool[j].State())
    {
      if id >= |pool| { return UnknownBackend; }
      var backend := pool[id];
      if backend.status == Draining { return AlreadyDraining; }
      backend.healthy, backend.status := false, Draining;
      backend.drainNo := backend.drainNo + 1;
      if backend.activeConnections == 0 {
        FinishDrain(id);
        return WentOffline;
      }
      if id in drainTimers { pending := pending - {drainTimers[id]}; }
      var timer := SetTimeout(id, timeoutSec * 1000, now, backend.drainNo);
      drainTimers := drainTimers[id := timer];
      backend.onDrainComplete := true;
      reply := DrainStarted;
    }

    method FinishDrain(id: Id)
      requires ValidPool(pool) && id < |pool|
      modifies this, pool[id]
      ensures (pool[id].State(), State()) == CompleteDrain(old(pool[id].State()), old(State()), id)
      ensures pool[id].status == Offline && !pool[id].healthy && !pool[id].onDrainComplete && id !in drainTimers
    {
      if id in drainTimers {
        pending := pending - {drainTimers[id]};
        drainTimers := drainTimers - {id};
      }
      pool[id].status, pool[id].healthy, pool[id].onDrainComplete := Offline, false, false;
    }

    method UndrainBackend(id: Id) returns (found: bool)
      requires ValidPool(pool)
      modifies this, if id < |pool| then {pool[id]} else {}
      ensures found == (id < |pool|)
      ensures !found ==> State() == old(State())
      ensures found ==> (pool[id].State(), State()) == Undrain(old(pool[id].State()), old(State()), id)
      ensures found ==>
        pool[id].status == Healthy && pool[id].healthy && !pool[id].onDrainComplete && id !in drainTimers
      ensures forall j: Id :: j < |pool| && j != id ==> pool[j].State() == old(pool[j].State())
    {
      if id >= |pool| { return false; }
      if id in drainTimers {
        pending := pending - {drainTimers[id]};
        drainTimers := drainTimers - {id};
      }
      pool[id].onDrainComplete := false;
      pool[id].status, pool[id].healthy := Healthy, true;
      found := true;
    }

    method FireTimer(h: Handle)
      requires ValidPool(pool) && h in pending && pending[h].backend < |pool|
      modifies this, pool[pending[h].backend]
      ensures var id := old(pending)[h].backend;
        && (pool[id].State(), State()) == Fire(old(pool[id].State()), old(State()), h)
        && forall j: Id :: j < |pool| && j != id ==> pool[j].State() == old(pool[j].State())
    {
      var id := pending[h].backend;
      pending := pending - {h};
      if pool[id].status == Draining { FinishDrain(id); }
    }

    /** The body of the decrement closure, past its `decremented` guard. */
    method Decrement(id: Id)
      requires ValidPool(pool) && id < |pool|
      modifies this, pool[id]
      ensures (pool[id].State(), State()) == LeaseReleased(old(pool[id].State()), old(State()), id)
      ensures forall j: Id :: j < |pool| && j != id ==> pool[j].State() == old(pool[j].State())
    {
      var backend := pool[id];
      backend.activeConnections := if backend.activeConnections == 0 then 0 else backend.activeConnections - 1;
      if backend.onDrainComplete && backend.activeConnections == 0 {
        if backend.status == Draining { FinishDrain(id); }
      }
    }
  }
}
