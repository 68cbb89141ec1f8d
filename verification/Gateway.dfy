/**
 The gateway's backend pool as one interleaved state machine. Each synchronous stretch of the program is one event; a
 run is any sequence of enabled events. The lemmas say what every interleaving of the four writers of a backend
 (health checks, breakers, drains, overrides) and of routing keeps, and what it does not.
 */
module Gateway {
  import opened BackendPool
  import opened CircuitBreaker
  import opened ConnectionDrain
  import opened HealthStore
  import opened Routing
  import opened Wrappers

  datatype Member = Member(backend: BackendState, breaker: Breaker, stats: HealthStats)

  /** One decrement closure: the backend it captured and its `decremented` flag. */
  datatype Lease = Lease(backend: Id, released: bool)

  datatype Sys = Sys(members: seq<Member>, timers: Timers, leases: seq<Lease>, now: int)

  datatype Event =
    | HealthResult(id: Id, success: bool)
    | ProxyResponse(id: Id, statusCode: nat)
    | ProxyError(id: Id)
    | Route(failed: set<Id>, choice: Option<Id>)
    | StatusPage
    | Release(lease: nat)
    | DrainCommand(id: Id, timeoutSec: int)
    | UndrainCommand(id: Id)
    | TimerFires(handle: Handle)
    | ResetCommand(id: Id)
    | OverrideCommand(id: Id, healthy: bool)
    | Tick(ms: nat)

  // ---------------------------------------------------------------- steps

  function Succeeded(cfg: BreakerConfig, m: Member, now: int): Member {
    var c := AfterSuccess(cfg, m.breaker, now);
    m.(breaker := c, backend := Sync(m.backend, m.breaker.state, c.state))
  }

  function Failed(cfg: BreakerConfig, m: Member, now: int): Member {
    var c := AfterFailure(cfg, m.breaker, now);
    m.(breaker := c, backend := Sync(m.backend, m.breaker.state, c.state))
  }

  /** The health store judges first, then the breaker hears of the result. */
  function Checked(cfg: BreakerConfig, m: Member, success: bool, now: int): Member {
    var st := Record(m.stats, success);
    var judged := m.(stats := st, backend := Judge(m.backend, st));
    if success then Succeeded(cfg, judged, now) else Failed(cfg, judged, now)
  }

  function Responded(cfg: BreakerConfig, m: Member, statusCode: nat, now: int): Member {
    if statusCode >= 500 then Failed(cfg, m, now)
    else if statusCode < 400 then Succeeded(cfg, m, now)
    else m
  }

  function WasReset(m: Member, now: int): Member {
    m.(breaker := AfterReset(m.breaker, now), backend := Sync(m.backend, m.breaker.state, Closed))
  }

  function WasOverridden(m: Member, healthy: bool): Member {
    m.(backend := Overridden(m.backend, healthy), stats := OverriddenStats(m.stats, healthy))
  }

  function Filtered(cfg: BreakerConfig, m: Member, now: int): Member {
    var (s, b, _) := Consider(cfg, m.backend, m.breaker, now);
    m.(backend := s, breaker := b)
  }

  function Passes(cfg: BreakerConfig, m: Member, now: int): bool {
    Consider(cfg, m.backend, m.breaker, now).2
  }

  function AllFiltered(cfg: BreakerConfig, s: Sys): (ms: seq<Member>)
    ensures |ms| == |s.members|
    ensures forall i :: 0 <= i < |ms| ==> ms[i] == Filtered(cfg, s.members[i], s.now)
  {
    seq(|s.members|, i requires 0 <= i < |s.members| => Filtered(cfg, s.members[i], s.now))
  }

  function AllPass(cfg: BreakerConfig, s: Sys): (p: seq<bool>)
    ensures |p| == |s.members|
    ensures forall i :: 0 <= i < |p| ==> p[i] == Passes(cfg, s.members[i], s.now)
  {
    seq(|s.members|, i requires 0 <= i < |s.members| => Passes(cfg, s.members[i], s.now))
  }

  function Set(s: Sys, i: Id, m: Member): Sys
    requires i < |s.members|
  {
    s.(members := s.members[i := m])
  }

  function SetDrained(s: Sys, i: Id, r: (BackendState, Timers)): Sys
    requires i < |s.members|
  {
    s.(members := s.members[i := s.members[i].(backend := r.0)], timers := r.1)
  }

  function Routed(cfg: BreakerConfig, s: Sys, choice: Option<Id>): Sys {
    var t := s.(members := AllFiltered(cfg, s));
    if choice.Some? && choice.value < |t.members| then
      var m := t.members[choice.value];
      Set(t, choice.value, m.(backend := LeaseTaken(m.backend))).(leases := t.leases + [Lease(choice.value, false)])
    else t
  }

  /** The first event of a lease decrements; later ones find the flag set. */
  function Released(s: Sys, l: nat): Sys {
    if l >= |s.leases| || s.leases[l].released then s
    else
      var i := s.leases[l].backend;
      var t := s.(leases := s.leases[l := Lease(i, true)]);
      if i < |s.members| then SetDrained(t, i, LeaseReleased(s.members[i].backend, s.timers, i)) else t
  }

  function Fired(s: Sys, h: Handle): Sys {
    if h in s.timers.pending && s.timers.pending[h].backend < |s.members| then
      var i := s.timers.pending[h].backend;
      SetDrained(s, i, Fire(s.members[i].backend, s.timers, h))
    else s
  }

  /** Events about a backend that is not in the pool change nothing in it. */
  function Step(cfg: BreakerConfig, s: Sys, e: Event): Sys {
    match e
    case HealthResult(i, ok) => if i < |s.members| then Set(s, i, Checked(cfg, s.members[i], ok, s.now)) else s
    case ProxyResponse(i, code) => if i < |s.members| then Set(s, i, Responded(cfg, s.members[i], code, s.now)) else s
    case ProxyError(i) => if i < |s.members| then Set(s, i, Failed(cfg, s.members[i], s.now)) else s
    case Route(_, choice) => Routed(cfg, s, choice)
    case StatusPage => Routed(cfg, s, None)
    case Release(l) => Released(s, l)
    case DrainCommand(i, sec) =>
      if i < |s.members| then SetDrained(s, i, Drain(s.members[i].backend, s.timers, i, sec, s.now)) else s
    case UndrainCommand(i) =>
      if i < |s.members| then SetDrained(s, i, Undrain(s.members[i].backend, s.timers, i)) else s
    case TimerFires(h) => Fired(s, h)
    case ResetCommand(i) => if i < |s.members| then Set(s, i, WasReset(s.members[i], s.now)) else s
    case OverrideCommand(i, healthy) => if i < |s.members| then Set(s, i, WasOverridden(s.members[i], healthy)) else s
    case Tick(ms) => s.(now := s.now + ms)
  }

  /** The effect of an event on one member of the pool. */
  function MemberAfter(cfg: BreakerConfig, s: Sys, e: Event, i: Id): Member
    requires i < |s.members|
  {
    var m := s.members[i];
    match e
    case HealthResult(j, ok) => if j == i then Checked(cfg, m, ok, s.now) else m
    case ProxyResponse(j, code) => if j == i then Responded(cfg, m, code, s.now) else m
    case ProxyError(j) => if j == i then Failed(cfg, m, s.now) else m
    case Route(_, choice) =>
      var f := Filtered(cfg, m, s.now);
      if choice == Some(i) then f.(backend := LeaseTaken(f.backend)) else f
    case StatusPage => Filtered(cfg, m, s.now)
    case Release(l) =>
      if l < |s.leases| && !s.leases[l].released && s.leases[l].backend == i
      then m.(backend := LeaseReleased(m.backend, s.timers, i).0) else m
    case DrainCommand(j, sec) => if j == i then m.(backend := Drain(m.backend, s.timers, i, sec, s.now).0) else m
    case UndrainCommand(j) => if j == i then m.(backend := Undrain(m.backend, s.timers, i).0) else m
    case TimerFires(h) =>
      if h in s.timers.pending && s.timers.pending[h].backend == i
      then m.(backend := Fire(m.backend, s.timers, h).0) else m
    case ResetCommand(j) => if j == i then WasReset(m, s.now) else m
    case OverrideCommand(j, healthy) => if j == i then WasOverridden(m, healthy) else m
    case Tick(_) => m
  }

  lemma RoutedAt(cfg: BreakerConfig, s: Sys, choice: Option<Id>, i: Id)
    requires i < |s.members|
    ensures var f := Filtered(cfg, s.members[i], s.now);
      |Routed(cfg, s, choice).members| == |s.members|
      && Routed(cfg, s, choice).members[i] == if choice == Some(i) then f.(backend := LeaseTaken(f.backend)) else f
  {
    assert AllFiltered(cfg, s)[i] == Filtered(cfg, s.members[i], s.now);
  }

  /** A step acts on the members one by one. */
  lemma StepAt(cfg: BreakerConfig, s: Sys, e: Event, i: Id)
    requires i < |s.members|
    ensures |Step(cfg, s, e).members| == |s.members|
    ensures Step(cfg, s, e).members[i] == MemberAfter(cfg, s, e, i)
  {
    if e.Route? { RoutedAt(cfg, s, e.choice, i); }
    if e.StatusPage? { RoutedAt(cfg, s, None, i); }
  }

  /** Routing chooses an admissible backend, or none when nothing passed the filter; a timer fires when it is due. */
  ghost predicate Enabled(cfg: BreakerConfig, s: Sys, e: Event) {
    match e
    case Route(failed, choice) =>
      && (choice.None? <==> forall i :: 0 <= i < |s.members| ==> !AllPass(cfg, s)[i])
      && (choice.Some? ==> Admissible(AllPass(cfg, s), failed, choice.value))
    case Release(l) => l < |s.leases|
    case TimerFires(h) => h in s.timers.pending && s.now >= s.timers.pending[h].deadline
    case _ => true
  }

  ghost function Run(cfg: BreakerConfig, s: Sys, events: seq<Event>): Sys {
    if events == [] then s else Step(cfg, Run(cfg, s, events[..|events| - 1]), events[|events| - 1])
  }

  ghost predicate ValidRun(cfg: BreakerConfig, s: Sys, events: seq<Event>) {
    events == [] || (ValidRun(cfg, s, events[..|events| - 1])
                     && Enabled(cfg, Run(cfg, s, events[..|events| - 1]), events[|events| - 1]))
  }

  ghost function Start(n: nat, now: int): (s: Sys)
    ensures |s.members| == n && forall i :: 0 <= i < n ==> s.members[i] == Member(FRESH, FreshBreaker(now), NO_CHECKS)
  {
    Sys(seq(n, _ => Member(FRESH, FreshBreaker(now), NO_CHECKS)), NO_TIMERS, [], now)
  }

  // ---------------------------------------------------------------- invariants

  /** Unreleased leases of backend i. */
  ghost function Live(leases: seq<Lease>, i: Id): nat {
    if leases == [] then 0
    else
      var last := leases[|leases| - 1];
      Live(leases[..|leases| - 1], i) + if last.backend == i && !last.released then 1 else 0
  }

  ghost predicate PoolConsistent(s: Sys) {
    forall i :: 0 <= i < |s.members| ==> Consistent(s.members[i].backend)
  }

  ghost predicate BreakersFaithful(cfg: BreakerConfig, s: Sys) {
    cfg.enabled && cfg.failureThreshold >= 1 ==>
      forall i :: 0 <= i < |s.members| ==> Faithful(cfg, s.members[i].breaker)
  }

  ghost predicate LeasesConserved(s: Sys) {
    && (forall l :: 0 <= l < |s.leases| ==> s.leases[l].backend < |s.members|)
    && (forall i :: 0 <= i < |s.members| ==> s.members[i].backend.activeConnections == Live(s.leases, i))
  }

  /** Every pending timer is the one its backend's entry names, so no backend has two. */
  ghost predicate TimersOwned(s: Sys) {
    && (forall i :: i in s.timers.drainTimers ==> s.timers.drainTimers[i] < s.timers.next)
    && (forall i, j :: i in s.timers.drainTimers && j in s.timers.drainTimers && i != j ==>
          s.timers.drainTimers[i] != s.timers.drainTimers[j])
    && (forall h :: h in s.timers.pending ==>
          var i := s.timers.pending[h].backend;
          i < |s.members| && i in s.timers.drainTimers && s.timers.drainTimers[i] == h)
  }

  /** A draining backend is out of rotation, has live connections, its callback attached, and pending the very timer
      its current drain armed. */
  ghost predicate DrainArmed(s: Sys, i: Id)
    requires i < |s.members|
  {
    var b := s.members[i].backend;
    b.status == Draining ==>
      && !b.healthy && b.activeConnections > 0 && b.onDrainComplete
      && i in s.timers.drainTimers && s.timers.drainTimers[i] in s.timers.pending
      && s.timers.pending[s.timers.drainTimers[i]].drainNo == b.drainNo
  }

  ghost predicate DrainsArmed(s: Sys) {
    forall i :: 0 <= i < |s.members| ==> DrainArmed(s, i)
  }

  ghost predicate DrainInv(s: Sys) {
    TimersOwned(s) && DrainsArmed(s)
  }

  ghost predicate Inv(cfg: BreakerConfig, s: Sys) {
    PoolConsistent(s) && BreakersFaithful(cfg, s) && LeasesConserved(s) && DrainInv(s)
  }

  lemma {:induction false} LiveAppend(leases: seq<Lease>, l: Lease, i: Id)
    ensures Live(leases + [l], i) == Live(leases, i) + if l.backend == i && !l.released then 1 else 0
  {
    assert (leases + [l])[..|leases|] == leases;
  }

  lemma {:induction false} LiveRelease(leases: seq<Lease>, l: nat, i: Id)
    requires l < |leases| && !leases[l].released
    ensures Live(leases[l := Lease(leases[l].backend, true)], i) ==
      Live(leases, i) - if leases[l].backend == i then 1 else 0
  {
    var k := |leases| - 1;
    var after := leases[l := Lease(leases[l].backend, true)];
    if l == k {
      assert after[..k] == leases[..k];
    } else {
      assert after[..k] == leases[..k][l := Lease(leases[l].backend, true)];
      LiveRelease(leases[..k], l, i);
    }
  }

  lemma StartHolds(cfg: BreakerConfig, n: nat, now: int)
    ensures Inv(cfg, Start(n, now))
  {
  }

  lemma MemberStaysConsistent(cfg: BreakerConfig, s: Sys, e: Event, i: Id)
    requires i < |s.members| && Consistent(s.members[i].backend)
    ensures Consistent(MemberAfter(cfg, s, e, i).backend)
  {
  }

  lemma StepKeepsPool(cfg: BreakerConfig, s: Sys, e: Event)
    requires PoolConsistent(s)
    ensures PoolConsistent(Step(cfg, s, e))
  {
    StepKeepsSize(cfg, s, e);
    forall i | 0 <= i < |s.members| ensures Consistent(Step(cfg, s, e).members[i].backend) {
      StepAt(cfg, s, e, i);
      MemberStaysConsistent(cfg, s, e, i);
    }
  }

  lemma MemberStaysFaithful(cfg: BreakerConfig, s: Sys, e: Event, i: Id)
    requires cfg.failureThreshold >= 1 && cfg.enabled && i < |s.members| && Faithful(cfg, s.members[i].breaker)
    ensures Faithful(cfg, MemberAfter(cfg, s, e, i).breaker)
  {
  }

  lemma StepKeepsBreakers(cfg: BreakerConfig, s: Sys, e: Event)
    requires BreakersFaithful(cfg, s)
    ensures BreakersFaithful(cfg, Step(cfg, s, e))
  {
    StepKeepsSize(cfg, s, e);
    if cfg.enabled && cfg.failureThreshold >= 1 {
      forall i | 0 <= i < |s.members| ensures Faithful(cfg, Step(cfg, s, e).members[i].breaker) {
        StepAt(cfg, s, e, i);
        MemberStaysFaithful(cfg, s, e, i);
      }
    }
  }

  lemma StepKeepsSize(cfg: BreakerConfig, s: Sys, e: Event)
    ensures |Step(cfg, s, e).members| == |s.members|
  {
  }

  /** The leases after an event. */
  function LeasesAfter(s: Sys, e: Event): seq<Lease> {
    match e
    case Route(_, choice) =>
      if choice.Some? && choice.value < |s.members| then s.leases + [Lease(choice.value, false)] else s.leases
    case Release(l) =>
      if l < |s.leases| && !s.leases[l].released then s.leases[l := Lease(s.leases[l].backend, true)] else s.leases
    case _ => s.leases
  }

  lemma StepLeases(cfg: BreakerConfig, s: Sys, e: Event)
    ensures Step(cfg, s, e).leases == LeasesAfter(s, e)
  {
  }

  /** How an event changes the unreleased leases of backend i. */
  function LeaseChange(s: Sys, e: Event, i: Id): int {
    match e
    case Route(_, choice) => if choice == Some(i) && i < |s.members| then 1 else 0
    case Release(l) => if l < |s.leases| && !s.leases[l].released && s.leases[l].backend == i then -1 else 0
    case _ => 0
  }

  lemma LiveChanges(s: Sys, e: Event, i: Id)
    ensures Live(LeasesAfter(s, e), i) == Live(s.leases, i) + LeaseChange(s, e, i)
  {
    match e
    case Route(_, choice) => if choice.Some? { LiveAppend(s.leases, Lease(choice.value, false), i); }
    case Release(l) => if l < |s.leases| && !s.leases[l].released { LiveRelease(s.leases, l, i); }
    case _ =>
  }

  lemma ActiveChanges(cfg: BreakerConfig, s: Sys, e: Event, i: Id)
    requires i < |s.members| && s.members[i].backend.activeConnections + LeaseChange(s, e, i) >= 0
    ensures MemberAfter(cfg, s, e, i).backend.activeConnections ==
      s.members[i].backend.activeConnections + LeaseChange(s, e, i)
  {
  }

  lemma StepKeepsLeases(cfg: BreakerConfig, s: Sys, e: Event)
    requires LeasesConserved(s)
    ensures LeasesConserved(Step(cfg, s, e))
  {
    var t := Step(cfg, s, e);
    StepKeepsSize(cfg, s, e);
    StepLeases(cfg, s, e);
    forall i | 0 <= i < |s.members| ensures t.members[i].backend.activeConnections == Live(t.leases, i) {
      StepAt(cfg, s, e, i);
      LiveChanges(s, e, i);
      ActiveChanges(cfg, s, e, i);
    }
  }

  /** Health checks, breakers and overrides leave a draining backend alone or give it another status; timers they never
      touch. */
  ghost predicate LeavesDrain(m: Member, n: Member) {
    n.backend.status == Draining ==> n.backend == m.backend
  }

  lemma MemberStepsLeaveDrain(cfg: BreakerConfig, m: Member, now: int, success: bool, code: nat, healthy: bool)
    ensures LeavesDrain(m, Checked(cfg, m, success, now)) && LeavesDrain(m, Responded(cfg, m, code, now))
    ensures LeavesDrain(m, Failed(cfg, m, now)) && LeavesDrain(m, WasReset(m, now))
    ensures LeavesDrain(m, WasOverridden(m, healthy)) && LeavesDrain(m, Filtered(cfg, m, now))
  {
  }

  lemma SetKeepsDrains(s: Sys, i: Id, m: Member)
    requires DrainInv(s) && i < |s.members| && LeavesDrain(s.members[i], m)
    ensures DrainInv(Set(s, i, m))
  {
    forall j | 0 <= j < |s.members| ensures DrainArmed(Set(s, i, m), j) { assert DrainArmed(s, j); }
  }

  lemma RouteKeepsDrains(cfg: BreakerConfig, s: Sys, choice: Option<Id>)
    requires DrainInv(s)
    ensures DrainInv(Routed(cfg, s, choice))
  {
    var t := Routed(cfg, s, choice);
    forall i | 0 <= i < |s.members| ensures DrainArmed(t, i) {
      assert DrainArmed(s, i);
      RoutedAt(cfg, s, choice, i);
      MemberStepsLeaveDrain(cfg, s.members[i], s.now, true, 0, true);
    }
  }

  /** Going offline or being undrained: backend i no longer drains, and its timer is cleared. */
  lemma ClearKeepsDrains(s: Sys, i: Id, b: BackendState, d: Timers)
    requires DrainInv(s) && i < |s.members| && b.status != Draining
    requires d == if i in s.timers.drainTimers
      then s.timers.(drainTimers := s.timers.drainTimers - {i}, pending := s.timers.pending - {s.timers.drainTimers[i]})
      else s.timers
    ensures DrainInv(SetDrained(s, i, (b, d)))
  {
    var t := SetDrained(s, i, (b, d));
    forall j | 0 <= j < |t.members| ensures DrainArmed(t, j) { assert DrainArmed(s, j); }
  }

  lemma DrainKeepsDrains(s: Sys, i: Id, sec: int)
    requires DrainInv(s) && i < |s.members|
    ensures DrainInv(SetDrained(s, i, Drain(s.members[i].backend, s.timers, i, sec, s.now)))
  {
    var b := s.members[i].backend;
    var r := Drain(b, s.timers, i, sec, s.now);
    if b.status != Draining && b.activeConnections == 0 {
      ClearKeepsDrains(s, i, r.0, r.1);
    } else {
      var t := SetDrained(s, i, r);
      forall j | 0 <= j < |t.members| ensures DrainArmed(t, j) { assert DrainArmed(s, j); }
    }
  }

  lemma FireKeepsDrains(s: Sys, h: Handle)
    requires DrainInv(s)
    ensures DrainInv(Fired(s, h))
  {
    if h in s.timers.pending {
      var i := s.timers.pending[h].backend;
      var r := Fire(s.members[i].backend, s.timers, h);
      if s.members[i].backend.status == Draining {
        assert s.timers.pending - {h} - {h} == s.timers.pending - {h};
        ClearKeepsDrains(s, i, r.0, r.1);
      } else {
        var t := Fired(s, h);
        forall j | 0 <= j < |t.members| ensures DrainArmed(t, j) { assert DrainArmed(s, j); }
      }
    }
  }

  lemma ReleaseKeepsDrains(s: Sys, l: nat)
    requires DrainInv(s) && LeasesConserved(s)
    ensures DrainInv(Released(s, l))
  {
    if l < |s.leases| && !s.leases[l].released {
      var i := s.leases[l].backend;
      assert DrainArmed(s, i);
      var r := LeaseReleased(s.members[i].backend, s.timers, i);
      var t := Released(s, l);
      if r.0.status == Offline && s.members[i].backend.status == Draining {
        ClearKeepsDrains(s, i, r.0, r.1);
        assert t == SetDrained(s, i, r).(leases := t.leases);
      }
      forall j | 0 <= j < |t.members| ensures DrainArmed(t, j) { assert DrainArmed(s, j); }
    }
  }

  lemma StepKeepsDrains(cfg: BreakerConfig, s: Sys, e: Event)
    requires DrainInv(s) && LeasesConserved(s)
    ensures DrainInv(Step(cfg, s, e))
  {
    match e
    case Route(_, choice) => RouteKeepsDrains(cfg, s, choice);
    case StatusPage => RouteKeepsDrains(cfg, s, None);
    case Release(l) => ReleaseKeepsDrains(s, l);
    case TimerFires(h) => FireKeepsDrains(s, h);
    case DrainCommand(i, sec) => if i < |s.members| { DrainKeepsDrains(s, i, sec); }
    case UndrainCommand(i) =>
      if i < |s.members| {
        var r := Undrain(s.members[i].backend, s.timers, i);
        ClearKeepsDrains(s, i, r.0, r.1);
      }
    case Tick(ms) =>
      forall i | 0 <= i < |s.members| ensures DrainArmed(Step(cfg, s, e), i) { assert DrainArmed(s, i); }
    case _ => MemberEventKeepsDrains(cfg, s, e);
  }

  lemma MemberEventKeepsDrains(cfg: BreakerConfig, s: Sys, e: Event)
    requires DrainInv(s)
    requires e.HealthResult? || e.ProxyResponse? || e.ProxyError? || e.ResetCommand? || e.OverrideCommand?
    ensures DrainInv(Step(cfg, s, e))
  {
    match e
    case HealthResult(i, ok) =>
      if i < |s.members| {
        MemberStepsLeaveDrain(cfg, s.members[i], s.now, ok, 0, true);
        SetKeepsDrains(s, i, Checked(cfg, s.members[i], ok, s.now));
      }
    case ProxyResponse(i, code) =>
      if i < |s.members| {
        MemberStepsLeaveDrain(cfg, s.members[i], s.now, true, code, true);
        SetKeepsDrains(s, i, Responded(cfg, s.members[i], code, s.now));
      }
    case ProxyError(i) =>
      if i < |s.members| {
        MemberStepsLeaveDrain(cfg, s.members[i], s.now, true, 0, true);
        SetKeepsDrains(s, i, Failed(cfg, s.members[i], s.now));
      }
    case ResetCommand(i) =>
      if i < |s.members| {
        MemberStepsLeaveDrain(cfg, s.members[i], s.now, true, 0, true);
        SetKeepsDrains(s, i, WasReset(s.members[i], s.now));
      }
    case OverrideCommand(i, healthy) =>
      if i < |s.members| {
        MemberStepsLeaveDrain(cfg, s.members[i], s.now, true, 0, healthy);
        SetKeepsDrains(s, i, WasOverridden(s.members[i], healthy));
      }
  }

  lemma StepKeepsInv(cfg: BreakerConfig, s: Sys, e: Event)
    requires Inv(cfg, s)
    ensures Inv(cfg, Step(cfg, s, e)) && |Step(cfg, s, e).members| == |s.members|
  {
    StepKeepsPool(cfg, s, e);
    StepKeepsBreakers(cfg, s, e);
    StepKeepsLeases(cfg, s, e);
    StepKeepsDrains(cfg, s, e);
    StepKeepsSize(cfg, s, e);
  }

  /** Every interleaving keeps the pool consistent, the breakers faithful to their counters, the connection counts
      equal to the unreleased leases, and every drain armed with its own timer. */
  lemma {:induction false} RunKeepsInv(cfg: BreakerConfig, s: Sys, events: seq<Event>)
    requires Inv(cfg, s)
    ensures Inv(cfg, Run(cfg, s, events)) && |Run(cfg, s, events).members| == |s.members|
    decreases |events|
  {
    if events != [] {
      var front, e := events[..|events| - 1], events[|events| - 1];
      var t := Run(cfg, s, front);
      RunKeepsInv(cfg, s, front);
      StepKeepsInv(cfg, t, e);
    }
  }

  // ---------------------------------------------------------------- connections

  /** In every reachable state an unreleased lease accounts for one active connection, so its release decrements by
      exactly one (the clamp at zero never acts), and its second finish or close event does nothing. */
  lemma ReleaseIsExact(cfg: BreakerConfig, s: Sys, l: nat)
    requires Inv(cfg, s) && l < |s.leases| && !s.leases[l].released
    ensures var i, t := s.leases[l].backend, Released(s, l);
      && i < |s.members|
      && t.members[i].backend.activeConnections == s.members[i].backend.activeConnections - 1
      && Released(t, l) == t
  {
    LiveRelease(s.leases, l, s.leases[l].backend);
  }

  // ---------------------------------------------------------------- selection

  /** The chosen backend was healthy on entry, its breaker is not open afterwards, it is outside the failed set
      whenever some backend that passed is, and it alone gains a lease. */
  lemma RoutingIsSafe(cfg: BreakerConfig, s: Sys, failed: set<Id>, i: Id)
    requires cfg.enabled && Enabled(cfg, s, Route(failed, Some(i)))
    ensures i < |s.members| && s.members[i].backend.healthy
    ensures var t := Step(cfg, s, Route(failed, Some(i)));
      && t.members[i].breaker.state != Open
      && (forall j :: 0 <= j < |s.members| ==>
            t.members[j].backend.activeConnections == s.members[j].backend.activeConnections + if j == i then 1 else 0)
    ensures (exists j :: 0 <= j < |s.members| && AllPass(cfg, s)[j] && j !in failed) ==> i !in failed
  {
    PassingIsServing(cfg, s.members[i].backend, s.members[i].breaker, s.now);
    var t := Step(cfg, s, Route(failed, Some(i)));
    forall j | 0 <= j < |s.members|
      ensures t.members[j].backend.activeConnections == s.members[j].backend.activeConnections + if j == i then 1 else 0
    {
      RoutedAt(cfg, s, Some(i), j);
    }
    RoutedAt(cfg, s, Some(i), i);
  }

  // ---------------------------------------------------------------- rejoining the rotation

  /** A failure opens a half-open breaker, and a closed one at the threshold. */
  predicate FailureTrips(cfg: BreakerConfig, b: Breaker) {
    cfg.enabled && (b.state == HalfOpen || (b.state == Closed && b.consecutiveFailures + 1 >= cfg.failureThreshold))
  }

  /** What puts backend i back into rotation: a health result with fewer than three failures in a row on a backend
      that is not disabled (unless the result trips its breaker), a breaker going to closed, an undrain, a healthy
      override. */
  ghost predicate RejoinCause(cfg: BreakerConfig, s: Sys, e: Event, i: Id)
    requires i < |s.members|
  {
    var m := s.members[i];
    var closes := cfg.enabled && m.breaker.state != Closed;
    match e
    case HealthResult(j, true) => j == i && (!m.backend.adminDisabled || closes)
    case HealthResult(j, false) =>
      j == i && !m.backend.adminDisabled && m.stats.consecutiveFailures + 1 < 3 && !FailureTrips(cfg, m.breaker)
    case ProxyResponse(j, code) => j == i && code < 400 && closes
    case UndrainCommand(j) => j == i
    case ResetCommand(j) => j == i && m.breaker.state != Closed
    case OverrideCommand(j, healthy) => j == i && healthy
    case _ => false
  }

  /** Exactly these turn an unhealthy backend healthy, whatever the state. */
  lemma RejoinsExactly(cfg: BreakerConfig, s: Sys, e: Event, i: Id)
    requires i < |s.members| && !s.members[i].backend.healthy
    ensures Step(cfg, s, e).members[i].backend.healthy <==> RejoinCause(cfg, s, e, i)
  {
    StepAt(cfg, s, e, i);
  }

  ghost predicate Chooses(e: Event, i: Id) {
    e.Route? && e.choice == Some(i)
  }

  /** A backend out of rotation is not chosen, and the filter never consults its breaker. */
  lemma OutOfRotationIsSkipped(cfg: BreakerConfig, s: Sys, e: Event, i: Id)
    requires i < |s.members| && !s.members[i].backend.healthy && Enabled(cfg, s, e)
    ensures !Chooses(e, i)
    ensures e.Route? || e.StatusPage? ==> Step(cfg, s, e).members[i] == s.members[i]
  {
    assert AllPass(cfg, s)[i] == Passes(cfg, s.members[i], s.now);
    StepAt(cfg, s, e, i);
  }

  lemma OpenUnlessRejoins(cfg: BreakerConfig, s: Sys, e: Event, i: Id)
    requires i < |s.members| && s.members[i].breaker.state == Open && !s.members[i].backend.healthy
    requires !RejoinCause(cfg, s, e, i)
    ensures i < |Step(cfg, s, e).members| && Step(cfg, s, e).members[i].breaker.state == Open
  {
    StepAt(cfg, s, e, i);
  }

  // ---------------------------------------------------------------- prefixes of runs

  lemma RunStep(cfg: BreakerConfig, s: Sys, events: seq<Event>, k: nat)
    requires k < |events|
    ensures Run(cfg, s, events[..k + 1]) == Step(cfg, Run(cfg, s, events[..k]), events[k])
  {
    assert events[..k + 1][..k] == events[..k];
  }

  lemma {:induction false} SizeIsKept(cfg: BreakerConfig, s: Sys, events: seq<Event>)
    ensures |Run(cfg, s, events).members| == |s.members|
    decreases |events|
  {
    if events != [] {
      SizeIsKept(cfg, s, events[..|events| - 1]);
      StepKeepsSize(cfg, Run(cfg, s, events[..|events| - 1]), events[|events| - 1]);
    }
  }

  lemma {:induction false} ValidPrefix(cfg: BreakerConfig, s: Sys, events: seq<Event>, k: nat)
    requires ValidRun(cfg, s, events) && k < |events|
    ensures Enabled(cfg, Run(cfg, s, events[..k]), events[k])
    decreases |events|
  {
    var front := events[..|events| - 1];
    if k < |front| {
      ValidPrefix(cfg, s, front, k);
      assert front[..k] == events[..k];
    }
  }

  /** Backend i is out of rotation after the first k events. */
  ghost predicate OutAfter(cfg: BreakerConfig, s: Sys, events: seq<Event>, k: nat, i: Id)
    requires k <= |events|
  {
    i < |Run(cfg, s, events[..k]).members| && !Run(cfg, s, events[..k]).members[i].backend.healthy
  }

  /** The k-th event of the run is a cause of rejoining for backend i. */
  ghost predicate RejoinsAt(cfg: BreakerConfig, s: Sys, events: seq<Event>, k: nat, i: Id)
    requires k < |events|
  {
    i < |Run(cfg, s, events[..k]).members| && RejoinCause(cfg, Run(cfg, s, events[..k]), events[k], i)
  }

  ghost predicate NeverRejoins(cfg: BreakerConfig, s: Sys, events: seq<Event>, i: Id) {
    forall k :: 0 <= k < |events| ==> !RejoinsAt(cfg, s, events, k, i)
  }

  lemma OutStep(cfg: BreakerConfig, s: Sys, events: seq<Event>, k: nat, i: Id)
    requires k < |events| && OutAfter(cfg, s, events, k, i)
    ensures OutAfter(cfg, s, events, k + 1, i) <==> !RejoinsAt(cfg, s, events, k, i)
  {
    var t := Run(cfg, s, events[..k]);
    RunStep(cfg, s, events, k);
    StepKeepsSize(cfg, t, events[k]);
    RejoinsExactly(cfg, t, events[k], i);
  }

  lemma {:induction false} OutPrefix(cfg: BreakerConfig, s: Sys, events: seq<Event>, k: nat, i: Id)
    requires i < |s.members| && !s.members[i].backend.healthy && NeverRejoins(cfg, s, events, i) && k <= |events|
    ensures OutAfter(cfg, s, events, k, i)
    decreases k
  {
    if k > 0 {
      OutPrefix(cfg, s, events, k - 1, i);
      OutStep(cfg, s, events, k - 1, i);
    }
  }

  /** A backend out of rotation stays out through every prefix of a run exactly when no cause of rejoining occurs. */
  lemma StaysOutExactly(cfg: BreakerConfig, s: Sys, events: seq<Event>, i: Id)
    requires i < |s.members| && !s.members[i].backend.healthy
    ensures NeverRejoins(cfg, s, events, i) <==> forall k :: 0 <= k <= |events| ==> OutAfter(cfg, s, events, k, i)
  {
    if NeverRejoins(cfg, s, events, i) {
      forall k | 0 <= k <= |events| ensures OutAfter(cfg, s, events, k, i) { OutPrefix(cfg, s, events, k, i); }
    }
    if forall k :: 0 <= k <= |events| ==> OutAfter(cfg, s, events, k, i) {
      forall k | 0 <= k < |events| ensures !RejoinsAt(cfg, s, events, k, i) {
        assert OutAfter(cfg, s, events, k + 1, i);
        OutStep(cfg, s, events, k, i);
      }
    }
  }

  // ---------------------------------------------------------------- open breakers and their probes

  lemma {:induction false} OpenPrefix(cfg: BreakerConfig, s: Sys, events: seq<Event>, k: nat, i: Id)
    requires i < |s.members| && s.members[i].breaker.state == Open && !s.members[i].backend.healthy
    requires NeverRejoins(cfg, s, events, i) && k <= |events|
    ensures i < |Run(cfg, s, events[..k]).members| && Run(cfg, s, events[..k]).members[i].breaker.state == Open
    decreases k
  {
    if k > 0 {
      OpenPrefix(cfg, s, events, k - 1, i);
      OutPrefix(cfg, s, events, k - 1, i);
      RunStep(cfg, s, events, k - 1);
      assert !RejoinsAt(cfg, s, events, k - 1, i);
      OpenUnlessRejoins(cfg, Run(cfg, s, events[..k - 1]), events[k - 1], i);
    }
  }

  /** The cooldown alone never leads to a probe: tripping a breaker also clears the healthy flag that the filter tests
      first, so as long as nothing else restores the flag the breaker stays open and the backend unchosen, however much
      time passes. The design notes promise a trial request after the cooldown. */
  lemma CooldownAloneNeverProbes(cfg: BreakerConfig, s: Sys, events: seq<Event>, i: Id)
    requires i < |s.members| && s.members[i].breaker.state == Open && !s.members[i].backend.healthy
    requires ValidRun(cfg, s, events) && NeverRejoins(cfg, s, events, i)
    ensures i < |Run(cfg, s, events).members|
    ensures Run(cfg, s, events).members[i].breaker.state == Open && !Run(cfg, s, events).members[i].backend.healthy
    ensures forall k :: 0 <= k < |events| ==> !Chooses(events[k], i)
  {
    assert events[..|events|] == events;
    OpenPrefix(cfg, s, events, |events|, i);
    OutPrefix(cfg, s, events, |events|, i);
    forall k | 0 <= k < |events| ensures !Chooses(events[k], i) {
      OutPrefix(cfg, s, events, k, i);
      ValidPrefix(cfg, s, events, k);
      OutOfRotationIsSkipped(cfg, Run(cfg, s, events[..k]), events[k], i);
    }
  }

  /** When exactly the filter lets a backend through. */
  lemma PassesExactly(cfg: BreakerConfig, m: Member, now: int)
    ensures Passes(cfg, m, now) <==>
      && m.backend.healthy
      && (|| !cfg.enabled || m.breaker.state == Closed
          || (m.breaker.state == Open && now - m.breaker.lastStateChange >= cfg.cooldownMs)
          || (m.breaker.state == HalfOpen && m.breaker.probeCount < cfg.halfOpenMaxProbes))
  {
  }

  /** The probes that a breaker not closed has granted in its current half-open episode, with one more. */
  function NextProbe(b: Breaker): nat {
    if b.state == HalfOpen then b.probeCount + 1 else 1
  }

  /** When exactly an open breaker gets its probe: at a routing or a status page, once the cooldown is over and only if
      something has set the healthy flag again. The step then leaves the circuit half open with one probe spent, and
      otherwise open. */
  lemma ProbeExactly(cfg: BreakerConfig, s: Sys, e: Event, i: Id)
    requires cfg.enabled && i < |s.members| && s.members[i].breaker.state == Open
    requires e.Route? || e.StatusPage?
    ensures var m, n := s.members[i], Step(cfg, s, e).members[i];
      && (Passes(cfg, m, s.now) <==> m.backend.healthy && s.now - m.breaker.lastStateChange >= cfg.cooldownMs)
      && n.breaker ==
         if Passes(cfg, m, s.now) then Breaker(HalfOpen, m.breaker.consecutiveFailures, s.now, 1) else m.breaker
  {
    StepAt(cfg, s, e, i);
  }

  /** A change of a breaker's circuit is stamped with the time of the event, and shows on the backend: out of rotation
      and unhealthy when it opens, out of rotation and degraded when it half opens, healthy when it closes. */
  lemma CircuitChanges(cfg: BreakerConfig, s: Sys, e: Event, i: Id)
    requires i < |s.members|
    ensures i < |Step(cfg, s, e).members|
    ensures var m, n := s.members[i], Step(cfg, s, e).members[i];
      if n.breaker.state == m.breaker.state then n.breaker.lastStateChange == m.breaker.lastStateChange
      else
        && n.breaker.lastStateChange == s.now
        && (n.backend.healthy <==> n.breaker.state == Closed)
        && n.backend.status ==
           match n.breaker.state case Open => Unhealthy case HalfOpen => Degraded case Closed => Healthy
  {
    StepAt(cfg, s, e, i);
  }

  /** The breaker of backend i is open after the first k events. */
  ghost predicate OpenAfter(cfg: BreakerConfig, s: Sys, events: seq<Event>, k: nat, i: Id)
    requires k <= |events|
  {
    i < |Run(cfg, s, events[..k]).members| && Run(cfg, s, events[..k]).members[i].breaker.state == Open
  }

  lemma {:induction false} StampStays(cfg: BreakerConfig, s: Sys, events: seq<Event>, k: nat, i: Id)
    requires k <= |events| && i < |s.members| && forall j :: 0 <= j <= |events| ==> OpenAfter(cfg, s, events, j, i)
    ensures i < |Run(cfg, s, events[..k]).members|
    ensures Run(cfg, s, events[..k]).members[i].breaker.lastStateChange == s.members[i].breaker.lastStateChange
    decreases k
  {
    if k == 0 {
      assert events[..0] == [];
    } else {
      StampStays(cfg, s, events, k - 1, i);
      RunStep(cfg, s, events, k - 1);
      assert OpenAfter(cfg, s, events, k - 1, i) && OpenAfter(cfg, s, events, k, i);
      StampStep(cfg, Run(cfg, s, events[..k - 1]), events[k - 1], Run(cfg, s, events[..k]), i);
    }
  }

  lemma StampStep(cfg: BreakerConfig, s: Sys, e: Event, t: Sys, i: Id)
    requires t == Step(cfg, s, e) && i < |s.members| && i < |t.members|
    requires s.members[i].breaker.state == t.members[i].breaker.state
    ensures t.members[i].breaker.lastStateChange == s.members[i].breaker.lastStateChange
  {
    CircuitChanges(cfg, s, e, i);
  }

  /** The cooldown runs from the trip: when an event opens a breaker and it stays open through the events after, it is
      probed exactly when its backend is healthy again and the cooldown has passed since the time of that event. */
  lemma CooldownRunsFromTrip(cfg: BreakerConfig, s: Sys, e: Event, events: seq<Event>, i: Id)
    requires cfg.enabled && i < |s.members| && s.members[i].breaker.state != Open
    requires forall k :: 0 <= k <= |events| ==> OpenAfter(cfg, Step(cfg, s, e), events, k, i)
    ensures var t := Run(cfg, Step(cfg, s, e), events);
      && i < |t.members|
      && (Passes(cfg, t.members[i], t.now) <==> t.members[i].backend.healthy && t.now - s.now >= cfg.cooldownMs)
  {
    var tripped := Step(cfg, s, e);
    StepKeepsSize(cfg, s, e);
    assert OpenAfter(cfg, tripped, events, 0, i) && OpenAfter(cfg, tripped, events, |events|, i);
    assert events[..0] == [] && events[..|events|] == events;
    CircuitChanges(cfg, s, e, i);
    StampStays(cfg, tripped, events, |events|, i);
    PassesExactly(cfg, Run(cfg, tripped, events).members[i], Run(cfg, tripped, events).now);
  }

  /** After some idle time, k failed requests to backend i. */
  function Trip(idle: nat, i: Id, k: nat): seq<Event> {
    [Tick(idle)] + seq(k, _ => ProxyError(i))
  }

  /** The system from the start after k failures of backend i: tripped from the threshold on, the others untouched. The
      trip, not the start, is the last change of its circuit. */
  ghost predicate Tripped(cfg: BreakerConfig, n: nat, began: int, idle: nat, i: Id, k: nat, t: Sys) {
    && i < n == |t.members| && t.now == began + idle && t.leases == []
    && (forall j :: 0 <= j < n && j != i ==> t.members[j] == Member(FRESH, FreshBreaker(began), NO_CHECKS))
    && TrippedMember(cfg, began, idle, k, t.members[i])
  }

  ghost predicate TrippedMember(cfg: BreakerConfig, began: int, idle: nat, k: nat, m: Member) {
    && m.stats == NO_CHECKS && !m.backend.adminDisabled
    && m.breaker.consecutiveFailures == k
    && (k < cfg.failureThreshold ==>
          m.breaker.state == Closed && m.backend == FRESH && m.breaker.lastStateChange == began)
    && (k >= cfg.failureThreshold ==>
          && m.breaker.state == Open && m.breaker.lastStateChange == began + idle
          && !m.backend.healthy && m.backend.status == Unhealthy)
  }

  lemma OneMoreFailure(cfg: BreakerConfig, began: int, idle: nat, k: nat, m: Member)
    requires cfg.enabled && cfg.failureThreshold >= 1 && TrippedMember(cfg, began, idle, k, m)
    ensures TrippedMember(cfg, began, idle, k + 1, Failed(cfg, m, began + idle))
  {
  }

  lemma IdleStart(cfg: BreakerConfig, n: nat, began: int, idle: nat, i: Id)
    requires cfg.failureThreshold >= 1 && i < n
    ensures ValidRun(cfg, Start(n, began), Trip(idle, i, 0))
    ensures Tripped(cfg, n, began, idle, i, 0, Run(cfg, Start(n, began), Trip(idle, i, 0)))
  {
    assert Trip(idle, i, 0) == [] + [Tick(idle)];
    RunSnoc(cfg, Start(n, began), [], Tick(idle));
    var t := Step(cfg, Start(n, began), Tick(idle));
    assert t.members == Start(n, began).members;
  }

  lemma {:induction false} TripFails(cfg: BreakerConfig, n: nat, began: int, idle: nat, i: Id, k: nat)
    requires cfg.enabled && cfg.failureThreshold >= 1 && i < n
    ensures ValidRun(cfg, Start(n, began), Trip(idle, i, k))
    ensures Tripped(cfg, n, began, idle, i, k, Run(cfg, Start(n, began), Trip(idle, i, k)))
  {
    if k == 0 {
      IdleStart(cfg, n, began, idle, i);
    } else {
      TripFails(cfg, n, began, idle, i, k - 1);
      assert Trip(idle, i, k) == Trip(idle, i, k - 1) + [ProxyError(i)];
      RunSnoc(cfg, Start(n, began), Trip(idle, i, k - 1), ProxyError(i));
      TripStep(cfg, n, began, idle, i, k - 1, Run(cfg, Start(n, began), Trip(idle, i, k - 1)));
    }
  }

  lemma TripStep(cfg: BreakerConfig, n: nat, began: int, idle: nat, i: Id, k: nat, t: Sys)
    requires cfg.enabled && cfg.failureThreshold >= 1 && Tripped(cfg, n, began, idle, i, k, t)
    ensures Tripped(cfg, n, began, idle, i, k + 1, Step(cfg, t, ProxyError(i)))
  {
    OneMoreFailure(cfg, began, idle, k, t.members[i]);
  }

  /** So a tripped backend is reachable from the start, under every configuration with breakers, and is not probed
      however long one waits. */
  lemma TrippedIsNotProbed(cfg: BreakerConfig, n: nat, began: int, idle: nat, i: Id, k: nat, ms: nat)
    requires cfg.enabled && cfg.failureThreshold >= 1 && i < n && k >= cfg.failureThreshold
    ensures var run := Trip(idle, i, k) + [Tick(ms)];
      var t := Run(cfg, Start(n, began), run);
      && ValidRun(cfg, Start(n, began), run) && i < |t.members| && t.now == began + idle + ms
      && t.members[i].breaker.state == Open && t.members[i].breaker.lastStateChange == began + idle
      && !t.members[i].backend.healthy && !Passes(cfg, t.members[i], t.now)
  {
    TripFails(cfg, n, began, idle, i, k);
    RunSnoc(cfg, Start(n, began), Trip(idle, i, k), Tick(ms));
  }

  // ---------------------------------------------------------------- breakers and the event log

  /** The failure count of backend i's breaker after an event: a failure adds one, a success or a reset clears it. */
  function Counted(before: nat, e: Event, i: Id): nat {
    match e
    case HealthResult(j, ok) => if j != i then before else if ok then 0 else before + 1
    case ProxyResponse(j, code) =>
      if j != i || 400 <= code < 500 then before else if code >= 500 then before + 1 else 0
    case ProxyError(j) => if j != i then before else before + 1
    case ResetCommand(j) => if j != i then before else 0
    case _ => before
  }

  /** Failures reported to backend i's breaker since its last reported success or manual reset. */
  ghost function FailuresLogged(events: seq<Event>, i: Id): nat {
    if events == [] then 0
    else
      Counted(FailuresLogged(events[..|events| - 1], i), events[|events| - 1], i)
  }

  /** In every reachable state the breaker of a backend has counted exactly the logged failures, and is closed exactly
      while they are below the threshold. */
  lemma {:induction false} BreakerRefinesLog(cfg: BreakerConfig, n: nat, now: int, events: seq<Event>, i: Id)
    requires cfg.enabled && cfg.failureThreshold >= 1 && i < n
    ensures i < |Run(cfg, Start(n, now), events).members|
    ensures var b := Run(cfg, Start(n, now), events).members[i].breaker;
      && b.consecutiveFailures == FailuresLogged(events, i)
      && (b.state == Closed <==> FailuresLogged(events, i) < cfg.failureThreshold)
    decreases |events|
  {
    StartHolds(cfg, n, now);
    RunKeepsInv(cfg, Start(n, now), events);
    if events != [] {
      var front, e := events[..|events| - 1], events[|events| - 1];
      BreakerRefinesLog(cfg, n, now, front, i);
      StepCounts(cfg, Run(cfg, Start(n, now), front), e, i);
    }
  }

  lemma StepCounts(cfg: BreakerConfig, s: Sys, e: Event, i: Id)
    requires cfg.enabled && i < |s.members|
    ensures i < |Step(cfg, s, e).members|
    ensures Step(cfg, s, e).members[i].breaker.consecutiveFailures ==
      Counted(s.members[i].breaker.consecutiveFailures, e, i)
  {
    StepAt(cfg, s, e, i);
  }

  // ---------------------------------------------------------------- health checks and the event log

  /** The outcomes of backend i's health checks, oldest first. */
  ghost function CheckLog(events: seq<Event>, i: Id): seq<bool> {
    if events == [] then []
    else
      var last := events[|events| - 1];
      CheckLog(events[..|events| - 1], i) + if last.HealthResult? && last.id == i then [last.success] else []
  }

  ghost predicate NeverOverridden(events: seq<Event>, i: Id) {
    forall k :: 0 <= k < |events| ==> !(events[k].OverrideCommand? && events[k].id == i)
  }

  lemma StepRecords(cfg: BreakerConfig, s: Sys, e: Event, i: Id)
    requires i < |s.members| && !(e.OverrideCommand? && e.id == i)
    ensures i < |Step(cfg, s, e).members|
    ensures Step(cfg, s, e).members[i].backend.adminDisabled == s.members[i].backend.adminDisabled
    ensures Step(cfg, s, e).members[i].stats ==
      if e.HealthResult? && e.id == i then Record(s.members[i].stats, e.success) else s.members[i].stats
  {
    StepAt(cfg, s, e, i);
  }

  /** Whatever else happens in between, the store has recorded exactly the log of the backend's checks. */
  lemma {:induction false} StatsAreLog(cfg: BreakerConfig, n: nat, now: int, events: seq<Event>, i: Id)
    requires i < n && NeverOverridden(events, i)
    ensures i < |Run(cfg, Start(n, now), events).members|
    ensures var m := Run(cfg, Start(n, now), events).members[i];
      m.stats == RecordAll(CheckLog(events, i)) && !m.backend.adminDisabled
    decreases |events|
  {
    if events != [] {
      var front, e := events[..|events| - 1], events[|events| - 1];
      assert NeverOverridden(front, i) by {
        forall k | 0 <= k < |front| ensures !(front[k].OverrideCommand? && front[k].id == i) {
          assert front[k] == events[k];
        }
      }
      StatsAreLog(cfg, n, now, front, i);
      StepRecords(cfg, Run(cfg, Start(n, now), front), e, i);
      if e.HealthResult? && e.id == i { RecordSnoc(CheckLog(front, i), e.success); }
      else { assert CheckLog(events, i) == CheckLog(front, i); }
    }
  }

  lemma RecordSnoc(log: seq<bool>, success: bool)
    ensures RecordAll(log + [success]) == Record(RecordAll(log), success)
  {
    assert (log + [success])[..|log|] == log;
  }

  /** In any run without an override of backend i, the next health result takes it out of rotation exactly when the
      last three results are failures, before the breaker hears of it; the breaker has the last word. */
  lemma HealthFollowsLog(cfg: BreakerConfig, n: nat, now: int, events: seq<Event>, i: Id, success: bool)
    requires i < n && NeverOverridden(events, i)
    ensures i < |Run(cfg, Start(n, now), events).members|
    ensures var s := Run(cfg, Start(n, now), events);
      var judged := Judge(s.members[i].backend, Record(s.members[i].stats, success));
      var from, to := s.members[i].breaker.state, Step(cfg, s, HealthResult(i, success)).members[i].breaker.state;
      && (judged.healthy <==> !LastAre(CheckLog(events, i) + [success], 3, false))
      && Step(cfg, s, HealthResult(i, success)).members[i].backend == Sync(judged, from, to)
  {
    StatsAreLog(cfg, n, now, events, i);
    RecordSnoc(CheckLog(events, i), success);
    VerdictOnLog(Run(cfg, Start(n, now), events).members[i].backend, CheckLog(events, i) + [success]);
  }

  // ---------------------------------------------------------------- drains

  /** At most one timer is pending per backend. */
  lemma OneTimerPerBackend(cfg: BreakerConfig, s: Sys, g: Handle, h: Handle)
    requires Inv(cfg, s) && g in s.timers.pending && h in s.timers.pending
    requires s.timers.pending[g].backend == s.timers.pending[h].backend
    ensures g == h
  {
  }

  /** A timer takes a draining backend offline only for the drain that armed it. */
  lemma TimerCompletesItsOwnDrain(cfg: BreakerConfig, s: Sys, h: Handle, i: Id)
    requires Inv(cfg, s) && h in s.timers.pending && i < |s.members|
    requires s.members[i].backend.status != Offline
    requires Step(cfg, s, TimerFires(h)).members[i].backend.status == Offline
    ensures i == s.timers.pending[h].backend
    ensures s.members[i].backend.status == Draining
    ensures s.timers.pending[h].drainNo == s.members[i].backend.drainNo
  {
    assert DrainArmed(s, i);
  }

  /** A drain's number is used by no other drain: only a drain command that takes effect changes it, by one. */
  lemma DrainNumbers(cfg: BreakerConfig, s: Sys, e: Event, i: Id)
    requires i < |s.members|
    ensures i < |Step(cfg, s, e).members|
    ensures Step(cfg, s, e).members[i].backend.drainNo == s.members[i].backend.drainNo +
      if e.DrainCommand? && e.id == i && s.members[i].backend.status != Draining then 1 else 0
  {
    StepAt(cfg, s, e, i);
  }

  /** The event is no health result, override, drain or undrain of backend i, and no transition of its breaker. */
  ghost predicate Quiet(cfg: BreakerConfig, s: Sys, e: Event, i: Id)
    requires i < |s.members|
  {
    && !(e.HealthResult? && e.id == i) && !(e.OverrideCommand? && e.id == i)
    && !(e.DrainCommand? && e.id == i) && !(e.UndrainCommand? && e.id == i)
    && i < |Step(cfg, s, e).members|
    && Step(cfg, s, e).members[i].breaker.state == s.members[i].breaker.state
  }

  ghost predicate QuietRun(cfg: BreakerConfig, s: Sys, events: seq<Event>, i: Id) {
    events == []
    || (QuietRun(cfg, s, events[..|events| - 1], i)
        && i < |Run(cfg, s, events[..|events| - 1]).members|
        && Quiet(cfg, Run(cfg, s, events[..|events| - 1]), events[|events| - 1], i))
  }

  ghost predicate TimedBy(s: Sys, i: Id, h: Handle) {
    i in s.timers.drainTimers && s.timers.drainTimers[i] == h
  }

  /** One quiet event on a backend that drains with timer h, or that went offline after that. */
  lemma QuietStep(cfg: BreakerConfig, s: Sys, e: Event, i: Id, h: Handle)
    requires Inv(cfg, s) && Enabled(cfg, s, e) && i < |s.members| && Quiet(cfg, s, e, i)
    requires !s.members[i].backend.healthy
    requires s.members[i].backend.status == Offline
      || (s.members[i].backend.status == Draining && TimedBy(s, i, h))
    ensures !Chooses(e, i)
    ensures var t := Step(cfg, s, e);
      && i < |t.members| && !t.members[i].backend.healthy && Live(t.leases, i) <= Live(s.leases, i)
      && (s.members[i].backend.status == Offline ==> t.members[i].backend.status == Offline)
      && (s.members[i].backend.status == Draining ==>
            if e == TimerFires(h) || Live(t.leases, i) == 0 then t.members[i].backend.status == Offline
            else t.members[i].backend.status == Draining && TimedBy(t, i, h))
  {
    var t := Step(cfg, s, e);
    OutOfRotationIsSkipped(cfg, s, e, i);
    StepKeepsLeases(cfg, s, e);
    StepKeepsDrains(cfg, s, e);
    StepKeepsSize(cfg, s, e);
    assert DrainArmed(s, i) && DrainArmed(t, i);
    assert t.members[i].backend.activeConnections == Live(t.leases, i);
    QuietMember(cfg, s, e, i, h);
  }

  lemma QuietMember(cfg: BreakerConfig, s: Sys, e: Event, i: Id, h: Handle)
    requires Inv(cfg, s) && Enabled(cfg, s, e) && i < |s.members| && Quiet(cfg, s, e, i)
    requires !s.members[i].backend.healthy && !Chooses(e, i)
    requires s.members[i].backend.status == Offline
      || (s.members[i].backend.status == Draining && TimedBy(s, i, h))
    ensures var b, c := s.members[i].backend, Step(cfg, s, e).members[i].backend;
      && !c.healthy && c.activeConnections <= b.activeConnections
      && (b.status == Offline ==> c.status == Offline)
      && (b.status == Draining ==>
            if e == TimerFires(h) || c.activeConnections == 0 then c.status == Offline
            else c.status == Draining && TimedBy(Step(cfg, s, e), i, h))
  {
    assert DrainArmed(s, i);
    StepAt(cfg, s, e, i);
    if e.Route? || e.StatusPage? { OutOfRotationIsSkipped(cfg, s, e, i); }
  }

  /** Drain correctness: through any run in which no health result, override, breaker transition or further drain
      command touches a draining backend, it is never chosen, its leases only go down, and it is offline exactly once
      its last lease was released or its own timer fired (whichever came first, since this holds of every prefix). */
  lemma {:induction false} DrainCompletes(cfg: BreakerConfig, s: Sys, events: seq<Event>, i: Id)
    requires Inv(cfg, s) && i < |s.members| && s.members[i].backend.status == Draining
    requires ValidRun(cfg, s, events) && QuietRun(cfg, s, events, i)
    ensures i in s.timers.drainTimers && s.timers.drainTimers[i] in s.timers.pending
    ensures var t, h := Run(cfg, s, events), s.timers.drainTimers[i];
      && i < |t.members| && !t.members[i].backend.healthy
      && Live(t.leases, i) <= Live(s.leases, i)
      && (t.members[i].backend.status == Offline <==> Live(t.leases, i) == 0 || TimerFires(h) in events)
      && (t.members[i].backend.status == Draining <==> t.members[i].backend.status != Offline)
      && (t.members[i].backend.status == Draining ==> TimedBy(t, i, h))
    ensures forall k :: 0 <= k < |events| ==> !Chooses(events[k], i)
    decreases |events|
  {
    assert DrainArmed(s, i);
    if events != [] {
      var front, e := events[..|events| - 1], events[|events| - 1];
      var t, h := Run(cfg, s, front), s.timers.drainTimers[i];
      DrainCompletes(cfg, s, front, i);
      RunKeepsInv(cfg, s, front);
      QuietStep(cfg, t, e, i, h);
      assert events == front + [e];
      forall k | 0 <= k < |events| ensures !Chooses(events[k], i) {
        if k < |front| { assert events[k] == front[k]; }
      }
    }
  }

  /** Handle h is spent or still due at `deadline`: no event arms it again. */
  ghost predicate DueAt(s: Sys, h: Handle, deadline: int) {
    h < s.timers.next && (h in s.timers.pending ==> s.timers.pending[h].deadline == deadline)
  }

  lemma StepKeepsDue(cfg: BreakerConfig, s: Sys, e: Event, h: Handle, deadline: int)
    requires DueAt(s, h, deadline)
    ensures DueAt(Step(cfg, s, e), h, deadline)
  {
  }

  lemma {:induction false} StaysDue(cfg: BreakerConfig, s: Sys, events: seq<Event>, h: Handle, deadline: int)
    requires DueAt(s, h, deadline)
    ensures DueAt(Run(cfg, s, events), h, deadline)
    decreases |events|
  {
    if events != [] {
      StaysDue(cfg, s, events[..|events| - 1], h, deadline);
      StepKeepsDue(cfg, Run(cfg, s, events[..|events| - 1]), events[|events| - 1], h, deadline);
    }
  }

  lemma NeverFiresEarly(cfg: BreakerConfig, s: Sys, events: seq<Event>, h: Handle, deadline: int, k: nat)
    requires DueAt(s, h, deadline) && ValidRun(cfg, s, events)
    requires k < |events| && events[k] == TimerFires(h)
    ensures Run(cfg, s, events[..k]).now >= deadline
  {
    StaysDue(cfg, s, events[..k], h, deadline);
    ValidPrefix(cfg, s, events, k);
  }

  /** A drain from its command to its end. A drain command on a backend with live leases arms a timer; in every quiet
      run after it the backend is never chosen, its leases only go down, and it is offline exactly once the last lease
      was released or that timer fired. The timer fires no earlier than the timeout given, in seconds, after the
      command, and can fire from then on for as long as the drain lasts. (A timeout outside the 31 bits of a timer is
      one millisecond.) */
  lemma DrainLifecycle(cfg: BreakerConfig, s: Sys, i: Id, sec: int, events: seq<Event>)
    requires Inv(cfg, s) && i < |s.members| && s.members[i].backend.status != Draining && Live(s.leases, i) > 0
    requires var t := Step(cfg, s, DrainCommand(i, sec)); ValidRun(cfg, t, events) && QuietRun(cfg, t, events, i)
    ensures var t := Step(cfg, s, DrainCommand(i, sec));
      var u, h := Run(cfg, t, events), s.timers.next;
      var deadline := s.now + if 1 <= 1000 * sec <= 2147483647 then 1000 * sec else 1;
      && i < |u.members| && !u.members[i].backend.healthy
      && (u.members[i].backend.status == Draining || u.members[i].backend.status == Offline)
      && Live(u.leases, i) <= Live(s.leases, i)
      && (u.members[i].backend.status == Offline <==> Live(u.leases, i) == 0 || TimerFires(h) in events)
      && (forall k :: 0 <= k < |events| ==> !Chooses(events[k], i))
      && (forall k :: 0 <= k < |events| && events[k] == TimerFires(h) ==> Run(cfg, t, events[..k]).now >= deadline)
      && (u.members[i].backend.status == Draining ==> (Enabled(cfg, u, TimerFires(h)) <==> u.now >= deadline))
  {
    var t, h := Step(cfg, s, DrainCommand(i, sec)), s.timers.next;
    var deadline := s.now + if 1 <= 1000 * sec <= 2147483647 then 1000 * sec else 1;
    StepKeepsInv(cfg, s, DrainCommand(i, sec));
    DrainArms(cfg, s, i, sec);
    DrainCompletes(cfg, t, events, i);
    forall k | 0 <= k < |events| && events[k] == TimerFires(h) ensures Run(cfg, t, events[..k]).now >= deadline {
      NeverFiresEarly(cfg, t, events, h, deadline, k);
    }
    RunKeepsInv(cfg, t, events);
    StaysDue(cfg, t, events, h, deadline);
    assert DrainArmed(Run(cfg, t, events), i);
  }

  lemma DrainArms(cfg: BreakerConfig, s: Sys, i: Id, sec: int)
    requires i < |s.members| && s.members[i].backend.status != Draining && s.members[i].backend.activeConnections > 0
    ensures var t := Step(cfg, s, DrainCommand(i, sec));
      && i < |t.members| && t.members[i].backend.status == Draining && t.leases == s.leases
      && TimedBy(t, i, s.timers.next)
      && DueAt(t, s.timers.next, s.now + if 1 <= 1000 * sec <= 2147483647 then 1000 * sec else 1)
  {
  }

  /** No timer is pending for backend i. */
  ghost predicate NoTimerFor(s: Sys, i: Id) {
    forall h :: h in s.timers.pending ==> s.timers.pending[h].backend != i
  }

  /** The three outcomes of a drain command: nothing for a backend already draining; offline at once without live
      leases, no timer left; draining with live leases. A drained backend is out of rotation in each. */
  lemma DrainOutcomes(cfg: BreakerConfig, s: Sys, i: Id, sec: int)
    requires Inv(cfg, s) && i < |s.members|
    ensures var t := Step(cfg, s, DrainCommand(i, sec));
      && i < |t.members| && !t.members[i].backend.healthy
      && (s.members[i].backend.status == Draining ==> t == s)
      && (s.members[i].backend.status != Draining && Live(s.leases, i) == 0 ==>
            t.members[i].backend.status == Offline && NoTimerFor(t, i))
      && (s.members[i].backend.status != Draining && Live(s.leases, i) > 0 ==> t.members[i].backend.status == Draining)
  {
    assert DrainArmed(s, i);
    var b := s.members[i].backend;
    if b.status == Draining {
      assert s.members[i].(backend := b) == s.members[i] && s.members[i := s.members[i]] == s.members;
    } else if Live(s.leases, i) == 0 {
      ClearedTimer(s, i);
    }
  }

  /** Clearing a backend's timer leaves it none. */
  lemma ClearedTimer(s: Sys, i: Id)
    requires TimersOwned(s)
    ensures var d := s.timers;
      var left := if i in d.drainTimers then d.pending - {d.drainTimers[i]} else d.pending;
      forall h :: h in left ==> left[h].backend != i
  {
  }

  /** An undrained backend serves again, healthy, and no timer is left to take it offline. */
  lemma UndrainRestores(cfg: BreakerConfig, s: Sys, i: Id)
    requires Inv(cfg, s) && i < |s.members|
    ensures var t := Step(cfg, s, UndrainCommand(i));
      && i < |t.members| && t.members[i].backend.healthy && t.members[i].backend.status == Healthy
      && NoTimerFor(t, i)
  {
    ClearedTimer(s, i);
  }

  /** A timer that fires on a backend no longer draining changes no backend. */
  lemma StaleTimerIsHarmless(cfg: BreakerConfig, s: Sys, h: Handle)
    requires Inv(cfg, s) && h in s.timers.pending
    requires s.members[s.timers.pending[h].backend].backend.status != Draining
    ensures Step(cfg, s, TimerFires(h)).members == s.members
  {
  }

  // ---------------------------------------------------------------- overrides

  /** An override is sticky: a backend overridden to unhealthy stays out through every run in which it is not
      undrained, not overridden again, and its breaker closes on no event; passed checks in particular do not bring it
      back. */
  lemma {:induction false} OverrideSticks(cfg: BreakerConfig, s: Sys, events: seq<Event>, k: nat, i: Id)
    requires i < |s.members| && k <= |events|
    requires forall j :: 0 <= j < |events| ==> !RestoresAt(cfg, Step(cfg, s, OverrideCommand(i, false)), events, j, i)
    ensures var t := Run(cfg, Step(cfg, s, OverrideCommand(i, false)), events[..k]);
      i < |t.members| && !t.members[i].backend.healthy && t.members[i].backend.adminDisabled
    decreases k
  {
    var first := Step(cfg, s, OverrideCommand(i, false));
    if k == 0 {
      assert events[..0] == [];
    } else {
      OverrideSticks(cfg, s, events, k - 1, i);
      RunStep(cfg, first, events, k - 1);
      assert !RestoresAt(cfg, first, events, k - 1, i);
      StickyStep(cfg, Run(cfg, first, events[..k - 1]), events[k - 1], i);
    }
  }

  ghost predicate Restores(cfg: BreakerConfig, s: Sys, e: Event, i: Id) {
    || e == UndrainCommand(i)
    || (e.OverrideCommand? && e.id == i)
    || (&& i < |s.members| && i < |Step(cfg, s, e).members|
        && s.members[i].breaker.state != Closed && Step(cfg, s, e).members[i].breaker.state == Closed)
  }

  lemma StickyStep(cfg: BreakerConfig, s: Sys, e: Event, i: Id)
    requires i < |s.members| && !s.members[i].backend.healthy && s.members[i].backend.adminDisabled
    requires !Restores(cfg, s, e, i)
    ensures var t := Step(cfg, s, e);
      i < |t.members| && !t.members[i].backend.healthy && t.members[i].backend.adminDisabled
  {
    StepAt(cfg, s, e, i);
  }

  /** The k-th event undrains backend i, overrides it, or closes its breaker. */
  ghost predicate RestoresAt(cfg: BreakerConfig, s: Sys, events: seq<Event>, k: nat, i: Id)
    requires k < |events|
  {
    Restores(cfg, Run(cfg, s, events[..k]), events[k], i)
  }

  /** What an override sets at once: the flags, and the streak that the next checks continue: from the healthy side it
      takes three failures to remove the backend, and one passed check makes a backend that left the rotation meanwhile
      fully healthy. */
  lemma OverrideSets(cfg: BreakerConfig, s: Sys, i: Id, healthy: bool)
    requires i < |s.members|
    ensures var m := Step(cfg, s, OverrideCommand(i, healthy)).members[i];
      && m.backend.healthy == healthy && m.backend.adminDisabled == !healthy
      && m.backend.status == (if healthy then Healthy else Unhealthy)
      && m.stats.consecutiveFailures == (if healthy then 0 else 3)
      && m.stats.consecutiveSuccesses == (if healthy then 2 else 0)
      && m.stats.checks == s.members[i].stats.checks && m.breaker == s.members[i].breaker
  {
  }

  // ---------------------------------------------------------------- what does not hold

  /** A draining backend does not stay out of rotation: one passed health check puts it back, connections and timer
      and all. */
  lemma HealthCheckUndoesDrain(cfg: BreakerConfig, s: Sys, i: Id)
    requires Inv(cfg, s) && i < |s.members|
    requires s.members[i].backend.status == Draining && !s.members[i].backend.adminDisabled
    ensures var t := Step(cfg, s, HealthResult(i, true));
      && t.members[i].backend.healthy && t.members[i].backend.status != Draining
      && t.members[i].backend.activeConnections > 0
      && i in t.timers.drainTimers && t.timers.drainTimers[i] in t.timers.pending
  {
    assert DrainArmed(s, i);
  }

  /** When exactly a draining backend stays out of rotation through a run: when nothing in it causes a rejoin. */
  lemma DrainStaysOutExactly(cfg: BreakerConfig, s: Sys, events: seq<Event>, i: Id)
    requires Inv(cfg, s) && i < |s.members| && s.members[i].backend.status == Draining
    ensures !s.members[i].backend.healthy
    ensures NeverRejoins(cfg, s, events, i) <==> forall k :: 0 <= k <= |events| ==> OutAfter(cfg, s, events, k, i)
  {
    assert DrainArmed(s, i);
    StaysOutExactly(cfg, s, events, i);
  }

  /** An open breaker does not keep its backend unhealthy: a failed health check, the first or second in a row, sets
      the flag again and leaves the breaker open. */
  lemma OpenBreakerRejoinsOnFailure(cfg: BreakerConfig, s: Sys, i: Id)
    requires cfg.enabled && i < |s.members| && s.members[i].breaker.state == Open
    requires !s.members[i].backend.adminDisabled && s.members[i].stats.consecutiveFailures < 2
    ensures var t := Step(cfg, s, HealthResult(i, false));
      t.members[i].backend.healthy && t.members[i].breaker.state == Open
  {
  }

  /** Exactly three events can give an open breaker a healthy backend: a first or second failed check, an undrain and a
      healthy override. The breaker was open before each of them. */
  ghost predicate BreaksOpen(s: Sys, e: Event, i: Id)
    requires i < |s.members|
  {
    var m := s.members[i];
    && m.breaker.state == Open
    && match e
       case HealthResult(j, ok) => j == i && !ok && !m.backend.adminDisabled && m.stats.consecutiveFailures < 2
       case UndrainCommand(j) => j == i
       case OverrideCommand(j, healthy) => j == i && healthy
       case _ => false
  }

  /** Backend i is healthy while its breaker is open. */
  ghost predicate OpenAndHealthy(s: Sys, i: Id) {
    i < |s.members| && s.members[i].breaker.state == Open && s.members[i].backend.healthy
  }

  lemma OpenAndHealthyExactly(cfg: BreakerConfig, s: Sys, e: Event, i: Id)
    requires cfg.enabled && i < |s.members| && !OpenAndHealthy(s, i)
    ensures OpenAndHealthy(Step(cfg, s, e), i) <==> BreaksOpen(s, e, i)
  {
    StepAt(cfg, s, e, i);
  }

  /** The k-th event gives the open breaker of backend i a healthy backend. */
  ghost predicate BreaksOpenAt(cfg: BreakerConfig, s: Sys, events: seq<Event>, k: nat, i: Id)
    requires k < |events|
  {
    i < |Run(cfg, s, events[..k]).members| && BreaksOpen(Run(cfg, s, events[..k]), events[k], i)
  }

  lemma OpenStep(cfg: BreakerConfig, s: Sys, events: seq<Event>, k: nat, i: Id)
    requires cfg.enabled && k < |events| && i < |s.members| && !OpenAndHealthy(Run(cfg, s, events[..k]), i)
    ensures OpenAndHealthy(Run(cfg, s, events[..k + 1]), i) <==> BreaksOpenAt(cfg, s, events, k, i)
  {
    RunStep(cfg, s, events, k);
    SizeIsKept(cfg, s, events[..k]);
    OpenAndHealthyExactly(cfg, Run(cfg, s, events[..k]), events[k], i);
  }

  lemma {:induction false} OpenOutPrefix(cfg: BreakerConfig, s: Sys, events: seq<Event>, k: nat, i: Id)
    requires cfg.enabled && i < |s.members| && !OpenAndHealthy(s, i) && k <= |events|
    requires forall j :: 0 <= j < |events| ==> !BreaksOpenAt(cfg, s, events, j, i)
    ensures !OpenAndHealthy(Run(cfg, s, events[..k]), i)
    decreases k
  {
    if k > 0 {
      OpenOutPrefix(cfg, s, events, k - 1, i);
      OpenStep(cfg, s, events, k - 1, i);
    }
  }

  /** "Open implies not healthy" holds of backend i after the first k events. */
  ghost predicate OpenIsOutAfter(cfg: BreakerConfig, s: Sys, events: seq<Event>, k: nat, i: Id)
    requires k <= |events|
  {
    !OpenAndHealthy(Run(cfg, s, events[..k]), i)
  }

  /** It holds of every prefix of a run exactly when none of the three events occurs. */
  lemma OpenStaysOutExactly(cfg: BreakerConfig, s: Sys, events: seq<Event>, i: Id)
    requires cfg.enabled && i < |s.members| && !OpenAndHealthy(s, i)
    ensures (forall k :: 0 <= k <= |events| ==> OpenIsOutAfter(cfg, s, events, k, i))
      <==> forall k :: 0 <= k < |events| ==> !BreaksOpenAt(cfg, s, events, k, i)
  {
    if forall k :: 0 <= k < |events| ==> !BreaksOpenAt(cfg, s, events, k, i) {
      forall k | 0 <= k <= |events| ensures OpenIsOutAfter(cfg, s, events, k, i) {
        OpenOutPrefix(cfg, s, events, k, i);
      }
    }
    if forall k :: 0 <= k <= |events| ==> OpenIsOutAfter(cfg, s, events, k, i) {
      forall k | 0 <= k < |events| ensures !BreaksOpenAt(cfg, s, events, k, i) {
        assert OpenIsOutAfter(cfg, s, events, k, i) && OpenIsOutAfter(cfg, s, events, k + 1, i);
        OpenStep(cfg, s, events, k, i);
      }
    }
  }

  /** And it does occur: after enough failed requests, one failed check. */
  lemma TrippedRejoinsOnFailure(cfg: BreakerConfig, n: nat, now: int, idle: nat, i: Id, k: nat)
    requires cfg.enabled && cfg.failureThreshold >= 1 && i < n && k >= cfg.failureThreshold
    ensures var run := Trip(idle, i, k) + [HealthResult(i, false)];
      ValidRun(cfg, Start(n, now), run) && OpenAndHealthy(Run(cfg, Start(n, now), run), i)
  {
    TripFails(cfg, n, now, idle, i, k);
    RunSnoc(cfg, Start(n, now), Trip(idle, i, k), HealthResult(i, false));
    OpenBreakerRejoinsOnFailure(cfg, Run(cfg, Start(n, now), Trip(idle, i, k)), i);
  }

  /** A granted probe need not be sent: routing elsewhere still spends the probe of a backend that passed the filter,
      the first or a later one of its half-open episode. The first takes the backend out of rotation. */
  lemma UnchosenProbeIsSpent(cfg: BreakerConfig, s: Sys, failed: set<Id>, i: Id, j: Id)
    requires cfg.enabled && i < |s.members| && i != j
    requires s.members[i].breaker.state != Closed && Passes(cfg, s.members[i], s.now)
    requires Admissible(AllPass(cfg, s), failed, j)
    ensures Enabled(cfg, s, Route(failed, Some(j)))
    ensures var t := Step(cfg, s, Route(failed, Some(j)));
      && t.members[i].breaker.state == HalfOpen && t.members[i].breaker.probeCount == NextProbe(s.members[i].breaker)
      && t.members[i].backend.activeConnections == s.members[i].backend.activeConnections
      && (t.members[i].backend.healthy <==> s.members[i].breaker.state == HalfOpen)
  {
    RoutedAt(cfg, s, Some(j), i);
    assert AllPass(cfg, s)[j] && AllPass(cfg, s)[i];
  }

  /** Whatever the strategy, the probe granted by a routing is sure to be sent exactly when the backend is the only
      admissible one: the only one that passed, or the only one of them that did not already fail the request. */
  lemma ProbeIsSentExactly(cfg: BreakerConfig, s: Sys, failed: set<Id>, i: Id)
    requires cfg.enabled && i < |s.members|
    requires s.members[i].breaker.state != Closed && Passes(cfg, s.members[i], s.now)
    ensures (forall choice: Option<Id> :: Enabled(cfg, s, Route(failed, choice)) ==> choice == Some(i))
      <==> forall j: Id :: Admissible(AllPass(cfg, s), failed, j) ==> j == i
  {
    assert AllPass(cfg, s)[i];
    forall j: Id | Admissible(AllPass(cfg, s), failed, j) ensures Enabled(cfg, s, Route(failed, Some(j))) {
      assert AllPass(cfg, s)[j];
    }
  }

  /** Showing the status page runs the same filter, without any request: it spends a probe of a breaker that is not
      closed exactly when the backend passes. */
  lemma StatusPageSpendsProbe(cfg: BreakerConfig, s: Sys, i: Id)
    requires cfg.enabled && i < |s.members| && s.members[i].breaker.state != Closed
    ensures Enabled(cfg, s, StatusPage)
    ensures var m, t := s.members[i], Step(cfg, s, StatusPage);
      && (Passes(cfg, m, s.now) <==> t.members[i].breaker != m.breaker)
      && (Passes(cfg, m, s.now) ==>
            && t.members[i].breaker.state == HalfOpen && t.members[i].breaker.probeCount == NextProbe(m.breaker)
            && (t.members[i].backend.healthy <==> m.breaker.state == HalfOpen))
      && t.leases == s.leases
  {
    RoutedAt(cfg, s, None, i);
  }

  /** From the start: a backend tripped after some idle time and made healthy again by a failed check passes exactly
      when the cooldown has passed since the trip. */
  lemma TrippedPassesAfterCooldown(cfg: BreakerConfig, n: nat, began: int, idle: nat, i: Id, k: nat, ms: nat)
    requires cfg.enabled && cfg.failureThreshold >= 1 && i < n && k >= cfg.failureThreshold
    ensures var run := Trip(idle, i, k) + [Tick(ms)] + [HealthResult(i, false)];
      var t := Run(cfg, Start(n, began), run);
      && ValidRun(cfg, Start(n, began), run) && i < |t.members| && t.members[i].breaker.state == Open
      && (Passes(cfg, t.members[i], t.now) <==> ms >= cfg.cooldownMs)
  {
    var s0, r1 := Start(n, began), Trip(idle, i, k) + [Tick(ms)];
    TripFails(cfg, n, began, idle, i, k);
    RunSnoc(cfg, s0, Trip(idle, i, k), Tick(ms));
    RunSnoc(cfg, s0, r1, HealthResult(i, false));
    TrippedIsNotProbed(cfg, n, began, idle, i, k, ms);
    var s1 := Run(cfg, s0, r1);
    OpenBreakerRejoinsOnFailure(cfg, s1, i);
    CircuitChanges(cfg, s1, HealthResult(i, false), i);
    PassesExactly(cfg, Step(cfg, s1, HealthResult(i, false)).members[i], s1.now);
  }

  /** A run on two backends that ends with backend 0 about to be probed: trip it, wait out the cooldown, fail one
      check. */
  function ProbeReady(idle: nat, k: nat, ms: nat): seq<Event> {
    Trip(idle, 0, k) + [Tick(ms)] + [HealthResult(0, false)]
  }

  lemma BothPass(cfg: BreakerConfig, idle: nat, k: nat, ms: nat)
    requires cfg.enabled && cfg.failureThreshold >= 1 && k >= cfg.failureThreshold && ms >= cfg.cooldownMs
    ensures ValidRun(cfg, Start(2, 0), ProbeReady(idle, k, ms))
    ensures var s := Run(cfg, Start(2, 0), ProbeReady(idle, k, ms));
      && |s.members| == 2 && s.leases == [] && s.members[0].breaker.state == Open
      && Passes(cfg, s.members[0], s.now) && Passes(cfg, s.members[1], s.now)
  {
    var s0, r1 := Start(2, 0), Trip(idle, 0, k) + [Tick(ms)];
    TripFails(cfg, 2, 0, idle, 0, k);
    RunSnoc(cfg, s0, Trip(idle, 0, k), Tick(ms));
    RunSnoc(cfg, s0, r1, HealthResult(0, false));
    TrippedIsNotProbed(cfg, 2, 0, idle, 0, k, ms);
    var s1 := Run(cfg, s0, r1);
    assert s1.members[1] == Member(FRESH, FreshBreaker(0), NO_CHECKS);
    OpenBreakerRejoinsOnFailure(cfg, s1, 0);
    ProbeExactly(cfg, Step(cfg, s1, HealthResult(0, false)), StatusPage, 0);
  }

  /** From the start, a probe granted and never sent: the request goes to backend 1, and the probe of backend 0 is
      spent. */
  lemma ProbeIsLost(cfg: BreakerConfig, idle: nat, k: nat, ms: nat)
    requires cfg.enabled && cfg.failureThreshold >= 1 && k >= cfg.failureThreshold && ms >= cfg.cooldownMs
    ensures var run := ProbeReady(idle, k, ms) + [Route({}, Some(1))];
      var t := Run(cfg, Start(2, 0), run);
      && ValidRun(cfg, Start(2, 0), run) && |t.members| == 2
      && t.members[0].breaker.state == HalfOpen && t.members[0].breaker.probeCount == 1
      && !t.members[0].backend.healthy && Live(t.leases, 0) == 0 && Live(t.leases, 1) == 1
  {
    var s, run := Run(cfg, Start(2, 0), ProbeReady(idle, k, ms)), ProbeReady(idle, k, ms) + [Route({}, Some(1))];
    BothPass(cfg, idle, k, ms);
    RunSnoc(cfg, Start(2, 0), ProbeReady(idle, k, ms), Route({}, Some(1)));
    FirstProbeLost(cfg, s, Run(cfg, Start(2, 0), run));
  }

  lemma FirstProbeLost(cfg: BreakerConfig, s: Sys, t: Sys)
    requires cfg.enabled && |s.members| == 2 && s.leases == [] && s.members[0].breaker.state == Open
    requires Passes(cfg, s.members[0], s.now) && Passes(cfg, s.members[1], s.now)
    requires t == Step(cfg, s, Route({}, Some(1)))
    ensures Enabled(cfg, s, Route({}, Some(1))) && |t.members| == 2
    ensures t.members[0].breaker.state == HalfOpen && t.members[0].breaker.probeCount == 1
    ensures !t.members[0].backend.healthy && Live(t.leases, 0) == 0 && Live(t.leases, 1) == 1
  {
    assert AllPass(cfg, s)[1];
    UnchosenProbeIsSpent(cfg, s, {}, 0, 1);
    StepKeepsSize(cfg, s, Route({}, Some(1)));
    StepLeases(cfg, s, Route({}, Some(1)));
    LiveAppend([], Lease(1, false), 0);
    LiveAppend([], Lease(1, false), 1);
  }

  /** And a later probe, where more than one is allowed: backend 0, half open, is undrained, and the status page spends
      its second probe. No request has gone to it. */
  lemma SecondProbeIsLost(cfg: BreakerConfig, idle: nat, k: nat, ms: nat)
    requires cfg.enabled && cfg.failureThreshold >= 1 && k >= cfg.failureThreshold && ms >= cfg.cooldownMs
    requires cfg.halfOpenMaxProbes >= 2
    ensures var run := ProbeReady(idle, k, ms) + [Route({}, Some(1))] + [UndrainCommand(0)] + [StatusPage];
      var t := Run(cfg, Start(2, 0), run);
      && ValidRun(cfg, Start(2, 0), run) && |t.members| == 2
      && t.members[0].breaker.state == HalfOpen && t.members[0].breaker.probeCount == 2
      && Live(t.leases, 0) == 0
  {
    var s0, r1 := Start(2, 0), ProbeReady(idle, k, ms) + [Route({}, Some(1))];
    ProbeIsLost(cfg, idle, k, ms);
    RunSnoc(cfg, s0, r1, UndrainCommand(0));
    RunSnoc(cfg, s0, r1 + [UndrainCommand(0)], StatusPage);
    var s, t := Run(cfg, s0, r1), Run(cfg, s0, r1 + [UndrainCommand(0)]);
    SecondProbeSpent(cfg, s, t, Run(cfg, s0, r1 + [UndrainCommand(0)] + [StatusPage]), 0);
  }

  lemma SecondProbeSpent(cfg: BreakerConfig, s: Sys, t: Sys, u: Sys, i: Id)
    requires cfg.enabled && cfg.halfOpenMaxProbes >= 2 && i < |s.members|
    requires s.members[i].breaker.state == HalfOpen && s.members[i].breaker.probeCount == 1
    requires t == Step(cfg, s, UndrainCommand(i)) && i < |t.members| && u == Step(cfg, t, StatusPage)
    ensures Enabled(cfg, t, StatusPage) && |u.members| == |s.members| && u.leases == s.leases
    ensures u.members[i].breaker.state == HalfOpen && u.members[i].breaker.probeCount == 2
  {
    UndrainHeals(cfg, s, i);
    PassesExactly(cfg, t.members[i], t.now);
    StatusPageSpendsProbe(cfg, t, i);
    StepKeepsSize(cfg, t, StatusPage);
  }

  lemma UndrainHeals(cfg: BreakerConfig, s: Sys, i: Id)
    requires i < |s.members|
    ensures var t := Step(cfg, s, UndrainCommand(i));
      && |t.members| == |s.members| && t.leases == s.leases
      && t.members[i].backend.healthy && t.members[i].breaker == s.members[i].breaker
  {
  }

  /** Rejoining does not take two successes: one passed health check is enough, and it fails to be only for a disabled
      backend whose breaker it does not close. */
  lemma OneSuccessRejoins(cfg: BreakerConfig, s: Sys, i: Id)
    requires i < |s.members|
    ensures var m := s.members[i];
      var rejoins := !m.backend.adminDisabled || (cfg.enabled && m.breaker.state != Closed);
      Step(cfg, s, HealthResult(i, true)).members[i].backend.healthy <==> rejoins
  {
  }

  function FailedChecks(i: Id, k: nat): seq<Event> {
    seq(k, _ => HealthResult(i, false))
  }

  lemma {:induction false} ChecksFail(cfg: BreakerConfig, n: nat, now: int, i: Id, k: nat)
    requires i < n
    ensures ValidRun(cfg, Start(n, now), FailedChecks(i, k))
    ensures var t := Run(cfg, Start(n, now), FailedChecks(i, k));
      && |t.members| == n && !t.members[i].backend.adminDisabled
      && t.members[i].stats.consecutiveFailures == k && (k > 0 ==> t.members[i].stats.consecutiveSuccesses == 0)
      && (k >= 3 ==> !t.members[i].backend.healthy)
  {
    if k == 0 {
      assert FailedChecks(i, 0) == [];
    } else {
      ChecksFail(cfg, n, now, i, k - 1);
      var s := Run(cfg, Start(n, now), FailedChecks(i, k - 1));
      assert FailedChecks(i, k) == FailedChecks(i, k - 1) + [HealthResult(i, false)];
      RunSnoc(cfg, Start(n, now), FailedChecks(i, k - 1), HealthResult(i, false));
      StepKeepsSize(cfg, s, HealthResult(i, false));
      StepAt(cfg, s, HealthResult(i, false), i);
      FailedCheckCounts(cfg, s.members[i], s.now);
    }
  }

  lemma FailedCheckCounts(cfg: BreakerConfig, m: Member, now: int)
    requires !m.backend.adminDisabled
    ensures var t := Checked(cfg, m, false, now);
      && !t.backend.adminDisabled && t.stats.consecutiveSuccesses == 0
      && t.stats.consecutiveFailures == m.stats.consecutiveFailures + 1
      && (t.stats.consecutiveFailures >= 3 ==> !t.backend.healthy)
  {
  }

  /** From the start, under every configuration: three or more failed checks take a backend out, and one passed check
      brings it back. */
  lemma OneSuccessAfterFailures(cfg: BreakerConfig, n: nat, now: int, i: Id, k: nat)
    requires i < n && k >= 3
    ensures var out, back := FailedChecks(i, k), FailedChecks(i, k) + [HealthResult(i, true)];
      var s, t := Run(cfg, Start(n, now), out), Run(cfg, Start(n, now), back);
      && ValidRun(cfg, Start(n, now), back) && |s.members| == |t.members| == n
      && !s.members[i].backend.healthy
      && t.members[i].backend.healthy && t.members[i].stats.consecutiveSuccesses == 1
  {
    var s := Run(cfg, Start(n, now), FailedChecks(i, k));
    ChecksFail(cfg, n, now, i, k);
    RunSnoc(cfg, Start(n, now), FailedChecks(i, k), HealthResult(i, true));
    StepKeepsSize(cfg, s, HealthResult(i, true));
    StepRecords(cfg, s, HealthResult(i, true), i);
    OneSuccessRejoins(cfg, s, i);
  }

  lemma RunSnoc(cfg: BreakerConfig, s: Sys, events: seq<Event>, e: Event)
    ensures Run(cfg, s, events + [e]) == Step(cfg, Run(cfg, s, events), e)
    ensures ValidRun(cfg, s, events + [e]) <==> ValidRun(cfg, s, events) && Enabled(cfg, Run(cfg, s, events), e)
  {
    assert (events + [e])[..|events|] == events;
  }

  /** A member with a closed breaker passes when it is healthy, and the filter leaves it as it is. */
  lemma ClosedMemberPasses(cfg: BreakerConfig, s: Sys, i: Id)
    requires i < |s.members| && s.members[i].backend.healthy && s.members[i].breaker.state == Closed
    ensures Enabled(cfg, s, Route({}, Some(i)))
    ensures var m := s.members[i];
      Step(cfg, s, Route({}, Some(i))).members[i] == m.(backend := LeaseTaken(m.backend))
  {
    assert AllPass(cfg, s)[i];
    RoutedAt(cfg, s, Some(i), i);
  }

  lemma DrainWaits(cfg: BreakerConfig, s: Sys, i: Id, sec: int)
    requires i < |s.members| && s.members[i].backend.activeConnections > 0 && s.members[i].backend.status != Draining
    ensures var t, m := Step(cfg, s, DrainCommand(i, sec)), s.members[i];
      && t.leases == s.leases && |t.members| == |s.members|
      && t.members[i].backend.status == Draining
      && t.members[i].backend.adminDisabled == m.backend.adminDisabled && t.members[i].breaker == m.breaker
  {
  }

  lemma CheckRevives(cfg: BreakerConfig, s: Sys, i: Id)
    requires i < |s.members| && s.members[i].breaker.state == Closed && !s.members[i].backend.adminDisabled
    ensures var t := Step(cfg, s, HealthResult(i, true));
      && t.leases == s.leases && |t.members| == |s.members|
      && t.members[i].backend.healthy && t.members[i].breaker.state == Closed
  {
  }

  /** A short run from the start, under any configuration: a request is leased, its backend drained, a health check
      passes, and the next request goes to the draining backend again. */
  lemma DrainedBackendIsChosenAgain(cfg: BreakerConfig)
    ensures var run := [Route({}, Some(0)), DrainCommand(0, 30), HealthResult(0, true), Route({}, Some(0))];
      ValidRun(cfg, Start(1, 0), run) && Live(Run(cfg, Start(1, 0), run).leases, 0) == 2
  {
    var s0, lease, drain, check := Start(1, 0), Route({}, Some(0)), DrainCommand(0, 30), HealthResult(0, true);
    var r1, r2, r3 := [lease], [lease, drain], [lease, drain, check];
    assert [] + [lease] == r1 && r1 + [drain] == r2 && r2 + [check] == r3;
    var s1 := Step(cfg, s0, lease);
    assert ValidRun(cfg, s0, r1) && Run(cfg, s0, r1) == s1 by {
      RunSnoc(cfg, s0, [], lease);
      ClosedMemberPasses(cfg, s0, 0);
    }
    var s2 := Step(cfg, s1, drain);
    assert ValidRun(cfg, s0, r2) && Run(cfg, s0, r2) == s2 by { RunSnoc(cfg, s0, r1, drain); }
    var s3 := Step(cfg, s2, check);
    assert ValidRun(cfg, s0, r3) && Run(cfg, s0, r3) == s3 by { RunSnoc(cfg, s0, r2, check); }
    DrainedServesAgain(cfg, s1, s2, s3);
    RunSnoc(cfg, s0, r3, lease);
    assert r3 + [lease] == [lease, drain, check, lease];
    StepLeases(cfg, s3, lease);
    TwoLeases();
  }

  lemma TwoLeases()
    ensures Live([Lease(0, false)] + [Lease(0, false)], 0) == 2
  {
    LiveAppend([], Lease(0, false), 0);
    assert [] + [Lease(0, false)] == [Lease(0, false)];
    LiveAppend([Lease(0, false)], Lease(0, false), 0);
  }

  lemma DrainedServesAgain(cfg: BreakerConfig, s1: Sys, s2: Sys, s3: Sys)
    requires s1 == Step(cfg, Start(1, 0), Route({}, Some(0)))
    requires s2 == Step(cfg, s1, DrainCommand(0, 30)) && s3 == Step(cfg, s2, HealthResult(0, true))
    ensures s3.leases == [Lease(0, false)] && |s3.members| == 1 && s2.members[0].backend.status == Draining
    ensures Enabled(cfg, s3, Route({}, Some(0)))
  {
    var s0 := Start(1, 0);
    FirstLease(cfg, s0, s1);
    DrainWaits(cfg, s1, 0, 30);
    CheckRevives(cfg, s2, 0);
    ClosedMemberPasses(cfg, s3, 0);
  }

  lemma FirstLease(cfg: BreakerConfig, s0: Sys, s1: Sys)
    requires s0 == Start(1, 0) && s1 == Step(cfg, s0, Route({}, Some(0)))
    ensures s1.leases == [Lease(0, false)] && |s1.members| == 1
    ensures s1.members[0] == Member(LeaseTaken(FRESH), FreshBreaker(0), NO_CHECKS)
  {
    ClosedMemberPasses(cfg, s0, 0);
    StepLeases(cfg, s0, Route({}, Some(0)));
    StepKeepsSize(cfg, s0, Route({}, Some(0)));
    assert [] + [Lease(0, false)] == [Lease(0, false)];
  }
}
