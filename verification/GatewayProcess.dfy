/**
 The running program: the components' objects over one shared pool, with one method per event of the interleaved
 machine. Each method's postcondition says that it takes exactly that machine's step, so every theorem about runs of the
 machine is one about these objects.
 */
module GatewayProcess {
  import opened BackendPool
  import opened CircuitBreaker
  import opened ConnectionDrain
  import opened HealthStore
  import opened Routing
  import opened Gateway
  import opened ProxyRetry
  import opened Wrappers

  /** Timers, leases and clock after an event, and the members one by one, make up the machine's next state. */
  lemma IsStep(cfg: BreakerConfig, s: Sys, e: Event, t: Sys)
    requires |t.members| == |s.members|
    requires forall i: Id :: i < |s.members| ==> t.members[i] == MemberAfter(cfg, s, e, i)
    requires t.timers == Step(cfg, s, e).timers && t.leases == LeasesAfter(s, e)
    requires t.now == Step(cfg, s, e).now
    ensures t == Step(cfg, s, e)
  {
    StepKeepsSize(cfg, s, e);
    StepLeases(cfg, s, e);
    forall i | 0 <= i < |s.members| ensures t.members[i] == Step(cfg, s, e).members[i] { StepAt(cfg, s, e, i); }
  }

  /** The request object as the proxy middleware marks it. The ghost fields are its history in the retry protocol: the
      first call's answer and what happened since lead to `exchange`, so the protocol's theorems are about these
      objects. */
  class ProxiedRequest {
    const httpMethod: Option<string>
    var attempts: nat
    var failed: set<Id>
    var target: Option<Id>
    var headersSent: bool
    ghost var exchange: Exchange
    ghost var firstPassed: seq<bool>
    ghost var firstChoice: Option<Id>
    ghost var happenings: seq<Happening>

    ghost function State(): RequestState
      reads this
    {
      RequestState(httpMethod, attempts, failed, target, headersSent)
    }

    ghost predicate Synced()
      reads this
    {
      exchange.req == State()
    }

    /** The request was handed to the proxy, its history led here, and it is within the retry budget. */
    ghost predicate Called()
      reads this
    {
      Synced() && Leads(httpMethod, firstPassed, firstChoice, happenings, exchange) && WithinBudget(exchange)
    }

    /** Every request object in use. */
    ghost predicate Valid()
      reads this
    {
      Called() || (Synced() && exchange == Untried(httpMethod) && happenings == [])
    }

    /** The two places that hand the request to the proxy: the wrapper, and the end of a backoff. */
    ghost predicate MayCall()
      reads this
    {
      exchange == Untried(httpMethod) || exchange.waiting > 0
    }

    /** A request whose calls the library reports once each moves on to untried backends, and is never lost. */
    lemma MovesOn()
      requires Called() && InTurn(Arrive(httpMethod, firstPassed, firstChoice), happenings)
      ensures forall k :: 0 <= k < |exchange.tries| ==> FreshWhilePossible(exchange.tries, k)
      ensures headersSent || exchange.waiting + exchange.busy == 1
    {
      RetriesMoveOn(httpMethod, firstPassed, firstChoice, happenings);
    }

    /** The request as the wrapper leaves it. */
    constructor (httpMethod: Option<string>)
      ensures Valid() && exchange == Untried(httpMethod)
    {
      this.httpMethod := httpMethod;
      attempts, failed, target, headersSent := 1, {}, None, false;
      exchange, happenings := Untried(httpMethod), [];
    }

    /** Writes down what happened; the fields follow. */
    ghost method Note(h: Happening)
      requires Called() && Possible(exchange, h)
      modifies this`exchange, this`happenings
      ensures exchange == Happen(old(exchange), h) && happenings == old(happenings) + [h]
      ensures Leads(httpMethod, firstPassed, firstChoice, happenings, exchange) && WithinBudget(exchange)
    {
      LeadsNext(httpMethod, firstPassed, firstChoice, happenings, exchange, h);
      HappenKeepsBudget(exchange, h);
      exchange, happenings := Happen(exchange, h), happenings + [h];
    }

    /** The router's answer becomes the target, unless there is one. */
    method Call(choice: Option<Id>, ghost passed: seq<bool>)
      requires Valid() && MayCall() && (target.None? ==> Answer(passed, failed, choice))
      modifies this
      ensures Called() && State() == Targeted(old(State()), choice)
      ensures exchange == Happen(old(exchange), Resumes(passed, choice))
      ensures old(Called()) ==> happenings == old(happenings) + [Resumes(passed, choice)]
    {
      if Called() {
        Note(Resumes(passed, choice));
      } else {
        FirstCallArrives(httpMethod, passed, choice);
        firstPassed, firstChoice := passed, choice;
        exchange := Arrive(httpMethod, passed, choice);
      }
      if target.None? { target := choice; }
    }

    /** What the error handler does to the request, up to its await. */
    method Fail(random: real) returns (outcome: Outcome)
      requires Synced() && 0.0 <= random < 1.0
      modifies this
      ensures Synced() && (State(), outcome) == HandleError(old(State()), random)
      ensures exchange == Happen(old(exchange), Fails(random))
      ensures old(Called()) ==> Called() && happenings == old(happenings) + [Fails(random)]
    {
      if Called() { Note(Fails(random)); } else { exchange := Happen(exchange, Fails(random)); }
      if target.Some? { failed := failed + {target.value}; }
      var isIdempotent := Idempotent(httpMethod);
      attempts := if attempts == 0 then 1 else attempts;
      if isIdempotent && attempts <= MAX_RETRIES && !headersSent {
        attempts := attempts + 1;
        target := None;
        return RetryIn(Backoff(attempts, random));
      }
      if headersSent { return AlreadyAnswered; }
      headersSent := true;
      outcome := BadGateway;
    }

    /** The library gives a call up through its callback: a retry's sends a 502 unless the client was answered; the
        first call's leaves the answer to Express. */
    method GiveUp() returns (badGateway: bool)
      requires Called()
      modifies this
      ensures Called() && exchange == Happen(old(exchange), GivesUp) && happenings == old(happenings) + [GivesUp]
      ensures badGateway <==> exchange.badGateways > old(exchange).badGateways
    {
      badGateway := attempts > 1 && !headersSent;
      Note(GivesUp);
      headersSent := true;
    }

    /** An upstream response begins. */
    method SendHeaders()
      requires Called()
      modifies this
      ensures Called() && exchange == Happen(old(exchange), HeadersSent)
      ensures happenings == old(happenings) + [HeadersSent]
    {
      Note(HeadersSent);
      headersSent := true;
    }
  }

  /** The events lead from one state of the machine to the other, each enabled when it happened. */
  ghost predicate Reaches(cfg: BreakerConfig, from: Sys, events: seq<Event>, to: Sys) {
    ValidRun(cfg, from, events) && Run(cfg, from, events) == to
  }

  lemma ReachesNext(cfg: BreakerConfig, from: Sys, events: seq<Event>, s: Sys, e: Event, t: Sys)
    requires Reaches(cfg, from, events, s) && Enabled(cfg, s, e) && t == Step(cfg, s, e)
    ensures Reaches(cfg, from, events + [e], t)
  {
    RunSnoc(cfg, from, events, e);
  }

  function Lent(s: Sys, i: Id): Sys
    requires i < |s.members|
  {
    var m := s.members[i];
    Set(s, i, m.(backend := LeaseTaken(m.backend))).(leases := s.leases + [Lease(i, false)])
  }

  lemma IsStart(n: nat, now: int, s: Sys)
    requires |s.members| == n && s.timers == NO_TIMERS && s.leases == [] && s.now == now
    requires forall i: Id :: i < n ==> s.members[i] == Member(FRESH, FreshBreaker(now), NO_CHECKS)
    ensures s == Start(n, now)
  {
    assert s.members == Start(n, now).members;
  }

  /** A step that changes backend i and the timers only. */
  ghost predicate OnlyDrained(s: Sys, i: Id, t: Sys) {
    && |t.members| == |s.members| && t.leases == s.leases && t.now == s.now
    && (i >= |s.members| ==> t.timers == s.timers)
    && (forall j: Id :: j < |s.members| && j != i ==> t.members[j] == s.members[j])
    && (i < |s.members| ==> t.members[i] == s.members[i].(backend := t.members[i].backend))
  }

  lemma IsSetDrained(s: Sys, i: Id, r: (BackendState, Timers), t: Sys)
    requires i < |s.members| && OnlyDrained(s, i, t) && (t.members[i].backend, t.timers) == r
    ensures t == SetDrained(s, i, r)
  {
    assert t.members == s.members[i := s.members[i].(backend := r.0)];
  }

  lemma IsDrainStep(cfg: BreakerConfig, s: Sys, i: Id, sec: int, t: Sys)
    requires OnlyDrained(s, i, t)
    requires i < |s.members| ==>
      (t.members[i].backend, t.timers) == Drain(s.members[i].backend, s.timers, i, sec, s.now)
    ensures t == Step(cfg, s, DrainCommand(i, sec))
  {
    if i < |s.members| { IsSetDrained(s, i, Drain(s.members[i].backend, s.timers, i, sec, s.now), t); }
    else { assert t.members == s.members; }
  }

  lemma IsUndrainStep(cfg: BreakerConfig, s: Sys, i: Id, t: Sys)
    requires OnlyDrained(s, i, t)
    requires i < |s.members| ==> (t.members[i].backend, t.timers) == Undrain(s.members[i].backend, s.timers, i)
    ensures t == Step(cfg, s, UndrainCommand(i))
  {
    if i < |s.members| { IsSetDrained(s, i, Undrain(s.members[i].backend, s.timers, i), t); }
    else { assert t.members == s.members; }
  }

  /** A step that filters every backend and does nothing else. */
  lemma IsFiltered(cfg: BreakerConfig, s: Sys, t: Sys)
    requires |s.members| == |t.members| && t.timers == s.timers && t.leases == s.leases && t.now == s.now
    requires forall i: Id :: i < |s.members| ==> t.members[i] == Filtered(cfg, s.members[i], s.now)
    ensures t == Routed(cfg, s, None)
  {
    assert t.members == AllFiltered(cfg, s);
  }

  const NOBODY := Member(FRESH, FreshBreaker(0), NO_CHECKS)

  /** A step that changes nothing but backend i, or nothing at all when there is no such backend. */
  lemma IsSet(s: Sys, i: Id, m: Member, t: Sys)
    requires |s.members| == |t.members| && t.timers == s.timers && t.leases == s.leases && t.now == s.now
    requires forall j :: 0 <= j < |s.members| ==> t.members[j] == if j == i then m else s.members[j]
    ensures t == if i < |s.members| then Set(s, i, m) else s
  {
    assert t.members == if i < |s.members| then s.members[i := m] else s.members;
  }

  /** Responses from 400 to 499 tell a breaker nothing. */
  lemma StepOfOtherStatus(cfg: BreakerConfig, s: Sys, id: Id, statusCode: nat)
    requires 400 <= statusCode < 500
    ensures Step(cfg, s, ProxyResponse(id, statusCode)) == s
  {
    if id < |s.members| { assert s.members[id := s.members[id]] == s.members; }
  }

  lemma IsReported(cfg: BreakerConfig, s: Sys, id: Id, success: bool, t: Sys)
    requires |s.members| == |t.members| && t.timers == s.timers && t.leases == s.leases && t.now == s.now
    requires forall i: Id :: i < |s.members| && i != id ==> t.members[i] == s.members[i]
    requires id < |s.members| && success ==> t.members[id] == Succeeded(cfg, s.members[id], s.now)
    requires id < |s.members| && !success ==> t.members[id] == Failed(cfg, s.members[id], s.now)
    ensures t == Step(cfg, s, if success then ProxyResponse(id, 200) else ProxyError(id))
  {
    var m := if id >= |s.members| then NOBODY
             else if success then Succeeded(cfg, s.members[id], s.now) else Failed(cfg, s.members[id], s.now);
    IsSet(s, id, m, t);
  }

  lemma RoutedIsLent(cfg: BreakerConfig, s: Sys, failed: set<Id>, i: Id)
    requires i < |s.members|
    ensures Step(cfg, s, Route(failed, Some(i))) == Lent(Routed(cfg, s, None), i)
  {
  }

  /** The answers a router may get are the routing events of the machine that are enabled. */
  lemma AnswersAreEnabled(cfg: BreakerConfig, s: Sys, failed: set<Id>, choice: Option<Id>)
    ensures Enabled(cfg, s, Route(failed, choice)) <==> Answer(AllPass(cfg, s), failed, choice)
  {
  }

  class Process {
    const pool: seq<Backend>
    const circuit: CircuitBreakerManager
    const health: HealthStoreManager
    const drain: ConnectionDrainManager
    const engine: RoutingEngine
    var leases: seq<Lease>
    var now: int
    ghost const start: Sys
    ghost var history: seq<Event>

    ghost predicate Valid()
      reads circuit, health, engine, engine.circuit, engine.weighted
    {
      && engine.Valid() && engine.pool == pool && engine.circuit == circuit
      && health.pool == pool && drain.pool == pool
      && (forall i: Id :: i in health.stats <==> i < |pool|)
    }

    ghost function Members(): (ms: seq<Member>)
      requires Valid()
      reads circuit, health, engine, engine.circuit, engine.weighted, pool
      ensures |ms| == |pool|
      ensures forall i: Id :: i < |pool| ==> ms[i] == Member(pool[i].State(), circuit.breakers[i], health.stats[i])
    {
      seq(|pool|, i requires 0 <= i < |pool| && Valid()
        reads circuit, health, engine, engine.circuit, engine.weighted, pool =>
          Member(pool[i].State(), circuit.breakers[i], health.stats[i]))
    }

    /** The machine state these objects are in. */
    ghost function Abs(): (s: Sys)
      requires Valid()
      reads this`leases, this`now, circuit, health, drain, engine, engine.circuit, engine.weighted, pool
      ensures |s.members| == |pool|
      ensures forall i: Id :: i < |pool| ==>
        s.members[i] == Member(pool[i].State(), circuit.breakers[i], health.stats[i])
    {
      Sys(Members(), drain.State(), leases, now)
    }

    /** The program is where its history of events has led: the run theorems of the machine are about it. */
    ghost predicate Reached()
      reads this, circuit, health, drain, engine, engine.circuit, engine.weighted, pool
    {
      Valid() && Reaches(circuit.cfg, start, history, Abs())
    }

    /** Writes down an event that was enabled and has taken its step. */
    ghost method Log(s: Sys, e: Event)
      requires Valid() && Reaches(circuit.cfg, start, history, s)
      requires Enabled(circuit.cfg, s, e) && Abs() == Step(circuit.cfg, s, e)
      modifies this`history
      ensures Reached() && history == old(history) + [e]
    {
      ReachesNext(circuit.cfg, start, history, s, e, Abs());
      history := history + [e];
    }

    /** So whatever the components have been asked to do, the pool's invariants hold of the objects. */
    lemma ReachedKeepsInv(n: nat, began: int)
      requires Reached() && start == Start(n, began)
      ensures Inv(circuit.cfg, Abs()) && |pool| == n
    {
      StartHolds(circuit.cfg, n, began);
      RunKeepsInv(circuit.cfg, start, history);
    }

    /** The shipped constants: the staggered weights 3, 2, 1, 1, … and forty virtual nodes per unit of weight. */
    ghost predicate Configured(hash32: string -> Routing.Hashing.Hash32)
      reads pool
    {
      && engine.hashing.vnodesPerWeight == 40 && engine.hashing.hash32 == hash32
      && forall i :: 0 <= i < |pool| ==> pool[i].weight == if i == 0 then 3 else if i == 1 then 2 else 1
    }

    /** The components over a fresh pool. */
    constructor (n: nat, cfg: BreakerConfig, hash32: string -> Routing.Hashing.Hash32, algorithm: Algorithm, now: int)
      ensures Valid() && circuit.cfg == cfg && engine.algorithm == algorithm
      ensures fresh(circuit) && fresh(health) && fresh(drain) && fresh(engine)
      ensures fresh(engine.roundRobin) && fresh(engine.weighted) && forall i :: 0 <= i < |pool| ==> fresh(pool[i])
      ensures |pool| == n && forall i :: 0 <= i < n ==> pool[i].State() == FRESH
      ensures Configured(hash32)
      ensures circuit.breakers == FreshBreakers(n, now) && health.stats == NoChecks(n)
      ensures drain.State() == NO_TIMERS && leases == [] && this.now == now
      ensures start == Start(n, now) && history == []
    {
      var backends := NewPool(n);
      var breakers := new CircuitBreakerManager(backends, cfg, now);
      pool, circuit := backends, breakers;
      health := new HealthStoreManager(backends);
      drain := new ConnectionDrainManager(backends);
      engine := new RoutingEngine(backends, breakers, hash32, algorithm);
      leases := [];
      this.now := now;
      start, history := Start(n, now), [];
    }

    /** The fresh program is in the machine's start state, with an empty history. */
    lemma FreshIsReached(n: nat, began: int)
      requires Valid() && |pool| == n && forall i :: 0 <= i < n ==> pool[i].State() == FRESH
      requires circuit.breakers == FreshBreakers(n, began) && health.stats == NoChecks(n)
      requires drain.State() == NO_TIMERS && leases == [] && now == began
      requires start == Start(n, began) && history == []
      ensures Abs() == Start(n, began) && Reached()
    {
      IsStart(n, began, Abs());
    }

    /** Starts the program. */
    static method Boot(
      n: nat, cfg: BreakerConfig, hash32: string -> Routing.Hashing.Hash32, algorithm: Algorithm, now: int)
      returns (p: Process)
      ensures p.Reached() && p.start == Start(n, now) && p.history == [] && p.Abs() == p.start && p.circuit.cfg == cfg
      ensures fresh(p) && fresh(p.circuit) && fresh(p.health) && fresh(p.drain) && fresh(p.engine)
      ensures fresh(p.engine.roundRobin) && fresh(p.engine.weighted)
      ensures |p.pool| == n && forall i :: 0 <= i < n ==> fresh(p.pool[i])
      ensures p.Configured(hash32) && p.engine.algorithm == algorithm
    {
      p := new Process(n, cfg, hash32, algorithm, now);
      p.FreshIsReached(n, now);
    }

    /** Some failed checks in a row. */
    method FailChecks(id: Id, k: nat)
      requires Reached()
      modifies this`history, health, circuit, pool`healthy, pool`status
      ensures Reached() && history == old(history) + FailedChecks(id, k)
    {
      for j := 0 to k
        invariant Reached() && history == old(history) + FailedChecks(id, j)
      {
        HealthCheck(id, false);
        assert FailedChecks(id, j) + [HealthResult(id, false)] == FailedChecks(id, j + 1);
      }
    }

    /** A whole program on fresh objects: three failed checks take a backend out, and one passed check brings it
        back. */
    static method FailThenPass(
      n: nat, cfg: BreakerConfig, hash32: string -> Routing.Hashing.Hash32, algorithm: Algorithm, id: Id, now: int)
      returns (p: Process)
      requires id < n
      ensures p.Reached() && p.history == FailedChecks(id, 3) + [HealthResult(id, true)]
      ensures |p.pool| == n && p.pool[id].healthy
    {
      p := Boot(n, cfg, hash32, algorithm, now);
      p.FailChecks(id, 3);
      assert [] + FailedChecks(id, 3) == FailedChecks(id, 3);
      p.HealthCheck(id, true);
      OneSuccessAfterFailures(cfg, n, now, id, 3);
    }

    static method NewPool(n: nat) returns (backends: seq<Backend>)
      ensures |backends| == n && ValidPool(backends)
      ensures forall i :: 0 <= i < n ==> fresh(backends[i]) && backends[i].State() == FRESH
      ensures forall i :: 0 <= i < n ==> backends[i].weight == if i == 0 then 3 else if i == 1 then 2 else 1
    {
      backends := [];
      for i := 0 to n
        invariant |backends| == i && ValidPool(backends)
        invariant forall j :: 0 <= j < i ==> fresh(backends[j]) && backends[j].State() == FRESH
        invariant forall j :: 0 <= j < i ==> backends[j].weight == if j == 0 then 3 else if j == 1 then 2 else 1
      {
        var b := new Backend(i);
        backends := backends + [b];
      }
    }

    /** A health result: the store judges first, then the breaker hears of it. */
    method HealthCheck(id: Id, success: bool)
      requires Reached()
      modifies this`history, health, circuit, pool`healthy, pool`status
      ensures Reached() && history == old(history) + [HealthResult(id, success)]
      ensures Abs() == Step(circuit.cfg, old(Abs()), HealthResult(id, success))
      ensures Enabled(circuit.cfg, old(Abs()), HealthResult(id, success))
    {
      ghost var s := Abs();
      RecordCheck(id, success);
      Log(s, HealthResult(id, success));
    }

    method RecordCheck(id: Id, success: bool)
      requires Valid()
      modifies health, circuit, pool`healthy, pool`status
      ensures Valid() && Abs() == Step(circuit.cfg, old(Abs()), HealthResult(id, success))
    {
      ghost var s := Abs();
      health.RecordResult(id, success);
      if success { circuit.RecordSuccess(id, now); } else { circuit.RecordFailure(id, now); }
      ghost var e, t := HealthResult(id, success), Abs();
      forall i: Id | i < |pool| ensures t.members[i] == MemberAfter(circuit.cfg, s, e, i) {
        if i != id { assert pool[i].State() == s.members[i].backend; }
      }
      IsStep(circuit.cfg, s, e, t);
    }

    /** Selection, which moves breakers also when it comes up empty: an admissible backend, and among the admissible
        ones the strategy's own pick. */
    method Choose(req: Routing.Request) returns (choice: Option<Id>, candidates: seq<Id>)
      requires Valid() && |req.scores| == |pool|
      modifies circuit, pool`healthy, pool`status, engine.roundRobin, engine.weighted
      ensures Valid() && Abs() == Routed(circuit.cfg, old(Abs()), None)
      ensures Answer(AllPass(circuit.cfg, old(Abs())), req.failed, choice)
      ensures engine.InPool(candidates) && Ascending(candidates)
      ensures forall i: Id :: i in candidates <==> Admissible(AllPass(circuit.cfg, old(Abs())), req.failed, i)
      ensures choice.Some? ==>
        exists k :: 0 <= k < |candidates| && candidates[k] == choice.value
          && engine.Picks(candidates, req, old(engine.roundRobin.index), old(engine.weighted.Leftover()), k)
    {
      ghost var s := Abs();
      ghost var passed := engine.Passed(now);
      assert passed == AllPass(circuit.cfg, s);
      choice, candidates := engine.SelectBackend(req, now);
      IsFiltered(circuit.cfg, s, Abs());
    }

    /** One more connection for backend i, with its decrement closure. */
    method Lend(i: Id)
      requires Valid() && i < |pool|
      modifies pool`activeConnections, this`leases
      ensures Valid() && Abs() == Lent(old(Abs()), i)
    {
      ghost var s := Abs();
      pool[i].activeConnections := pool[i].activeConnections + 1;
      leases := leases + [Lease(i, false)];
      assert Abs().members == Lent(s, i).members;
    }

    /** Selection with its lease. */
    method SelectAndLease(req: Routing.Request) returns (choice: Option<Id>)
      requires Valid() && |req.scores| == |pool|
      modifies this`leases, circuit, pool`healthy, pool`status, pool`activeConnections
      modifies engine.roundRobin, engine.weighted
      ensures Valid() && Abs() == Step(circuit.cfg, old(Abs()), Route(req.failed, choice))
      ensures Answer(AllPass(circuit.cfg, old(Abs())), req.failed, choice)
    {
      ghost var s := Abs();
      var candidates;
      choice, candidates := Choose(req);
      if choice.Some? {
        assert choice.value < |s.members|;
        RoutedIsLent(circuit.cfg, s, req.failed, choice.value);
        Lend(choice.value);
      }
    }

    /** One routing step. */
    method RouteRequest(req: Routing.Request) returns (choice: Option<Id>)
      requires Reached() && |req.scores| == |pool|
      modifies this`history, this`leases, circuit, pool`healthy, pool`status, pool`activeConnections
      modifies engine.roundRobin, engine.weighted
      ensures Reached() && history == old(history) + [Route(req.failed, choice)]
      ensures Abs() == Step(circuit.cfg, old(Abs()), Route(req.failed, choice))
      ensures Enabled(circuit.cfg, old(Abs()), Route(req.failed, choice))
      ensures Answer(AllPass(circuit.cfg, old(Abs())), req.failed, choice)
    {
      ghost var s := Abs();
      choice := SelectAndLease(req);
      AnswersAreEnabled(circuit.cfg, s, req.failed, choice);
      Log(s, Route(req.failed, choice));
    }

    /** The proxy's router: it selects and leases only for a request without a target. */
    method Router(req: ProxiedRequest, clientIp: seq<Routing.SimpleHash.CodeUnit>, clientKey: string, scores: seq<nat>)
      returns (choice: Option<Id>)
      requires Reached() && req.Valid() && req.MayCall() && |scores| == |pool|
      modifies req, this`history, this`leases, circuit, pool`healthy, pool`status, pool`activeConnections
      modifies engine.roundRobin, engine.weighted
      ensures Reached() && req.Called() && req.State() == Targeted(old(req.State()), choice)
      ensures req.exchange == Happen(old(req.exchange), Resumes(AllPass(circuit.cfg, old(Abs())), choice))
      ensures old(req.Called()) ==>
        req.happenings == old(req.happenings) + [Resumes(AllPass(circuit.cfg, old(Abs())), choice)]
      ensures old(req.target).Some? ==> Abs() == old(Abs()) && history == old(history) && choice == old(req.target)
      ensures old(req.target).None? ==>
        && Answer(AllPass(circuit.cfg, old(Abs())), req.failed, choice)
        && Enabled(circuit.cfg, old(Abs()), Route(req.failed, choice))
        && Abs() == Step(circuit.cfg, old(Abs()), Route(req.failed, choice))
        && history == old(history) + [Route(req.failed, choice)]
    {
      ghost var passed := AllPass(circuit.cfg, Abs());
      if req.target.Some? {
        choice := req.target;
        req.Call(choice, passed);
      } else {
        choice := RouteRequest(Request(req.failed, clientIp, clientKey, scores));
        req.Call(choice, passed);
      }
    }

    /** A finish or close event of the response that holds lease l: the decrement closure. */
    method Decrement(l: nat)
      requires Reached() && l < |leases| && leases[l].backend < |pool|
      modifies this`history, this`leases, drain, pool[leases[l].backend]
      ensures Reached() && history == old(history) + [Release(l)]
      ensures Abs() == Step(circuit.cfg, old(Abs()), Release(l))
      ensures Enabled(circuit.cfg, old(Abs()), Release(l))
    {
      ghost var s, e := Abs(), Release(l);
      if !leases[l].released {
        var i := leases[l].backend;
        leases := leases[l := Lease(i, true)];
        drain.Decrement(i);
      }
      IsStep(circuit.cfg, s, e, Abs());
      Log(s, Release(l));
    }

    /** An upstream response: `>= 500` counts against the backend, `< 400` for it. */
    method ProxyRes(req: ProxiedRequest, statusCode: nat)
      requires Reached()
      modifies this`history, circuit, pool`healthy, pool`status
      ensures Reached()
      ensures req.target.None? ==> Abs() == old(Abs()) && history == old(history)
      ensures req.target.Some? ==>
        && history == old(history) + [ProxyResponse(req.target.value, statusCode)]
        && Abs() == Step(circuit.cfg, old(Abs()), ProxyResponse(req.target.value, statusCode))
    {
      if req.target.Some? {
        ghost var s, e := Abs(), ProxyResponse(req.target.value, statusCode);
        if statusCode >= 500 { Report(req.target.value, false); }
        else if statusCode < 400 { Report(req.target.value, true); }
        else { StepOfOtherStatus(circuit.cfg, s, req.target.value, statusCode); }
        Log(s, e);
      }
    }

    /** Tells a backend's breaker of a success or a failure. */
    method Report(id: Id, success: bool)
      requires Valid()
      modifies circuit, pool`healthy, pool`status
      ensures Valid()
      ensures Abs() == Step(circuit.cfg, old(Abs()), if success then ProxyResponse(id, 200) else ProxyError(id))
    {
      ghost var s := Abs();
      if success { circuit.RecordSuccess(id, now); } else { circuit.RecordFailure(id, now); }
      IsReported(circuit.cfg, s, id, success, Abs());
    }

    /** The error handler up to its await. The failure is reported to the breaker of the backend that was tried. */
    method HandleProxyError(req: ProxiedRequest, random: real) returns (outcome: Outcome)
      requires Reached() && req.Synced() && 0.0 <= random < 1.0
      modifies req, this`history, circuit, pool`healthy, pool`status
      ensures Reached() && req.Synced() && (req.State(), outcome) == HandleError(old(req.State()), random)
      ensures req.exchange == Happen(old(req.exchange), Fails(random))
      ensures old(req.Called()) ==> req.Called() && req.happenings == old(req.happenings) + [Fails(random)]
      ensures old(req.target).None? ==> Abs() == old(Abs()) && history == old(history)
      ensures old(req.target).Some? ==>
        && history == old(history) + [ProxyError(old(req.target).value)]
        && Abs() == Step(circuit.cfg, old(Abs()), ProxyError(old(req.target).value))
    {
      if req.target.Some? { Blame(req.target.value); }
      outcome := req.Fail(random);
    }

    method Blame(id: Id)
      requires Reached()
      modifies this`history, circuit, pool`healthy, pool`status
      ensures Reached() && history == old(history) + [ProxyError(id)]
      ensures Abs() == Step(circuit.cfg, old(Abs()), ProxyError(id))
    {
      ghost var s := Abs();
      Report(id, false);
      Log(s, ProxyError(id));
    }

    /** The status page lists the backends that pass the filter. */
    method Status() returns (ids: seq<Id>)
      requires Reached()
      modifies this`history, circuit, pool`healthy, pool`status
      ensures Reached() && history == old(history) + [StatusPage]
      ensures Abs() == Step(circuit.cfg, old(Abs()), StatusPage)
      ensures Enabled(circuit.cfg, old(Abs()), StatusPage)
      ensures forall i: Id :: i in ids <==> i < |pool| && AllPass(circuit.cfg, old(Abs()))[i]
    {
      ghost var s := Abs();
      ghost var passed := engine.Passed(now);
      assert passed == AllPass(circuit.cfg, s);
      ids := engine.GetHealthyBackends(now);
      assert forall i: Id :: i in ids <==> i < |pool| && passed[i];
      IsFiltered(circuit.cfg, s, Abs());
      Log(s, StatusPage);
    }

    method DrainBackend(id: Id, timeoutSec: int) returns (reply: DrainReply)
      requires Reached()
      modifies this`history, drain, if id < |pool| then {pool[id]} else {}
      ensures Reached() && history == old(history) + [DrainCommand(id, timeoutSec)]
      ensures Abs() == Step(circuit.cfg, old(Abs()), DrainCommand(id, timeoutSec))
      ensures Enabled(circuit.cfg, old(Abs()), DrainCommand(id, timeoutSec))
    {
      ghost var s := Abs();
      reply := BeginDrain(id, timeoutSec);
      Log(s, DrainCommand(id, timeoutSec));
    }

    method BeginDrain(id: Id, timeoutSec: int) returns (reply: DrainReply)
      requires Valid()
      modifies drain, if id < |pool| then {pool[id]} else {}
      ensures Valid() && Abs() == Step(circuit.cfg, old(Abs()), DrainCommand(id, timeoutSec))
    {
      ghost var s := Abs();
      reply := drain.DrainBackend(id, timeoutSec, now);
      ghost var t := Abs();
      forall j: Id | j < |pool| && j != id ensures t.members[j] == s.members[j] {
        assert pool[j].State() == s.members[j].backend;
      }
      IsDrainStep(circuit.cfg, s, id, timeoutSec, t);
    }

    method UndrainBackend(id: Id) returns (found: bool)
      requires Reached()
      modifies this`history, drain, if id < |pool| then {pool[id]} else {}
      ensures Reached() && history == old(history) + [UndrainCommand(id)]
      ensures Abs() == Step(circuit.cfg, old(Abs()), UndrainCommand(id))
      ensures Enabled(circuit.cfg, old(Abs()), UndrainCommand(id))
    {
      ghost var s := Abs();
      found := CancelDrain(id);
      Log(s, UndrainCommand(id));
    }

    method CancelDrain(id: Id) returns (found: bool)
      requires Valid()
      modifies drain, if id < |pool| then {pool[id]} else {}
      ensures Valid() && Abs() == Step(circuit.cfg, old(Abs()), UndrainCommand(id))
    {
      ghost var s := Abs();
      found := drain.UndrainBackend(id);
      ghost var t := Abs();
      forall j: Id | j < |pool| && j != id ensures t.members[j] == s.members[j] {
        assert pool[j].State() == s.members[j].backend;
      }
      IsUndrainStep(circuit.cfg, s, id, t);
    }

    /** The event loop fires a pending drain timer that is due. */
    method FireTimer(h: Handle)
      requires Reached() && h in drain.pending && drain.pending[h].backend < |pool| && drain.pending[h].deadline <= now
      modifies this`history, drain, pool[drain.pending[h].backend]
      ensures Reached() && history == old(history) + [TimerFires(h)]
      ensures Abs() == Step(circuit.cfg, old(Abs()), TimerFires(h))
      ensures Enabled(circuit.cfg, old(Abs()), TimerFires(h))
    {
      ghost var s := Abs();
      drain.FireTimer(h);
      IsStep(circuit.cfg, s, TimerFires(h), Abs());
      Log(s, TimerFires(h));
    }

    method ResetBreaker(id: Id)
      requires Reached()
      modifies this`history, circuit, pool`healthy, pool`status
      ensures Reached() && history == old(history) + [ResetCommand(id)]
      ensures Abs() == Step(circuit.cfg, old(Abs()), ResetCommand(id))
      ensures Enabled(circuit.cfg, old(Abs()), ResetCommand(id))
    {
      ghost var s := Abs();
      circuit.ResetBreaker(id, now);
      IsSet(s, id, if id < |pool| then WasReset(s.members[id], now) else NOBODY, Abs());
      Log(s, ResetCommand(id));
    }

    method Override(id: Id, healthy: bool) returns (found: bool)
      requires Reached()
      modifies this`history, health, pool`healthy, pool`status, pool`adminDisabled
      ensures Reached() && history == old(history) + [OverrideCommand(id, healthy)]
      ensures Abs() == Step(circuit.cfg, old(Abs()), OverrideCommand(id, healthy))
      ensures Enabled(circuit.cfg, old(Abs()), OverrideCommand(id, healthy))
    {
      ghost var s := Abs();
      found := SetOverride(id, healthy);
      Log(s, OverrideCommand(id, healthy));
    }

    method SetOverride(id: Id, healthy: bool) returns (found: bool)
      requires Valid()
      modifies health, pool`healthy, pool`status, pool`adminDisabled
      ensures Valid() && Abs() == Step(circuit.cfg, old(Abs()), OverrideCommand(id, healthy))
    {
      ghost var s, e := Abs(), OverrideCommand(id, healthy);
      found := health.Override(id, healthy);
      ghost var t := Abs();
      forall i: Id | i < |pool| ensures t.members[i] == MemberAfter(circuit.cfg, s, e, i) {
        if i != id { assert pool[i].State() == s.members[i].backend; }
      }
      IsStep(circuit.cfg, s, e, t);
    }

    /** Time passes. */
    method Elapse(ms: nat)
      requires Reached()
      modifies this`history, this`now
      ensures Reached() && history == old(history) + [Tick(ms)]
      ensures Abs() == Step(circuit.cfg, old(Abs()), Tick(ms))
      ensures Enabled(circuit.cfg, old(Abs()), Tick(ms))
    {
      ghost var s := Abs();
      now := now + ms;
      assert Abs().members == s.members;
      Log(s, Tick(ms));
    }
  }
}
