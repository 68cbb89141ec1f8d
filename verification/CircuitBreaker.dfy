/**
 The upstream circuit breakers. The functions give the effect of each operation on one breaker record and on its
 backend; the run lemmas are about every sequence of operations; the class performs the operations on the shared pool.
 */
module CircuitBreaker {
  import opened BackendPool

  datatype Circuit = Closed | Open | HalfOpen

  datatype Breaker = Breaker(state: Circuit, consecutiveFailures: nat, lastStateChange: int, probeCount: nat)

  datatype BreakerConfig = BreakerConfig(enabled: bool, failureThreshold: int, cooldownMs: int, halfOpenMaxProbes: int)

  function FreshBreaker(now: int): Breaker {
    Breaker(Closed, 0, now, 0)
  }

  // ---------------------------------------------------------------- the operations on one breaker

  function Transition(b: Breaker, to: Circuit, now: int): Breaker {
    if b.state == to then b else b.(state := to, lastStateChange := now)
  }

  /** How a change of circuit state is copied to the backend. */
  function Sync(s: BackendState, from: Circuit, to: Circuit): BackendState {
    if from == to then s
    else
      match to
      case Open => s.(healthy := false, status := Unhealthy)
      case HalfOpen => s.(healthy := false, status := Degraded)
      case Closed => s.(healthy := true, status := Healthy)
  }

  /** `canExecute`: the record afterwards, and the permission. */
  function Probe(cfg: BreakerConfig, b: Breaker, now: int): (Breaker, bool) {
    if !cfg.enabled then (b, true)
    else
      match b.state
      case Closed => (b, true)
      case Open =>
        if now - b.lastStateChange >= cfg.cooldownMs then (Transition(b, HalfOpen, now).(probeCount := 1), true)
        else (b, false)
      case HalfOpen =>
        if b.probeCount < cfg.halfOpenMaxProbes then (b.(probeCount := b.probeCount + 1), true) else (b, false)
  }

  function AfterSuccess(cfg: BreakerConfig, b: Breaker, now: int): Breaker {
    if !cfg.enabled then b else Transition(b.(consecutiveFailures := 0), Closed, now)
  }

  function AfterFailure(cfg: BreakerConfig, b: Breaker, now: int): Breaker {
    if !cfg.enabled then b
    else
      var c := b.(consecutiveFailures := b.consecutiveFailures + 1);
      if c.state == HalfOpen || (c.state == Closed && c.consecutiveFailures >= cfg.failureThreshold)
      then Transition(c, Open, now)
      else c
  }

  function AfterReset(b: Breaker, now: int): Breaker {
    Transition(b, Closed, now).(consecutiveFailures := 0)
  }

  // ---------------------------------------------------------------- runs of one breaker

  datatype Operation = CanExecute(now: int) | Success(now: int) | Failure(now: int) | Reset(now: int)

  function Apply(cfg: BreakerConfig, b: Breaker, o: Operation): Breaker {
    match o
    case CanExecute(now) => Probe(cfg, b, now).0
    case Success(now) => AfterSuccess(cfg, b, now)
    case Failure(now) => AfterFailure(cfg, b, now)
    case Reset(now) => AfterReset(b, now)
  }

  function ApplyAll(cfg: BreakerConfig, b: Breaker, ops: seq<Operation>): Breaker
    decreases |ops|
  {
    if ops == [] then b else ApplyAll(cfg, Apply(cfg, b, ops[0]), ops[1..])
  }

  /** How many `canExecute` calls of the run returned true. */
  function Grants(cfg: BreakerConfig, b: Breaker, ops: seq<Operation>): nat
    decreases |ops|
  {
    if ops == [] then 0
    else
      (if ops[0].CanExecute? && Probe(cfg, b, ops[0].now).1 then 1 else 0)
      + Grants(cfg, Apply(cfg, b, ops[0]), ops[1..])
  }

  /** The failures reported since the last success or reset. */
  function FailuresSince(ops: seq<Operation>, before: nat): nat
    decreases |ops|
  {
    if ops == [] then before
    else
      FailuresSince(ops[1..],
        match ops[0]
        case CanExecute(_) => before
        case Failure(_) => before + 1
        case Success(_) => 0
        case Reset(_) => 0)
  }

  /** The record agrees with its counter: closed exactly below the threshold. */
  predicate Faithful(cfg: BreakerConfig, b: Breaker) {
    b.state == Closed <==> b.consecutiveFailures < cfg.failureThreshold
  }

  /** The breaker refines its history: the counter is the number of failures since the last success or reset, and the
      circuit is closed exactly while that is below the threshold. */
  lemma {:induction false} RefinesHistory(cfg: BreakerConfig, b: Breaker, ops: seq<Operation>)
    requires cfg.enabled && cfg.failureThreshold >= 1 && Faithful(cfg, b)
    ensures ApplyAll(cfg, b, ops).consecutiveFailures == FailuresSince(ops, b.consecutiveFailures)
    ensures ApplyAll(cfg, b, ops).state == Closed <==> FailuresSince(ops, b.consecutiveFailures) < cfg.failureThreshold
    decreases |ops|
  {
    if ops != [] { RefinesHistory(cfg, Apply(cfg, b, ops[0]), ops[1..]); }
  }

  /** Probes and failures only, each before the deadline. */
  ghost predicate Cooling(ops: seq<Operation>, deadline: int) {
    forall i :: 0 <= i < |ops| ==> (ops[i].CanExecute? || ops[i].Failure?) && ops[i].now < deadline
  }

  /** Until a success, a reset or the end of the cooldown, an open breaker grants nothing, and further failures do not
      extend the cooldown. */
  lemma {:induction false} CooldownHolds(cfg: BreakerConfig, b: Breaker, ops: seq<Operation>)
    requires cfg.enabled && b.state == Open && Cooling(ops, b.lastStateChange + cfg.cooldownMs)
    ensures Grants(cfg, b, ops) == 0
    ensures ApplyAll(cfg, b, ops).state == Open && ApplyAll(cfg, b, ops).lastStateChange == b.lastStateChange
    decreases |ops|
  {
    if ops != [] {
      assert Cooling(ops[1..], b.lastStateChange + cfg.cooldownMs) by {
        forall i | 0 <= i < |ops[1..]| ensures ops[1..][i] == ops[i + 1] {}
      }
      CooldownHolds(cfg, Apply(cfg, b, ops[0]), ops[1..]);
    }
  }

  /** Every change of circuit is stamped with the time of the operation that made it, and nothing else touches the
      stamp. */
  lemma ChangesAreStamped(cfg: BreakerConfig, b: Breaker, o: Operation)
    ensures Apply(cfg, b, o).lastStateChange == if Apply(cfg, b, o).state != b.state then o.now else b.lastStateChange
  {
  }

  /** A disabled breaker grants everything and records nothing; only the manual reset acts on it. */
  lemma DisabledIsInert(cfg: BreakerConfig, b: Breaker, now: int)
    requires !cfg.enabled
    ensures Probe(cfg, b, now) == (b, true)
    ensures AfterSuccess(cfg, b, now) == b && AfterFailure(cfg, b, now) == b
    ensures AfterReset(b, now).state == Closed && AfterReset(b, now).consecutiveFailures == 0
  {
  }

  /** Tripping starts the cooldown: from a failure at t that opens the circuit, nothing is granted before t +
      cooldownMs, whatever probes and further failures come, and a probe at u after them is granted exactly when the
      cooldown has passed since t. */
  lemma TripStartsCooldown(cfg: BreakerConfig, b: Breaker, t: int, ops: seq<Operation>, u: int)
    requires cfg.enabled && b.state != Open && Apply(cfg, b, Failure(t)).state == Open
    requires Cooling(ops, t + cfg.cooldownMs)
    ensures var tripped := Apply(cfg, b, Failure(t));
      && Grants(cfg, tripped, ops) == 0
      && (Probe(cfg, ApplyAll(cfg, tripped, ops), u).1 <==> u - t >= cfg.cooldownMs)
  {
    ChangesAreStamped(cfg, b, Failure(t));
    CooldownHolds(cfg, Apply(cfg, b, Failure(t)), ops);
  }

  /** Every operation leaves the circuit half open: one half-open episode, its opening call included. */
  ghost predicate HalfOpenEpisode(cfg: BreakerConfig, b: Breaker, ops: seq<Operation>)
    decreases |ops|
  {
    ops == [] || (Apply(cfg, b, ops[0]).state == HalfOpen && HalfOpenEpisode(cfg, Apply(cfg, b, ops[0]), ops[1..]))
  }

  function Budget(cfg: BreakerConfig): nat {
    if cfg.halfOpenMaxProbes < 1 then 1 else cfg.halfOpenMaxProbes
  }

  lemma {:induction false} EpisodeGrants(cfg: BreakerConfig, b: Breaker, ops: seq<Operation>)
    requires cfg.enabled && b.state == HalfOpen && 1 <= b.probeCount <= Budget(cfg) && HalfOpenEpisode(cfg, b, ops)
    ensures ApplyAll(cfg, b, ops).probeCount == b.probeCount + Grants(cfg, b, ops)
    ensures ApplyAll(cfg, b, ops).probeCount ==
      if b.probeCount + |ops| <= Budget(cfg) then b.probeCount + |ops| else Budget(cfg)
    decreases |ops|
  {
    if ops != [] { EpisodeGrants(cfg, Apply(cfg, b, ops[0]), ops[1..]); }
  }

  /** The probe budget: in a half-open episode exactly `probeCount` calls were granted, and those are its first
      max(1, halfOpenMaxProbes) calls. */
  lemma ProbeBudget(cfg: BreakerConfig, b: Breaker, ops: seq<Operation>)
    requires cfg.enabled && b.state == Open && ops != [] && HalfOpenEpisode(cfg, b, ops)
    ensures Grants(cfg, b, ops) == ApplyAll(cfg, b, ops).probeCount
    ensures var budget := if cfg.halfOpenMaxProbes < 1 then 1 else cfg.halfOpenMaxProbes;
      Grants(cfg, b, ops) == if |ops| <= budget then |ops| else budget
  {
    EpisodeGrants(cfg, Apply(cfg, b, ops[0]), ops[1..]);
  }

  // ---------------------------------------------------------------- the manager object

  function RecordOf(breakers: map<Id, Breaker>, id: Id, now: int): Breaker {
    if id in breakers then breakers[id] else FreshBreaker(now)
  }

  function FreshBreakers(n: nat, now: int): (m: map<Id, Breaker>)
    ensures forall i: nat :: i in m <==> i < n
    ensures forall i: nat :: i in m ==> m[i] == FreshBreaker(now)
  {
    if n == 0 then map[] else FreshBreakers(n - 1, now)[n - 1 := FreshBreaker(now)]
  }

  /** The state of backend i after the breaker of backend `id` went from one circuit state to another. */
  function Synced(s: BackendState, i: Id, id: Id, from: Circuit, to: Circuit): BackendState {
    if i == id then Sync(s, from, to) else s
  }

  class CircuitBreakerManager {
    const pool: seq<Backend>
    const cfg: BreakerConfig
    var breakers: map<Id, Breaker>

    constructor (pool: seq<Backend>, cfg: BreakerConfig, now: int)
      ensures this.pool == pool && this.cfg == cfg
      ensures breakers == FreshBreakers(|pool|, now)
    {
      this.pool := pool;
      this.cfg := cfg;
      breakers := FreshBreakers(|pool|, now);
    }

    /** Looks the record up, creating it for an id not seen before. */
    method GetBreaker(id: Id, now: int) returns (b: Breaker)
      modifies this
      ensures b == RecordOf(old(breakers), id, now)
      ensures breakers == old(breakers)[id := b]
    {
      if id !in breakers { breakers := breakers[id := FreshBreaker(now)]; }
      b := breakers[id];
    }

    method TransitionTo(id: Id, to: Circuit, now: int)
      requires ValidPool(pool) && id in breakers
      modifies this, pool`healthy, pool`status
      ensures breakers == old(breakers)[id := Transition(old(breakers)[id], to, now)]
      ensures forall i :: 0 <= i < |pool| ==>
        pool[i].State() == Synced(old(pool[i].State()), i, id, old(breakers)[id].state, to)
      ensures breakers[id].state == to
      ensures old(breakers)[id].state != to ==>
        && breakers[id].lastStateChange == now
        && (id < |pool| ==>
              && (pool[id].healthy <==> to == Closed)
              && pool[id].status == match to case Open => Unhealthy case HalfOpen => Degraded case Closed => Healthy)
    {
      var b := breakers[id];
      if b.state == to { return; }
      breakers := breakers[id := b.(state := to, lastStateChange := now)];
      if id < |pool| {
        match to {
          case Open => pool[id].healthy, pool[id].status := false, Unhealthy;
          case HalfOpen => pool[id].healthy, pool[id].status := false, Degraded;
          case Closed => pool[id].healthy, pool[id].status := true, Healthy;
        }
      }
    }

    method CanExecute(id: Id, now: int) returns (granted: bool)
      requires ValidPool(pool)
      modifies this, pool`healthy, pool`status
      ensures !cfg.enabled ==> breakers == old(breakers)
      ensures cfg.enabled ==> breakers == old(breakers)[id := Probe(cfg, RecordOf(old(breakers), id, now), now).0]
      ensures granted == Probe(cfg, RecordOf(old(breakers), id, now), now).1
      ensures forall i :: 0 <= i < |pool| ==>
        pool[i].State() == Synced(old(pool[i].State()), i, id, RecordOf(old(breakers), id, now).state,
          Probe(cfg, RecordOf(old(breakers), id, now), now).0.state)
    {
      if !cfg.enabled { return true; }
      var b := GetBreaker(id, now);
      match b.state {
        case Closed => granted := true;
        case Open =>
          granted := now - b.lastStateChange >= cfg.cooldownMs;
          if granted {
            TransitionTo(id, HalfOpen, now);
            breakers := breakers[id := breakers[id].(probeCount := 1)];
          }
        case HalfOpen =>
          granted := b.probeCount < cfg.halfOpenMaxProbes;
          if granted { breakers := breakers[id := b.(probeCount := b.probeCount + 1)]; }
      }
    }

    method RecordSuccess(id: Id, now: int)
      requires ValidPool(pool)
      modifies this, pool`healthy, pool`status
      ensures !cfg.enabled ==> breakers == old(breakers)
      ensures cfg.enabled ==> breakers == old(breakers)[id := AfterSuccess(cfg, RecordOf(old(breakers), id, now), now)]
      ensures forall i :: 0 <= i < |pool| ==>
        pool[i].State() == Synced(old(pool[i].State()), i, id, RecordOf(old(breakers), id, now).state,
          AfterSuccess(cfg, RecordOf(old(breakers), id, now), now).state)
    {
      if !cfg.enabled { return; }
      var b := GetBreaker(id, now);
      breakers := breakers[id := b.(consecutiveFailures := 0)];
      if b.state == HalfOpen || b.state == Open { TransitionTo(id, Closed, now); }
    }

    method RecordFailure(id: Id, now: int)
      requires ValidPool(pool)
      modifies this, pool`healthy, pool`status
      ensures !cfg.enabled ==> breakers == old(breakers)
      ensures cfg.enabled ==> breakers == old(breakers)[id := AfterFailure(cfg, RecordOf(old(breakers), id, now), now)]
      ensures forall i :: 0 <= i < |pool| ==>
        pool[i].State() == Synced(old(pool[i].State()), i, id, RecordOf(old(breakers), id, now).state,
          AfterFailure(cfg, RecordOf(old(breakers), id, now), now).state)
    {
      if !cfg.enabled { return; }
      var b := GetBreaker(id, now);
      b := b.(consecutiveFailures := b.consecutiveFailures + 1);
      breakers := breakers[id := b];
      if b.state == HalfOpen {
        TransitionTo(id, Open, now);
        return;
      }
      if b.state == Closed && b.consecutiveFailures >= cfg.failureThreshold { TransitionTo(id, Open, now); }
    }

    /** The manual reset works whether or not the breaker is enabled. */
    method ResetBreaker(id: Id, now: int)
      requires ValidPool(pool)
      modifies this, pool`healthy, pool`status
      ensures breakers == old(breakers)[id := AfterReset(RecordOf(old(breakers), id, now), now)]
      ensures forall i :: 0 <= i < |pool| ==>
        pool[i].State() == Synced(old(pool[i].State()), i, id, RecordOf(old(breakers), id, now).state,
          Closed)
    {
      var b := GetBreaker(id, now);
      TransitionTo(id, Closed, now);
      breakers := breakers[id := breakers[id].(consecutiveFailures := 0)];
    }
  }
}
