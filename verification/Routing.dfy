/**
 The routing engine: the filter over the pool, whose predicate itself moves breakers, the exclusion of backends that
 already failed the request, and the five strategies.
 */
module Routing {
  import opened BackendPool
  import opened CircuitBreaker
  import opened Wrappers
  import Hashing = ConsistentHash
  import LeastConnections
  import RoundRobin
  import SimpleHash
  import Weighted = WeightedRoundRobin

  datatype Algorithm = RoundRobinAlg | LeastConnectionsAlg | WeightedAlg | IpHashAlg | ConsistentHashAlg

  /** What the filter predicate does to one backend and its breaker, and whether it lets the backend through. */
  function Consider(cfg: BreakerConfig, s: BackendState, b: Breaker, now: int): (BackendState, Breaker, bool) {
    if !s.healthy then (s, b, false)
    else
      var (c, granted) := Probe(cfg, b, now);
      (Sync(s, b.state, c.state), c, granted)
  }

  /** A backend that passes was healthy on entry and its breaker is not open afterwards. It stays healthy exactly when
      its breaker was not open: the call that starts a half-open episode takes the backend out of rotation. */
  lemma PassingIsServing(cfg: BreakerConfig, s: BackendState, b: Breaker, now: int)
    requires Consider(cfg, s, b, now).2
    ensures s.healthy
    ensures cfg.enabled ==> Consider(cfg, s, b, now).1.state != Open
    ensures Consider(cfg, s, b, now).0.healthy <==> !(cfg.enabled && b.state == Open)
  {
  }

  /** Backend i may be chosen: it passed the filter, and it did not already fail the request unless all that passed
      did. */
  ghost predicate Admissible(passed: seq<bool>, failed: set<Id>, i: Id) {
    i < |passed| && passed[i] && (i in failed ==> forall j :: 0 <= j < |passed| && passed[j] ==> j in failed)
  }

  ghost predicate Ascending(ids: seq<Id>) {
    forall a, b :: 0 <= a < b < |ids| ==> ids[a] < ids[b]
  }

  /** The ids, in order, of the backends before position i that the plan lets through. */
  ghost predicate Lists(ids: seq<Id>, plan: seq<(BackendState, Breaker, bool)>, i: nat)
    requires i <= |plan|
  {
    && Ascending(ids) && (forall k :: 0 <= k < |ids| ==> ids[k] < i)
    && forall j :: 0 <= j < i ==> (j in ids <==> plan[j].2)
  }

  lemma ListsNext(ids: seq<Id>, plan: seq<(BackendState, Breaker, bool)>, i: nat)
    requires i < |plan| && Lists(ids, plan, i)
    ensures Lists(if plan[i].2 then ids + [i] else ids, plan, i + 1)
  {
    var next := if plan[i].2 then ids + [i] else ids;
    forall j | 0 <= j < i + 1 ensures j in next <==> plan[j].2 {
      if plan[i].2 { assert next[|ids|] == i; }
    }
  }

  function IdName(i: Id): string {
    "backend-" + Hashing.Decimal(i + 1)
  }

  lemma {:induction false} DecimalInjective(a: nat, b: nat)
    requires Hashing.Decimal(a) == Hashing.Decimal(b)
    ensures a == b
  {
    var s, t := Hashing.Decimal(a), Hashing.Decimal(b);
    if a >= 10 && b >= 10 {
      assert s[..|s| - 1] == Hashing.Decimal(a / 10) && t[..|t| - 1] == Hashing.Decimal(b / 10);
      DecimalInjective(a / 10, b / 10);
      assert s[|s| - 1] == t[|t| - 1];
    } else if a >= 10 || b >= 10 {
      DecimalIsLong(if a >= 10 then a else b);
    }
  }

  lemma DecimalIsLong(n: nat)
    ensures |Hashing.Decimal(n)| >= 1 && (n >= 10 ==> |Hashing.Decimal(n)| >= 2)
  {
    if n >= 10 { DecimalIsLong(n / 10); }
  }

  /** Positions and the ids derived from them are the same names. */
  lemma IdNameInjective(i: Id, j: Id)
    requires IdName(i) == IdName(j)
    ensures i == j
  {
    var prefix := "backend-";
    assert IdName(i)[|prefix|..] == Hashing.Decimal(i + 1) && IdName(j)[|prefix|..] == Hashing.Decimal(j + 1);
    DecimalInjective(i + 1, j + 1);
  }

  /** A backend's id is "backend-" and the decimal of its position counted from 1; it holds no '#'. */
  lemma IdNameReads(i: Id)
    ensures |IdName(i)| > 8 && IdName(i)[..8] == "backend-" && Hashing.Numeral(IdName(i)[8..]) == i + 1
    ensures '#' !in IdName(i)
  {
    Hashing.DecimalReads(i + 1);
    assert IdName(i)[..8] == "backend-" && IdName(i)[8..] == Hashing.Decimal(i + 1);
    forall k | 0 <= k < |IdName(i)| ensures IdName(i)[k] != '#' {
      if k >= 8 { assert IdName(i)[k] == Hashing.Decimal(i + 1)[k - 8]; }
    }
  }

  /** The keys of the pool's virtual nodes are all different. */
  lemma VnodeKeysDiffer(p: Id, i: nat, q: Id, j: nat)
    requires IdName(p) + "#vnode-" + Hashing.Decimal(i) == IdName(q) + "#vnode-" + Hashing.Decimal(j)
    ensures p == q && i == j
  {
    IdNameReads(p);
    IdNameReads(q);
    Hashing.KeysDiffer(IdName(p), i, IdName(q), j);
    IdNameInjective(p, q);
  }

  /** What consistent hashing reads of the listed backends of a pool with the given weights. */
  function Nodes(weights: seq<nat>, ids: seq<Id>): (n: seq<Hashing.Node>)
    requires forall k :: 0 <= k < |ids| ==> ids[k] < |weights|
    ensures |n| == |ids| && forall k :: 0 <= k < |ids| ==> n[k] == Hashing.Node(IdName(ids[k]), weights[ids[k]])
  {
    seq(|ids|, k requires 0 <= k < |ids| && ids[k] < |weights| => Hashing.Node(IdName(ids[k]), weights[ids[k]]))
  }

  function Everyone(n: nat): (ids: seq<Id>)
    ensures |ids| == n && forall k :: 0 <= k < n ==> ids[k] == k
  {
    seq(n, k => k)
  }

  /** A list of backends in pool order is the pool restricted to their names. */
  lemma {:induction false} OnlyCandidates(weights: seq<nat>, ids: seq<Id>, names: set<string>)
    requires Ascending(ids) && forall k :: 0 <= k < |ids| ==> ids[k] < |weights|
    requires forall i: Id :: i < |weights| ==> (IdName(i) in names <==> i in ids)
    ensures Hashing.Only(Nodes(weights, Everyone(|weights|)), names) == Nodes(weights, ids)
    decreases |weights|
  {
    var n := |weights|;
    if n > 0 {
      var fewer, all := weights[..n - 1], Nodes(weights, Everyone(n));
      assert all[..n - 1] == Nodes(fewer, Everyone(n - 1));
      if n - 1 in ids {
        LastCandidate(ids, n);
        var front := ids[..|ids| - 1];
        OnlyCandidates(fewer, front, names);
        assert Nodes(weights, ids) == Nodes(fewer, front) + [all[n - 1]];
      } else {
        OnlyCandidates(fewer, ids, names);
        assert Nodes(weights, ids) == Nodes(fewer, ids);
      }
    }
  }

  lemma LastIsLargest(ids: seq<Id>, k: nat)
    requires Ascending(ids) && k < |ids|
    ensures k == |ids| - 1 || ids[k] < ids[|ids| - 1]
  {
  }

  lemma LastCandidate(ids: seq<Id>, n: nat)
    requires Ascending(ids) && n > 0 && n - 1 in ids && forall k :: 0 <= k < |ids| ==> ids[k] < n
    ensures ids != [] && ids[|ids| - 1] == n - 1
    ensures var front := ids[..|ids| - 1];
      && Ascending(front) && (forall k :: 0 <= k < |front| ==> front[k] < n - 1)
      && forall i: Id :: i < n - 1 ==> (i in front <==> i in ids)
  {
    var k :| 0 <= k < |ids| && ids[k] == n - 1;
    LastIsLargest(ids, k);
    assert ids == ids[..k] + [n - 1];
  }

  function Names(ids: seq<Id>): (names: set<string>)
    ensures forall i: Id :: IdName(i) in names <==> i in ids
  {
    var names := set i: Id | i in ids :: IdName(i);
    assert forall i: Id :: IdName(i) in names ==> i in ids by {
      forall i: Id | IdName(i) in names ensures i in ids {
        var j: Id :| j in ids && IdName(j) == IdName(i);
        IdNameInjective(i, j);
      }
    }
    names
  }

  /** The consistent-hash choice among the candidates is the clockwise walk round the ring of the whole pool from the
      client's position, past every virtual node of a backend that is no candidate. */
  lemma ChoiceIsClockwiseWalk(
    h: string -> Hashing.Hash32, perWeight: nat, weights: seq<nat>, ids: seq<Id>, key: string, k: nat)
    requires perWeight > 0 && Ascending(ids) && k < |ids| && forall j :: 0 <= j < |ids| ==> ids[j] < |weights|
    ensures var ring := Hashing.Ring(h, perWeight, Nodes(weights, Everyone(|weights|)));
      && ring != []
      && var w := Hashing.Walk(ring, Hashing.StartIndex(ring, h(key)), |ring|, Hashing.In(Names(ids)));
      && w.Some?
      && (Nodes(weights, ids)[k].id == Hashing.OwnerId(h, perWeight, Nodes(weights, ids), key)
          <==> w.value.backendId == IdName(ids[k]))
  {
    OnlyCandidates(weights, ids, Names(ids));
    Hashing.SelectIsClockwiseWalk(h, perWeight, Nodes(weights, Everyone(|weights|)), Names(ids), key);
  }

  /** What the strategies read of a request; the scores are the metrics store's at this moment, by backend. */
  datatype Request = Request(failed: set<Id>, clientIp: seq<SimpleHash.CodeUnit>, clientKey: string, scores: seq<nat>)

  class RoutingEngine {
    const pool: seq<Backend>
    const circuit: CircuitBreakerManager
    const roundRobin: RoundRobin.RoundRobinStrategy
    const weighted: Weighted.WeightedRoundRobinStrategy
    const hashing: Hashing.ConsistentHashStrategy
    var algorithm: Algorithm

    constructor (
      pool: seq<Backend>, circuit: CircuitBreakerManager, hash32: string -> Hashing.Hash32, algorithm: Algorithm)
      requires ValidPool(pool) && circuit.pool == pool
      requires forall i: nat :: i < |pool| ==> i in circuit.breakers
      ensures this.pool == pool && this.circuit == circuit && this.algorithm == algorithm
      ensures hashing.vnodesPerWeight == 40 && hashing.hash32 == hash32
      ensures roundRobin.index == 0 && weighted.currentIndex == -1 && weighted.currentWeight == 0
      ensures Valid() && fresh(roundRobin) && fresh(weighted)
    {
      this.pool, this.circuit, this.algorithm := pool, circuit, algorithm;
      roundRobin := new RoundRobin.RoundRobinStrategy();
      weighted := new Weighted.WeightedRoundRobinStrategy();
      hashing := new Hashing.ConsistentHashStrategy(40, hash32);
    }

    ghost predicate Valid()
      reads this, circuit, weighted
    {
      && ValidPool(pool) && circuit.pool == pool
      && (forall i: nat :: i < |pool| ==> i in circuit.breakers)
      && weighted.currentIndex >= -1
    }

    /** What the filter would do with each backend now. */
    ghost function Plan(now: int): (p: seq<(BackendState, Breaker, bool)>)
      requires Valid()
      reads this, circuit, weighted, pool
      ensures |p| == |pool|
      ensures forall i :: 0 <= i < |pool| ==> p[i] == Consider(circuit.cfg, pool[i].State(), circuit.breakers[i], now)
    {
      seq(|pool|, i requires 0 <= i < |pool| && Valid() reads this, circuit, weighted, pool =>
        Consider(circuit.cfg, pool[i].State(), circuit.breakers[i], now))
    }

    ghost function Passed(now: int): (p: seq<bool>)
      requires Valid()
      reads this, circuit, weighted, pool
      ensures |p| == |pool| && forall i :: 0 <= i < |pool| ==> p[i] == Plan(now)[i].2
    {
      var plan := Plan(now);
      seq(|pool|, i requires 0 <= i < |plan| => plan[i].2)
    }

    ghost predicate InPool(ids: seq<Id>) {
      forall k :: 0 <= k < |ids| ==> ids[k] < |pool|
    }

    function WeightsOf(ids: seq<Id>): (w: seq<nat>)
      requires InPool(ids)
      reads pool
      ensures |w| == |ids| && forall k :: 0 <= k < |ids| ==> w[k] == pool[ids[k]].weight
    {
      seq(|ids|, k requires 0 <= k < |ids| && InPool(ids) reads pool => pool[ids[k]].weight)
    }

    function ActiveOf(ids: seq<Id>): (a: seq<nat>)
      requires InPool(ids)
      reads pool
      ensures |a| == |ids| && forall k :: 0 <= k < |ids| ==> a[k] == pool[ids[k]].activeConnections
    {
      seq(|ids|, k requires 0 <= k < |ids| && InPool(ids) reads pool => pool[ids[k]].activeConnections)
    }

    function AllWeights(): (w: seq<nat>)
      reads pool
      ensures |w| == |pool| && forall i :: 0 <= i < |pool| ==> w[i] == pool[i].weight
    {
      seq(|pool|, i requires 0 <= i < |pool| reads pool => pool[i].weight)
    }

    function NodesOf(ids: seq<Id>): (n: seq<Hashing.Node>)
      requires InPool(ids)
      reads pool
      ensures |n| == |ids| && forall k :: 0 <= k < |ids| ==> n[k] == Hashing.Node(IdName(ids[k]), pool[ids[k]].weight)
    {
      Nodes(AllWeights(), ids)
    }

    function ScoresOf(ids: seq<Id>, scores: seq<nat>): (s: seq<nat>)
      requires InPool(ids) && |scores| == |pool|
      ensures |s| == |ids| && forall k :: 0 <= k < |ids| ==> s[k] == scores[ids[k]]
    {
      seq(|ids|, k requires 0 <= k < |ids| && InPool(ids) && |scores| == |pool| => scores[ids[k]])
    }

    /** The filter in pool order; its predicate moves the breakers of the healthy backends, chosen or not. */
    method GetHealthyBackends(now: int) returns (ids: seq<Id>)
      requires Valid()
      modifies circuit, pool`healthy, pool`status
      ensures Valid() && InPool(ids) && Ascending(ids)
      ensures forall i :: 0 <= i < |pool| ==> (i in ids <==> old(Plan(now))[i].2)
      ensures forall i :: 0 <= i < |pool| ==> pool[i].State() == old(Plan(now))[i].0
      ensures forall i: nat :: i < |pool| ==> circuit.breakers[i] == old(Plan(now))[i].1
    {
      ghost var plan := Plan(now);
      ids := [];
      for i := 0 to |pool|
        invariant Valid() && Lists(ids, plan, i)
        invariant forall j :: 0 <= j < i ==> pool[j].State() == plan[j].0 && circuit.breakers[j] == plan[j].1
        invariant forall j: nat :: i <= j < |pool| ==>
          pool[j].State() == old(pool[j].State()) && circuit.breakers[j] == old(circuit.breakers[j])
      {
        var passes := ConsiderBackend(i, now);
        ListsNext(ids, plan, i);
        if passes { ids := ids + [i]; }
      }
    }

    /** The filter predicate on one backend: `b.healthy && canExecute(b.id)`. */
    method ConsiderBackend(i: Id, now: int) returns (passes: bool)
      requires Valid() && i < |pool|
      modifies circuit, pool`healthy, pool`status
      ensures Valid()
      ensures (pool[i].State(), circuit.breakers[i], passes) ==
        Consider(circuit.cfg, old(pool[i].State()), old(circuit.breakers[i]), now)
      ensures forall j :: 0 <= j < |pool| && j != i ==> pool[j].State() == old(pool[j].State())
      ensures forall j: nat :: j < |pool| && j != i ==> circuit.breakers[j] == old(circuit.breakers[j])
    {
      passes := pool[i].healthy;
      if passes { passes := circuit.CanExecute(i, now); }
    }

    /** What the strategy in force picks from a list that is not empty, as its own module specifies; `turn` and
        `leftover` are what the two stateful strategies had kept from earlier selections. */
    ghost predicate Picks(ids: seq<Id>, req: Request, turn: nat, leftover: Weighted.State, k: nat)
      requires InPool(ids) && |req.scores| == |pool|
      reads this, pool
    {
      && k < |ids|
      && match algorithm
         case RoundRobinAlg => k == RoundRobin.RoundRobinPick(turn, |ids|)
         case LeastConnectionsAlg => LeastConnections.Best(ActiveOf(ids), ScoresOf(ids, req.scores), k)
         case WeightedAlg => leftover.index >= -1 && k == WeightedPick(ids, req, leftover).index
         case IpHashAlg => k == SimpleHash.IpIndex(req.clientIp, |ids|)
         case ConsistentHashAlg =>
           && NodesOf(ids)[k].id ==
              Hashing.OwnerId(hashing.hash32, hashing.vnodesPerWeight, NodesOf(ids), req.clientKey)
           && forall j :: 0 <= j < k ==> NodesOf(ids)[j].id != NodesOf(ids)[k].id
    }

    /** The state the weighted strategy ends in. */
    ghost function WeightedPick(ids: seq<Id>, req: Request, leftover: Weighted.State): Weighted.State
      requires ids != [] && InPool(ids) && |req.scores| == |pool| && leftover.index >= -1
      reads pool
    {
      Weighted.Pick(Weighted.VirtualPool(WeightsOf(ids), ScoresOf(ids, req.scores)), leftover)
    }

    method Dispatch(ids: seq<Id>, req: Request) returns (k: nat)
      requires Valid() && ids != [] && InPool(ids) && |req.scores| == |pool|
      modifies roundRobin, weighted
      ensures Valid() && Picks(ids, req, old(roundRobin.index), old(weighted.Leftover()), k)
      ensures roundRobin.index ==
        if algorithm == RoundRobinAlg
        then RoundRobin.RoundRobinNext(old(roundRobin.index), |ids|) else old(roundRobin.index)
      ensures weighted.Leftover() ==
        if algorithm == WeightedAlg then WeightedPick(ids, req, old(weighted.Leftover())) else old(weighted.Leftover())
    {
      match algorithm {
        case RoundRobinAlg => k := roundRobin.Select(|ids|);
        case LeastConnectionsAlg => k := LeastConnections.Select(ActiveOf(ids), ScoresOf(ids, req.scores));
        case WeightedAlg => k := SelectWeighted(ids, req);
        case IpHashAlg => k := SimpleHash.SelectByIp(req.clientIp, |ids|);
        case ConsistentHashAlg =>
          var owner := hashing.Select(NodesOf(ids), req.clientKey);
          k := owner.value;
      }
    }

    method SelectWeighted(ids: seq<Id>, req: Request) returns (k: nat)
      requires Valid() && ids != [] && InPool(ids) && |req.scores| == |pool|
      modifies weighted
      ensures Valid() && weighted.Leftover() == WeightedPick(ids, req, old(weighted.Leftover()))
      ensures k == weighted.Leftover().index < |ids|
    {
      k := weighted.Select(WeightsOf(ids), ScoresOf(ids, req.scores));
    }

    /** Drops the backends in `failed`, unless that leaves none. */
    method ExcludeFailed(ids: seq<Id>, failed: set<Id>) returns (rest: seq<Id>)
      requires Ascending(ids)
      ensures Ascending(rest) && (rest == [] <==> ids == [])
      ensures forall i: Id :: i in rest <==> i in ids && (i in failed ==> forall j: Id :: j in ids ==> j in failed)
    {
      var candidates: seq<Id> := [];
      for k := 0 to |ids|
        invariant forall i: Id :: i in candidates <==> i in ids[..k] && i !in failed
        invariant Ascending(candidates) && forall c :: 0 <= c < |candidates| ==> candidates[c] in ids[..k]
      {
        if ids[k] !in failed { candidates := candidates + [ids[k]]; }
      }
      assert ids[..|ids|] == ids;
      rest := if candidates != [] then candidates else ids;
      if candidates != [] { assert candidates[0] in ids && candidates[0] !in failed; }
      else { assert forall i: Id :: i in ids ==> i in failed; }
    }

    /** Selection: none exactly when nothing passed the filter; otherwise an admissible backend, picked by the strategy
        from the list of all admissible ones in pool order. */
    method SelectBackend(req: Request, now: int) returns (choice: Option<Id>, candidates: seq<Id>)
      requires Valid() && |req.scores| == |pool|
      modifies circuit, pool`healthy, pool`status, roundRobin, weighted
      ensures Valid() && InPool(candidates) && Ascending(candidates)
      ensures forall i :: 0 <= i < |pool| ==> pool[i].State() == old(Plan(now))[i].0
      ensures forall i: nat :: i < |pool| ==> circuit.breakers[i] == old(Plan(now))[i].1
      ensures forall i: Id :: i in candidates <==> Admissible(old(Passed(now)), req.failed, i)
      ensures choice.None? <==> forall i :: 0 <= i < |pool| ==> !old(Passed(now))[i]
      ensures choice.Some? ==> choice.value in candidates
      ensures choice.Some? ==>
        exists k :: 0 <= k < |candidates| && candidates[k] == choice.value
          && Picks(candidates, req, old(roundRobin.index), old(weighted.Leftover()), k)
    {
      ghost var passed := Passed(now);
      var healthy := GetHealthyBackends(now);
      assert forall i: Id :: i in healthy <==> i < |pool| && passed[i];
      candidates := ExcludeFailed(healthy, req.failed);
      forall k | 0 <= k < |candidates| ensures candidates[k] < |pool| { assert candidates[k] in healthy; }
      if candidates == [] {
        assert forall i :: 0 <= i < |pool| ==> i !in healthy;
        return None, [];
      }
      var k := Dispatch(candidates, req);
      assert candidates[k] in candidates;
      choice := Some(candidates[k]);
    }
  }
}
