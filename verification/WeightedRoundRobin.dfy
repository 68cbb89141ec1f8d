/**
 The LVS weighted round robin of the balancer, and the plain round robin it specialises to.

 `Pick` is the specification of one `select` call on a fixed virtual pool: it maps the leftover
 (currentIndex, currentWeight) to the pair after the call, whose index is the selected member.
 The class runs the source's unbounded search and is proved to terminate in exactly that state,
 from every leftover state. The fairness results are about `Pick` iterated from any state.
 */
module WeightedRoundRobin {
  import opened Arithmetic
  import opened RoundRobin

  // ---------------------------------------------------------------- greatest common divisor

  /** Euclid's algorithm, as the loop of `gcd` computes it. */
  function Euclid(a: nat, b: nat): nat
    decreases b
  {
    if b == 0 then a else Euclid(b, a % b)
  }

  /** Any d dividing b divides a exactly when it divides a % b. */
  lemma DividesRemainder(a: nat, b: nat, d: nat)
    requires b > 0 && d > 0 && b % d == 0
    ensures a % d == 0 <==> (a % b) % d == 0
  {
    var q, m := a / b, b / d;
    assert b == d * m && a == b * q + a % b;
    assert b * q == d * (m * q);
    if a % d == 0 {
      assert a % b == d * (a / d - m * q) by { assert a == d * (a / d); }
      MultipleOf(a % b, d, a / d - m * q);
    }
    if (a % b) % d == 0 {
      assert a == d * (m * q + (a % b) / d) by { assert a % b == d * ((a % b) / d); }
      MultipleOf(a, d, m * q + (a % b) / d);
    }
  }

  /** Euclid's result is positive, and its divisors are exactly the common divisors of both arguments. */
  lemma {:induction false} EuclidIsGcd(a: nat, b: nat, d: nat)
    requires a > 0 && d > 0
    ensures Euclid(a, b) > 0
    ensures Euclid(a, b) % d == 0 <==> a % d == 0 && b % d == 0
    decreases b
  {
    if b > 0 {
      EuclidIsGcd(b, a % b, d);
      if b % d == 0 { DividesRemainder(a, b, d); }
    }
  }

  method Gcd(a: nat, b: nat) returns (g: nat)
    ensures g == Euclid(a, b)
  {
    var x, y := a, b;
    while y != 0
      invariant Euclid(x, y) == Euclid(a, b)
      decreases y
    {
      x, y := y, x % y;
    }
    g := x;
  }

  // ---------------------------------------------------------------- the virtual pool

  /** Math.round(w * score / 100) clamped to at least 1; a configured weight of 0 counts as 1. */
  function DynamicWeight(weight: nat, score: nat): nat {
    var w := if weight == 0 then 1 else weight;
    var rounded := (2 * w * score + 100) / 200;
    if rounded < 1 then 1 else rounded
  }

  function VirtualPool(weights: seq<nat>, scores: seq<nat>): (v: seq<nat>)
    requires |weights| == |scores|
    ensures |v| == |weights|
    ensures forall i :: 0 <= i < |v| ==> v[i] == DynamicWeight(weights[i], scores[i])
  {
    seq(|weights|, i requires 0 <= i < |weights| => DynamicWeight(weights[i], scores[i]))
  }

  /** At a perfect score the configured weights are used; a score never raises a weight above its configuration. */
  lemma DynamicWeightBounds(weight: nat, score: nat)
    requires score <= 100
    ensures 1 <= DynamicWeight(weight, score) <= (if weight == 0 then 1 else weight)
    ensures score == 100 && weight > 0 ==> DynamicWeight(weight, score) == weight
  {
    var w := if weight == 0 then 1 else weight;
    assert 2 * w * score <= 2 * w * 100 by { assert w * score <= w * 100; }
  }

  /** The virtual weight is the whole number nearest to weight * score / 100, halves up, or 1 if that is less; a weight
      of 0 counts as 1. */
  lemma DynamicWeightIsNearest(weight: nat, score: nat) returns (nearest: int)
    ensures var w := if weight == 0 then 1 else weight;
      -50 < 100 * nearest - w * score <= 50
    ensures DynamicWeight(weight, score) == if nearest < 1 then 1 else nearest
  {
    var w := if weight == 0 then 1 else weight;
    nearest := (2 * w * score + 100) / 200;
    assert 2 * w * score == 2 * (w * score);
  }

  /** What `select` runs on: at least one member, every virtual weight at least 1. */
  ghost predicate Pool(w: seq<nat>) {
    |w| > 0 && forall i :: 0 <= i < |w| ==> w[i] > 0
  }

  function GcdOf(w: seq<nat>): nat
    requires |w| > 0
  {
    if |w| == 1 then w[0] else Euclid(GcdOf(w[..|w| - 1]), w[|w| - 1])
  }

  function MaxOf(w: seq<nat>): nat {
    if |w| == 0 then 0
    else var m := MaxOf(w[..|w| - 1]); if w[|w| - 1] > m then w[|w| - 1] else m
  }

  /** GcdOf is the greatest common divisor: d divides it exactly when d divides every weight. */
  lemma {:induction false} GcdOfDivides(w: seq<nat>, d: nat)
    requires Pool(w) && d > 0
    ensures GcdOf(w) > 0
    ensures GcdOf(w) % d == 0 <==> forall i :: 0 <= i < |w| ==> w[i] % d == 0
  {
    if |w| > 1 {
      var front, last := w[..|w| - 1], w[|w| - 1];
      GcdOfDivides(front, d);
      EuclidIsGcd(GcdOf(front), last, d);
      assert forall i :: 0 <= i < |w| ==> w[i] == if i < |front| then front[i] else last;
      if GcdOf(w) % d == 0 {
        forall i | 0 <= i < |w| ensures w[i] % d == 0 { if i < |front| { assert front[i] % d == 0; } }
      }
      if forall i :: 0 <= i < |w| ==> w[i] % d == 0 {
        forall i | 0 <= i < |front| ensures front[i] % d == 0 { assert front[i] == w[i]; }
        assert w[|w| - 1] % d == 0;
      }
    }
  }

  lemma {:induction false} MaxOfIsMax(w: seq<nat>)
    requires Pool(w)
    ensures MaxOf(w) in w
    ensures forall i :: 0 <= i < |w| ==> w[i] <= MaxOf(w)
  {
    var front := w[..|w| - 1];
    if |w| > 1 {
      MaxOfIsMax(front);
      var k :| 0 <= k < |front| && front[k] == MaxOf(front);
      assert w[k] == front[k];
    }
    forall i | 0 <= i < |w| ensures w[i] <= MaxOf(w) {
      if i < |front| { assert w[i] == front[i]; }
    }
  }

  /** The gcd and the maximum measure the pool: 0 < gcd <= maximum, and the maximum is attained. */
  lemma GcdAtMostMax(w: seq<nat>)
    requires Pool(w)
    ensures 0 < GcdOf(w) <= MaxOf(w)
    ensures forall i :: 0 <= i < |w| ==> w[i] <= MaxOf(w)
    ensures exists k :: 0 <= k < |w| && w[k] == MaxOf(w)
  {
    MaxOfIsMax(w);
    GcdOfDivides(w, 1);
    GcdOfDivides(w, GcdOf(w));
    NoSmallMultiple(w[0], GcdOf(w));
  }

  // ---------------------------------------------------------------- one selection

  datatype State = State(index: int, weight: int)

  /** The state a fresh strategy starts in. */
  const INIT: State := State(-1, 0)

  /** The member examined next. */
  function Next(w: seq<nat>, s: State): (p: nat)
    requires |w| > 0 && s.index >= -1
    ensures p < |w|
  {
    Wrap(s.index + 1, |w|)
  }

  /** One turn of the search loop: step the index, and lower or reset the weight on wrap-around. */
  function Advance(w: seq<nat>, s: State): (t: State)
    requires |w| > 0 && s.index >= -1
    ensures t.index == Next(w, s)
  {
    var p := Next(w, s);
    if p == 0 then
      var lowered := s.weight - GcdOf(w);
      State(0, if lowered <= 0 then MaxOf(w) else lowered)
    else
      State(p, s.weight)
  }

  /** Some member at or after position p reaches the level. */
  ghost predicate Reachable(w: seq<nat>, p: nat, level: int) {
    exists k :: p <= k < |w| && w[k] >= level
  }

  /** 0: the search succeeds in this lap; 1: in the next lap; above 1: the weight is still over the maximum. */
  ghost function Phase(w: seq<nat>, s: State): nat
    requires |w| > 0 && s.index >= -1
  {
    if s.weight > MaxOf(w) then 2 + s.weight - MaxOf(w)
    else if Next(w, s) > 0 && Reachable(w, Next(w, s), s.weight) then 0
    else 1
  }

  /** Members left to examine before the index wraps to 0. */
  ghost function Remaining(w: seq<nat>, s: State): nat
    requires |w| > 0 && s.index >= -1
  {
    if Next(w, s) == 0 then 0 else |w| - Next(w, s)
  }

  /** A turn that selects nobody lowers (Phase, Remaining), even when it resets the weight upwards. */
  lemma TurnMakesProgress(w: seq<nat>, s: State)
    requires Pool(w) && s.index >= -1
    requires var t := Advance(w, s); w[t.index] < t.weight
    ensures var t := Advance(w, s);
      Phase(w, t) < Phase(w, s) || (Phase(w, t) == Phase(w, s) && Remaining(w, t) < Remaining(w, s))
  {
    var t, p := Advance(w, s), Next(w, s);
    GcdAtMostMax(w);
    WrapOnce(p + 1, |w|);
    if p == 0 && t.weight <= MaxOf(w) {
      var k :| 0 <= k < |w| && w[k] == MaxOf(w);
      assert k >= 1 && Next(w, t) == 1 && Reachable(w, 1, t.weight);
    }
    if p > 0 && Reachable(w, p, s.weight) {
      var k :| p <= k < |w| && w[k] >= s.weight;
      assert k > p && Next(w, t) == p + 1 && Reachable(w, p + 1, t.weight);
    }
    if p > 0 && Reachable(w, p + 1, s.weight) {
      var k :| p + 1 <= k < |w| && w[k] >= s.weight;
      assert Reachable(w, p, s.weight);
    }
  }

  /** The state after one `select`; its index is the selected member. */
  ghost function Pick(w: seq<nat>, s: State): (t: State)
    requires Pool(w) && s.index >= -1
    ensures 0 <= t.index < |w|
    decreases Phase(w, s), Remaining(w, s)
  {
    var t := Advance(w, s);
    if w[t.index] >= t.weight then t
    else
      TurnMakesProgress(w, s);
      Pick(w, t)
  }

  // ---------------------------------------------------------------- how long the search takes

  /** The number of turns `select` makes. */
  ghost function Turns(w: seq<nat>, s: State): nat
    requires Pool(w) && s.index >= -1
    decreases Phase(w, s), Remaining(w, s)
  {
    var t := Advance(w, s);
    if w[t.index] >= t.weight then 1
    else
      TurnMakesProgress(w, s);
      1 + Turns(w, t)
  }

  /** Laps needed to bring a leftover weight down to the maximum: the excess over it, divided by the gcd, rounded up
      (ceil(x / g) is (x - 1) / g + 1 for x >= 1). */
  ghost function ExcessLaps(w: seq<nat>, s: State): nat
    requires Pool(w)
    ensures s.weight <= MaxOf(w) ==> ExcessLaps(w, s) == 0
  {
    GcdAtMostMax(w);
    if s.weight <= MaxOf(w) then 0 else (s.weight - MaxOf(w) - 1) / GcdOf(w) + 1
  }

  lemma LapLowersExcess(x: int, g: int)
    requires g > 0 && x > 0
    ensures x > g ==> (x - 1) / g == (x - g - 1) / g + 1
    ensures x <= g ==> (x - 1) / g == 0
  {
    if x <= g {
      RemainderUnique(x - 1, g, 0, x - 1);
    } else {
      assert x - g - 1 == g * ((x - 1) / g - 1) + (x - 1) % g;
      RemainderUnique(x - g - 1, g, (x - 1) / g - 1, (x - 1) % g);
    }
  }

  ghost function TurnBudget(w: seq<nat>, s: State): nat
    requires Pool(w) && s.index >= -1
  {
    if Phase(w, s) == 0 then Remaining(w, s)
    else if Phase(w, s) == 1 then Remaining(w, s) + |w|
    else Remaining(w, s) + |w| * ExcessLaps(w, s)
  }

  /** Over the maximum, a wrap-around uses up one excess lap. */
  lemma WrapUsesLap(w: seq<nat>, s: State)
    requires Pool(w) && s.index >= -1 && s.weight > MaxOf(w)
    ensures |w| * ExcessLaps(w, s) >= |w|
    ensures var t := Advance(w, s);
      Next(w, s) == 0 && t.weight > MaxOf(w) ==> |w| * ExcessLaps(w, t) == |w| * ExcessLaps(w, s) - |w|
  {
    GcdAtMostMax(w);
    LapLowersExcess(s.weight - MaxOf(w), GcdOf(w));
    var laps := ExcessLaps(w, s);
    assert laps >= 1;
    ProductBounds(|w|, laps);
    Distribute(|w|, laps - 1, 1);
  }

  lemma TurnSpendsBudget(w: seq<nat>, s: State)
    requires Pool(w) && s.index >= -1
    ensures TurnBudget(w, s) >= 1
    ensures var t := Advance(w, s); w[t.index] < t.weight ==> TurnBudget(w, t) <= TurnBudget(w, s) - 1
  {
    var t, p := Advance(w, s), Next(w, s);
    GcdAtMostMax(w);
    if s.weight > MaxOf(w) { WrapUsesLap(w, s); }
    if w[t.index] < t.weight {
      TurnMakesProgress(w, s);
      WrapOnce(p + 1, |w|);
    }
  }

  /** `select` returns within n * (excess laps + 2) turns, whatever state an earlier pool left behind. */
  lemma {:induction false} SelectIsBounded(w: seq<nat>, s: State)
    requires Pool(w) && s.index >= -1
    ensures Turns(w, s) <= |w| * (ExcessLaps(w, s) + 2)
  {
    TurnsWithinBudget(w, s);
    var laps := ExcessLaps(w, s);
    assert |w| * (laps + 2) == |w| * laps + 2 * |w|;
    assert |w| * laps >= 0;
  }

  lemma {:induction false} TurnsWithinBudget(w: seq<nat>, s: State)
    requires Pool(w) && s.index >= -1
    ensures Turns(w, s) <= TurnBudget(w, s)
    decreases Phase(w, s), Remaining(w, s)
  {
    TurnSpendsBudget(w, s);
    var t := Advance(w, s);
    if w[t.index] < t.weight {
      TurnMakesProgress(w, s);
      TurnsWithinBudget(w, t);
    }
  }

  // ---------------------------------------------------------------- runs of selections

  /** The state after k selections on a fixed pool. */
  ghost function After(w: seq<nat>, s: State, k: nat): (t: State)
    requires Pool(w) && s.index >= -1
    ensures t.index >= -1
    decreases k
  {
    if k == 0 then s else After(w, Pick(w, s), k - 1)
  }

  /** How often member i is selected in the next k selections. */
  ghost function Times(w: seq<nat>, s: State, k: nat, i: nat): nat
    requires Pool(w) && s.index >= -1
    decreases k
  {
    if k == 0 then 0
    else (if Pick(w, s).index == i then 1 else 0) + Times(w, Pick(w, s), k - 1, i)
  }

  lemma {:induction false} RunsCompose(w: seq<nat>, s: State, a: nat, b: nat, i: nat)
    requires Pool(w) && s.index >= -1
    ensures After(w, s, a + b) == After(w, After(w, s, a), b)
    ensures Times(w, s, a + b, i) == Times(w, s, a, i) + Times(w, After(w, s, a), b, i)
    decreases a
  {
    if a > 0 { RunsCompose(w, Pick(w, s), a - 1, b, i); }
  }

  function Div(a: nat, b: nat): nat
    requires b > 0
  {
    a / b
  }

  /** Units of weight, in gcds: the number of levels at which member i is selected in a cycle. */
  ghost function Units(w: seq<nat>, i: nat): nat
    requires Pool(w) && i < |w|
  {
    GcdAtMostMax(w);
    Div(w[i], GcdOf(w))
  }

  ghost function TopLevel(w: seq<nat>): nat
    requires Pool(w)
  {
    GcdAtMostMax(w);
    Div(MaxOf(w), GcdOf(w))
  }

  lemma LevelReached(a: nat, g: nat, q: nat)
    requires g > 0
    ensures a >= g * q <==> a / g >= q
  {
    assert a == g * (a / g) + a % g;
    ProductBounds(g, a / g - q);
    assert g * (a / g - q) == g * (a / g) - g * q;
  }

  lemma ExactQuotient(a: nat, g: nat)
    requires a > 0 && g > 0 && a % g == 0
    ensures a == g * (a / g) && a / g >= 1
  {
    NoSmallMultiple(a, g);
    LevelReached(a, g, 1);
  }

  lemma TopLevelIsMax(w: seq<nat>)
    requires Pool(w)
    ensures GcdOf(w) > 0 && TopLevel(w) >= 1
    ensures GcdOf(w) * TopLevel(w) == MaxOf(w)
    ensures forall i :: 0 <= i < |w| ==> w[i] == GcdOf(w) * Units(w, i) && 1 <= Units(w, i) <= TopLevel(w)
  {
    GcdAtMostMax(w);
    var g := GcdOf(w);
    GcdOfDivides(w, g);
    MultipleOf(g, g, 1);
    var k :| 0 <= k < |w| && w[k] == MaxOf(w);
    forall i | 0 <= i < |w| ensures w[i] == g * Units(w, i) && 1 <= Units(w, i) <= TopLevel(w) {
      assert w[i] % g == 0;
      ExactQuotient(w[i], g);
      LevelReached(MaxOf(w), g, Units(w, i));
    }
    assert TopLevel(w) == Units(w, k);
  }

  /** The selections a cycle still owes when the search stands before position p at level q. */
  ghost function Due(w: seq<nat>, p: nat, q: nat): seq<State>
    requires Pool(w) && p <= |w|
    decreases q, |w| - p
  {
    if q == 0 then []
    else if p == |w| then Due(w, 0, q - 1)
    else if w[p] >= GcdOf(w) * q then [State(p, GcdOf(w) * q)] + Due(w, p + 1, q)
    else Due(w, p + 1, q)
  }

  /** One whole cycle: level by level from the maximum down, each level in pool order. */
  ghost function Cycle(w: seq<nat>): seq<State>
    requires Pool(w)
  {
    Due(w, 0, TopLevel(w))
  }

  /** A turn at level q: the next position at the same level, or position 0 at the level below. */
  lemma TurnAtLevel(w: seq<nat>, p: nat, q: nat)
    requires Pool(w) && 1 <= p <= |w| && 1 <= q
    ensures GcdOf(w) * q > 0
    ensures Advance(w, State(p - 1, GcdOf(w) * q)) ==
      if p < |w| then State(p, GcdOf(w) * q)
      else if q == 1 then State(0, MaxOf(w))
      else State(0, GcdOf(w) * (q - 1))
  {
    GcdAtMostMax(w);
    WrapOnce(p, |w|);
    ProductBounds(GcdOf(w), q);
    Distribute(GcdOf(w), q - 1, 1);
    ProductBounds(GcdOf(w), q - 1);
  }

  /** `Pick` serves the first selection due, and starts a new cycle when none is. */
  lemma {:induction false} PickServesDue(w: seq<nat>, p: nat, q: nat) returns (level: nat)
    requires Pool(w) && 1 <= p <= |w| && 1 <= q
    ensures Due(w, p, q) == [] ==> Pick(w, State(p - 1, GcdOf(w) * q)) == Pick(w, INIT)
    ensures Due(w, p, q) != [] ==>
      var t := Pick(w, State(p - 1, GcdOf(w) * q));
      && 1 <= level && t.weight == GcdOf(w) * level
      && Due(w, p, q) == [t] + Due(w, t.index + 1, level)
    decreases q, |w| - p
  {
    var g := GcdOf(w);
    var s := State(p - 1, g * q);
    TurnAtLevel(w, p, q);
    level := q;
    if p < |w| {
      if w[p] < g * q { level := PickServesDue(w, p + 1, q); }
    } else if q == 1 {
      GcdAtMostMax(w);
      assert Advance(w, INIT) == Advance(w, s);
      assert Due(w, p, q) == Due(w, 0, 0) == [];
    } else {
      assert Due(w, p, q) == Due(w, 0, q - 1);
      level := q - 1;
      if w[0] < g * (q - 1) { level := PickServesDue(w, 1, q - 1); }
    }
  }

  lemma {:induction false} RunServesDue(w: seq<nat>, p: nat, q: nat)
    requires Pool(w) && 1 <= p <= |w| && 1 <= q
    ensures var s, d := State(p - 1, GcdOf(w) * q), Due(w, p, q);
      && (forall j :: 0 <= j < |d| ==> After(w, s, j + 1) == d[j])
      && Pick(w, After(w, s, |d|)) == Pick(w, INIT)
    decreases |Due(w, p, q)|
  {
    var s, d := State(p - 1, GcdOf(w) * q), Due(w, p, q);
    var level := PickServesDue(w, p, q);
    if d != [] {
      var t := Pick(w, s);
      RunServesDue(w, t.index + 1, level);
      forall j | 0 <= j < |d| ensures After(w, s, j + 1) == d[j] {
        if j > 0 { assert After(w, t, j - 1 + 1) == d[1..][j - 1]; }
      }
      assert After(w, s, |d|) == After(w, t, |d[1..]|);
    }
  }

  /** From the initial state the selections are the cycle, after which it starts again. */
  lemma RunServesCycle(w: seq<nat>)
    requires Pool(w)
    ensures |Cycle(w)| >= 1
    ensures forall j :: 0 <= j < |Cycle(w)| ==> After(w, INIT, j + 1) == Cycle(w)[j]
    ensures Pick(w, After(w, INIT, |Cycle(w)|)) == Pick(w, INIT)
  {
    TopLevelIsMax(w);
    GcdAtMostMax(w);
    var top, c := TopLevel(w), Cycle(w);
    var first := State(0, MaxOf(w));
    assert Advance(w, INIT) == first;
    RunServesDue(w, 1, top);
    if w[0] >= MaxOf(w) {
      assert c == [first] + Due(w, 1, top);
      forall j | 0 <= j < |c| ensures After(w, INIT, j + 1) == c[j] {
        if j > 0 { assert After(w, first, j - 1 + 1) == Due(w, 1, top)[j - 1]; }
      }
      assert After(w, INIT, |c|) == After(w, first, |c| - 1);
    } else {
      assert c == Due(w, 1, top) && Pick(w, INIT) == Pick(w, first);
      CycleEndsLow(w, 1, top);
      forall j | 0 <= j < |c| ensures After(w, INIT, j + 1) == c[j] {
        assert After(w, INIT, j + 1) == After(w, first, j + 1);
      }
      assert After(w, INIT, |c|) == After(w, first, |c|);
    }
  }

  lemma {:induction false} CycleEndsLow(w: seq<nat>, p: nat, q: nat)
    requires Pool(w) && p <= |w| && q >= 1 && (q >= 2 || p < |w|)
    ensures var d := Due(w, p, q); |d| >= 1 && d[|d| - 1] == State(|w| - 1, GcdOf(w))
    decreases q, |w| - p
  {
    TopLevelIsMax(w);
    if p == |w| {
      CycleEndsLow(w, 0, q - 1);
    } else if q >= 2 || p + 1 < |w| {
      CycleEndsLow(w, p + 1, q);
    } else {
      assert w[p] >= GcdOf(w) * 1 by { LevelReached(w[p], GcdOf(w), 1); }
      assert Due(w, p + 1, q) == Due(w, 0, 0) == [];
    }
  }

  // ---------------------------------------------------------------- counting a cycle

  ghost function CountIndex(d: seq<State>, i: nat): nat {
    if d == [] then 0 else (if d[0].index == i then 1 else 0) + CountIndex(d[1..], i)
  }

  /** Member i is due once at each level it reaches. */
  lemma {:induction false} DueCount(w: seq<nat>, p: nat, q: nat, i: nat)
    requires Pool(w) && p <= |w| && i < |w|
    ensures CountIndex(Due(w, p, q), i) ==
      (if q == 0 then 0 else if Units(w, i) < q then Units(w, i) else if p <= i then q else q - 1)
    decreases q, |w| - p
  {
    GcdAtMostMax(w);
    if q > 0 {
      if p == |w| {
        DueCount(w, 0, q - 1, i);
      } else {
        DueCount(w, p + 1, q, i);
        LevelReached(w[p], GcdOf(w), q);
        if w[p] >= GcdOf(w) * q {
          var h := State(p, GcdOf(w) * q);
          assert ([h] + Due(w, p + 1, q))[1..] == Due(w, p + 1, q);
        }
      }
    }
  }

  ghost function Sum(w: seq<nat>): nat {
    if w == [] then 0 else Sum(w[..|w| - 1]) + w[|w| - 1]
  }

  /** The levels, up to q, that the first k members reach between them. */
  ghost function Reached(w: seq<nat>, k: nat, q: nat): nat
    requires Pool(w) && k <= |w|
  {
    if k == 0 then 0
    else Reached(w, k - 1, q) + if Units(w, k - 1) < q then Units(w, k - 1) else q
  }

  lemma {:induction false} DueLength(w: seq<nat>, p: nat, q: nat)
    requires Pool(w) && p <= |w|
    ensures q > 0 ==> |Due(w, p, q)| == Reached(w, |w|, q) - Reached(w, p, q) + Reached(w, p, q - 1)
    ensures q == 0 ==> Due(w, p, q) == [] && Reached(w, |w|, 0) == 0
    decreases q, |w| - p
  {
    GcdAtMostMax(w);
    if q == 0 {
      NothingReached(w, |w|);
    } else if p == |w| {
      DueLength(w, 0, q - 1);
    } else {
      DueLength(w, p + 1, q);
      LevelReached(w[p], GcdOf(w), q);
    }
  }

  lemma {:induction false} NothingReached(w: seq<nat>, k: nat)
    requires Pool(w) && k <= |w|
    ensures Reached(w, k, 0) == 0
  {
    if k > 0 { NothingReached(w, k - 1); }
  }

  lemma {:induction false} ReachedIsSum(w: seq<nat>, k: nat)
    requires Pool(w) && k <= |w|
    ensures GcdOf(w) * Reached(w, k, TopLevel(w)) == Sum(w[..k])
  {
    TopLevelIsMax(w);
    if k > 0 {
      ReachedIsSum(w, k - 1);
      assert w[..k][..k - 1] == w[..k - 1];
      assert Reached(w, k, TopLevel(w)) == Reached(w, k - 1, TopLevel(w)) + Units(w, k - 1);
      Distribute(GcdOf(w), Reached(w, k - 1, TopLevel(w)), Units(w, k - 1));
    }
  }

  /** A cycle has (sum of weights) / gcd selections. */
  ghost function Period(w: seq<nat>): nat
    requires Pool(w)
  {
    GcdAtMostMax(w);
    Div(Sum(w), GcdOf(w))
  }

  lemma CycleLength(w: seq<nat>)
    requires Pool(w)
    ensures |Cycle(w)| == Period(w)
  {
    TopLevelIsMax(w);
    DueLength(w, 0, TopLevel(w));
    ReachedIsSum(w, |w|);
    assert w[..|w|] == w;
    MultipleOf(Sum(w), GcdOf(w), Reached(w, |w|, TopLevel(w)));
  }

  lemma {:induction false} TimesIsCount(w: seq<nat>, s: State, d: seq<State>, i: nat)
    requires Pool(w) && s.index >= -1
    requires forall j :: 0 <= j < |d| ==> After(w, s, j + 1) == d[j]
    ensures Times(w, s, |d|, i) == CountIndex(d, i)
    decreases |d|
  {
    if d != [] {
      assert Pick(w, s) == After(w, s, 0 + 1) == d[0];
      forall j | 0 <= j < |d[1..]| ensures After(w, Pick(w, s), j + 1) == d[1..][j] {
        assert After(w, s, j + 1 + 1) == d[j + 1];
      }
      TimesIsCount(w, Pick(w, s), d[1..], i);
    }
  }

  // ---------------------------------------------------------------- fairness

  /** Two states with the same next selection have the same future. */
  lemma SameFuture(w: seq<nat>, s: State, t: State, k: nat, i: nat)
    requires Pool(w) && s.index >= -1 && t.index >= -1 && Pick(w, s) == Pick(w, t)
    ensures Times(w, s, k, i) == Times(w, t, k, i)
    ensures k > 0 ==> After(w, s, k) == After(w, t, k)
  {
  }

  /** A cycle selects member i exactly w[i]/gcd times and ends in the state (n-1, gcd), where it starts again. */
  lemma OneCycle(w: seq<nat>, i: nat)
    requires Pool(w) && i < |w|
    ensures GcdOf(w) > 0 && Times(w, INIT, Period(w), i) == w[i] / GcdOf(w)
    ensures After(w, INIT, Period(w)) == State(|w| - 1, GcdOf(w))
    ensures Pick(w, State(|w| - 1, GcdOf(w))) == Pick(w, INIT)
  {
    TopLevelIsMax(w);
    RunServesCycle(w);
    CycleLength(w);
    TimesIsCount(w, INIT, Cycle(w), i);
    DueCount(w, 0, TopLevel(w), i);
    CycleEndsLow(w, 0, TopLevel(w));
    assert After(w, INIT, Period(w) - 1 + 1) == Cycle(w)[Period(w) - 1];
  }

  /** Exact proportionality: every window of (sum of weights)/gcd consecutive selections, at any offset t of a run
      that starts like the initial state, selects member i exactly w[i]/gcd times. */
  lemma ExactlyProportional(w: seq<nat>, s: State, t: nat, i: nat)
    requires Pool(w) && i < |w| && s.index >= -1 && Pick(w, s) == Pick(w, INIT)
    ensures GcdOf(w) > 0 && Times(w, After(w, s, t), Period(w), i) == w[i] / GcdOf(w)
  {
    var p, last := Period(w), State(|w| - 1, GcdOf(w));
    OneCycle(w, i);
    RunsCompose(w, s, t, p, i);
    RunsCompose(w, INIT, p, t, i);
    SameFuture(w, s, INIT, t, i);
    SameFuture(w, s, INIT, t + p, i);
    SameFuture(w, last, INIT, t, i);
    assert t + p == p + t;
  }

  /** The selections repeat with the period of one cycle. */
  lemma Periodic(w: seq<nat>, k: nat)
    requires Pool(w) && k > 0
    ensures After(w, INIT, k + Period(w)) == After(w, INIT, k)
  {
    OneCycle(w, 0);
    RunsCompose(w, INIT, Period(w), k, 0);
    SameFuture(w, State(|w| - 1, GcdOf(w)), INIT, k, 0);
    assert k + Period(w) == Period(w) + k;
  }

  // ---------------------------------------------------------------- leftover states

  /** A selection either starts a new cycle, or moves on in the same lap, or lowers the weight. */
  lemma {:induction false} PickMovesOn(w: seq<nat>, s: State)
    requires Pool(w) && -1 <= s.index < |w|
    ensures var t := Pick(w, s);
      t == Pick(w, INIT) || (t.weight == s.weight && t.index > s.index) || 0 < t.weight <= s.weight - GcdOf(w)
    decreases Phase(w, s), Remaining(w, s)
  {
    var t := Advance(w, s);
    GcdAtMostMax(w);
    WrapOnce(s.index + 1, |w|);
    if t.weight > 0 && t == Advance(w, INIT) {
      assert Pick(w, s) == Pick(w, INIT);
    } else if w[t.index] < t.weight {
      TurnMakesProgress(w, s);
      PickMovesOn(w, t);
    }
  }

  /** Selections left at most, at the levels from the leftover weight down, before a new cycle starts. */
  ghost function LeftInCycle(w: seq<nat>, s: State): nat
    requires Pool(w) && -1 <= s.index < |w|
  {
    GcdAtMostMax(w);
    |w| - s.index + if s.weight <= 0 then 0 else Mul(Quotient(s.weight - 1, GcdOf(w)), |w|)
  }

  lemma MovingOnUsesUp(w: seq<nat>, s: State, t: State)
    requires Pool(w) && -1 <= s.index < |w| && 0 <= t.index < |w| && GcdOf(w) > 0
    requires (t.weight == s.weight && t.index > s.index) || 0 < t.weight <= s.weight - GcdOf(w)
    ensures LeftInCycle(w, t) < LeftInCycle(w, s)
  {
    if t.weight != s.weight { LevelBelow(t.weight - 1, s.weight - 1, GcdOf(w), |w|); }
  }

  /** A weight lower by a gcd is a level lower. */
  lemma LevelBelow(a: nat, b: nat, g: nat, n: nat)
    requires g > 0 && a <= b - g
    ensures Mul(Quotient(a, g), n) + n <= Mul(Quotient(b, g), n)
  {
    QuotientGrows(a, b - g, g);
    MulGrows(Quotient(a, g), Quotient(b - g, g), n);
  }

  lemma {:induction false} QuotientGrows(a: nat, b: nat, g: nat)
    requires g > 0 && a <= b
    ensures Quotient(a, g) <= Quotient(b, g)
    decreases b
  {
    if a >= g { QuotientGrows(a - g, b - g, g); }
  }

  lemma {:induction false} ReachesCycle(w: seq<nat>, s: State) returns (k: nat)
    requires Pool(w) && -1 <= s.index < |w|
    ensures Pick(w, After(w, s, k)) == Pick(w, INIT) && k <= LeftInCycle(w, s)
    decreases LeftInCycle(w, s)
  {
    PickMovesOn(w, s);
    k := 0;
    if Pick(w, s) != Pick(w, INIT) {
      GcdAtMostMax(w);
      MovingOnUsesUp(w, s, Pick(w, s));
      k := ReachesCycle(w, Pick(w, s));
      k := k + 1;
    }
  }

  /** A weight within the pool leaves at most one whole cycle of levels. */
  lemma WithinCycle(w: seq<nat>, t: State)
    requires Pool(w) && 0 <= t.index < |w| && t.weight <= MaxOf(w) && GcdOf(w) > 0 && MaxOf(w) >= 1
    ensures LeftInCycle(w, t) <= Mul(Quotient(MaxOf(w) - 1, GcdOf(w)) + 1, |w|)
  {
    if t.weight > 0 { LevelsBelow(t.weight - 1, MaxOf(w) - 1, GcdOf(w), |w|); }
  }

  lemma LevelsBelow(a: nat, b: nat, g: nat, n: nat)
    requires g > 0 && a <= b
    ensures Mul(Quotient(a, g), n) + n <= Mul(Quotient(b, g) + 1, n)
  {
    QuotientGrows(a, b, g);
    MulGrows(Quotient(a, g), Quotient(b, g), n);
  }

  lemma LevelsAreTopLevel(w: seq<nat>)
    requires Pool(w)
    ensures GcdOf(w) > 0 && MaxOf(w) >= 1
    ensures Mul(Quotient(MaxOf(w) - 1, GcdOf(w)) + 1, |w|) == |w| * TopLevel(w)
  {
    TopLevelIsMax(w);
    LastOfLevel(MaxOf(w), GcdOf(w), TopLevel(w));
    MulIsProduct(TopLevel(w), |w|);
  }

  lemma LastOfLevel(max: nat, g: nat, top: nat)
    requires g > 0 && top >= 1 && max == g * top
    ensures max >= 1 && Quotient(max - 1, g) == top - 1
  {
    ProductBounds(g, top);
    Distribute(g, top - 1, 1);
    RemainderUnique(max - 1, g, top - 1, g - 1);
    QuotientIsDivision(max - 1, g);
  }

  lemma {:induction false} PickReachesWeight(w: seq<nat>, s: State)
    requires Pool(w) && s.index >= -1
    ensures Pick(w, s).weight <= w[Pick(w, s).index] <= MaxOf(w)
    decreases Phase(w, s), Remaining(w, s)
  {
    GcdAtMostMax(w);
    var t := Advance(w, s);
    if w[t.index] < t.weight {
      TurnMakesProgress(w, s);
      PickReachesWeight(w, t);
    }
  }

  /** Every window of one period, at any later offset, is exactly proportional. */
  ghost predicate FairFrom(w: seq<nat>, s: State)
    requires Pool(w) && s.index >= -1
  {
    GcdAtMostMax(w);
    forall t: nat, i: nat {:trigger Times(w, After(w, s, t), Period(w), i)} ::
      i < |w| ==> Times(w, After(w, s, t), Period(w), i) == w[i] / GcdOf(w)
  }

  /** Fairness recovers by itself: whatever state a different pool or other weights left behind, after at most one
      selection for each member and level, and one more, every window is exactly proportional again. */
  lemma SelfStabilizes(w: seq<nat>, s: State)
    requires Pool(w) && s.index >= -1
    ensures exists k: nat :: k <= |w| * TopLevel(w) + 1 && FairFrom(w, After(w, s, k))
  {
    var k := ReachesCycle(w, Pick(w, s));
    LevelsAreTopLevel(w);
    PickReachesWeight(w, s);
    WithinCycle(w, Pick(w, s));
    var c := After(w, s, k + 1);
    forall t: nat, i: nat | i < |w|
      ensures GcdOf(w) > 0 && Times(w, After(w, c, t), Period(w), i) == w[i] / GcdOf(w)
    {
      ExactlyProportional(w, c, t, i);
    }
    assert FairFrom(w, After(w, s, k + 1));
  }

  // ---------------------------------------------------------------- the strategy object

  class WeightedRoundRobinStrategy {
    var currentIndex: int
    var currentWeight: int

    ghost function Leftover(): State
      reads this
    {
      State(currentIndex, currentWeight)
    }

    constructor ()
      ensures Leftover() == INIT && currentIndex == -1 && currentWeight == 0
    {
      currentIndex, currentWeight := -1, 0;
    }

    method GetGcdOfWeights(w: seq<nat>) returns (result: nat)
      requires Pool(w)
      ensures result == GcdOf(w)
    {
      result := w[0];
      for i := 1 to |w|
        invariant result == GcdOf(w[..i])
      {
        assert w[..i + 1][..i] == w[..i];
        result := Gcd(result, w[i]);
      }
      assert w[..|w|] == w;
    }

    method GetMaxWeight(w: seq<nat>) returns (max: nat)
      ensures max == MaxOf(w)
    {
      max := 0;
      for i := 0 to |w|
        invariant max == MaxOf(w[..i])
      {
        assert w[..i + 1][..i] == w[..i];
        if w[i] > max { max := w[i]; }
      }
      assert w[..|w|] == w;
    }

    /** The pool handed over is never empty, and every virtual weight is at least 1, so the maximum weight is
        positive and the source's fallback for an all-zero pool is never reached. */
    method Select(weights: seq<nat>, scores: seq<nat>) returns (k: nat)
      requires |weights| == |scores| > 0 && currentIndex >= -1
      modifies this
      ensures Pool(VirtualPool(weights, scores))
      ensures Leftover() == Pick(VirtualPool(weights, scores), old(Leftover()))
      ensures k == currentIndex < |weights|
    {
      var w := VirtualPool(weights, scores);
      var n := |w|;
      var maxWeight := GetMaxWeight(w);
      var gcdWeight := GetGcdOfWeights(w);
      while true
        invariant Leftover().index >= -1 && Pick(w, Leftover()) == Pick(w, old(Leftover()))
        decreases Phase(w, Leftover()), Remaining(w, Leftover())
      {
        ghost var before := Leftover();
        WrapIsRemainder(currentIndex + 1, n);
        currentIndex := (currentIndex + 1) % n;
        if currentIndex == 0 {
          currentWeight := currentWeight - gcdWeight;
          if currentWeight <= 0 { currentWeight := maxWeight; }
        }
        assert Leftover() == Advance(w, before);
        if w[currentIndex] >= currentWeight { return currentIndex; }
        TurnMakesProgress(w, before);
      }
    }
  }

  // ---------------------------------------------------------------- equal weights

  ghost predicate EqualWeights(w: seq<nat>, c: nat) {
    Pool(w) && forall i :: 0 <= i < |w| ==> w[i] == c
  }

  lemma {:induction false} EqualWeightsMeasure(w: seq<nat>, c: nat)
    requires EqualWeights(w, c)
    ensures GcdOf(w) == MaxOf(w) == c
  {
    MaxOfIsMax(w);
    GcdAtMostMax(w);
    forall i | 0 <= i < |w| ensures w[i] % c == 0 { MultipleOf(w[i], c, 1); }
    GcdOfDivides(w, c);
    NoSmallMultiple(GcdOf(w), c);
  }

  /** With equal weights the k-th selection, from the initial state, is the k-th selection of plain round robin. */
  lemma {:induction false} EqualWeightsIsRoundRobin(w: seq<nat>, c: nat, k: nat)
    requires EqualWeights(w, c)
    ensures After(w, INIT, k + 1) == State(RoundRobinPick(RoundRobinAfter(0, |w|, k), |w|), c)
    ensures RoundRobinAfter(0, |w|, k) < |w|
  {
    EqualWeightsMeasure(w, c);
    if k == 0 {
      assert After(w, INIT, 1) == Pick(w, INIT) == State(0, c);
    } else {
      EqualWeightsIsRoundRobin(w, c, k - 1);
      var r := RoundRobinAfter(0, |w|, k - 1);
      RunsCompose(w, INIT, k, 1, 0);
      WrapOnce(r, |w|);
      WrapOnce(r + 1, |w|);
      assert After(w, INIT, k + 1) == Pick(w, State(r, c));
      WrapOnce(RoundRobinAfter(0, |w|, k), |w|);
    }
  }
}
