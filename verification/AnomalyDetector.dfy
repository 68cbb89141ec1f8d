/**
 The traffic baseline of the anomaly detector: per-client request counts, and the exponentially weighted average and
 variance re-estimated every window. Rates are exact reals; every estimate is rounded to hundredths, halves up. The
 z-score, its square root and the flagging of anomalies are not part of this model.
 */
module AnomalyDetector {
  import opened Wrappers

  type Ip = string

  const WINDOW_MS: int := 10000

  datatype Stats = Stats(ewma: real, variance: real, windowCount: nat, windowStart: int, totalRequests: nat)

  /** Math.round(x * 100) / 100 */
  function R2(x: real): real {
    (100.0 * x + 0.5).Floor as real / 100.0
  }

  function Rate(count: nat, elapsedMs: int): (r: real)
    requires elapsedMs > 0
    ensures r >= 0.0
  {
    count as real / (elapsedMs as real / 1000.0) * 60.0
  }

  function MaxReal(a: real, b: real): real { if a >= b then a else b }

  function MinReal(a: real, b: real): real { if a <= b then a else b }

  /** Math.pow(x, 2) */
  function Square(x: real): real { x * x }

  function NextEwma(ewma: real, rate: real): real {
    R2(0.3 * rate + 0.7 * ewma)
  }

  function NextVariance(variance: real, diff: real): real {
    R2(0.7 * (variance + 0.3 * Square(diff)))
  }

  /** Feeds one observed rate into the estimates; a zero baseline is (re-)initialised from the rate itself. */
  function Observe(ewma: real, variance: real, rate: real): (real, real) {
    if ewma == 0.0 then (rate, MaxReal(1.0, rate * 0.2))
    else (NextEwma(ewma, rate), NextVariance(variance, rate - ewma))
  }

  /** The record after a request; the first request of a client creates it. */
  function Recorded(o: Option<Stats>, now: int): Stats {
    var s := if o.Some? then o.value else Stats(0.0, 1.0, 0, now, 0);
    s.(windowCount := s.windowCount + 1, totalRequests := s.totalRequests + 1)
  }

  function Lookup(m: map<Ip, Stats>, ip: Ip): Option<Stats> {
    if ip in m then Some(m[ip]) else None
  }

  function Evaluate(s: Stats, now: int): Stats {
    var elapsed := now - s.windowStart;
    if elapsed < WINDOW_MS then s
    else
      var (ewma, variance) := Observe(s.ewma, s.variance, Rate(s.windowCount, elapsed));
      Stats(ewma, variance, 0, now, s.totalRequests)
  }

  // ---------------------------------------------------------------- the envelope of the estimates

  lemma R2Monotone(x: real, y: real)
    requires x <= y
    ensures R2(x) <= R2(y)
  {
    FloorMonotone(100.0 * x + 0.5, 100.0 * y + 0.5);
  }

  lemma FloorMonotone(a: real, b: real)
    requires a <= b
    ensures a.Floor <= b.Floor
  {
  }

  lemma FloorIs(x: real, n: int)
    requires n as real <= x < n as real + 1.0
    ensures x.Floor == n
  {
  }

  /** Rounding to hundredths leaves hundredths alone. */
  lemma R2Idempotent(x: real)
    ensures R2(R2(x)) == R2(x)
  {
    var n := (100.0 * x + 0.5).Floor;
    assert 100.0 * R2(x) + 0.5 == n as real + 0.5;
    FloorIs(n as real + 0.5, n);
  }

  predicate Within(x: real, lo: real, hi: real) { lo <= x <= hi }

  lemma EwmaStep(ewma: real, rate: real, lo: real, hi: real)
    requires Within(rate, lo, hi) && (Within(ewma, lo, hi) || Within(ewma, R2(lo), R2(hi)))
    ensures Within(NextEwma(ewma, rate), R2(lo), R2(hi))
  {
    var mixed := 0.3 * rate + 0.7 * ewma;
    R2Idempotent(lo);
    R2Idempotent(hi);
    R2Monotone(MinReal(lo, R2(lo)), mixed);
    R2Monotone(mixed, MaxReal(hi, R2(hi)));
  }

  lemma SquareBound(x: real, d: real)
    requires -d <= x <= d
    ensures 0.0 <= x * x <= d * d
  {
    assert (d - x) * (d + x) >= 0.0;
    assert (d - x) * (d + x) == d * d - x * x;
  }

  lemma VarianceStep(variance: real, x: real, d: real, v: real)
    requires 0.0 <= variance <= v && v == R2(v) && 10.0 * v >= 7.0 * (d * d) && -d <= x <= d
    ensures 0.0 <= NextVariance(variance, x) <= v
  {
    SquareBound(x, d);
    var mixed := 0.7 * (variance + 0.3 * Square(x));
    R2Monotone(0.0, mixed);
    R2Monotone(mixed, v);
    FloorIs(0.5, 0);
  }

  /** A window without requests keeps a baseline set exactly when it is at least 1/140; a baseline of 0.01 or more
      stays so whatever is observed. */
  lemma BaselineSurvives(ewma: real, rate: real)
    requires ewma >= 0.0 && rate >= 0.0
    ensures NextEwma(ewma, 0.0) >= 0.01 <==> ewma >= 1.0 / 140.0
    ensures ewma >= 0.01 ==> NextEwma(ewma, rate) >= 0.01
  {
    assert R2(0.007) == 0.01;
    assert 70.0 * ewma + 0.5 == 100.0 * (0.3 * 0.0 + 0.7 * ewma) + 0.5;
    if ewma >= 0.01 { R2Monotone(0.007, 0.3 * rate + 0.7 * ewma); }
  }

  /** The estimates after a run of observed rates. */
  function ObserveAll(ewma: real, variance: real, rates: seq<real>): (real, real)
    decreases |rates|
  {
    if rates == [] then (ewma, variance)
    else
      var (e, v) := Observe(ewma, variance, rates[0]);
      ObserveAll(e, v, rates[1..])
  }

  /** v is a whole number of hundredths of at least 0.7 * d^2. */
  predicate VarianceCap(v: real, d: real) {
    v == R2(v) && 10.0 * v >= 7.0 * (d * d)
  }

  /** The width of the interval that rates and baselines share. */
  function Spread(lo: real, hi: real): real {
    MaxReal(hi, R2(hi)) - MinReal(lo, R2(lo))
  }

  lemma {:induction false} EnvelopeFrom(ewma: real, variance: real, rates: seq<real>, lo: real, hi: real, v: real)
    requires ewma >= 0.01 && 0.0 <= variance <= v && VarianceCap(v, Spread(lo, hi))
    requires Within(ewma, lo, hi) || Within(ewma, R2(lo), R2(hi))
    requires forall i :: 0 <= i < |rates| ==> Within(rates[i], lo, hi) && rates[i] >= 0.0
    ensures var (e, w) := ObserveAll(ewma, variance, rates);
      && e >= 0.01 && 0.0 <= w <= v
      && (rates != [] ==> Within(e, R2(lo), R2(hi)))
    decreases |rates|
  {
    if rates != [] {
      var r := rates[0];
      EwmaStep(ewma, r, lo, hi);
      BaselineSurvives(ewma, r);
      VarianceStep(variance, r - ewma, Spread(lo, hi), v);
      EnvelopeFrom(NextEwma(ewma, r), NextVariance(variance, r - ewma), rates[1..], lo, hi, v);
    }
  }

  /** The envelope: once the first window has set the baseline (to 0.01 or more), it is never initialised again; from
      the next window on it stays between the rounded smallest and largest rate observed, and the variance stays
      non-negative and under every cap that bounds its initial value. */
  lemma EstimatesStayInEnvelope(first: real, rates: seq<real>, lo: real, hi: real, v: real)
    requires first >= 0.01 && Within(first, lo, hi)
    requires forall i :: 0 <= i < |rates| ==> Within(rates[i], lo, hi) && rates[i] >= 0.0
    requires MaxReal(1.0, first * 0.2) <= v && VarianceCap(v, Spread(lo, hi))
    ensures var (e, w) := ObserveAll(0.0, 1.0, [first] + rates);
      && e >= 0.01 && 0.0 <= w <= v
      && (rates != [] ==> Within(e, R2(lo), R2(hi)))
  {
    assert ([first] + rates)[1..] == rates;
    EnvelopeFrom(first, MaxReal(1.0, first * 0.2), rates, lo, hi, v);
  }

  // ---------------------------------------------------------------- the history of one client

  /** What the detector does to one client's record. */
  datatype Occasion = Requested(now: int) | Evaluated(now: int)

  function After(o: Option<Stats>, e: Occasion): Option<Stats> {
    match e
    case Requested(now) => Some(Recorded(o, now))
    case Evaluated(now) => if o.Some? then Some(Evaluate(o.value, now)) else None
  }

  function AfterAll(o: Option<Stats>, history: seq<Occasion>): Option<Stats>
    decreases |history|
  {
    if history == [] then o else AfterAll(After(o, history[0]), history[1..])
  }

  /** The rates of the windows that the history closes, oldest first. */
  function RatesOf(o: Option<Stats>, history: seq<Occasion>): seq<real>
    decreases |history|
  {
    if history == [] then []
    else
      var e := history[0];
      var closes := e.Evaluated? && o.Some? && e.now - o.value.windowStart >= WINDOW_MS;
      (if closes then [Rate(o.value.windowCount, e.now - o.value.windowStart)] else [])
      + RatesOf(After(o, e), history[1..])
  }

  /** The estimates in a client's record; a client not seen yet has those of a new record. */
  function Estimates(o: Option<Stats>): (real, real) {
    if o.Some? then (o.value.ewma, o.value.variance) else (0.0, 1.0)
  }

  /** Through any history of requests and evaluations, a client's estimates are the recurrences on its closed windows.
      */
  lemma {:induction false} HistoryIsObserved(o: Option<Stats>, history: seq<Occasion>)
    ensures var (e, v) := Estimates(o);
      Estimates(AfterAll(o, history)) == ObserveAll(e, v, RatesOf(o, history))
    decreases |history|
  {
    if history != [] {
      var (e, v) := Estimates(o);
      var next, rest := After(o, history[0]), RatesOf(After(o, history[0]), history[1..]);
      HistoryIsObserved(next, history[1..]);
      if RatesOf(o, history) != rest {
        var rate := Rate(o.value.windowCount, history[0].now - o.value.windowStart);
        assert RatesOf(o, history) == [rate] + rest && ([rate] + rest)[1..] == rest;
      }
    }
  }

  lemma {:induction false} RatesAreNonNegative(o: Option<Stats>, history: seq<Occasion>)
    ensures forall i :: 0 <= i < |RatesOf(o, history)| ==> RatesOf(o, history)[i] >= 0.0
    decreases |history|
  {
    if history != [] { RatesAreNonNegative(After(o, history[0]), history[1..]); }
  }

  /** The envelope of a client's record, from its first request through any history whose rates lie between lo and hi.
      */
  lemma RecordStaysInEnvelope(history: seq<Occasion>, lo: real, hi: real, v: real)
    requires var rates := RatesOf(None, history);
      && rates != [] && rates[0] >= 0.01 && MaxReal(1.0, rates[0] * 0.2) <= v
      && forall i :: 0 <= i < |rates| ==> Within(rates[i], lo, hi)
    requires VarianceCap(v, Spread(lo, hi))
    ensures var (e, w) := Estimates(AfterAll(None, history));
      && e >= 0.01 && 0.0 <= w <= v
      && (|RatesOf(None, history)| > 1 ==> Within(e, R2(lo), R2(hi)))
  {
    var rates := RatesOf(None, history);
    HistoryIsObserved(None, history);
    RatesAreNonNegative(None, history);
    EstimatesStayInEnvelope(rates[0], rates[1..], lo, hi, v);
    assert [rates[0]] + rates[1..] == rates;
  }

  // ---------------------------------------------------------------- windows

  function CountRequests(window: seq<Occasion>): nat {
    if window == [] then 0 else CountRequests(window[..|window| - 1]) + if window[|window| - 1].Requested? then 1 else 0
  }

  /** Until ten seconds after it began, a window only gathers requests: its count grows with each of them, and
      evaluations that come earlier change nothing. */
  lemma {:induction false} WindowHoldsRequests(s: Stats, window: seq<Occasion>, n: nat)
    requires n <= |window|
    requires forall i :: 0 <= i < |window| && window[i].Evaluated? ==> window[i].now - s.windowStart < 10000
    ensures AfterEach(Some(s), window[..n]) ==
      Some(s.(windowCount := s.windowCount + CountRequests(window[..n]),
              totalRequests := s.totalRequests + CountRequests(window[..n])))
    decreases n
  {
    if n > 0 {
      WindowHoldsRequests(s, window, n - 1);
      assert window[..n][..n - 1] == window[..n - 1];
    }
  }

  /** The record after a history, seen from its end. */
  function AfterEach(o: Option<Stats>, history: seq<Occasion>): Option<Stats> {
    if history == [] then o else After(AfterEach(o, history[..|history| - 1]), history[|history| - 1])
  }

  lemma {:induction false} AfterSnoc(o: Option<Stats>, history: seq<Occasion>, e: Occasion)
    ensures AfterAll(o, history + [e]) == After(AfterAll(o, history), e)
    decreases |history|
  {
    if history == [] {
      assert ([] + [e])[1..] == [];
    } else {
      assert (history + [e])[1..] == history[1..] + [e];
      AfterSnoc(After(o, history[0]), history[1..], e);
    }
  }

  lemma {:induction false} SameFromBothEnds(o: Option<Stats>, history: seq<Occasion>)
    ensures AfterEach(o, history) == AfterAll(o, history)
  {
    if history != [] {
      var front, e := history[..|history| - 1], history[|history| - 1];
      SameFromBothEnds(o, front);
      AfterSnoc(o, front, e);
      assert front + [e] == history;
    }
  }

  /** A client's first request opens its first window. */
  lemma FirstRequestOpens(now: int)
    ensures After(None, Requested(now)) == Some(Stats(0.0, 1.0, 1, now, 1))
  {
  }

  /** A rate is requests per minute. */
  lemma RateIsPerMinute(count: nat, elapsedMs: int)
    requires elapsedMs > 0
    ensures Rate(count, elapsedMs) * elapsedMs as real == 60000.0 * count as real
  {
    var c, e := count as real, elapsedMs as real;
    assert c / (e / 1000.0) * (e / 1000.0) == c;
  }

  /** An evaluation ten seconds or more after the window began closes it: it observes the rate of the window, and the
      next window begins empty. */
  lemma EvaluateCloses(s: Stats, now: int)
    requires now - s.windowStart >= 10000
    ensures var (e, v) := Observe(s.ewma, s.variance, Rate(s.windowCount, now - s.windowStart));
      After(Some(s), Evaluated(now)) == Some(Stats(e, v, 0, now, s.totalRequests))
  {
  }

  /** So what is evaluated is a record that has counted all requests since its window began. */
  lemma WindowCloses(s: Stats, window: seq<Occasion>, now: int)
    requires forall i :: 0 <= i < |window| && window[i].Evaluated? ==> window[i].now - s.windowStart < 10000
    ensures var counted := s.(windowCount := s.windowCount + CountRequests(window),
                              totalRequests := s.totalRequests + CountRequests(window));
      AfterAll(Some(s), window + [Evaluated(now)]) == After(Some(counted), Evaluated(now))
  {
    WindowHoldsRequests(s, window, |window|);
    assert window[..|window|] == window;
    SameFromBothEnds(Some(s), window);
    AfterSnoc(Some(s), window, Evaluated(now));
  }

  /** What observing a rate does. The first one sets the baseline, and the variance to a fifth of it, at least 1;
      later ones move the baseline three tenths of the way, and give the variance seven tenths of itself and of three
      tenths of the squared deviation, each rounded to the nearest hundredth. */
  lemma ObserveIsNear(ewma: real, variance: real, rate: real)
    ensures var (e, v) := Observe(ewma, variance, rate);
      && (ewma == 0.0 ==> e == rate && v == if rate < 5.0 then 1.0 else rate / 5.0)
      && (ewma != 0.0 ==>
            && -0.005 < e - (0.3 * rate + 0.7 * ewma) <= 0.005
            && -0.005 < v - 0.7 * (variance + 0.3 * ((rate - ewma) * (rate - ewma))) <= 0.005)
  {
    R2IsNear(0.3 * rate + 0.7 * ewma);
    R2IsNear(0.7 * (variance + 0.3 * Square(rate - ewma)));
  }

  /** Rounding to hundredths moves a number by at most half a hundredth, halves up. */
  lemma R2IsNear(x: real)
    ensures -0.005 < R2(x) - x <= 0.005
  {
    var n := (100.0 * x + 0.5).Floor;
    assert n as real <= 100.0 * x + 0.5 < n as real + 1.0;
    assert R2(x) * 100.0 == n as real;
  }

  // ---------------------------------------------------------------- the detector object

  class AnomalyDetector {
    const enabled: bool
    var ipStats: map<Ip, Stats>

    constructor (enabled: bool)
      ensures this.enabled == enabled && ipStats == map[]
    {
      this.enabled := enabled;
      ipStats := map[];
    }

    method RecordRequest(ip: Ip, now: int)
      modifies this
      ensures !enabled || ip == "" ==> ipStats == old(ipStats)
      ensures enabled && ip != "" ==>
        ipStats == old(ipStats)[ip := Recorded(Lookup(old(ipStats), ip), now)]
    {
      if !enabled || ip == "" { return; }
      if ip !in ipStats { ipStats := ipStats[ip := Stats(0.0, 1.0, 0, now, 0)]; }
      var s := ipStats[ip];
      s := s.(windowCount := s.windowCount + 1);
      s := s.(totalRequests := s.totalRequests + 1);
      ipStats := ipStats[ip := s];
    }

    method EvaluateWindows(now: int)
      modifies this
      ensures ipStats.Keys == old(ipStats).Keys
      ensures forall ip :: ip in ipStats ==> ipStats[ip] == Evaluate(old(ipStats)[ip], now)
    {
      var todo := ipStats.Keys;
      while todo != {}
        invariant todo <= ipStats.Keys == old(ipStats).Keys
        invariant forall ip :: ip in ipStats ==>
          ipStats[ip] == if ip in todo then old(ipStats)[ip] else Evaluate(old(ipStats)[ip], now)
        decreases |todo|
      {
        var ip :| ip in todo;
        todo := todo - {ip};
        var s := EvaluateWindow(ipStats[ip], now);
        ipStats := ipStats[ip := s];
      }
    }

    /** One client's window: the body of the evaluation loop. */
    method EvaluateWindow(stats: Stats, now: int) returns (s: Stats)
      ensures s == Evaluate(stats, now)
    {
      s := stats;
      var elapsed := now - s.windowStart;
      if elapsed < WINDOW_MS { return; }
      var rate := Rate(s.windowCount, elapsed);
      s := s.(windowStart := now, windowCount := 0);
      if s.ewma == 0.0 {
        s := s.(ewma := rate, variance := MaxReal(1.0, rate * 0.2));
        return;
      }
      var diff := rate - s.ewma;
      s := s.(ewma := R2(0.3 * rate + 0.7 * s.ewma));
      s := s.(variance := R2(0.7 * (s.variance + 0.3 * Square(diff))));
    }
  }
}
