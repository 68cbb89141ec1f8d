/** The performance score that scales the round-robin weights and breaks least-connections ties. */
module MetricsScore {

  function Min(a: real, b: real): real { if a <= b then a else b }

  /** Math.round: halves go up. */
  function Round(x: real): int { (x + 0.5).Floor }

  function CalculateScore(healthy: bool, avgLatency: real, errorRate: real, activeConnections: nat): nat {
    if !healthy then 0
    else
      var score := 100.0 - Min(40.0, avgLatency / 10.0) - (errorRate / 100.0) * 50.0
                   - Min(30.0, activeConnections as real * 5.0);
      if Round(score) < 0 then 0 else Round(score)
  }

  /** The percentage, rounded to hundredths, of failed requests among those in the window. */
  function ErrorRate(errors: nat, requests: nat): real
    requires requests > 0
  {
    Round((errors as real / requests as real) * 10000.0) as real / 100.0
  }

  lemma ErrorRateIsPercentage(errors: nat, requests: nat)
    requires 0 < requests && errors <= requests
    ensures 0.0 <= ErrorRate(errors, requests) <= 100.0
  {
    var e, r := errors as real, requests as real;
    assert e / r <= 1.0 by { assert e / r * r == e; }
    assert 0.0 <= e / r;
  }

  /** The rate is the hundredth nearest to the true percentage, halves up. */
  lemma ErrorRateIsNearest(errors: nat, requests: nat) returns (hundredths: int)
    requires requests > 0
    ensures ErrorRate(errors, requests) == hundredths as real / 100.0
    ensures -(requests as int) < 2 * (hundredths * requests - 10000 * errors) <= requests
  {
    hundredths := Round((errors as real / requests as real) * 10000.0);
    var e, r := errors as real, requests as real;
    var x := e / r * 10000.0;
    assert e / r * r == e;
    assert x * r == 10000.0 * e;
    RoundNearest(x, hundredths, r, 10000.0 * e);
  }

  lemma RoundNearest(x: real, n: int, r: real, product: real)
    requires n == Round(x) && r > 0.0 && x * r == product
    ensures -r < 2.0 * (n as real * r - product) <= r
  {
    var d := n as real - x;
    Scale(d, r);
    Spread(n as real, x, r);
    assert d * r == n as real * r - product;
  }

  lemma Spread(a: real, b: real, r: real)
    ensures (a - b) * r == a * r - b * r
  {
  }

  lemma NonNegative(a: real, b: real)
    requires a >= 0.0 && b >= 0.0
    ensures a * b >= 0.0 && (a > 0.0 && b > 0.0 ==> a * b > 0.0)
  {
  }

  lemma Scale(d: real, r: real)
    requires -0.5 < d <= 0.5 && r > 0.0
    ensures -r < 2.0 * (d * r) <= r
  {
    NonNegative(d + 0.5, r);
    NonNegative(0.5 - d, r);
    Spread(d, -0.5, r);
    Spread(0.5, d, r);
  }

  /** What a perfect backend scores, and what each measurement costs: a point for every 10 ms of latency up to 400 ms,
      a point for every two percent of errors, five points for every connection up to six; an unhealthy backend scores
      nothing, and no score is negative. Stated for whole points p, q and connections c. */
  lemma ScoreCosts(p: nat, q: nat, active: nat)
    requires q <= 50
    ensures var points := 100 - (if p < 40 then p else 40) - q - (if active < 6 then 5 * active else 30);
      CalculateScore(true, 10.0 * p as real, 2.0 * q as real, active) == if points < 0 then 0 else points
    ensures CalculateScore(false, 10.0 * p as real, 2.0 * q as real, active) == 0
  {
    var points := 100 - (if p < 40 then p else 40) - q - (if active < 6 then 5 * active else 30);
    assert 10.0 * p as real / 10.0 == p as real;
    assert (2.0 * q as real / 100.0) * 50.0 == q as real;
    assert active as real * 5.0 == (5 * active) as real;
    var score := 100.0 - Min(40.0, 10.0 * p as real / 10.0) - (2.0 * q as real / 100.0) * 50.0
                 - Min(30.0, active as real * 5.0);
    assert score == points as real;
    assert Round(score) == points;
  }

  /** Between whole points the score is the nearest whole number, halves up. */
  lemma ScoreIsNearest(latency: real, rate: real, active: nat)
    requires 0.0 <= latency <= 400.0 && 0.0 <= rate <= 100.0 && active <= 6
    ensures var exact := 100.0 - latency / 10.0 - rate / 2.0 - 5.0 * active as real;
      var score := CalculateScore(true, latency, rate, active) as real;
      if exact < 0.0 then score == 0.0 else -0.5 < score - exact <= 0.5
  {
  }

  /** A score is a percentage, and worse measurements never raise it. */
  lemma ScoreIsAntitone(
    healthy: bool, latency: real, rate: real, active: nat, latency': real, rate': real, active': nat)
    requires 0.0 <= latency <= latency' && 0.0 <= rate <= rate' <= 100.0 && active <= active'
    ensures 0 <= CalculateScore(healthy, latency', rate', active')
    ensures CalculateScore(healthy, latency', rate', active') <= CalculateScore(healthy, latency, rate, active) <= 100
  {
    assert active as real <= active' as real;
  }
}
