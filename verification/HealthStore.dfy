/**
 The health store: the sliding window of check results, the counters, and the rules that set a backend's flags.
 Latencies and timestamps of the checks decide nothing and are not kept.
 */
module HealthStore {
  import opened BackendPool

  const HISTORY_LIMIT: nat := 20

  datatype HealthStats = HealthStats(
    checks: seq<bool>,
    consecutiveFailures: nat,
    consecutiveSuccesses: nat,
    totalChecks: nat,
    successfulChecks: nat)

  const NO_CHECKS: HealthStats := HealthStats([], 0, 0, 0, 0)

  // ---------------------------------------------------------------- one result

  function Count(checks: seq<bool>): nat {
    if checks == [] then 0 else Count(checks[..|checks| - 1]) + if checks[|checks| - 1] then 1 else 0
  }

  /** Appends to the window and drops the oldest result beyond the limit. */
  function Push(checks: seq<bool>, success: bool): seq<bool> {
    var grown := checks + [success];
    if |grown| > HISTORY_LIMIT then grown[1..] else grown
  }

  function Record(st: HealthStats, success: bool): HealthStats {
    HealthStats(
      Push(st.checks, success),
      if success then 0 else st.consecutiveFailures + 1,
      if success then st.consecutiveSuccesses + 1 else 0,
      st.totalChecks + 1,
      st.successfulChecks + if success then 1 else 0)
  }

  /** successRate < 90, where successRate is the percentage of successes in the window. */
  predicate LowSuccessRate(checks: seq<bool>) {
    10 * Count(checks) < 9 * |checks|
  }

  /** The rules of `updateBackendHealthState`. */
  function Judge(s: BackendState, st: HealthStats): BackendState {
    if s.adminDisabled then s.(healthy := false, status := Unhealthy)
    else if st.consecutiveFailures >= 3 then s.(healthy := false, status := Unhealthy)
    else if st.consecutiveSuccesses >= 2 && !s.healthy then s.(healthy := true, status := Healthy)
    else if st.consecutiveFailures > 0 || LowSuccessRate(st.checks) then s.(healthy := true, status := Degraded)
    else s.(healthy := true, status := Healthy)
  }

  /** The manual override of the health route. */
  function Overridden(s: BackendState, healthy: bool): BackendState {
    s.(adminDisabled := !healthy, healthy := healthy, status := if healthy then Healthy else Unhealthy)
  }

  function OverriddenStats(st: HealthStats, healthy: bool): HealthStats {
    st.(consecutiveFailures := if healthy then 0 else 3, consecutiveSuccesses := if healthy then 2 else 0)
  }

  // ---------------------------------------------------------------- the window refines the log of results

  function RecordAll(log: seq<bool>): HealthStats {
    if log == [] then NO_CHECKS else Record(RecordAll(log[..|log| - 1]), log[|log| - 1])
  }

  function LastN(log: seq<bool>, n: nat): seq<bool> {
    if |log| <= n then log else log[|log| - n..]
  }

  /** The last n results exist and are all equal to `outcome`. */
  predicate LastAre(log: seq<bool>, n: nat, outcome: bool) {
    |log| >= n && forall i :: |log| - n <= i < |log| ==> log[i] == outcome
  }

  lemma PushIsLast(log: seq<bool>, success: bool)
    ensures Push(LastN(log, HISTORY_LIMIT), success) == LastN(log + [success], HISTORY_LIMIT)
  {
  }

  lemma {:induction false} CountersAreTails(log: seq<bool>, n: nat)
    requires n >= 1
    ensures RecordAll(log).consecutiveFailures >= n <==> LastAre(log, n, false)
    ensures RecordAll(log).consecutiveSuccesses >= n <==> LastAre(log, n, true)
    decreases |log|
  {
    if log != [] {
      var front, last := log[..|log| - 1], log[|log| - 1];
      if n >= 2 {
        CountersAreTails(front, n - 1);
        assert forall b :: LastAre(log, n, b) <==> last == b && LastAre(front, n - 1, b) by {
          forall b ensures LastAre(log, n, b) <==> last == b && LastAre(front, n - 1, b) {
            assert forall i :: 0 <= i < |front| ==> front[i] == log[i];
          }
        }
      }
    }
  }

  lemma {:induction false} WindowIsLastN(log: seq<bool>)
    ensures var st := RecordAll(log);
      && st.checks == LastN(log, HISTORY_LIMIT)
      && st.totalChecks == |log| && st.successfulChecks == Count(log)
  {
    if log != [] {
      var front, last := log[..|log| - 1], log[|log| - 1];
      WindowIsLastN(front);
      PushIsLast(front, last);
      assert front + [last] == log;
    }
  }

  /** The stored window is the last min(20, total) results of the log, and the totals and streaks are those of the
      log. */
  lemma WindowIsLog(log: seq<bool>)
    ensures var st := RecordAll(log);
      && st.checks == (if |log| <= 20 then log else log[|log| - 20..])
      && st.totalChecks == |log| && st.successfulChecks == Count(log)
  {
    WindowIsLastN(log);
  }

  /** The verdict on the log, for a backend that is not disabled: removed exactly after three failures in a row;
      degraded exactly when it serves, is not just rejoining on two successes, and failed last or fell under 90
      percent. */
  lemma VerdictOnLog(s: BackendState, log: seq<bool>)
    requires !s.adminDisabled && log != []
    ensures var t, window := Judge(s, RecordAll(log)), if |log| <= 20 then log else log[|log| - 20..];
      && (t.healthy <==> !LastAre(log, 3, false))
      && (t.status == Unhealthy <==> LastAre(log, 3, false))
      && (t.status == Degraded <==>
            !LastAre(log, 3, false) && !(LastAre(log, 2, true) && !s.healthy)
            && (!log[|log| - 1] || 100 * Count(window) < 90 * |window|))
      && (t.status == Healthy || t.status == Degraded || t.status == Unhealthy)
  {
    WindowIsLog(log);
    CountersAreTails(log, 1);
    CountersAreTails(log, 2);
    CountersAreTails(log, 3);
  }

  /** Count is the number of successes. */
  lemma {:induction false} CountIsNumber(checks: seq<bool>)
    ensures Count(checks) == |set i | 0 <= i < |checks| && checks[i]|
  {
    var all := set i | 0 <= i < |checks| && checks[i];
    if checks != [] {
      var front := checks[..|checks| - 1];
      var before := set i | 0 <= i < |front| && front[i];
      CountIsNumber(front);
      assert all == before + if checks[|checks| - 1] then {|checks| - 1} else {};
    }
  }

  function RecordFrom(st: HealthStats, log: seq<bool>): HealthStats {
    if log == [] then st else Record(RecordFrom(st, log[..|log| - 1]), log[|log| - 1])
  }

  lemma {:induction false} StreakAfterOverride(st: HealthStats, log: seq<bool>, n: nat)
    requires n >= 1
    ensures RecordFrom(OverriddenStats(st, true), log).consecutiveFailures >= n <==> LastAre(log, n, false)
    decreases |log|
  {
    if log != [] {
      var front, last := log[..|log| - 1], log[|log| - 1];
      if n >= 2 {
        StreakAfterOverride(st, front, n - 1);
        assert LastAre(log, n, false) <==> !last && LastAre(front, n - 1, false) by {
          assert forall i :: 0 <= i < |front| ==> front[i] == log[i];
        }
      }
    }
  }

  /** A healthy override forgives: whatever the store held, it takes three failures in a row after it to remove the
      backend. And it credits: the first check passed by a backend that left the rotation meanwhile makes it fully
      healthy, whatever its window. */
  lemma VerdictAfterOverride(s: BackendState, st: HealthStats, log: seq<bool>)
    requires !s.adminDisabled && log != []
    ensures var t := Judge(s, RecordFrom(OverriddenStats(st, true), log));
      && (t.healthy <==> !LastAre(log, 3, false))
      && (log == [true] && !s.healthy ==> t.status == Healthy)
  {
    StreakAfterOverride(st, log, 3);
    if log == [true] { assert log[..0] == []; }
  }

  /** A disabled backend is unhealthy after every check, whatever the store holds. */
  lemma DisabledStaysUnhealthy(s: BackendState, st: HealthStats, healthy: bool)
    ensures var t := Overridden(s, healthy);
      && t.adminDisabled == !healthy && t.healthy == healthy
      && t.status == (if healthy then Healthy else Unhealthy)
      && (!healthy ==> !Judge(t, st).healthy && Judge(t, st).status == Unhealthy)
  {
  }

  // ---------------------------------------------------------------- the store object

  class HealthStoreManager {
    const pool: seq<Backend>
    var stats: map<Id, HealthStats>

    constructor (pool: seq<Backend>)
      ensures this.pool == pool && stats == NoChecks(|pool|)
    {
      this.pool := pool;
      stats := NoChecks(|pool|);
    }

    method RecordResult(id: Id, success: bool)
      requires ValidPool(pool)
      modifies this, pool`healthy, pool`status
      ensures id !in old(stats) ==> stats == old(stats)
      ensures id in old(stats) ==> stats == old(stats)[id := Record(old(stats)[id], success)]
      ensures forall i :: 0 <= i < |pool| ==>
        pool[i].State() ==
          if i == id && id in old(stats) then Judge(old(pool[i].State()), stats[id]) else old(pool[i].State())
    {
      if id !in stats { return; }
      var st := stats[id];
      st := st.(totalChecks := st.totalChecks + 1);
      if success {
        st := st.(successfulChecks := st.successfulChecks + 1,
                  consecutiveFailures := 0, consecutiveSuccesses := st.consecutiveSuccesses + 1);
      } else {
        st := st.(consecutiveFailures := st.consecutiveFailures + 1, consecutiveSuccesses := 0);
      }
      var checks := st.checks + [success];
      if |checks| > HISTORY_LIMIT { checks := checks[1..]; }
      st := st.(checks := checks);
      stats := stats[id := st];
      if id < |pool| { UpdateBackendHealthState(id, st); }
    }

    method CountSuccesses(checks: seq<bool>) returns (n: nat)
      ensures n == Count(checks)
    {
      n := 0;
      for i := 0 to |checks|
        invariant n == Count(checks[..i])
      {
        assert checks[..i + 1][..i] == checks[..i];
        if checks[i] { n := n + 1; }
      }
      assert checks[..|checks|] == checks;
    }

    method UpdateBackendHealthState(id: Id, st: HealthStats)
      requires ValidPool(pool) && id < |pool|
      modifies pool`healthy, pool`status
      ensures pool[id].State() == Judge(old(pool[id].State()), st)
      ensures forall i :: 0 <= i < |pool| && i != id ==> pool[i].State() == old(pool[i].State())
    {
      var backend := pool[id];
      if backend.adminDisabled {
        backend.healthy, backend.status := false, Unhealthy;
        return;
      }
      var successes := CountSuccesses(st.checks);
      if st.consecutiveFailures >= 3 {
        backend.healthy, backend.status := false, Unhealthy;
      } else if st.consecutiveSuccesses >= 2 && !backend.healthy {
        backend.healthy, backend.status := true, Healthy;
      } else if st.consecutiveFailures > 0 || 10 * successes < 9 * |st.checks| {
        backend.status := Degraded;
        backend.healthy := st.consecutiveFailures < 3;
      } else {
        backend.healthy, backend.status := true, Healthy;
      }
    }

    method Override(id: Id, healthy: bool) returns (found: bool)
      requires ValidPool(pool)
      modifies this, pool`healthy, pool`status, pool`adminDisabled
      ensures found == (id < |pool|)
      ensures stats == if id < |pool| && id in old(stats)
        then old(stats)[id := OverriddenStats(old(stats)[id], healthy)] else old(stats)
      ensures forall i :: 0 <= i < |pool| ==>
        pool[i].State() == if i == id then Overridden(old(pool[i].State()), healthy) else old(pool[i].State())
      ensures found ==> pool[id].adminDisabled == !healthy && pool[id].healthy == healthy
      ensures id < |pool| && id in old(stats) ==>
        && stats[id].consecutiveFailures == (if healthy then 0 else 3)
        && stats[id].consecutiveSuccesses == (if healthy then 2 else 0)
    {
      if id >= |pool| { return false; }
      pool[id].adminDisabled, pool[id].healthy := !healthy, healthy;
      pool[id].status := if healthy then Healthy else Unhealthy;
      if id in stats {
        stats := stats[id := stats[id].(consecutiveFailures := if healthy then 0 else 3,
                                        consecutiveSuccesses := if healthy then 2 else 0)];
      }
      found := true;
    }
  }

  function NoChecks(n: nat): (m: map<Id, HealthStats>)
    ensures forall i: nat :: i in m <==> i < n
    ensures forall i: nat :: i in m ==> m[i] == NO_CHECKS
  {
    if n == 0 then map[] else NoChecks(n - 1)[n - 1 := NO_CHECKS]
  }
}
