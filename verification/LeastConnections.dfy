/** Least connections: fewest active connections, then best score, then first in the list. */
module LeastConnections {

  /** Member k has the fewest connections, among those the best score, and among those comes first. */
  ghost predicate Best(active: seq<nat>, scores: seq<nat>, k: nat)
    requires |active| == |scores|
  {
    && k < |active|
    && (forall j :: 0 <= j < |active| ==> active[k] <= active[j])
    && (forall j :: 0 <= j < |active| && active[j] == active[k] ==> scores[j] <= scores[k])
    && (forall j :: 0 <= j < k && active[j] == active[k] ==> scores[j] < scores[k])
  }

  /** The three criteria leave no choice. */
  lemma BestIsUnique(active: seq<nat>, scores: seq<nat>, k: nat, l: nat)
    requires |active| == |scores| && Best(active, scores, k) && Best(active, scores, l)
    ensures k == l
  {
    assert active[k] == active[l];
  }

  method Select(active: seq<nat>, scores: seq<nat>) returns (k: nat)
    requires |active| == |scores| > 0
    ensures Best(active, scores, k) && k < |active|
    ensures forall j :: 0 <= j < |active| ==> active[k] <= active[j]
    ensures forall j :: 0 <= j < |active| && active[j] == active[k] && j != k ==>
      if j < k then scores[j] < scores[k] else scores[j] <= scores[k]
  {
    // The first loop starts at Infinity, so its first element always wins.
    var minConnections := active[0];
    var tied: seq<nat> := [0];
    for i := 1 to |active|
      invariant tied != [] && forall a :: 0 <= a < |tied| ==> tied[a] < i
      invariant forall j :: 0 <= j < i ==> minConnections <= active[j]
      invariant forall j: nat :: j in tied <==> j < i && active[j] == minConnections
      invariant forall a, b :: 0 <= a < b < |tied| ==> tied[a] < tied[b]
    {
      if active[i] < minConnections {
        minConnections := active[i];
        tied := [i];
      } else if active[i] == minConnections {
        tied := tied + [i];
      }
    }
    k := tied[0];
    var bestScore: int := -1;
    for t := 0 to |tied|
      invariant k in tied && forall a :: 0 <= a < |tied| ==> tied[a] < |scores|
      invariant t == 0 ==> bestScore == -1
      invariant t > 0 ==> bestScore == scores[k]
      invariant forall s :: 0 <= s < t ==> scores[tied[s]] <= bestScore
      invariant forall s :: 0 <= s < t && tied[s] < k ==> scores[tied[s]] < bestScore
      invariant t > 0 ==> exists s :: 0 <= s < t && tied[s] == k
    {
      if scores[tied[t]] > bestScore {
        bestScore := scores[tied[t]];
        k := tied[t];
      }
    }
    forall j | 0 <= j < |active| && active[j] == active[k]
      ensures scores[j] <= scores[k] && (j < k ==> scores[j] < scores[k])
    {
      assert j in tied;
      var s :| 0 <= s < |tied| && tied[s] == j;
    }
  }
}
