# Verified model of the SentinelADC gateway's traffic decisions

SentinelADC is a Node.js reverse proxy and load balancer. This project models, in Dafny, the part of it that decides where
a request goes and whether it goes anywhere, and proves what those decisions guarantee. It has three groups.

* **Selection.** `RoundRobin`, `WeightedRoundRobin`, `ConsistentHash`, `LeastConnections`, `SimpleHash`, `MetricsScore`.
  The strategy objects are classes whose methods run the program's loops; each is proved equal to a specification
  function (`Pick`, `Walk`, `Best`, `Polynomial`), and fairness, termination and refinement are theorems about those.
* **Admission.** `RateLimiter` (memory bucket, Redis script, penalties, eviction) and `AnomalyDetector` (the recurrences).
* **The backend pool.** `BackendPool`, `HealthStore`, `CircuitBreaker`, `ConnectionDrain`, `Routing`, `ProxyRetry` model the
  components that write the same backend objects. `Gateway` is the state machine in which their synchronous stretches
  interleave: one event per health result, proxy response or error, routing, lease release, drain, undrain, timer, breaker
  reset, override, status page and clock tick. `GatewayProcess` is the program as objects; each of its methods is proved
  to take exactly one enabled step of that machine and to extend a ghost history that the machine's run leads along
  (`Process.Reached`), so the run theorems of `Gateway` are about those objects. Request objects carry their happenings
  in the retry protocol in the same way (`ProxiedRequest.Called`).

Time, the random draw of the backoff and the performance scores of a moment are arguments. Token quantities are exact: tokens
are held multiplied by `windowMs`, which keeps every quantity an integer. The 32-bit wrap-around of the string hash is written
out. `hash32` is an arbitrary function into the 32-bit range, so every theorem about consistent hashing holds with
collisions.

## What the code does that its documentation does not say

Each promise that fails is stated with its exact condition and with a run from the start that shows the failure.

* The design notes (docs/ARCHITECTURE.md:72) promise a trial probe once the cooldown of an open breaker is over. Tripping a
  breaker also clears the backend's `healthy` flag, which the filter tests before it asks the breaker. An open breaker gets
  its probe exactly when the cooldown is over and something has set the flag again (`Gateway.ProbeExactly`); through a run
  the flag stays down exactly while no cause of rejoining occurs (`Gateway.StaysOutExactly`); and after enough failed
  requests alone no wait leads to a probe (`Gateway.CooldownAloneNeverProbes`, `Gateway.TrippedIsNotProbed`).
* Draining does not keep a backend out of rotation: one passed health check puts it back, and a request is routed to it
  (`Gateway.HealthCheckUndoesDrain`, `Gateway.DrainedBackendIsChosenAgain`). It stays out of a run exactly when no cause
  of rejoining occurs in it (`Gateway.DrainStaysOutExactly`).
* An open breaker does not keep its backend unhealthy. Exactly three events on an open breaker break the rule: a first or
  second failed check, an undrain and a healthy override (`Gateway.OpenAndHealthyExactly`, over runs
  `Gateway.OpenStaysOutExactly`, reached from the start in `Gateway.TrippedRejoinsOnFailure`).
* One success is enough to rejoin, except for a disabled backend whose breaker it does not close
  (`Gateway.OneSuccessRejoins`, from the start `Gateway.OneSuccessAfterFailures`, and on the objects
  `GatewayProcess.Process.FailThenPass`).
* A granted probe need not be sent: routing elsewhere or showing the status page spends it, the first of a half-open episode
  as well as a later one (`Gateway.UnchosenProbeIsSpent`, `Gateway.StatusPageSpendsProbe`, and from the start
  `Gateway.ProbeIsLost` and `Gateway.SecondProbeIsLost`). Whatever the strategy, a routing is sure to send it exactly when
  the backend is the only admissible one (`Gateway.ProbeIsSentExactly`); a strategy in force may be sure of more, through
  its own pick.
* Consistent hashing is documented as a clockwise walk past unhealthy nodes, but the ring is rebuilt from the healthy ones.
  The two agree (`ConsistentHash.SelectIsClockwiseWalk`, `Routing.ChoiceIsClockwiseWalk`).
* Memory eviction is invisible exactly for windows of at most 300001 ms (`RateLimiter.EvictionInvisibleIff`), and for exactly
  these windows no history admits more than the limiter's rate (`RateLimiter.AdmissionBoundIff`).

## Model

| member | source | states |
|---|---|---|
| WeightedRoundRobin.EuclidIsGcd | src/routing/strategies/weightedRoundRobin.js:33-40 | the result of `gcd` is positive and its divisors are exactly the common divisors |
| WeightedRoundRobin.Gcd | src/routing/strategies/weightedRoundRobin.js:33-40 | the loop computes Euclid's recursion |
| WeightedRoundRobin.GcdOfDivides | src/routing/strategies/weightedRoundRobin.js:45-51 | a number divides the pool's gcd exactly when it divides every weight |
| WeightedRoundRobin.WeightedRoundRobinStrategy.GetGcdOfWeights | src/routing/strategies/weightedRoundRobin.js:45-51 | the loop computes that gcd |
| WeightedRoundRobin.MaxOfIsMax | src/routing/strategies/weightedRoundRobin.js:56-62 | the maximum is attained and bounds every weight |
| WeightedRoundRobin.WeightedRoundRobinStrategy.GetMaxWeight | src/routing/strategies/weightedRoundRobin.js:56-62 | the loop computes that maximum |
| WeightedRoundRobin.DynamicWeightBounds | src/routing/strategies/weightedRoundRobin.js:72-83 | a virtual weight is at least 1, never above the configured weight, and equal to it at score 100 |
| WeightedRoundRobin.DynamicWeightIsNearest | src/routing/strategies/weightedRoundRobin.js:76-77 | a virtual weight is max(1, the whole number nearest to weight * score / 100, halves up), a weight of 0 counting as 1 |
| WeightedRoundRobin.WeightedRoundRobinStrategy.Select | src/routing/strategies/weightedRoundRobin.js:70-112 | the unbounded search terminates from every leftover state, on the state that `Pick` specifies, and answers a member of the pool |
| WeightedRoundRobin.TurnMakesProgress | src/routing/strategies/weightedRoundRobin.js:97-111 | a turn that selects nobody lowers the termination measure, also when the weight is reset upwards |
| WeightedRoundRobin.SelectIsBounded | src/routing/strategies/weightedRoundRobin.js:97-111 | a search takes at most n * (ceil(max(0, currentWeight - max) / gcd) + 2) turns |
| WeightedRoundRobin.RunServesCycle | src/routing/strategies/weightedRoundRobin.js:97-111 | from the initial state the selections are the level-by-level cycle, which then starts again |
| WeightedRoundRobin.OneCycle | src/routing/strategies/weightedRoundRobin.js:97-111 | one period of sum/gcd selections picks member i exactly w[i]/gcd times and ends in (n-1, gcd) |
| WeightedRoundRobin.ExactlyProportional | src/routing/strategies/weightedRoundRobin.js:70-112 | the same for every window of one period, at any offset |
| WeightedRoundRobin.Periodic | src/routing/strategies/weightedRoundRobin.js:70-112 | the selections repeat with that period |
| WeightedRoundRobin.SelfStabilizes | src/routing/strategies/weightedRoundRobin.js:70-112 | from any state another pool or other weights left behind, selection becomes exactly proportional after at most n * (max / gcd) + 1 calls and stays so |
| WeightedRoundRobin.EqualWeightsIsRoundRobin | src/routing/strategies/weightedRoundRobin.js:70-112 | with equal weights the sequence is plain round robin's |
| RoundRobin.RoundRobinStrategy.Select | src/routing/strategies/roundRobin.js:29-37 | the member index % n, and the index advanced modulo n, from any index |
| RoundRobin.RoundRobinCycles | src/routing/strategies/roundRobin.js:29-37 | the k-th selection from any index, a shrunken pool's included, is (index + k) % n, so n in a row select every member once |
| ConsistentHash.StableSortIsCorrect | src/routing/strategies/consistentHash.js:72 | ascending, the same entries, and entries with equal hashes keep their order |
| ConsistentHash.SortFilter | src/routing/strategies/consistentHash.js:57-74 | sorting the entries of the backends kept is restricting the sorted ring to them |
| ConsistentHash.ConsistentHashStrategy.BuildRing | src/routing/strategies/consistentHash.js:57-74 | the ring is sorted and holds, for every backend and every i below vnodesPerWeight * max(1, weight), the entry of the key `id#vnode-i` under its hash, and nothing else |
| ConsistentHash.RingShares | src/routing/strategies/consistentHash.js:60-69 | every backend owns exactly vnodesPerWeight * max(1, weight) entries of the ring |
| ConsistentHash.DecimalReads | src/routing/strategies/consistentHash.js:65 | the numeral in a key is digits without leading zeros that read back as the number |
| ConsistentHash.KeysDiffer | src/routing/strategies/consistentHash.js:65 | ids without '#' give different virtual nodes different keys |
| ConsistentHash.RingIsDistinct | src/routing/strategies/consistentHash.js:65-67 | a hash without collisions on the keys gives a ring without collisions |
| ConsistentHash.CollisionsInListOrder | src/routing/strategies/consistentHash.js:71-72 | where hashes collide the ring keeps the order of the backends handed over |
| ConsistentHash.ConsistentHashStrategy.FindRingIndex | src/routing/strategies/consistentHash.js:83-103 | the binary search returns the leftmost entry at or after the target, or 0 past the end |
| ConsistentHash.OwnerIsWalk | src/routing/strategies/consistentHash.js:26-28 | looking up the restricted ring is walking the full one clockwise past what is excluded |
| ConsistentHash.SelectIsClockwiseWalk | src/routing/strategies/consistentHash.js:111-138 | selection among the healthy backends is the documented clockwise walk over the whole pool's ring, for every hash function, key and subset |
| ConsistentHash.ExclusionMovesOnlyItsKeys | src/routing/strategies/consistentHash.js:17-17 | failover moves only the keys of the excluded backends |
| ConsistentHash.AdditionMovesOnlyOntoNew | src/routing/strategies/consistentHash.js:19-23 | adding a backend anywhere moves keys only onto it |
| ConsistentHash.RaisingWeightMovesOnlyOntoIt | src/routing/strategies/consistentHash.js:61-68 | raising a weight moves keys only onto that backend |
| ConsistentHash.ConsistentHashStrategy.Select | src/routing/strategies/consistentHash.js:111-138 | nothing for an empty list, otherwise the first backend whose id owns the key |
| LeastConnections.Select | src/routing/strategies/leastConnections.js:30-60 | fewest connections, then best score, then first in the list |
| LeastConnections.BestIsUnique | src/routing/strategies/leastConnections.js:30-60 | those criteria determine the answer |
| SimpleHash.MixIsHorner | src/utils/helpers.js:48-49 | a wrapping step is 31 * p + c modulo 2^32 |
| SimpleHash.PolynomialSnoc | src/utils/helpers.js:46-48 | one more character multiplies the sum by 31 and adds its code |
| SimpleHash.Hash | src/utils/helpers.js:44-52 | the loop returns the one number up to 2^31 that is the sum of s[i] * 31^(len-1-i) or its negative modulo 2^32 |
| SimpleHash.HashIsUnique | src/utils/helpers.js:44-52 | there is one such number |
| SimpleHash.SelectByIp | src/routing/strategies/ipHash.js:31-39 | the index is that hash modulo the length, in range |
| SimpleHash.IpIndexIsRemainder | src/routing/strategies/ipHash.js:33-34 | the index is the remainder of the hash by the number of backends |
| MetricsScore.ScoreIsAntitone | src/metrics/metricsStore.js:124-142 | a score is within 0 and 100, and no worse measurement raises it |
| MetricsScore.ScoreCosts | src/metrics/metricsStore.js:124-142 | from 100: a point per 10 ms up to 400 ms, a point per two percent of errors, five per connection up to six; never below 0, and 0 for an unhealthy backend |
| MetricsScore.ScoreIsNearest | src/metrics/metricsStore.js:141 | between whole points the score is the nearest whole number, halves up |
| MetricsScore.ErrorRateIsNearest | src/metrics/metricsStore.js:101-102 | the error rate is the hundredth nearest to the true percentage, halves up |
| MetricsScore.ErrorRateIsPercentage | src/metrics/metricsStore.js:101-102 | the rounded error rate is within 0 and 100 |
| RateLimiter.MemoryRateLimiter.EvalTokenBucketMemory | src/security/rateLimiter.js:130-157 | the refill and the take, on the map, are the bucket rule |
| RateLimiter.MemoryRateLimiter.Handle | src/security/rateLimiter.js:187-230 | the penalty's capacity, its expiry, the decision, the reset time and Retry-After |
| RateLimiter.LimitFollowsLog | src/security/rateLimiter.js:192-200 | over every history: the limit answered is the maximum of the client's last penalty, if that was not removed and the request comes before its time plus its duration; otherwise the configured maximum |
| RateLimiter.BurstIsCapacity | src/security/rateLimiter.js:130-147 | of k requests at one moment of a new, unpenalised client exactly min(k, maxRequests) are admitted |
| RateLimiter.BackwardClock | src/security/rateLimiter.js:136-137 | a clock that went back refills nothing |
| RateLimiter.MemoryRateLimiter.ApplyPenalty | src/security/rateLimiter.js:94-100 | the penalty is recorded with its end |
| RateLimiter.MemoryRateLimiter.RemovePenalty | src/security/rateLimiter.js:105-107 | the penalty is removed, and whether there was one |
| RateLimiter.MemoryRateLimiter.CleanupMemoryStore | src/security/rateLimiter.js:112-125 | both loops together keep exactly the buckets idle for at most 300000 ms and the penalties not past their end |
| RateLimiter.RetryIsLeast | src/security/rateLimiter.js:149-150 | retryAfterMs is the least wait that completes a token |
| RateLimiter.ThrottleIsExact | src/security/rateLimiter.js:130-157 | after a denial the IP is admitted exactly from now + retryAfterMs on, with denied calls in between |
| RateLimiter.RetryAfterSuffices | src/security/rateLimiter.js:228-230 | waiting the Retry-After seconds suffices, and one second less does not |
| RateLimiter.RemainingFits | src/security/rateLimiter.js:141-155 | the remaining tokens reported are the largest whole number really there, at most the capacity; an admission asks for no wait |
| RateLimiter.FullAtReset | src/security/rateLimiter.js:222-222 | an untouched bucket is full at the reset time |
| RateLimiter.ResetIsLeast | src/security/rateLimiter.js:222 | the reset time is the least for what is reported: a bucket with exactly those tokens is full from then on and not before |
| RateLimiter.RunsAgree | src/security/rateLimiter.js:112-157 | for such windows, every answer of every multi-IP history equals that of a limiter that never evicts |
| RateLimiter.EvictionInvisibleIff | src/security/rateLimiter.js:112-125 | eviction at arbitrary moments is unobservable exactly when windowMs is at most 300001 |
| RateLimiter.AdmissionBound | src/security/rateLimiter.js:130-157 | in any stretch with capacity C an IP is admitted at most C + (C / windowMs) * duration times, a penalty's capacity included: at any window without a clean-up in the stretch, and with clean-ups anywhere at windows of at most 300001 ms |
| RateLimiter.AdmissionBoundIff | src/security/rateLimiter.js:112-157 | the bound holds of every stretch of every history exactly when windowMs is at most 300001 |
| RateLimiter.LongWindowOveradmits | src/security/rateLimiter.js:112-125 | at any longer window, a history from the empty limiter that admits a penalised client twice where its rate allows one |
| RateLimiter.ScriptAdmissionBound | src/security/rateLimiter.js:43-79 | the bound for the Redis script at every window, key expiry included |
| RateLimiter.TtlCoversWindow | src/security/rateLimiter.js:74-76 | the key's time to live covers a whole refill |
| RateLimiter.KeyLives | src/security/rateLimiter.js:74-76 | an untouched key can be read for exactly the window in whole seconds, rounded up, and 60 seconds more |
| RateLimiter.ScriptIsMemory | src/security/rateLimiter.js:43-79 | the script with key expiry gives the results of the memory algorithm, at any window and under changing capacities |
| AnomalyDetector.BaselineSurvives | src/security/anomalyDetector.js:111-127 | a baseline of at least 0.01 stays so whatever is observed; a silent window keeps it there exactly when it is at least 1/140 |
| AnomalyDetector.EstimatesStayInEnvelope | src/security/anomalyDetector.js:106-127 | the baseline stays between the rounded extremes of the observed rates, is never re-initialised, and the variance stays non-negative under its cap |
| AnomalyDetector.HistoryIsObserved | src/security/anomalyDetector.js:71-127 | through any history of requests and evaluations a client's estimates are the recurrences on the rates of its closed windows |
| AnomalyDetector.RecordStaysInEnvelope | src/security/anomalyDetector.js:71-127 | so the envelope holds of a client's record from its first request on |
| AnomalyDetector.WindowHoldsRequests | src/security/anomalyDetector.js:91-103 | until ten seconds after it began a window only counts requests, and evaluations change nothing |
| AnomalyDetector.WindowCloses | src/security/anomalyDetector.js:101-108 | what an evaluation closes has counted all requests since the window began |
| AnomalyDetector.EvaluateCloses | src/security/anomalyDetector.js:101-127 | ten seconds or more after it began a window is closed, its rate observed, and the next begins empty |
| AnomalyDetector.RateIsPerMinute | src/security/anomalyDetector.js:106 | the rate times the milliseconds is 60000 times the count |
| AnomalyDetector.ObserveIsNear | src/security/anomalyDetector.js:111-127 | the first rate sets the baseline and a variance of a fifth, at least 1; later ones give the stated mixtures, rounded to the nearest hundredth |
| AnomalyDetector.AnomalyDetector.RecordRequest | src/security/anomalyDetector.js:71-93 | creates the client's record on first sight and counts the request |
| AnomalyDetector.AnomalyDetector.EvaluateWindows | src/security/anomalyDetector.js:98-127 | the loop evaluates every client's window once |
| HealthStore.WindowIsLog | src/health/healthStore.js:55-86 | the window holds the last min(20, total) results, and the totals are the log's |
| HealthStore.CountIsNumber | src/health/healthStore.js:80 | the successes counted are those in the window |
| HealthStore.CountersAreTails | src/health/healthStore.js:63-70 | a streak counter reaches n exactly when the last n results agree |
| HealthStore.VerdictOnLog | src/health/healthStore.js:99-127 | a backend not disabled is removed exactly after three failures in a row, and degraded exactly when it serves, is not rejoining on two successes, and failed last or passed less than 90 percent of the last 20 |
| HealthStore.VerdictAfterOverride | src/health/healthRoutes.js:81-86 | after a healthy override it takes three failures in a row to remove the backend, and the first check passed by one that left meanwhile makes it fully healthy |
| HealthStore.DisabledStaysUnhealthy | src/health/healthStore.js:100-104 | a backend overridden to unhealthy is unhealthy after every check |
| HealthStore.HealthStoreManager.RecordResult | src/health/healthStore.js:55-93 | the counters, the window and the backend's flags after a result |
| HealthStore.HealthStoreManager.UpdateBackendHealthState | src/health/healthStore.js:99-127 | the rules, on the shared backend object |
| HealthStore.HealthStoreManager.Override | src/health/healthRoutes.js:68-86 | the override of flags and counters, and its not-found case |
| CircuitBreaker.RefinesHistory | src/resilience/circuitBreakerManager.js:100-168 | the counter is the number of failures since the last success or reset, and the circuit is closed exactly below the threshold |
| CircuitBreaker.CooldownHolds | src/resilience/circuitBreakerManager.js:100-129 | until a success, a reset or the end of the cooldown nothing is granted, and failures do not extend it |
| CircuitBreaker.TripStartsCooldown | src/resilience/circuitBreakerManager.js:112-181 | from a failure at t that opens the circuit nothing is granted before t + cooldownMs, and a later probe at u exactly when u - t >= cooldownMs |
| CircuitBreaker.ChangesAreStamped | src/resilience/circuitBreakerManager.js:176-181 | every change of circuit is stamped with its time, and nothing else touches the stamp |
| CircuitBreaker.DisabledIsInert | src/resilience/circuitBreakerManager.js:101-152 | a disabled breaker grants everything and records nothing, except for the manual reset |
| CircuitBreaker.ProbeBudget | src/resilience/circuitBreakerManager.js:110-126 | a half-open episode grants exactly probeCount calls, its first max(1, halfOpenMaxProbes) |
| CircuitBreaker.CircuitBreakerManager.CanExecute | src/resilience/circuitBreakerManager.js:100-129 | the permission, and the change of record and backend |
| CircuitBreaker.CircuitBreakerManager.RecordSuccess | src/resilience/circuitBreakerManager.js:135-144 | the change of record and backend |
| CircuitBreaker.CircuitBreakerManager.RecordFailure | src/resilience/circuitBreakerManager.js:151-168 | the change of record and backend |
| CircuitBreaker.CircuitBreakerManager.TransitionTo | src/resilience/circuitBreakerManager.js:176-214 | a transition to the current state does nothing; any other is stamped with the time and shown on the backend as unhealthy, degraded or healthy |
| CircuitBreaker.CircuitBreakerManager.ResetBreaker | src/resilience/circuitBreakerManager.js:253-259 | the reset, whether or not breakers are enabled |
| ConnectionDrain.ConnectionDrainManager.DrainBackend | src/admin/connectionDrainManager.js:43-97 | the drain with its four outcomes, on backend, timer map and pending timers (its deadline: Gateway.DrainLifecycle) |
| ConnectionDrain.ConnectionDrainManager.FinishDrain | src/admin/connectionDrainManager.js:104-124 | going offline clears timer and callback |
| ConnectionDrain.ConnectionDrainManager.UndrainBackend | src/admin/connectionDrainManager.js:130-150 | the cancelled drain, from every status |
| ConnectionDrain.ConnectionDrainManager.FireTimer | src/admin/connectionDrainManager.js:81-85 | the timer callback, a no-op unless the backend is draining |
| ConnectionDrain.ConnectionDrainManager.Decrement | src/proxy/proxyMiddleware.js:193-202 | the clamped decrement and the drain callback at zero |
| Routing.PassingIsServing | src/routing/routingEngine.js:41-43 | what passes the filter was healthy and its breaker is not open afterwards; it stays healthy unless it just became half open |
| Routing.RoutingEngine.GetHealthyBackends | src/routing/routingEngine.js:41-43 | the list in pool order, and the breaker and backend moves of the filter predicate |
| Routing.RoutingEngine.ExcludeFailed | src/routing/routingEngine.js:55-61 | failed backends are excluded unless that leaves none |
| Routing.RoutingEngine.Dispatch | src/routing/routingEngine.js:68-69 | each strategy answers as its module specifies, and only the strategy in force changes its own state |
| Routing.IdNameInjective | src/config/backends.js:38-39 | different positions have different ids |
| Routing.IdNameReads | src/config/backends.js:39 | an id is "backend-" and the decimal of the position counted from 1, without '#' |
| Routing.VnodeKeysDiffer | src/routing/strategies/consistentHash.js:65 | the keys of the pool's virtual nodes are all different |
| Routing.OnlyCandidates | src/routing/routingEngine.js:52-69 | what the engine hands to consistent hashing is the pool restricted to the candidates' ids |
| Routing.ChoiceIsClockwiseWalk | src/routing/strategies/consistentHash.js:26-28 | the engine's consistent-hash choice is the clockwise walk of the whole pool's ring past every backend that is no candidate |
| Routing.RoutingEngine.SelectBackend | src/routing/routingEngine.js:52-86 | for all five strategies: none exactly when nothing passed, otherwise the strategy's own pick among all admissible backends in pool order |
| ProxyRetry.BackoffRange | src/proxy/proxyMiddleware.js:75-78 | the delays that can be drawn are exactly 0 up to the cap, without it |
| ProxyRetry.CapDoubles | src/proxy/proxyMiddleware.js:75-78 | the cap starts at 50 ms and doubles with every attempt, up to 500 ms |
| ProxyRetry.HandlerDecides | src/proxy/proxyMiddleware.js:86-154 | the failed backend is excluded; the retry, exactly for retryable methods with attempts left and no headers sent, waits the drawn share of 200 ms and then of 400 ms; otherwise a 502 unless already answered |
| ProxyRetry.MethodsAreRetryable | src/proxy/proxyMiddleware.js:93-94 | retried are exactly requests whose method is unset, empty, or letter by letter GET, HEAD or OPTIONS in any ASCII case |
| ProxyRetry.WritesAreNotRetried | src/proxy/proxyMiddleware.js:94-108 | no POST, PUT, DELETE or PATCH is, in any letter case |
| ProxyRetry.FirstCallArrives | src/proxy/proxyMiddleware.js:267-271 | the wrapper's call of the proxy is a protocol step like a retry's |
| ProxyRetry.HappenKeepsBudget | src/proxy/proxyMiddleware.js:83-155 | every event keeps the budget; a 502 is sent only when no headers were |
| ProxyRetry.RetryBudget | src/proxy/proxyMiddleware.js:83-155 | under every interleaving: more than one try, and then at most three, only if the method is unset, empty, or GET, HEAD or OPTIONS letter by letter; at most one 502; less than 600 ms of backoff |
| ProxyRetry.AnsweredOnce | src/proxy/proxyMiddleware.js:108-154 | once headers are sent no 502 follows and no retry begins |
| ProxyRetry.RetriesMoveOn | src/proxy/proxyMiddleware.js:86-124 | a try returns to a backend only when every backend that passed was tried, and no request is lost before it is answered |
| ProxyRetry.TargetsAreDistinct | src/routing/routingEngine.js:56-61 | targets are pairwise distinct while untried backends pass |
| ProxyRetry.FailingRequestEnds | src/proxy/proxyMiddleware.js:107-154 | a request whose every call fails gets exactly one 502, exactly when its tries are used up |
| ProxyRetry.ThreeTries | src/proxy/proxyMiddleware.js:93-154 | such a request does get its three tries, whatever the answers and draws |
| ProxyRetry.GivingUpAnswers | src/proxy/proxyMiddleware.js:124-134 | a call given up answers the client once, with a 502 for a retry |
| Gateway.StepAt | src/config/backends.js:48-49 | an event acts on the backends of the shared pool one by one |
| Gateway.RunKeepsInv | src/config/backends.js:32-51 | every interleaving keeps: healthy and status consistent, breakers faithful to their counters, connections equal to unreleased leases, drains armed with their own timer |
| Gateway.StepKeepsPool | src/resilience/circuitBreakerManager.js:185-214 | no writer breaks: healthy implies status healthy or degraded, and status healthy implies healthy |
| Gateway.StepKeepsLeases | src/proxy/proxyMiddleware.js:190-204 | activeConnections stays the number of unreleased leases |
| Gateway.ReleaseIsExact | src/proxy/proxyMiddleware.js:193-204 | in reachable states a release lowers the count by exactly one, so the clamp never acts, and its second event does nothing |
| Gateway.RoutingIsSafe | src/routing/routingEngine.js:52-86 | with breakers enabled: the chosen backend was healthy, its breaker is not open afterwards, it did not fail the request if another choice passed, and it alone gains a connection |
| Gateway.RejoinsExactly | src/health/healthStore.js:99-127 | an unhealthy backend becomes healthy exactly by the causes listed, in every state |
| Gateway.OutOfRotationIsSkipped | src/routing/routingEngine.js:42-42 | an unhealthy backend is never chosen and the filter leaves it and its breaker alone |
| Gateway.StaysOutExactly | src/health/healthStore.js:99-127 | an unhealthy backend is unhealthy after every prefix of a run exactly when no cause of rejoining occurs in it |
| Gateway.PassesExactly | src/routing/routingEngine.js:41-43 | the filter lets a backend through exactly when it is healthy and its breaker is disabled, closed, open past its cooldown, or half open with a probe left |
| Gateway.ProbeExactly | src/routing/routingEngine.js:42-42 | the filter grants an open breaker its probe exactly when the backend is healthy and the cooldown is over, and then leaves it half open with one probe spent |
| Gateway.CircuitChanges | src/resilience/circuitBreakerManager.js:176-214 | a change of circuit by any event is stamped with its time and shows on the backend's flag and status |
| Gateway.CooldownRunsFromTrip | src/resilience/circuitBreakerManager.js:110-118 | while a breaker stays open after the event that opened it, its backend passes the filter exactly when healthy and the cooldown has passed since that event |
| Gateway.CooldownAloneNeverProbes | docs/ARCHITECTURE.md:72 | an open, unhealthy backend stays open and unchosen in every run without a cause of rejoining, whatever time passes: the documented trial probe does not happen |
| Gateway.TripFails | src/resilience/circuitBreakerManager.js:151-191 | idle time and then k failed requests from the start: tripped, at the time of the trip, and out of rotation exactly from the threshold on, the other backends untouched |
| Gateway.TrippedIsNotProbed | docs/ARCHITECTURE.md:72 | that run is valid under every configuration with breakers, and no wait makes the backend pass the filter |
| Gateway.TrippedPassesAfterCooldown | src/resilience/circuitBreakerManager.js:112-115 | from the start: tripped after any idle time and made healthy by a failed check, it passes exactly when the cooldown has passed since the trip |
| Gateway.BreakerRefinesLog | src/resilience/circuitBreakerManager.js:151-168 | in every run of the whole gateway a breaker has counted exactly the logged failures since the last success or reset, and is closed exactly below the threshold |
| Gateway.StatsAreLog | src/health/healthStore.js:55-93 | in every run the store of a backend never overridden is the record of exactly its own checks |
| Gateway.HealthFollowsLog | src/health/healthMonitor.js:98-116 | after any such run the next result removes the backend exactly on three failures in a row, and the breaker then has the last word |
| Gateway.OneTimerPerBackend | src/admin/connectionDrainManager.js:76-87 | in reachable states at most one drain timer per backend is pending |
| Gateway.TimerCompletesItsOwnDrain | src/admin/connectionDrainManager.js:81-85 | a timer that takes a backend offline does so for the drain that armed it |
| Gateway.DrainNumbers | src/admin/connectionDrainManager.js:49-58 | only a drain command that takes effect begins a new drain |
| Gateway.DrainCompletes | src/admin/connectionDrainManager.js:89-124 | in every quiet run a draining backend is never chosen, its leases never rise, and it is offline exactly once its last lease was released or its timer fired |
| Gateway.NeverFiresEarly | src/admin/connectionDrainManager.js:81-87 | no run fires a timer before its deadline |
| Gateway.DrainLifecycle | src/admin/connectionDrainManager.js:43-124 | the same from the drain command on, with the literal deadline: the timer never fires before the timeout in seconds has passed, and is enabled exactly from then on |
| Gateway.DrainOutcomes | src/admin/connectionDrainManager.js:49-94 | nothing for a backend already draining; offline at once, with no timer left, without live leases; draining with them |
| Gateway.UndrainRestores | src/admin/connectionDrainManager.js:136-145 | an undrained backend is healthy, and no timer is left to take it offline |
| Gateway.StaleTimerIsHarmless | src/admin/connectionDrainManager.js:81-85 | a timer that fires on a backend no longer draining changes no backend |
| Gateway.OverrideSticks | src/health/healthRoutes.js:76-79 | a backend overridden to unhealthy stays out through every run without an undrain, another override, or an event that closes its breaker |
| Gateway.OverrideSets | src/health/healthRoutes.js:76-86 | the flags, status and streaks an override sets, and what it leaves |
| Gateway.HealthCheckUndoesDrain | src/health/healthStore.js:114-126 | a passed check puts any draining backend not disabled back into rotation, its timer still pending |
| Gateway.DrainStaysOutExactly | src/admin/connectionDrainManager.js:55-57 | a draining backend stays out of rotation through a run exactly when no cause of rejoining occurs in it |
| Gateway.OpenBreakerRejoinsOnFailure | src/health/healthStore.js:119-122 | a first or second failed check makes the backend of an open breaker healthy, the breaker staying open |
| Gateway.OpenAndHealthyExactly | src/resilience/circuitBreakerManager.js:160-192 | a backend becomes healthy under an open breaker exactly by a first or second failed check, an undrain or a healthy override while it is open |
| Gateway.OpenStaysOutExactly | src/resilience/circuitBreakerManager.js:188-192 | "open implies not healthy" holds after every prefix of a run exactly when none of those three occurs |
| Gateway.TrippedRejoinsOnFailure | src/health/healthStore.js:119-122 | a valid run from the start, under every configuration with breakers, that ends open and healthy |
| Gateway.UnchosenProbeIsSpent | src/routing/routingEngine.js:42-42 | routing to any other admissible backend, for any failed set, spends a probe of one that passed with a breaker open or half open; the opening probe takes it out of rotation |
| Gateway.ProbeIsSentExactly | src/routing/routingEngine.js:52-86 | whatever the strategy, every routing allowed sends the granted probe, opening or half open, exactly when the backend is the only admissible one |
| Gateway.StatusPageSpendsProbe | src/api/statusRoutes.js:18-20 | the status page changes the record of a breaker that is not closed, spending a probe, exactly when its backend passes the filter |
| Gateway.ProbeIsLost | src/routing/routingEngine.js:41-42 | a valid run from the start on two backends in which the probe of one is spent while the request goes to the other |
| Gateway.SecondProbeIsLost | src/resilience/circuitBreakerManager.js:120-126 | a valid run from the start in which the status page spends the second probe of a half-open breaker whose backend was undrained |
| Gateway.OneSuccessRejoins | src/health/healthStore.js:99-127 | after one passed check a backend is healthy exactly when it is not disabled or the check closes its breaker |
| Gateway.OneSuccessAfterFailures | src/health/healthStore.js:108-126 | a valid run from the start, under every configuration: out after three or more failed checks, back after one passed check |
| Gateway.DrainedBackendIsChosenAgain | src/health/healthMonitor.js:98-100 | a valid four-event run, under any configuration, in which a draining backend is leased again |
| GatewayProcess.Process.constructor | src/config/backends.js:37-46 | new components over a new pool, each in its initial state, with the weights 3, 2, 1 and 40 virtual nodes per weight |
| GatewayProcess.Process.FreshIsReached | src/config/backends.js:37-51 | the fresh program is in the machine's start state |
| GatewayProcess.Process.Boot | src/config/backends.js:37-51 | a started program: new objects, in the machine's start state, reached by the empty history |
| GatewayProcess.Process.FailThenPass | src/health/healthMonitor.js:98-116 | a program that boots, fails three checks of a backend and passes one: its history is that run and the backend is healthy |
| GatewayProcess.Process.ReachedKeepsInv | src/config/backends.js:48-51 | whatever the objects have been asked to do, the pool's invariants hold of them |
| GatewayProcess.Process.HealthCheck | src/health/healthMonitor.js:98-116 | store, then breaker: exactly one HealthResult step |
| GatewayProcess.Process.Choose | src/routing/routingEngine.js:52-86 | selection filters the pool and answers with the strategy's pick among the admissible backends |
| GatewayProcess.Process.Router | src/proxy/proxyMiddleware.js:171-207 | a request with a target is routed to it again; otherwise one enabled Route step with its lease; either way one call in the request's exchange |
| GatewayProcess.Process.Decrement | src/proxy/proxyMiddleware.js:192-204 | a finish or close event is exactly one Release step |
| GatewayProcess.Process.ProxyRes | src/proxy/proxyMiddleware.js:233-243 | one ProxyResponse step for a request with a backend |
| GatewayProcess.ProxiedRequest.Call | src/proxy/proxyMiddleware.js:174-187 | the target is set unless there is one, as one call of the exchange within the retry budget |
| GatewayProcess.ProxiedRequest.Fail | src/proxy/proxyMiddleware.js:93-154 | the error handler's decision and its marks on the request, as one failure of the exchange that keeps the retry budget |
| GatewayProcess.ProxiedRequest.MovesOn | src/proxy/proxyMiddleware.js:86-124 | a request object whose calls are reported once each returned to no tried backend while an untried one passed, and is answered or still under way |
| GatewayProcess.ProxiedRequest.GiveUp | src/proxy/proxyMiddleware.js:124-134 | the retry callback's 502, only for an unanswered client |
| GatewayProcess.Process.HandleProxyError | src/proxy/proxyMiddleware.js:83-155 | the same, with exactly one ProxyError step for the backend that was tried |
| GatewayProcess.Process.Status | src/api/statusRoutes.js:18-29 | lists what passes the filter, as one StatusPage step |
| GatewayProcess.Process.DrainBackend | src/admin/connectionDrainManager.js:43-97 | one DrainCommand step |
| GatewayProcess.Process.UndrainBackend | src/admin/connectionDrainManager.js:130-150 | one UndrainCommand step |
| GatewayProcess.Process.FireTimer | src/admin/connectionDrainManager.js:81-85 | one TimerFires step, of a timer that is due |
| GatewayProcess.Process.ResetBreaker | src/resilience/circuitBreakerManager.js:253-259 | one ResetCommand step |
| GatewayProcess.Process.Override | src/health/healthRoutes.js:68-86 | one OverrideCommand step |

## Left out

- IEEE doubles: token counts, scores, rates and estimates are exact integers or reals; rounding to hundredths and to whole numbers is modelled where the program does it.
- Backend ids in the pool machine are positions in the pool, as src/config/backends.js derives them; consistent hashing works on strings.
- Timer delays: Node's rule that a delay outside 1 to 2147483647 ms becomes 1 ms is taken from its documentation, and a timer may fire at any moment from its deadline on.
- Latencies, timestamps, last errors, log lines, emitted events and security-log entries: they decide nothing in the modelled code.
- Redis: the fallback from Redis to memory in the middle of a history, and a Redis clock that differs from the caller's; the script is one atomic step and the TTL runs on the caller's clock.
- Fractional or zero capacities: penalties and maxima are positive integers, and the cost of a request is always 1, as the middleware passes it.
- A clock that goes back: limiter histories and gateway runs have a non-decreasing clock. The lemmas about one breaker's operations take any times.
- Array.prototype.sort: a stable sort function with its own correctness lemma stands for it.
- hash32 (MD5): an arbitrary function; the "about 1/N of the keys" figure is statistical and not stated.
- getClientIp and the x-session-id header: the client address and key are arguments.
- The fallback for an all-zero weighted pool (src/routing/strategies/weightedRoundRobin.js:90-95) is unreachable, since virtual weights are at least 1.
- Metrics window: the recorded transactions and their expiry; the scores of a moment are an input of selection.
- Anomaly detection: square root, z-score, flagging and enforcement; only the recurrences and counts are modelled.
- Proxy library: what http-proxy-middleware does inside; it is any sequence of error, callback and response events. In-turn theorems assume one report per call.
- The error handler called without a proxy instance (src/proxy/proxyMiddleware.js:123): the middleware always passes one.
- toUpperCase on characters outside ASCII: method names are ASCII tokens.
- Liveness of drains: eventual release of a lease is not claimed, because a client that leaves during a backoff may never trigger finish or close on the new lease; the timer then ends the drain.
- Cache, WAF, IP blocklist, JWT, analytics, dashboard, loggers, Express wiring: single-branch or library behaviour.
