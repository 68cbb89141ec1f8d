/**
 The retry protocol of one proxied request: the error handler, its backoff, and the router that picks a target for each
 try. An exchange is the history of one request under any interleaving of the events the proxy library reports.
 */
module ProxyRetry {
  import opened BackendPool
  import opened Routing
  import opened Wrappers

  const MAX_RETRIES: nat := 2

  // ---------------------------------------------------------------- the request object

  /** The fields the proxy keeps on a request and its response; 0 attempts and an empty `failed` stand for unset. The
      fields `_targetBackend` and `_backendId` are always written together. */
  datatype RequestState = RequestState(
    httpMethod: Option<string>,
    attempts: nat,
    failed: set<Id>,
    target: Option<Id>,
    headersSent: bool)

  function Upper(c: char): char {
    if 'a' <= c <= 'z' then 'A' + (c - 'a') else c
  }

  function ToUpperCase(s: string): string {
    seq(|s|, i requires 0 <= i < |s| => Upper(s[i]))
  }

  predicate Idempotent(httpMethod: Option<string>) {
    var m := ToUpperCase(if httpMethod.None? || httpMethod.value == "" then "GET" else httpMethod.value);
    m == "GET" || m == "HEAD" || m == "OPTIONS"
  }

  /** The method is the word, letter by letter, up to the case of ASCII letters; the word is in capitals. */
  predicate SameWord(httpMethod: string, word: string) {
    |httpMethod| == |word|
    && forall i :: 0 <= i < |word| ==> httpMethod[i] == word[i] || httpMethod[i] as int == word[i] as int + 32
  }

  /** The methods that may be retried: unset or empty (which count as GET), or one of three words. */
  predicate Retryable(httpMethod: Option<string>) {
    match httpMethod
    case None => true
    case Some(m) => m == "" || SameWord(m, "GET") || SameWord(m, "HEAD") || SameWord(m, "OPTIONS")
  }

  lemma SameWordUpper(m: string, word: string)
    requires forall i :: 0 <= i < |word| ==> 'A' <= word[i] <= 'Z'
    ensures ToUpperCase(m) == word <==> SameWord(m, word)
  {
    if ToUpperCase(m) == word {
      forall i | 0 <= i < |word| ensures m[i] == word[i] || m[i] as int == word[i] as int + 32 {
        assert ToUpperCase(m)[i] == Upper(m[i]);
      }
    }
    if SameWord(m, word) {
      forall i | 0 <= i < |word| ensures ToUpperCase(m)[i] == word[i] {
        assert ToUpperCase(m)[i] == Upper(m[i]);
      }
    }
  }

  /** Exactly these are retried. */
  lemma MethodsAreRetryable(httpMethod: Option<string>)
    ensures Idempotent(httpMethod) <==> Retryable(httpMethod)
  {
    SameWordUpper("GET", "GET");
    if httpMethod.Some? {
      SameWordUpper(httpMethod.value, "GET");
      SameWordUpper(httpMethod.value, "HEAD");
      SameWordUpper(httpMethod.value, "OPTIONS");
    }
  }

  lemma WordIsUnique(m: string, word: string, other: string)
    requires forall i :: 0 <= i < |word| ==> 'A' <= word[i] <= 'Z'
    requires forall i :: 0 <= i < |other| ==> 'A' <= other[i] <= 'Z'
    ensures SameWord(m, word) && SameWord(m, other) ==> word == other
  {
  }

  /** A POST, PUT, DELETE or PATCH is not, in any letter case. */
  lemma WritesAreNotRetried(m: string)
    requires SameWord(m, "POST") || SameWord(m, "PUT") || SameWord(m, "DELETE") || SameWord(m, "PATCH")
    ensures !Idempotent(Some(m))
  {
    MethodsAreRetryable(Some(m));
    assert "POST"[0] == 'P' && "HEAD"[0] == 'H' && "PUT"[0] == 'P' && "GET"[0] == 'G';
    WordIsUnique(m, "POST", "GET"); WordIsUnique(m, "POST", "HEAD"); WordIsUnique(m, "POST", "OPTIONS");
    WordIsUnique(m, "PUT", "GET"); WordIsUnique(m, "PUT", "HEAD"); WordIsUnique(m, "PUT", "OPTIONS");
    WordIsUnique(m, "DELETE", "GET"); WordIsUnique(m, "DELETE", "HEAD"); WordIsUnique(m, "DELETE", "OPTIONS");
    WordIsUnique(m, "PATCH", "GET"); WordIsUnique(m, "PATCH", "HEAD"); WordIsUnique(m, "PATCH", "OPTIONS");
  }

  function Pow2(n: nat): nat {
    if n == 0 then 1 else 2 * Pow2(n - 1)
  }

  function BackoffCap(attempt: nat, baseMs: nat, maxMs: nat): nat {
    if baseMs * Pow2(attempt) < maxMs then baseMs * Pow2(attempt) else maxMs
  }

  /** share * n, as repeated addition. */
  function Share(share: real, n: nat): real {
    if n == 0 then 0.0 else share + Share(share, n - 1)
  }

  lemma {:induction false} ShareIsProduct(share: real, n: nat)
    ensures Share(share, n) == share * n as real
  {
    if n > 0 { ShareIsProduct(share, n - 1); }
  }

  /** Full jitter: `random` is the draw of Math.random(). */
  function Backoff(attempt: nat, random: real): (delayMs: int)
    requires 0.0 <= random < 1.0
  {
    Share(random, BackoffCap(attempt, 50, 500)).Floor
  }

  /** The delays that can be drawn are exactly those from 0 up to, and without, the cap. */
  lemma BackoffRange(attempt: nat, delayMs: int)
    ensures (exists random: real :: 0.0 <= random < 1.0 && Backoff(attempt, random) == delayMs)
      <==> 0 <= delayMs < BackoffCap(attempt, 50, 500)
  {
    var cap := BackoffCap(attempt, 50, 500);
    CapIsPositive(attempt);
    if 0 <= delayMs < cap {
      var random := delayMs as real / cap as real;
      ShareIsProduct(random, cap);
      assert random * cap as real == delayMs as real;
      assert Backoff(attempt, random) == delayMs;
    }
    forall random: real | 0.0 <= random < 1.0 ensures 0 <= Backoff(attempt, random) < cap {
      BackoffBelowCap(attempt, random);
    }
  }

  lemma CapIsPositive(attempt: nat)
    ensures BackoffCap(attempt, 50, 500) >= 1
  {
    if attempt > 0 { CapIsPositive(attempt - 1); }
  }

  lemma BackoffBelowCap(attempt: nat, random: real)
    requires 0.0 <= random < 1.0
    ensures 0 <= Backoff(attempt, random) < BackoffCap(attempt, 50, 500)
  {
    CapIsPositive(attempt);
    ShareBelow(random, BackoffCap(attempt, 50, 500));
  }

  lemma ShareBelow(share: real, n: nat)
    requires 0.0 <= share < 1.0 && n >= 1
    ensures 0 <= Share(share, n).Floor < n
  {
    ShareIsProduct(share, n);
    assert 0.0 <= share * n as real < n as real;
  }

  /** The only caps the protocol uses. */
  lemma ProtocolCaps()
    ensures BackoffCap(2, 50, 500) == 200 && BackoffCap(3, 50, 500) == 400
  {
    assert Pow2(2) == 4 && Pow2(3) == 8;
  }

  /** The cap starts at 50 ms and doubles with every attempt, up to 500 ms. */
  lemma CapDoubles(attempt: nat)
    ensures BackoffCap(0, 50, 500) == 50
    ensures var cap := BackoffCap(attempt, 50, 500);
      BackoffCap(attempt + 1, 50, 500) == if 2 * cap < 500 then 2 * cap else 500
  {
  }

  datatype Outcome = RetryIn(delayMs: int) | BadGateway | AlreadyAnswered

  /** `handleProxyError` up to its await: what it does to the request, and what it decides. */
  function HandleError(r: RequestState, random: real): (RequestState, Outcome)
    requires 0.0 <= random < 1.0
  {
    var f := if r.target.Some? then r.failed + {r.target.value} else r.failed;
    var a := if r.attempts == 0 then 1 else r.attempts;
    var s := r.(failed := f, attempts := a);
    if Idempotent(r.httpMethod) && a <= MAX_RETRIES && !r.headersSent then
      (s.(attempts := a + 1, target := None), RetryIn(Backoff(a + 1, random)))
    else if !r.headersSent then (s.(headersSent := true), BadGateway)
    else (s, AlreadyAnswered)
  }

  /** The delay before the second try is the drawn share of 200 ms, and before the third of 400 ms, rounded down. The
      failed backend is excluded from then on, and a request that is not retried is answered with the 502 unless it
      was answered already. */
  lemma HandlerDecides(r: RequestState, random: real)
    requires 0.0 <= random < 1.0
    ensures var (s, outcome) := HandleError(r, random);
      var a := if r.attempts == 0 then 1 else r.attempts;
      && s.failed == (if r.target.Some? then r.failed + {r.target.value} else r.failed)
      && (outcome.RetryIn? <==> Retryable(r.httpMethod) && a <= 2 && !r.headersSent)
      && (outcome.RetryIn? ==>
            && s.target.None? && s.attempts == a + 1 && !s.headersSent
            && outcome.delayMs as real <= random * (if a == 1 then 200.0 else 400.0) < outcome.delayMs as real + 1.0)
      && (!outcome.RetryIn? ==>
            && s.headersSent && s.target == r.target && s.attempts == a
            && (outcome == BadGateway <==> !r.headersSent))
  {
    MethodsAreRetryable(r.httpMethod);
    ProtocolCaps();
    ShareIsProduct(random, 200);
    ShareIsProduct(random, 400);
  }

  /** The wrapper's defaulting before the first try. */
  function Prepared(r: RequestState): RequestState {
    r.(attempts := if r.attempts == 0 then 1 else r.attempts)
  }

  /** The router: a target already on the request is used again, otherwise the engine's choice becomes the target. */
  function Targeted(r: RequestState, choice: Option<Id>): RequestState {
    if r.target.Some? then r else r.(target := choice)
  }

  // ---------------------------------------------------------------- exchanges

  datatype Try = Try(target: Option<Id>, passed: seq<bool>)

  /** One request's history: `tries` are its calls of the proxy in order, each with its target and what passed the
      filter then; `waiting` counts the backoffs not yet over, `busy` the calls the library has not yet reported on. */
  datatype Exchange = Exchange(
    req: RequestState,
    tries: seq<Try>,
    waiting: nat,
    busy: nat,
    badGateways: nat,
    waitedMs: int)

  datatype Happening =
    | Fails(random: real)
    | Resumes(passed: seq<bool>, choice: Option<Id>)
    | GivesUp
    | HeadersSent

  /** A request that the wrapper has prepared and not yet handed to the proxy. */
  function Untried(httpMethod: Option<string>): Exchange {
    Exchange(Prepared(RequestState(httpMethod, 0, {}, None, false)), [], 0, 0, 0, 0)
  }

  function Arrive(httpMethod: Option<string>, passed: seq<bool>, choice: Option<Id>): Exchange {
    CallProxy(Untried(httpMethod), passed, choice)
  }

  function CallProxy(x: Exchange, passed: seq<bool>, choice: Option<Id>): Exchange {
    var r := Targeted(x.req, choice);
    x.(req := r, tries := x.tries + [Try(r.target, passed)], busy := x.busy + 1)
  }

  function Less(n: nat): nat {
    if n == 0 then 0 else n - 1
  }

  /** `Fails` is the library's error event, `Resumes` the end of a backoff, `GivesUp` the library calling its `next`
      callback (for a retry, the 502 callback; for the first try, Express's own error answer), and `HeadersSent`
      an upstream response or anything else that answers the client. */
  function Happen(x: Exchange, h: Happening): Exchange
    requires h.Fails? ==> 0.0 <= h.random < 1.0
  {
    match h
    case Fails(random) =>
      var (r, outcome) := HandleError(x.req, random);
      var y := x.(req := r, busy := Less(x.busy));
      (match outcome
       case RetryIn(ms) => y.(waiting := y.waiting + 1, waitedMs := y.waitedMs + ms)
       case BadGateway => y.(badGateways := y.badGateways + 1)
       case AlreadyAnswered => y)
    case Resumes(passed, choice) => CallProxy(x.(waiting := Less(x.waiting)), passed, choice)
    case GivesUp =>
      var y := x.(req := x.req.(headersSent := true), busy := Less(x.busy));
      if x.req.headersSent || x.req.attempts == 1 then y else y.(badGateways := y.badGateways + 1)
    case HeadersSent => x.(req := x.req.(headersSent := true))
  }

  /** The first call of the proxy is a step of the same kind: it starts the exchange. */
  lemma FirstCallArrives(httpMethod: Option<string>, passed: seq<bool>, choice: Option<Id>)
    ensures Happen(Untried(httpMethod), Resumes(passed, choice)) == Arrive(httpMethod, passed, choice)
  {
  }

  /** The engine's answer: none exactly when nothing passed, otherwise an admissible backend. */
  ghost predicate Answer(passed: seq<bool>, failed: set<Id>, choice: Option<Id>) {
    && (choice.None? <==> forall j :: 0 <= j < |passed| ==> !passed[j])
    && (choice.Some? ==> Admissible(passed, failed, choice.value))
  }

  /** What can happen at all: a backoff ends only if one is pending, and the engine is asked only for a request without
      a target. Errors may arrive at any moment. */
  ghost predicate Possible(x: Exchange, h: Happening) {
    match h
    case Fails(random) => 0.0 <= random < 1.0
    case Resumes(passed, choice) => x.waiting > 0 && (x.req.target.None? ==> Answer(passed, x.req.failed, choice))
    case _ => true
  }

  ghost predicate PossibleRun(x: Exchange, hs: seq<Happening>)
    decreases |hs|
  {
    hs == [] || (Possible(x, hs[0]) && PossibleRun(Happen(x, hs[0]), hs[1..]))
  }

  ghost function After(x: Exchange, hs: seq<Happening>): Exchange
    requires PossibleRun(x, hs)
    decreases |hs|
  {
    if hs == [] then x else After(Happen(x, hs[0]), hs[1..])
  }

  /** A request's history: its first call, and what happened since. */
  ghost predicate Leads(
    httpMethod: Option<string>, passed: seq<bool>, choice: Option<Id>, hs: seq<Happening>, x: Exchange)
  {
    && Answer(passed, {}, choice)
    && PossibleRun(Arrive(httpMethod, passed, choice), hs)
    && After(Arrive(httpMethod, passed, choice), hs) == x
  }

  lemma {:induction false} AfterSnoc(x: Exchange, hs: seq<Happening>, h: Happening)
    requires PossibleRun(x, hs) && Possible(After(x, hs), h)
    ensures PossibleRun(x, hs + [h]) && After(x, hs + [h]) == Happen(After(x, hs), h)
    decreases |hs|
  {
    if hs == [] {
      assert ([] + [h])[1..] == [];
      assert PossibleRun(Happen(x, h), []);
    } else {
      assert (hs + [h])[1..] == hs[1..] + [h];
      AfterSnoc(Happen(x, hs[0]), hs[1..], h);
    }
  }

  lemma LeadsNext(
    httpMethod: Option<string>, passed: seq<bool>, choice: Option<Id>, hs: seq<Happening>, x: Exchange, h: Happening)
    requires Leads(httpMethod, passed, choice, hs, x) && Possible(x, h)
    ensures Leads(httpMethod, passed, choice, hs + [h], Happen(x, h))
  {
    AfterSnoc(Arrive(httpMethod, passed, choice), hs, h);
  }

  // ---------------------------------------------------------------- budgets, under every interleaving

  function MaxTries(httpMethod: Option<string>): nat {
    if Idempotent(httpMethod) then MAX_RETRIES + 1 else 1
  }

  ghost predicate WithinBudget(x: Exchange) {
    && 1 <= x.req.attempts <= MaxTries(x.req.httpMethod)
    && |x.tries| + x.waiting == x.req.attempts
    && x.badGateways <= 1
    && (x.badGateways == 1 ==> x.req.headersSent)
    && 0 <= x.waitedMs <= if x.req.attempts == 1 then 0 else if x.req.attempts == 2 then 199 else 598
  }

  lemma HappenKeepsBudget(x: Exchange, h: Happening)
    requires WithinBudget(x) && Possible(x, h)
    ensures WithinBudget(Happen(x, h)) && Happen(x, h).req.httpMethod == x.req.httpMethod
    ensures Happen(x, h).badGateways > x.badGateways ==> !x.req.headersSent && Happen(x, h).req.headersSent
    ensures x.req.headersSent ==> Happen(x, h).req.headersSent && Happen(x, h).req.attempts == x.req.attempts
  {
    ProtocolCaps();
    if h.Fails? {
      BackoffBelowCap(2, h.random);
      BackoffBelowCap(3, h.random);
    }
  }

  lemma {:induction false} RunKeepsBudget(x: Exchange, hs: seq<Happening>)
    requires WithinBudget(x) && PossibleRun(x, hs)
    ensures WithinBudget(After(x, hs)) && After(x, hs).req.httpMethod == x.req.httpMethod
    ensures x.req.headersSent ==>
      After(x, hs).badGateways == x.badGateways && After(x, hs).req.attempts == x.req.attempts
    decreases |hs|
  {
    if hs != [] {
      HappenKeepsBudget(x, hs[0]);
      RunKeepsBudget(Happen(x, hs[0]), hs[1..]);
    }
  }

  /** The retry budget, however errors, callbacks, backoffs and answers interleave: at most three tries of a GET, HEAD
      or OPTIONS and one of anything else (idempotent methods are section 9.2.2 of RFC 9110), at most one 502, and
      less than 600 ms of backoff in total. */
  lemma RetryBudget(httpMethod: Option<string>, passed: seq<bool>, choice: Option<Id>, hs: seq<Happening>)
    requires PossibleRun(Arrive(httpMethod, passed, choice), hs)
    ensures var x := After(Arrive(httpMethod, passed, choice), hs);
      |x.tries| <= (if Retryable(httpMethod) then 3 else 1) && x.badGateways <= 1 && 0 <= x.waitedMs < 600
  {
    MethodsAreRetryable(httpMethod);
    RunKeepsBudget(Arrive(httpMethod, passed, choice), hs);
  }

  /** Once headers are sent, no 502 is sent and no further retry begins. */
  lemma AnsweredOnce(
    httpMethod: Option<string>, passed: seq<bool>, choice: Option<Id>, hs: seq<Happening>, later: seq<Happening>)
    requires PossibleRun(Arrive(httpMethod, passed, choice), hs)
    requires PossibleRun(After(Arrive(httpMethod, passed, choice), hs), later)
    requires After(Arrive(httpMethod, passed, choice), hs).req.headersSent
    ensures var x := After(Arrive(httpMethod, passed, choice), hs);
      After(x, later).badGateways == x.badGateways && After(x, later).req.attempts == x.req.attempts
  {
    RunKeepsBudget(Arrive(httpMethod, passed, choice), hs);
    RunKeepsBudget(After(Arrive(httpMethod, passed, choice), hs), later);
  }

  /** A call given up answers the client once: with a 502 for a retry, through Express for the first call. */
  lemma GivingUpAnswers(x: Exchange)
    ensures var y := Happen(x, GivesUp);
      && y.req.headersSent && y.req.attempts == x.req.attempts && y.tries == x.tries && y.waiting == x.waiting
      && y.badGateways == x.badGateways + if !x.req.headersSent && x.req.attempts != 1 then 1 else 0
  {
  }

  // ---------------------------------------------------------------- tries in turn

  /** The library reports at most once on each call. */
  ghost predicate InTurn(x: Exchange, hs: seq<Happening>)
    requires PossibleRun(x, hs)
    decreases |hs|
  {
    hs == [] || ((hs[0].Fails? || hs[0].GivesUp? ==> x.busy > 0) && InTurn(Happen(x, hs[0]), hs[1..]))
  }

  ghost predicate Tried(tries: seq<Try>, n: nat, i: Id)
    requires n <= |tries|
  {
    exists k :: 0 <= k < n && tries[k].target == Some(i)
  }

  /** Try k did not go back to a backend tried before while one that passed had not been tried. */
  ghost predicate FreshWhilePossible(tries: seq<Try>, k: nat)
    requires k < |tries|
  {
    forall i, j :: tries[k].target == Some(i) && 0 <= j < |tries[k].passed| && tries[k].passed[j] && !Tried(tries, k, j)
      ==> !Tried(tries, k, i)
  }

  /** One call at a time, and the failed set is what the earlier tries went to. */
  ghost predicate Orderly(x: Exchange) {
    && x.waiting + x.busy <= 1 && |x.tries| >= 1
    && (!x.req.headersSent ==> x.waiting + x.busy == 1)
    && (x.waiting == 1 ==> x.req.target.None? && forall i :: i in x.req.failed <==> Tried(x.tries, |x.tries|, i))
    && (x.busy == 1 ==>
          && x.req.target == x.tries[|x.tries| - 1].target
          && forall i :: i in x.req.failed <==> Tried(x.tries, |x.tries| - 1, i))
    && forall k :: 0 <= k < |x.tries| ==> FreshWhilePossible(x.tries, k)
  }

  lemma TriedAppend(tries: seq<Try>, t: Try, i: Id)
    ensures forall k :: 0 <= k <= |tries| ==> (Tried(tries + [t], k, i) <==> Tried(tries, k, i))
    ensures Tried(tries + [t], |tries| + 1, i) <==> Tried(tries, |tries|, i) || t.target == Some(i)
  {
    assert (tries + [t])[|tries|] == t;
    assert forall k :: 0 <= k < |tries| ==> (tries + [t])[k] == tries[k];
  }

  lemma FailureTried(tries: seq<Try>, i: Id)
    requires |tries| >= 1
    ensures Tried(tries, |tries|, i) <==> Tried(tries, |tries| - 1, i) || tries[|tries| - 1].target == Some(i)
  {
  }

  lemma ResumeIsFresh(x: Exchange, passed: seq<bool>, choice: Option<Id>)
    requires Orderly(x) && x.waiting == 1 && Answer(passed, x.req.failed, choice)
    ensures Orderly(Happen(x, Resumes(passed, choice)))
  {
    var y, n := Happen(x, Resumes(passed, choice)), |x.tries|;
    var t := Try(choice, passed);
    assert y.tries == x.tries + [t];
    forall i: Id { TriedAppend(x.tries, t, i); }
    forall k | 0 <= k < |y.tries| ensures FreshWhilePossible(y.tries, k) {
      if k < n { assert FreshWhilePossible(x.tries, k); }
    }
  }

  lemma HappenKeepsOrder(x: Exchange, h: Happening)
    requires Orderly(x) && Possible(x, h) && (h.Fails? || h.GivesUp? ==> x.busy > 0)
    ensures Orderly(Happen(x, h))
  {
    match h
    case Resumes(passed, choice) => ResumeIsFresh(x, passed, choice);
    case Fails(_) => forall i: Id { FailureTried(x.tries, i); }
    case _ =>
  }

  lemma {:induction false} RunKeepsOrder(x: Exchange, hs: seq<Happening>)
    requires Orderly(x) && PossibleRun(x, hs) && InTurn(x, hs)
    ensures Orderly(After(x, hs))
    decreases |hs|
  {
    if hs != [] {
      HappenKeepsOrder(x, hs[0]);
      RunKeepsOrder(Happen(x, hs[0]), hs[1..]);
    }
  }

  /** When the library reports once per call, a try goes back to a backend only if every backend that passed the
      filter was tried already, and no request is lost: until it is answered it has a call in flight or a backoff
      pending. */
  lemma RetriesMoveOn(httpMethod: Option<string>, passed: seq<bool>, choice: Option<Id>, hs: seq<Happening>)
    requires Answer(passed, {}, choice)
    requires PossibleRun(Arrive(httpMethod, passed, choice), hs) && InTurn(Arrive(httpMethod, passed, choice), hs)
    ensures var x := After(Arrive(httpMethod, passed, choice), hs);
      && (forall k :: 0 <= k < |x.tries| ==> FreshWhilePossible(x.tries, k))
      && (x.req.headersSent || x.waiting + x.busy == 1)
  {
    RunKeepsOrder(Arrive(httpMethod, passed, choice), hs);
  }

  /** So the targets are pairwise distinct as long as each try had an untried backend to go to. */
  lemma TargetsAreDistinct(tries: seq<Try>)
    requires forall k :: 0 <= k < |tries| ==> FreshWhilePossible(tries, k)
    requires forall k :: 0 <= k < |tries| ==>
      exists j :: 0 <= j < |tries[k].passed| && tries[k].passed[j] && !Tried(tries, k, j)
    ensures forall k, l :: 0 <= k < l < |tries| && tries[l].target.Some? ==> tries[k].target != tries[l].target
  {
    forall k, l | 0 <= k < l < |tries| && tries[l].target.Some? ensures tries[k].target != tries[l].target {
      assert FreshWhilePossible(tries, l);
      var i := tries[l].target.value;
      assert !Tried(tries, l, i);
    }
  }

  // ---------------------------------------------------------------- an upstream that never answers

  /** Every call fails, and nothing else answers the client. */
  ghost predicate OnlyFailures(hs: seq<Happening>) {
    forall k :: 0 <= k < |hs| ==> hs[k].Fails? || hs[k].Resumes?
  }

  /** Failures and ends of backoffs so far. */
  ghost function Progress(x: Exchange): int {
    2 * |x.tries| - 1 - x.busy
  }

  ghost predicate Exhausting(x: Exchange) {
    && WithinBudget(x) && Orderly(x)
    && (x.req.headersSent <==> x.badGateways == 1)
    && (x.badGateways == 1 <==> x.waiting + x.busy == 0)
    && (x.badGateways == 1 ==> |x.tries| == MaxTries(x.req.httpMethod))
  }

  lemma FailureExhausts(x: Exchange, h: Happening)
    requires Exhausting(x) && Possible(x, h) && ((h.Fails? && x.busy > 0) || h.Resumes?)
    ensures Exhausting(Happen(x, h)) && Progress(Happen(x, h)) == Progress(x) + 1
  {
    HappenKeepsBudget(x, h);
    HappenKeepsOrder(x, h);
  }

  lemma {:induction false} RunExhausts(x: Exchange, hs: seq<Happening>)
    requires Exhausting(x) && PossibleRun(x, hs) && InTurn(x, hs) && OnlyFailures(hs)
    ensures Exhausting(After(x, hs)) && Progress(After(x, hs)) == Progress(x) + |hs|
    ensures After(x, hs).req.httpMethod == x.req.httpMethod
    decreases |hs|
  {
    if hs != [] {
      FailureExhausts(x, hs[0]);
      HappenKeepsBudget(x, hs[0]);
      RunExhausts(Happen(x, hs[0]), hs[1..]);
    }
  }

  /** A request whose every call fails ends, with exactly one 502, and with it exactly when all its tries are used:
      after one failure, or for an idempotent method after three failures and two backoffs. */
  lemma FailingRequestEnds(httpMethod: Option<string>, passed: seq<bool>, choice: Option<Id>, hs: seq<Happening>)
    requires Answer(passed, {}, choice) && OnlyFailures(hs)
    requires PossibleRun(Arrive(httpMethod, passed, choice), hs) && InTurn(Arrive(httpMethod, passed, choice), hs)
    ensures var x, last := After(Arrive(httpMethod, passed, choice), hs), if Retryable(httpMethod) then 5 else 1;
      && |hs| <= last && (x.badGateways == 1 <==> |hs| == last) && x.badGateways <= 1
      && |x.tries| == |hs| / 2 + 1
  {
    MethodsAreRetryable(httpMethod);
    RunExhausts(Arrive(httpMethod, passed, choice), hs);
  }

  /** And a GET, HEAD or OPTIONS in any letter case does get its three tries: whatever the answers and draws, failing
      each call leads through three tries to the 502. */
  lemma ThreeTries(httpMethod: Option<string>, passed: seq<bool>, choice: Option<Id>, random: real,
                   passed2: seq<bool>, choice2: Option<Id>, passed3: seq<bool>, choice3: Option<Id>)
    requires Retryable(httpMethod) && 0.0 <= random < 1.0 && Answer(passed, {}, choice)
    requires var first := if choice.Some? then {choice.value} else {};
      && Answer(passed2, first, choice2)
      && Answer(passed3, if choice2.Some? then first + {choice2.value} else first, choice3)
    ensures var x0 := Arrive(httpMethod, passed, choice);
      var x1 := Happen(Happen(x0, Fails(random)), Resumes(passed2, choice2));
      var x2 := Happen(Happen(x1, Fails(random)), Resumes(passed3, choice3));
      var x3 := Happen(x2, Fails(random));
      && Possible(Happen(x0, Fails(random)), Resumes(passed2, choice2))
      && Possible(Happen(x1, Fails(random)), Resumes(passed3, choice3))
      && |x3.tries| == 3 && x3.badGateways == 1 && x3.waiting == 0 && x3.busy == 0
      && x3.tries[0].target == choice && x3.tries[1].target == choice2 && x3.tries[2].target == choice3
  {
    MethodsAreRetryable(httpMethod);
  }
}
