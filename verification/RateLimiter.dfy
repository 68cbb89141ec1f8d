/**
 The token bucket rate limiter: the in-memory bucket, the Redis script, penalties and eviction.

 Tokens are held multiplied by windowMs. The refill rate is capacity / windowMs tokens per millisecond, so a
 refill adds elapsed * capacity and every quantity is an exact integer. Time is an explicit argument.
 */
module RateLimiter {
  import opened Arithmetic
  import opened Wrappers

  type Ip = string
  type pos = x: nat | x > 0 witness 1

  /** `scaled` is tokens * windowMs. */
  datatype Bucket = Bucket(scaled: nat, lastRefill: int)

  datatype Result = Result(allowed: bool, remaining: nat, retryAfterMs: nat)

  datatype Penalty = Penalty(maxRequests: pos, expiresAt: int)

  datatype Config = Config(windowMs: pos, maxRequests: pos)

  const IDLE_LIMIT_MS: nat := 300000

  /** The least idle time, in whole milliseconds, after which a bucket may be evicted. */
  const EARLY: nat := IDLE_LIMIT_MS + 1

  function Min(a: int, b: int): int { if a <= b then a else b }

  function Max(a: int, b: int): int { if a >= b then a else b }

  // ---------------------------------------------------------------- one bucket

  /** Scaled tokens available at `now`, before the cost of a request is taken; an absent bucket is full. */
  function Available(w: pos, capacity: pos, b: Option<Bucket>, now: int): (t: nat)
    ensures t <= Mul(w, capacity)
  {
    match b
    case None => Mul(w, capacity)
    case Some(k) => Min(Mul(w, capacity), k.scaled + Mul(Max(0, now - k.lastRefill), capacity))
  }

  /** Takes one token if there is one: the bucket afterwards and the answer. */
  function Take(w: pos, capacity: pos, b: Option<Bucket>, now: int): (Bucket, Result) {
    var t := Available(w, capacity, b, now);
    if t >= w then (Bucket(t - w, now), Result(true, Quotient(t - w, w), 0))
    else (Bucket(t, now), Result(false, Quotient(t, w), CeilDiv(w - t, capacity)))
  }

  /** A full bucket holds at least one token. */
  lemma FullIsEnough(w: pos, capacity: pos)
    ensures Mul(w, capacity) >= w
  {
    MulCommutes(w, capacity);
  }

  /** Waiting adds the capacity per millisecond until the bucket is full. */
  lemma AvailableGrows(w: pos, capacity: pos, b: Option<Bucket>, now: int, later: int)
    requires now <= later && (b.Some? ==> b.value.lastRefill <= now)
    ensures Available(w, capacity, b, later) ==
      Min(Mul(w, capacity), Available(w, capacity, b, now) + Mul(later - now, capacity))
  {
    if b.Some? { MulGrows(now - b.value.lastRefill, later - b.value.lastRefill, capacity); }
  }

  /** A clock that went back refills nothing. */
  lemma BackwardClock(w: pos, capacity: pos, b: Bucket, now: int)
    requires now <= b.lastRefill
    ensures Available(w, capacity, Some(b), now) == Min(w * capacity, b.scaled)
  {
    MulIsProduct(w, capacity);
  }

  /** A bucket idle for a whole window is full, whatever it held and whatever the capacity is now. */
  lemma IdleWindowFills(w: pos, capacity: pos, b: Bucket, now: int)
    requires now - b.lastRefill >= w
    ensures Available(w, capacity, Some(b), now) == Available(w, capacity, None, now)
  {
    MulGrows(w, now - b.lastRefill, capacity);
  }

  // ---------------------------------------------------------------- throttle answers

  /** The times do not decrease, from `start`, and stay before `end`. */
  ghost predicate InOrder(times: seq<int>, start: int, end: int)
    decreases |times|
  {
    times == [] || (start <= times[0] < end && InOrder(times[1..], times[0], end))
  }

  ghost function LastCall(times: seq<int>, start: int): int
    decreases |times|
  {
    if times == [] then start else LastCall(times[1..], times[0])
  }

  /** The bucket after calls at the given times. */
  function TakeAll(w: pos, capacity: pos, b: Option<Bucket>, times: seq<int>): Option<Bucket>
    decreases |times|
  {
    if times == [] then b else TakeAll(w, capacity, Some(Take(w, capacity, b, times[0]).0), times[1..])
  }

  ghost predicate AllDenied(w: pos, capacity: pos, b: Option<Bucket>, times: seq<int>)
    decreases |times|
  {
    times == [] || (!Take(w, capacity, b, times[0]).1.allowed
                    && AllDenied(w, capacity, Some(Take(w, capacity, b, times[0]).0), times[1..]))
  }

  /** A retryAfterMs is the least wait: exactly that many milliseconds complete one token. */
  lemma RetryIsLeast(w: pos, capacity: pos, b: Option<Bucket>, now: int, wait: nat)
    requires !Take(w, capacity, b, now).1.allowed
    ensures var (k, r) := Take(w, capacity, b, now);
      r.retryAfterMs >= 1 && (k.scaled + Mul(wait, capacity) >= w <==> wait >= r.retryAfterMs)
  {
    var (k, r) := Take(w, capacity, b, now);
    CeilDivIsLeast(w - k.scaled, capacity);
    if wait >= r.retryAfterMs { MulGrows(r.retryAfterMs, wait, capacity); }
    else { MulGrows(wait, r.retryAfterMs - 1, capacity); }
  }

  /** A call too early only moves the refill into the bucket. */
  lemma EarlyCall(w: pos, capacity: pos, k: Bucket, t: int, deadline: int)
    requires k.lastRefill <= t < deadline
    requires k.scaled + Mul(deadline - 1 - k.lastRefill, capacity) < w
    ensures var next := Bucket(k.scaled + Mul(t - k.lastRefill, capacity), t);
      && Take(w, capacity, Some(k), t).0 == next && !Take(w, capacity, Some(k), t).1.allowed
      && next.scaled + Mul(deadline - 1 - t, capacity) < w
  {
    MulGrows(t - k.lastRefill, deadline - 1 - k.lastRefill, capacity);
    FullIsEnough(w, capacity);
  }

  lemma {:induction false} RefillComposes(w: pos, capacity: pos, k: Bucket, times: seq<int>, deadline: int)
    requires InOrder(times, k.lastRefill, deadline)
    requires k.lastRefill < deadline && k.scaled + Mul(deadline - 1 - k.lastRefill, capacity) < w
    ensures AllDenied(w, capacity, Some(k), times)
    ensures var last := LastCall(times, k.lastRefill);
      && last >= k.lastRefill
      && TakeAll(w, capacity, Some(k), times) == Some(Bucket(k.scaled + Mul(last - k.lastRefill, capacity), last))
    decreases |times|
  {
    if times != [] {
      var t := times[0];
      EarlyCall(w, capacity, k, t, deadline);
      RefillComposes(w, capacity, Bucket(k.scaled + Mul(t - k.lastRefill, capacity), t), times[1..], deadline);
      MulGrows(t - k.lastRefill, LastCall(times, k.lastRefill) - k.lastRefill, capacity);
    }
  }

  /** A bucket refilled at `last` admits a call at t exactly when the whole refill up to t completes a token. */
  lemma LaterCall(w: pos, capacity: pos, k: Bucket, last: int, t: int)
    requires k.lastRefill <= last <= t
    ensures var refilled := Bucket(k.scaled + Mul(last - k.lastRefill, capacity), last);
      Take(w, capacity, Some(refilled), t).1.allowed <==> k.scaled + Mul(t - k.lastRefill, capacity) >= w
  {
    MulGrows(last - k.lastRefill, t - k.lastRefill, capacity);
    FullIsEnough(w, capacity);
  }

  /** After a denial with retryAfterMs = r, every call before now + r is denied too, and whatever denied calls were
      made in between, the next call is admitted exactly when it comes at now + r or later. */
  lemma ThrottleIsExact(w: pos, capacity: pos, b: Option<Bucket>, now: int, times: seq<int>, t: int)
    requires !Take(w, capacity, b, now).1.allowed
    requires InOrder(times, now, now + Take(w, capacity, b, now).1.retryAfterMs) && LastCall(times, now) <= t
    ensures var (k, r) := Take(w, capacity, b, now);
      && AllDenied(w, capacity, Some(k), times)
      && (Take(w, capacity, TakeAll(w, capacity, Some(k), times), t).1.allowed <==> t >= now + r.retryAfterMs)
  {
    var (k, r) := Take(w, capacity, b, now);
    RetryIsLeast(w, capacity, b, now, 0);
    RetryIsLeast(w, capacity, b, now, r.retryAfterMs - 1);
    RefillComposes(w, capacity, k, times, now + r.retryAfterMs);
    RetryIsLeast(w, capacity, b, now, t - now);
    LaterCall(w, capacity, k, LastCall(times, now), t);
  }

  /** The Retry-After header, in whole seconds. */
  function RetryAfterSec(r: Result): nat {
    Max(1, CeilDiv(r.retryAfterMs, 1000))
  }

  /** Waiting out the rounded Retry-After is enough, and the header never asks for a whole second too many. */
  lemma RetryAfterSuffices(w: pos, capacity: pos, b: Option<Bucket>, now: int)
    requires !Take(w, capacity, b, now).1.allowed
    ensures var (k, r) := Take(w, capacity, b, now);
      && Take(w, capacity, Some(k), now + 1000 * RetryAfterSec(r)).1.allowed
      && !Take(w, capacity, Some(k), now + 1000 * (RetryAfterSec(r) - 1)).1.allowed
  {
    var (k, r) := Take(w, capacity, b, now);
    var sec := RetryAfterSec(r);
    RetryIsLeast(w, capacity, b, now, 0);
    CeilDivIsLeast(r.retryAfterMs, 1000);
    MulIsProduct(sec, 1000);
    MulIsProduct(sec - 1, 1000);
    ThrottleIsExact(w, capacity, b, now, [], now + 1000 * sec);
    ThrottleIsExact(w, capacity, b, now, [], now + 1000 * (sec - 1));
    assert TakeAll(w, capacity, Some(k), []) == Some(k);
  }

  /** Milliseconds to the X-RateLimit-Reset time; `remaining` is at most the capacity (`RemainingFits`). */
  function ResetMs(w: pos, capacity: pos, remaining: nat): nat {
    CeilDiv(Mul(Max(0, capacity - remaining), w), capacity)
  }

  lemma RemainingFits(w: pos, capacity: pos, b: Option<Bucket>, now: int)
    ensures var (k, r) := Take(w, capacity, b, now);
      && Mul(r.remaining, w) <= k.scaled < Mul(r.remaining + 1, w) && r.remaining <= capacity
      && (r.allowed ==> r.retryAfterMs == 0) && k.lastRefill == now
  {
    var (k, r) := Take(w, capacity, b, now);
    QuotientBounds(k.scaled, w);
    MulCommutes(w, capacity);
    if r.remaining > capacity { MulGrows(capacity + 1, r.remaining, w); }
  }

  lemma ResetCovers(w: pos, capacity: pos, k: Bucket, remaining: nat, t: int)
    requires Mul(remaining, w) <= k.scaled && remaining <= capacity
    requires t >= k.lastRefill + ResetMs(w, capacity, remaining)
    ensures Available(w, capacity, Some(k), t) == Mul(w, capacity)
  {
    var wait := t - k.lastRefill;
    var missing := Mul(capacity - remaining, w);
    MulGrows(remaining, capacity, w);
    MulCommutes(w, capacity);
    CeilDivIsLeast(missing, capacity);
    MulGrows(CeilDiv(missing, capacity), wait, capacity);
  }

  /** A bucket left alone is full by its reset time. */
  lemma FullAtReset(w: pos, capacity: pos, b: Option<Bucket>, now: int, t: int)
    requires t >= now + ResetMs(w, capacity, Take(w, capacity, b, now).1.remaining)
    ensures Available(w, capacity, Some(Take(w, capacity, b, now).0), t) == Mul(w, capacity)
  {
    RemainingFits(w, capacity, b, now);
    ResetCovers(w, capacity, Take(w, capacity, b, now).0, Take(w, capacity, b, now).1.remaining, t);
  }

  /** The reset time is the least for what is reported: a bucket holding exactly the reported tokens is full from that
      moment on, and not before. */
  lemma ResetIsLeast(w: pos, capacity: pos, remaining: nat, now: int, t: int)
    requires remaining <= capacity && t >= now
    ensures Available(w, capacity, Some(Bucket(Mul(remaining, w), now)), t) == Mul(w, capacity)
      <==> t >= now + ResetMs(w, capacity, remaining)
  {
    var missing := Mul(capacity - remaining, w);
    MulGrows(remaining, capacity, w);
    MulCommutes(w, capacity);
    CeilDivIsLeast(missing, capacity);
    var least := CeilDiv(missing, capacity);
    if t - now >= least { MulGrows(least, t - now, capacity); }
    else { MulGrows(t - now, least - 1, capacity); }
    if missing == 0 { NothingMissing(capacity); }
  }

  lemma NothingMissing(capacity: pos)
    ensures CeilDiv(0, capacity) == 0
  {
  }

  // ---------------------------------------------------------------- the limiter

  datatype Limiter = Limiter(buckets: map<Ip, Bucket>, penalties: map<Ip, Penalty>)

  const EMPTY: Limiter := Limiter(map[], map[])

  datatype Event =
    | Request(ip: Ip, now: int)
    | ApplyPenalty(ip: Ip, maxRequests: pos, durationMs: nat, now: int)
    | RemovePenalty(ip: Ip, now: int)
    | Cleanup(now: int)

  /** What a response tells the client: the limit applied, and the bucket's answer. */
  datatype Answer = Answer(ip: Ip, limit: pos, result: Result)

  function Lookup<V>(m: map<Ip, V>, ip: Ip): Option<V> {
    if ip in m then Some(m[ip]) else None
  }

  /** The capacity of an IP: its penalty while that lasts, else the configured maximum. */
  function CapacityOf(cfg: Config, s: Limiter, ip: Ip, now: int): pos {
    if ip in s.penalties && now < s.penalties[ip].expiresAt then s.penalties[ip].maxRequests else cfg.maxRequests
  }

  function Serve(cfg: Config, s: Limiter, ip: Ip, now: int): (Limiter, Answer) {
    var capacity := CapacityOf(cfg, s, ip, now);
    var expired := ip in s.penalties && now >= s.penalties[ip].expiresAt;
    var (bucket, result) := Take(cfg.windowMs, capacity, Lookup(s.buckets, ip), now);
    (Limiter(s.buckets[ip := bucket], if expired then s.penalties - {ip} else s.penalties),
     Answer(ip, capacity, result))
  }

  /** Drops buckets idle for more than five minutes, and penalties past their end. */
  function Evict(s: Limiter, now: int): Limiter {
    Limiter(
      map ip | ip in s.buckets && now - s.buckets[ip].lastRefill <= IDLE_LIMIT_MS :: s.buckets[ip],
      map ip | ip in s.penalties && now <= s.penalties[ip].expiresAt :: s.penalties[ip])
  }

  /** One event; `evicting` is false for the reference limiter that never cleans up. */
  function Step(cfg: Config, s: Limiter, e: Event, evicting: bool): (Limiter, seq<Answer>) {
    match e
    case Request(ip, now) => var (t, a) := Serve(cfg, s, ip, now); (t, [a])
    case ApplyPenalty(ip, m, d, now) => (s.(penalties := s.penalties[ip := Penalty(m, now + d)]), [])
    case RemovePenalty(ip, now) => (s.(penalties := s.penalties - {ip}), [])
    case Cleanup(now) => (if evicting then Evict(s, now) else s, [])
  }

  /** The answers given over a history. */
  function Answers(cfg: Config, s: Limiter, events: seq<Event>, evicting: bool): seq<Answer>
    decreases |events|
  {
    if events == [] then []
    else
      var (t, a) := Step(cfg, s, events[0], evicting);
      a + Answers(cfg, t, events[1..], evicting)
  }

  /** The clock never goes back. */
  ghost predicate Chronological(events: seq<Event>, start: int) {
    events == [] || (start <= events[0].now && Chronological(events[1..], events[0].now))
  }

  // ---------------------------------------------------------------- eviction cannot be observed

  /** The evicting limiter s agrees with the reference r, up to full buckets and ended penalties. */
  ghost predicate Agree(cfg: Config, s: Limiter, r: Limiter, now: int) {
    && s.buckets.Keys <= r.buckets.Keys && s.penalties.Keys <= r.penalties.Keys
    && (forall ip :: ip in s.buckets ==> s.buckets[ip] == r.buckets[ip])
    && (forall ip :: ip in r.buckets && ip !in s.buckets ==> now - r.buckets[ip].lastRefill >= cfg.windowMs)
    && (forall ip :: ip in s.penalties ==> s.penalties[ip] == r.penalties[ip])
    && (forall ip :: ip in r.penalties && ip !in s.penalties ==> now >= r.penalties[ip].expiresAt)
  }

  lemma ServeAgrees(cfg: Config, s: Limiter, r: Limiter, ip: Ip, now: int)
    requires Agree(cfg, s, r, now)
    ensures Serve(cfg, s, ip, now).1 == Serve(cfg, r, ip, now).1
    ensures Agree(cfg, Serve(cfg, s, ip, now).0, Serve(cfg, r, ip, now).0, now)
  {
    assert CapacityOf(cfg, s, ip, now) == CapacityOf(cfg, r, ip, now);
    if ip in r.buckets && ip !in s.buckets {
      IdleWindowFills(cfg.windowMs, CapacityOf(cfg, r, ip, now), r.buckets[ip], now);
    }
  }

  lemma StepAgrees(cfg: Config, s: Limiter, r: Limiter, e: Event, before: int)
    requires Agree(cfg, s, r, before) && before <= e.now
    requires e.Cleanup? ==> cfg.windowMs <= EARLY
    ensures Step(cfg, s, e, true).1 == Step(cfg, r, e, false).1
    ensures Agree(cfg, Step(cfg, s, e, true).0, Step(cfg, r, e, false).0, e.now)
  {
    assert Agree(cfg, s, r, e.now);
    if e.Request? { ServeAgrees(cfg, s, r, e.ip, e.now); }
  }

  lemma {:induction false} RunsAgree(cfg: Config, s: Limiter, r: Limiter, events: seq<Event>, start: int)
    requires Agree(cfg, s, r, start) && Chronological(events, start)
    requires cfg.windowMs <= EARLY
    ensures Answers(cfg, s, events, true) == Answers(cfg, r, events, false)
    decreases |events|
  {
    if events != [] {
      StepAgrees(cfg, s, r, events[0], start);
      RunsAgree(cfg, Step(cfg, s, events[0], true).0, Step(cfg, r, events[0], false).0, events[1..], events[0].now);
    }
  }

  /** No history of requests, penalties and clean-ups can tell the limiter from one that never evicts. */
  ghost predicate EvictionInvisible(cfg: Config) {
    forall events: seq<Event>, start: int :: Chronological(events, start) ==>
      Answers(cfg, EMPTY, events, true) == Answers(cfg, EMPTY, events, false)
  }

  /** A throttled client whose bucket was evicted is admitted at a moment at which the kept bucket still denies it. */
  lemma LongWindowSteps(cfg: Config, ip: Ip, gap: nat)
    requires gap == IDLE_LIMIT_MS + 1 && cfg.windowMs > gap
    ensures var s1 := Limiter(map[], map[ip := Penalty(1, gap + 1)]);
      var s2 := s1.(buckets := map[ip := Bucket(0, 0)]);
      && Step(cfg, EMPTY, ApplyPenalty(ip, 1, gap + 1, 0), true).0 == s1
      && Serve(cfg, s1, ip, 0).0 == s2 && Evict(s2, gap) == s1
      && Serve(cfg, s1, ip, 0).1.result.allowed && Serve(cfg, s1, ip, 0).1.limit == Serve(cfg, s1, ip, gap).1.limit == 1
      && Serve(cfg, s1, ip, gap).1.result.allowed && !Serve(cfg, s2, ip, gap).1.result.allowed
  {
    MulIsProduct(cfg.windowMs, 1);
    MulIsProduct(gap, 1);
    var s1 := Limiter(map[], map[ip := Penalty(1, gap + 1)]);
    var s2 := s1.(buckets := map[ip := Bucket(0, 0)]);
    assert Serve(cfg, s1, ip, 0).0.buckets == s2.buckets;
    assert Evict(s2, gap).buckets == map[];
    assert Evict(s2, gap).penalties == s1.penalties;
  }

  /** A penalised client that asks, is forgotten at the first possible moment, and asks again. */
  function EarlyCleanup(ip: Ip): seq<Event> {
    [ApplyPenalty(ip, 1, EARLY + 1, 0), Request(ip, 0), Cleanup(EARLY), Request(ip, EARLY)]
  }

  lemma EarlyCleanupTimes(ip: Ip)
    ensures Chronological(EarlyCleanup(ip), 0) && LastTime(EarlyCleanup(ip), 0) == EARLY
  {
    var events := EarlyCleanup(ip);
    var e1, e2, e3 := events[1..], events[2..], events[3..];
    assert e3[1..] == [] && e2[1..] == e3 && e1[1..] == e2;
    assert Chronological(e3, EARLY) && Chronological(e2, 0) && Chronological(e1, 0);
    assert LastTime(e3, EARLY) == EARLY && LastTime(e2, 0) == EARLY && LastTime(e1, 0) == EARLY;
  }

  /** What that client hears with or without the eviction in between. */
  lemma LongWindowHears(cfg: Config, ip: Ip, evicting: bool)
    requires cfg.windowMs > EARLY
    ensures var a := Answers(cfg, EMPTY, EarlyCleanup(ip), evicting);
      && |a| == 2 && a[0].result.allowed && (a[1].result.allowed <==> evicting)
      && forall k :: 0 <= k < 2 ==> a[k].ip == ip && a[k].limit == 1
  {
    var ask, clean, again := [Request(ip, 0)], [Cleanup(EARLY)], [Request(ip, EARLY)];
    LongWindowSteps(cfg, ip, EARLY);
    var s1 := Limiter(map[], map[ip := Penalty(1, EARLY + 1)]);
    var s2 := s1.(buckets := map[ip := Bucket(0, 0)]);
    var s3 := if evicting then s1 else s2;
    assert EarlyCleanup(ip) == [ApplyPenalty(ip, 1, EARLY + 1, 0)] + (ask + (clean + (again + [])));
    AnswersCons(cfg, EMPTY, ApplyPenalty(ip, 1, EARLY + 1, 0), ask + (clean + (again + [])), evicting);
    AnswersCons(cfg, s1, ask[0], clean + (again + []), evicting);
    AnswersCons(cfg, s2, clean[0], again + [], evicting);
    AnswersCons(cfg, s3, again[0], [], evicting);
    assert Answers(cfg, EMPTY, EarlyCleanup(ip), evicting) == [Serve(cfg, s1, ip, 0).1, Serve(cfg, s3, ip, EARLY).1];
  }

  lemma AnswersCons(cfg: Config, s: Limiter, e: Event, rest: seq<Event>, evicting: bool)
    ensures Answers(cfg, s, [e] + rest, evicting) ==
      Step(cfg, s, e, evicting).1 + Answers(cfg, Step(cfg, s, e, evicting).0, rest, evicting)
  {
    assert ([e] + rest)[1..] == rest;
  }

  /** With a longer window, a client throttled for a while is forgotten too early and admitted. */
  lemma LongWindowShows(cfg: Config, ip: Ip)
    requires cfg.windowMs > EARLY
    ensures Chronological(EarlyCleanup(ip), 0)
    ensures Answers(cfg, EMPTY, EarlyCleanup(ip), true) != Answers(cfg, EMPTY, EarlyCleanup(ip), false)
  {
    EarlyCleanupTimes(ip);
    LongWindowHears(cfg, ip, true);
    LongWindowHears(cfg, ip, false);
  }

  /** Eviction at arbitrary moments is unobservable exactly when the window is at most 300001 ms: the test is for
      strictly more than 300000 ms of idleness, in whole milliseconds. */
  lemma EvictionInvisibleIff(cfg: Config)
    ensures EvictionInvisible(cfg) <==> cfg.windowMs <= 300001
  {
    if cfg.windowMs <= EARLY {
      forall events: seq<Event>, start: int | Chronological(events, start)
        ensures Answers(cfg, EMPTY, events, true) == Answers(cfg, EMPTY, events, false)
      {
        RunsAgree(cfg, EMPTY, EMPTY, events, start);
      }
    } else {
      LongWindowShows(cfg, "client");
    }
  }

  // ---------------------------------------------------------------- which limit applies

  function AfterAll(cfg: Config, s: Limiter, events: seq<Event>, evicting: bool): Limiter
    decreases |events|
  {
    if events == [] then s
    else Step(cfg, AfterAll(cfg, s, events[..|events| - 1], evicting), events[|events| - 1], evicting).0
  }

  /** The last penalty of an IP in the log, unless it was removed since. */
  function LastPenalty(events: seq<Event>, ip: Ip): Option<Event> {
    if events == [] then None
    else
      match events[|events| - 1]
      case ApplyPenalty(i, m, d, t) =>
        if i == ip then Some(ApplyPenalty(i, m, d, t)) else LastPenalty(events[..|events| - 1], ip)
      case RemovePenalty(i, _) => if i == ip then None else LastPenalty(events[..|events| - 1], ip)
      case _ => LastPenalty(events[..|events| - 1], ip)
  }

  /** The clock never goes back, seen from the end of the log. */
  ghost predicate InClockOrder(events: seq<Event>) {
    forall i, j :: 0 <= i < j < |events| ==> events[i].now <= events[j].now
  }

  /** The stored penalty is the logged one, or the logged one is over. */
  ghost predicate PenaltyLogged(s: Limiter, last: Option<Event>, ip: Ip, now: int) {
    match last
    case Some(ApplyPenalty(_, m, d, t)) =>
      if ip in s.penalties then s.penalties[ip] == Penalty(m, t + d) else now >= t + d
    case _ => ip !in s.penalties
  }

  lemma StepLogsPenalty(cfg: Config, s: Limiter, last: Option<Event>, e: Event, ip: Ip, before: int, evicting: bool)
    requires PenaltyLogged(s, last, ip, before) && before <= e.now
    requires last.Some? ==> last.value.ApplyPenalty?
    ensures var next :=
        if e.ApplyPenalty? && e.ip == ip then Some(e)
        else if e.RemovePenalty? && e.ip == ip then None else last;
      PenaltyLogged(Step(cfg, s, e, evicting).0, next, ip, e.now)
  {
  }

  lemma {:induction false} LogKeepsPenalty(cfg: Config, events: seq<Event>, ip: Ip, now: int, evicting: bool)
    requires InClockOrder(events) && forall i :: 0 <= i < |events| ==> events[i].now <= now
    ensures PenaltyLogged(AfterAll(cfg, EMPTY, events, evicting), LastPenalty(events, ip), ip, now)
    ensures LastPenalty(events, ip).Some? ==> LastPenalty(events, ip).value.ApplyPenalty?
    decreases |events|
  {
    if events != [] {
      var front, e := events[..|events| - 1], events[|events| - 1];
      LogKeepsPenalty(cfg, front, ip, e.now, evicting);
      StepLogsPenalty(cfg, AfterAll(cfg, EMPTY, front, evicting), LastPenalty(front, ip), e, ip, e.now, evicting);
    }
  }

  /** The limit a client hears of: the maximum of its last penalty, if that was not removed since and the request comes
      before its time plus its duration; otherwise the configured maximum. The request ends an expired penalty. */
  lemma LimitFollowsLog(cfg: Config, events: seq<Event>, ip: Ip, now: int, evicting: bool)
    requires InClockOrder(events) && forall i :: 0 <= i < |events| ==> events[i].now <= now
    ensures var (s, answers) := Step(cfg, AfterAll(cfg, EMPTY, events, evicting), Request(ip, now), evicting);
      && |answers| == 1 && answers[0].ip == ip
      && match LastPenalty(events, ip)
         case Some(ApplyPenalty(_, maxRequests, durationMs, t)) =>
           if now < t + durationMs then answers[0].limit == maxRequests && ip in s.penalties
           else answers[0].limit == cfg.maxRequests && ip !in s.penalties
         case _ => answers[0].limit == cfg.maxRequests && ip !in s.penalties
  {
    LogKeepsPenalty(cfg, events, ip, now, evicting);
  }

  lemma {:induction false} BurstFrom(cfg: Config, s: Limiter, ip: Ip, now: int, tokens: nat, k: nat)
    requires ip !in s.penalties && ip in s.buckets && s.buckets[ip] == Bucket(Mul(tokens, cfg.windowMs), now)
    requires tokens <= cfg.maxRequests
    ensures Admitted(Answers(cfg, s, seq(k, _ => Request(ip, now)), true), ip) == if k < tokens then k else tokens
    decreases k
  {
    if k > 0 {
      var events, rest := seq(k, _ => Request(ip, now)), seq(k - 1, _ => Request(ip, now));
      assert events == [Request(ip, now)] + rest;
      AnswersCons(cfg, s, Request(ip, now), rest, true);
      var (t, a) := Serve(cfg, s, ip, now);
      MulGrows(tokens, cfg.maxRequests, cfg.windowMs);
      MulCommutes(cfg.windowMs, cfg.maxRequests);
      BurstFrom(cfg, t, ip, now, if tokens == 0 then 0 else tokens - 1, k - 1);
      AdmittedConcat([a], Answers(cfg, t, rest, true), ip);
      assert [a][1..] == [];
    }
  }

  /** The burst: of k requests at one moment of a client not seen before and not penalised, exactly the first
      maxRequests are admitted. */
  lemma BurstIsCapacity(cfg: Config, s: Limiter, ip: Ip, now: int, k: nat)
    requires ip !in s.penalties && ip !in s.buckets
    ensures Admitted(Answers(cfg, s, seq(k, _ => Request(ip, now)), true), ip) ==
      if k < cfg.maxRequests then k else cfg.maxRequests
  {
    if k > 0 {
      var events, rest := seq(k, _ => Request(ip, now)), seq(k - 1, _ => Request(ip, now));
      assert events == [Request(ip, now)] + rest;
      AnswersCons(cfg, s, Request(ip, now), rest, true);
      var (t, a) := Serve(cfg, s, ip, now);
      MulCommutes(cfg.windowMs, cfg.maxRequests);
      BurstFrom(cfg, t, ip, now, cfg.maxRequests - 1, k - 1);
      AdmittedConcat([a], Answers(cfg, t, rest, true), ip);
      assert [a][1..] == [];
    }
  }

  // ---------------------------------------------------------------- admission bound

  function Admitted(answers: seq<Answer>, ip: Ip): nat {
    if answers == [] then 0
    else (if answers[0].ip == ip && answers[0].result.allowed then 1 else 0) + Admitted(answers[1..], ip)
  }

  /** Every answer to the IP applied the limit. */
  ghost predicate LimitIs(answers: seq<Answer>, ip: Ip, limit: pos) {
    forall i :: 0 <= i < |answers| && answers[i].ip == ip ==> answers[i].limit == limit
  }

  ghost function LastTime(events: seq<Event>, start: int): int {
    if events == [] then start else LastTime(events[1..], events[0].now)
  }

  ghost predicate NotAhead(s: Limiter, now: int) {
    forall ip :: ip in s.buckets ==> s.buckets[ip].lastRefill <= now
  }

  /** No event of the history can evict a bucket that is not yet full. */
  ghost predicate EvictsOnlyFull(cfg: Config, events: seq<Event>) {
    cfg.windowMs <= EARLY || forall i :: 0 <= i < |events| ==> !events[i].Cleanup?
  }

  /** The potential of an IP: an event at `now` lowers what it has available by at most what it admits. */
  lemma StepSpends(cfg: Config, s: Limiter, e: Event, ip: Ip, limit: pos)
    requires NotAhead(s, e.now) && (e.Cleanup? ==> cfg.windowMs <= EARLY)
    requires LimitIs(Step(cfg, s, e, true).1, ip, limit)
    ensures var (t, a) := Step(cfg, s, e, true);
      && NotAhead(t, e.now)
      && Available(cfg.windowMs, limit, Lookup(t.buckets, ip), e.now) + Mul(Admitted(a, ip), cfg.windowMs)
        == Available(cfg.windowMs, limit, Lookup(s.buckets, ip), e.now)
  {
    var w := cfg.windowMs;
    var (t, a) := Step(cfg, s, e, true);
    if e.Request? {
      var answer := a[0];
      assert a[1..] == [];
      if e.ip == ip {
        assert answer.limit == limit;
        assert Available(w, limit, Some(t.buckets[ip]), e.now) == t.buckets[ip].scaled;
      }
    } else if e.Cleanup? && ip in s.buckets && ip !in t.buckets {
      IdleWindowFills(w, limit, s.buckets[ip], e.now);
    }
  }

  lemma {:induction false} AdmittedConcat(a: seq<Answer>, b: seq<Answer>, ip: Ip)
    ensures Admitted(a + b, ip) == Admitted(a, ip) + Admitted(b, ip)
  {
    if a == [] { assert a + b == b; }
    else { assert (a + b)[1..] == a[1..] + b; AdmittedConcat(a[1..], b, ip); }
  }

  lemma LimitIsConcat(a: seq<Answer>, b: seq<Answer>, ip: Ip, limit: pos)
    requires LimitIs(a + b, ip, limit)
    ensures LimitIs(a, ip, limit) && LimitIs(b, ip, limit)
  {
    assert forall i :: 0 <= i < |a| ==> (a + b)[i] == a[i];
    assert forall i :: 0 <= i < |b| ==> (a + b)[|a| + i] == b[i];
  }

  lemma FirstEventSpends(cfg: Config, s: Limiter, events: seq<Event>, start: int, ip: Ip, limit: pos)
    returns (t: Limiter, admitted: nat)
    requires events != [] && NotAhead(s, start) && start <= events[0].now && EvictsOnlyFull(cfg, events)
    requires LimitIs(Answers(cfg, s, events, true), ip, limit)
    ensures NotAhead(t, events[0].now)
    ensures LimitIs(Answers(cfg, t, events[1..], true), ip, limit)
    ensures Admitted(Answers(cfg, s, events, true), ip) == admitted + Admitted(Answers(cfg, t, events[1..], true), ip)
    ensures Available(cfg.windowMs, limit, Lookup(t.buckets, ip), events[0].now) + Mul(admitted, cfg.windowMs)
      <= Available(cfg.windowMs, limit, Lookup(s.buckets, ip), start) + Mul(events[0].now - start, limit)
  {
    t := Step(cfg, s, events[0], true).0;
    var a, b := Step(cfg, s, events[0], true).1, Answers(cfg, t, events[1..], true);
    assert Answers(cfg, s, events, true) == a + b;
    admitted := Admitted(a, ip);
    LimitIsConcat(a, b, ip, limit);
    AdmittedConcat(a, b, ip);
    AvailableGrows(cfg.windowMs, limit, Lookup(s.buckets, ip), start, events[0].now);
    StepSpends(cfg, s, events[0], ip, limit);
  }

  /** The IP was admitted no more often than `before` and the refill of `ms` milliseconds pay for. */
  ghost predicate Paid(w: pos, limit: pos, admitted: nat, before: nat, ms: int) {
    ms >= 0 && Mul(admitted, w) <= before + Mul(ms, limit)
  }

  /** What two stretches in a row admit, refill by refill. */
  lemma Accumulate(
    w: pos, limit: pos, total: nat, before: nat, ms: nat, first: nat, lapse: nat, between: nat, rest: nat, more: nat)
    requires between + Mul(first, w) <= before + Mul(lapse, limit) && ms == lapse + more
    requires Paid(w, limit, rest, between, more) && total == first + rest
    ensures Paid(w, limit, total, before, ms)
  {
    MulAdd(first, rest, w);
    MulAdd(lapse, more, limit);
  }

  lemma RestOfHistory(cfg: Config, events: seq<Event>, start: int)
    requires events != [] && Chronological(events, start) && EvictsOnlyFull(cfg, events)
    ensures start <= events[0].now && Chronological(events[1..], events[0].now) && EvictsOnlyFull(cfg, events[1..])
    ensures LastTime(events, start) == LastTime(events[1..], events[0].now)
  {
    var rest := events[1..];
    if cfg.windowMs > EARLY {
      forall i | 0 <= i < |rest| ensures !rest[i].Cleanup? { assert rest[i] == events[i + 1]; }
    }
  }

  lemma {:induction false} RunSpends(cfg: Config, s: Limiter, events: seq<Event>, start: int, ip: Ip, limit: pos)
    requires NotAhead(s, start) && Chronological(events, start) && EvictsOnlyFull(cfg, events)
    requires LimitIs(Answers(cfg, s, events, true), ip, limit)
    ensures Paid(cfg.windowMs, limit, Admitted(Answers(cfg, s, events, true), ip),
              Available(cfg.windowMs, limit, Lookup(s.buckets, ip), start), LastTime(events, start) - start)
    decreases |events|
  {
    if events != [] {
      RestOfHistory(cfg, events, start);
      var t, admitted := FirstEventSpends(cfg, s, events, start, ip, limit);
      var rest, now := events[1..], events[0].now;
      RunSpends(cfg, t, rest, now, ip, limit);
      Accumulate(cfg.windowMs, limit, Admitted(Answers(cfg, s, events, true), ip),
        Available(cfg.windowMs, limit, Lookup(s.buckets, ip), start), LastTime(events, start) - start, admitted,
        now - start, Available(cfg.windowMs, limit, Lookup(t.buckets, ip), now),
        Admitted(Answers(cfg, t, rest, true), ip), LastTime(rest, now) - now);
    }
  }

  lemma AsProducts(w: pos, limit: pos, admitted: nat, before: nat, ms: nat)
    requires before <= Mul(w, limit) && Paid(w, limit, admitted, before, ms)
    ensures WithinRate(admitted, w, limit, ms)
  {
    MulIsProduct(admitted, w);
    MulIsProduct(w, limit);
    MulIsProduct(ms, limit);
  }

  /** At most C + (C / windowMs) * duration admissions. */
  ghost predicate WithinRate(admitted: nat, w: pos, limit: pos, durationMs: int) {
    admitted * w <= limit * w + limit * durationMs
  }

  /** The admission bound: over any stretch of any multi-IP history in which an IP's capacity stays C, from whatever
      state, it is admitted at most C + (C / windowMs) * (duration) times: at any window when nothing is cleaned up
      meanwhile, and with clean-ups anywhere when the window is at most 300001 ms. The capacity may be a penalty: the
      bound is then the penalty's, however many tokens were held before. */
  lemma AdmissionBound(cfg: Config, s: Limiter, events: seq<Event>, start: int, ip: Ip, limit: pos)
    requires NotAhead(s, start) && Chronological(events, start) && EvictsOnlyFull(cfg, events)
    requires LimitIs(Answers(cfg, s, events, true), ip, limit)
    ensures WithinRate(Admitted(Answers(cfg, s, events, true), ip), cfg.windowMs, limit,
              LastTime(events, start) - start)
  {
    RunSpends(cfg, s, events, start, ip, limit);
    AsProducts(cfg.windowMs, limit, Admitted(Answers(cfg, s, events, true), ip),
      Available(cfg.windowMs, limit, Lookup(s.buckets, ip), start), LastTime(events, start) - start);
  }

  /** The bound on one stretch, if that is a stretch of constant capacity. */
  ghost predicate BoundHolds(cfg: Config, s: Limiter, events: seq<Event>, start: int, ip: Ip, limit: pos) {
    NotAhead(s, start) && Chronological(events, start) && LimitIs(Answers(cfg, s, events, true), ip, limit) ==>
      WithinRate(Admitted(Answers(cfg, s, events, true), ip), cfg.windowMs, limit, LastTime(events, start) - start)
  }

  ghost predicate AlwaysWithinRate(cfg: Config) {
    forall s: Limiter, events: seq<Event>, start: int, ip: Ip, limit: pos ::
      BoundHolds(cfg, s, events, start, ip, limit)
  }

  /** A longer window breaks the bound from the very start: the penalised client whose bucket is evicted early is
      admitted twice where its rate allows one. */
  lemma LongWindowOveradmits(cfg: Config, ip: Ip)
    requires cfg.windowMs > EARLY
    ensures !BoundHolds(cfg, EMPTY, EarlyCleanup(ip), 0, ip, 1)
  {
    EarlyCleanupTimes(ip);
    LongWindowHears(cfg, ip, true);
    var answers := Answers(cfg, EMPTY, EarlyCleanup(ip), true);
    assert answers == [answers[0]] + [answers[1]];
    AdmittedConcat([answers[0]], [answers[1]], ip);
    assert [answers[0]][1..] == [] && [answers[1]][1..] == [];
    assert Admitted(answers, ip) == 2;
  }

  /** The admission bound holds of every stretch of every history exactly when the window is at most 300001 ms. */
  lemma AdmissionBoundIff(cfg: Config)
    ensures AlwaysWithinRate(cfg) <==> cfg.windowMs <= 300001
  {
    if cfg.windowMs <= EARLY {
      forall s: Limiter, events: seq<Event>, start: int, ip: Ip, limit: pos
        ensures BoundHolds(cfg, s, events, start, ip, limit)
      {
        if NotAhead(s, start) && Chronological(events, start) && LimitIs(Answers(cfg, s, events, true), ip, limit) {
          AdmissionBound(cfg, s, events, start, ip, limit);
        }
      }
    } else {
      LongWindowOveradmits(cfg, "client");
    }
  }

  // ---------------------------------------------------------------- the Redis script

  datatype RedisKey = RedisKey(bucket: Bucket, expiresAt: int)

  /** ceil(capacity / (refillRate * 1000)) + 60: the capacity cancels. */
  function TtlSeconds(w: pos): nat {
    CeilDiv(w, 1000) + 60
  }

  /** The hash the script reads: a key past its expiry no longer exists. */
  function ReadKey(store: map<Ip, RedisKey>, ip: Ip, now: int): Option<Bucket> {
    if ip in store && now < store[ip].expiresAt then Some(store[ip].bucket) else None
  }

  /** The script as one atomic step: the same bucket rule, and the key's expiry restarted. */
  function EvalScript(w: pos, store: map<Ip, RedisKey>, ip: Ip, capacity: pos, now: int): (map<Ip, RedisKey>, Result) {
    var (bucket, result) := Take(w, capacity, ReadKey(store, ip, now), now);
    (store[ip := RedisKey(bucket, now + 1000 * TtlSeconds(w))], result)
  }

  datatype Call = Call(ip: Ip, capacity: pos, now: int)

  ghost predicate CallsInOrder(calls: seq<Call>, start: int) {
    calls == [] || (start <= calls[0].now && CallsInOrder(calls[1..], calls[0].now))
  }

  function ScriptResults(w: pos, store: map<Ip, RedisKey>, calls: seq<Call>): seq<Result>
    decreases |calls|
  {
    if calls == [] then []
    else
      var (next, r) := EvalScript(w, store, calls[0].ip, calls[0].capacity, calls[0].now);
      [r] + ScriptResults(w, next, calls[1..])
  }

  /** The in-memory algorithm on the same calls, never evicting. */
  function MemoryResults(w: pos, buckets: map<Ip, Bucket>, calls: seq<Call>): seq<Result>
    decreases |calls|
  {
    if calls == [] then []
    else
      var (bucket, r) := Take(w, calls[0].capacity, Lookup(buckets, calls[0].ip), calls[0].now);
      [r] + MemoryResults(w, buckets[calls[0].ip := bucket], calls[1..])
  }

  /** Same keys, same buckets, and every expiry a whole window away from the last refill. */
  ghost predicate Mirrors(w: pos, store: map<Ip, RedisKey>, buckets: map<Ip, Bucket>) {
    && store.Keys == buckets.Keys
    && forall ip :: ip in store ==>
      store[ip].bucket == buckets[ip] && store[ip].expiresAt - buckets[ip].lastRefill >= w
  }

  /** A key lives exactly the window, in whole seconds rounded up, and 60 seconds more. */
  lemma KeyLives(w: pos, store: map<Ip, RedisKey>, ip: Ip, capacity: pos, now: int, t: int) returns (seconds: nat)
    ensures 1000 * seconds - 1000 < w <= 1000 * seconds
    ensures ReadKey(EvalScript(w, store, ip, capacity, now).0, ip, t).Some? <==> t < now + 1000 * seconds + 60000
  {
    CeilDivIsLeast(w, 1000);
    seconds := CeilDiv(w, 1000);
    MulIsProduct(seconds, 1000);
    MulIsProduct(seconds - 1, 1000);
  }

  lemma TtlCoversWindow(w: pos)
    ensures 1000 * TtlSeconds(w) >= w
  {
    CeilDivIsLeast(w, 1000);
    MulIsProduct(CeilDiv(w, 1000), 1000);
  }

  /** The two implementations are the same algorithm: the script's key expiry is unobservable at any window, even
      while penalties change an IP's capacity from call to call. */
  lemma {:induction false} ScriptIsMemory(
    w: pos, store: map<Ip, RedisKey>, buckets: map<Ip, Bucket>, calls: seq<Call>, start: int)
    requires Mirrors(w, store, buckets) && CallsInOrder(calls, start)
    ensures ScriptResults(w, store, calls) == MemoryResults(w, buckets, calls)
    decreases |calls|
  {
    if calls != [] {
      var c := calls[0];
      TtlCoversWindow(w);
      if c.ip in store && c.now >= store[c.ip].expiresAt {
        IdleWindowFills(w, c.capacity, buckets[c.ip], c.now);
      }
      assert Take(w, c.capacity, ReadKey(store, c.ip, c.now), c.now) ==
        Take(w, c.capacity, Lookup(buckets, c.ip), c.now);
      var (next, r) := EvalScript(w, store, c.ip, c.capacity, c.now);
      ScriptIsMemory(w, next, buckets[c.ip := next[c.ip].bucket], calls[1..], c.now);
    }
  }

  function AdmittedCalls(calls: seq<Call>, results: seq<Result>, ip: Ip): nat
    requires |calls| == |results|
  {
    if calls == [] then 0
    else (if calls[0].ip == ip && results[0].allowed then 1 else 0) + AdmittedCalls(calls[1..], results[1..], ip)
  }

  ghost predicate CallsLimited(calls: seq<Call>, ip: Ip, limit: pos) {
    forall i :: 0 <= i < |calls| && calls[i].ip == ip ==> calls[i].capacity == limit
  }

  ghost function LastCallTime(calls: seq<Call>, start: int): int {
    if calls == [] then start else LastCallTime(calls[1..], calls[0].now)
  }

  /** One call lowers what an IP has available by what it admits. */
  lemma CallSpends(w: pos, buckets: map<Ip, Bucket>, c: Call, start: int, ip: Ip, limit: pos)
    requires NotAhead(Limiter(buckets, map[]), start) && start <= c.now && (c.ip == ip ==> c.capacity == limit)
    ensures var (bucket, r) := Take(w, c.capacity, Lookup(buckets, c.ip), c.now);
      var next := buckets[c.ip := bucket];
      && NotAhead(Limiter(next, map[]), c.now)
      && Available(w, limit, Lookup(next, ip), c.now) + Mul(if c.ip == ip && r.allowed then 1 else 0, w)
        <= Available(w, limit, Lookup(buckets, ip), start) + Mul(c.now - start, limit)
  {
    AvailableGrows(w, limit, Lookup(buckets, ip), start, c.now);
  }

  lemma RestLimited(calls: seq<Call>, ip: Ip, limit: pos)
    requires calls != [] && CallsLimited(calls, ip, limit)
    ensures CallsLimited(calls[1..], ip, limit)
  {
    var rest := calls[1..];
    forall i | 0 <= i < |rest| && rest[i].ip == ip ensures rest[i].capacity == limit { assert rest[i] == calls[i + 1]; }
  }

  lemma {:induction false} MemorySpends(
    w: pos, buckets: map<Ip, Bucket>, calls: seq<Call>, start: int, ip: Ip, limit: pos)
    requires NotAhead(Limiter(buckets, map[]), start) && CallsInOrder(calls, start) && CallsLimited(calls, ip, limit)
    ensures |MemoryResults(w, buckets, calls)| == |calls|
    ensures Paid(w, limit, AdmittedCalls(calls, MemoryResults(w, buckets, calls), ip),
              Available(w, limit, Lookup(buckets, ip), start), LastCallTime(calls, start) - start)
    decreases |calls|
  {
    if calls != [] {
      var c, rest := calls[0], calls[1..];
      var (bucket, r) := Take(w, c.capacity, Lookup(buckets, c.ip), c.now);
      var next := buckets[c.ip := bucket];
      var admitted := if c.ip == ip && r.allowed then 1 else 0;
      CallSpends(w, buckets, c, start, ip, limit);
      RestLimited(calls, ip, limit);
      MemorySpends(w, next, rest, c.now, ip, limit);
      var results := MemoryResults(w, next, rest);
      assert MemoryResults(w, buckets, calls) == [r] + results && ([r] + results)[1..] == results;
      assert AdmittedCalls(calls, [r] + results, ip) == admitted + AdmittedCalls(rest, results, ip);
      Accumulate(w, limit, AdmittedCalls(calls, MemoryResults(w, buckets, calls), ip),
        Available(w, limit, Lookup(buckets, ip), start), LastCallTime(calls, start) - start, admitted,
        c.now - start, Available(w, limit, Lookup(next, ip), c.now), AdmittedCalls(rest, results, ip),
        LastCallTime(rest, c.now) - c.now);
    }
  }

  /** The admission bound of the shared limiter, at every window: key expiry costs nothing, because a key lives at
      least a window past its last refill. The store is any that the script can leave behind. */
  lemma ScriptAdmissionBound(w: pos, store: map<Ip, RedisKey>, calls: seq<Call>, start: int, ip: Ip, limit: pos)
    requires forall i :: i in store ==>
      store[i].expiresAt - store[i].bucket.lastRefill >= w && store[i].bucket.lastRefill <= start
    requires CallsInOrder(calls, start) && CallsLimited(calls, ip, limit)
    ensures |ScriptResults(w, store, calls)| == |calls|
    ensures WithinRate(AdmittedCalls(calls, ScriptResults(w, store, calls), ip), w, limit,
              LastCallTime(calls, start) - start)
  {
    var buckets := map i | i in store :: store[i].bucket;
    ScriptIsMemory(w, store, buckets, calls, start);
    MemorySpends(w, buckets, calls, start, ip, limit);
    AsProducts(w, limit, AdmittedCalls(calls, ScriptResults(w, store, calls), ip),
      Available(w, limit, Lookup(buckets, ip), start), LastCallTime(calls, start) - start);
  }

  // ---------------------------------------------------------------- the limiter object

  class MemoryRateLimiter {
    const cfg: Config
    var memoryBuckets: map<Ip, Bucket>
    var penalizedIps: map<Ip, Penalty>

    ghost function State(): Limiter
      reads this
    {
      Limiter(memoryBuckets, penalizedIps)
    }

    constructor (cfg: Config)
      ensures this.cfg == cfg && State() == EMPTY
    {
      this.cfg := cfg;
      memoryBuckets, penalizedIps := map[], map[];
    }

    method ApplyPenalty(ip: Ip, maxRequests: pos, durationMs: nat, now: int)
      modifies this
      ensures State() == Step(cfg, old(State()), Event.ApplyPenalty(ip, maxRequests, durationMs, now), true).0
      ensures penalizedIps == old(penalizedIps)[ip := Penalty(maxRequests, now + durationMs)]
    {
      penalizedIps := penalizedIps[ip := Penalty(maxRequests, now + durationMs)];
    }

    method RemovePenalty(ip: Ip) returns (removed: bool)
      modifies this
      ensures removed == (ip in old(penalizedIps))
      ensures State() == Step(cfg, old(State()), Event.RemovePenalty(ip, 0), true).0
    {
      removed := ip in penalizedIps;
      penalizedIps := penalizedIps - {ip};
    }

    method CleanupMemoryStore(now: int)
      modifies this
      ensures State() == Evict(old(State()), now)
      ensures forall ip :: ip in memoryBuckets <==>
        ip in old(memoryBuckets) && now - old(memoryBuckets)[ip].lastRefill <= 300000
      ensures forall ip :: ip in penalizedIps <==> ip in old(penalizedIps) && now <= old(penalizedIps)[ip].expiresAt
    {
      EvictBuckets(now);
      EvictPenalties(now);
    }

    /** The first loop of the clean-up. */
    method EvictBuckets(now: int)
      modifies this`memoryBuckets
      ensures memoryBuckets == Evict(old(State()), now).buckets
    {
      var todo := memoryBuckets.Keys;
      while todo != {}
        invariant todo <= old(memoryBuckets).Keys
        invariant forall ip :: ip in memoryBuckets <==>
          ip in old(memoryBuckets) && (ip in todo || now - old(memoryBuckets)[ip].lastRefill <= IDLE_LIMIT_MS)
        invariant forall ip :: ip in memoryBuckets ==> memoryBuckets[ip] == old(memoryBuckets)[ip]
        decreases |todo|
      {
        var ip :| ip in todo;
        if now - memoryBuckets[ip].lastRefill > IDLE_LIMIT_MS { memoryBuckets := memoryBuckets - {ip}; }
        todo := todo - {ip};
      }
    }

    /** The second loop. */
    method EvictPenalties(now: int)
      modifies this`penalizedIps
      ensures penalizedIps == Evict(old(State()), now).penalties
    {
      var todo := penalizedIps.Keys;
      while todo != {}
        invariant todo <= old(penalizedIps).Keys
        invariant forall ip :: ip in penalizedIps <==>
          ip in old(penalizedIps) && (ip in todo || now <= old(penalizedIps)[ip].expiresAt)
        invariant forall ip :: ip in penalizedIps ==> penalizedIps[ip] == old(penalizedIps)[ip]
        decreases |todo|
      {
        var ip :| ip in todo;
        if now > penalizedIps[ip].expiresAt { penalizedIps := penalizedIps - {ip}; }
        todo := todo - {ip};
      }
    }

    method EvalTokenBucketMemory(ip: Ip, capacity: pos, now: int) returns (result: Result)
      modifies this`memoryBuckets
      ensures var (bucket, r) := Take(cfg.windowMs, capacity, Lookup(old(memoryBuckets), ip), now);
        memoryBuckets == old(memoryBuckets)[ip := bucket] && result == r
    {
      var w := cfg.windowMs;
      var bucket: Bucket;
      MulIsProduct(w, capacity);
      if ip !in memoryBuckets {
        bucket := Bucket(w * capacity, now);
      } else {
        var elapsed := Max(0, now - memoryBuckets[ip].lastRefill);
        MulIsProduct(elapsed, capacity);
        bucket := Bucket(Min(w * capacity, memoryBuckets[ip].scaled + elapsed * capacity), now);
      }
      if bucket.scaled >= w {
        bucket := bucket.(scaled := bucket.scaled - w);
        QuotientIsDivision(bucket.scaled, w);
        result := Result(true, bucket.scaled / w, 0);
      } else {
        var missing := w - bucket.scaled;
        QuotientIsDivision(bucket.scaled, w);
        CeilDivIsDivision(missing, capacity);
        result := Result(false, bucket.scaled / w, (missing + capacity - 1) / capacity);
      }
      memoryBuckets := memoryBuckets[ip := bucket];
    }

    /** The middleware's decision and the numbers of its headers. */
    method Handle(ip: Ip, now: int) returns (answer: Answer, resetAt: int, retryAfterSec: Option<nat>)
      modifies this
      ensures State() == Serve(cfg, old(State()), ip, now).0
      ensures answer == Serve(cfg, old(State()), ip, now).1
      ensures answer.result.remaining <= answer.limit
      ensures resetAt == now + ResetMs(cfg.windowMs, answer.limit, answer.result.remaining)
      ensures retryAfterSec == if answer.result.allowed then None else Some(RetryAfterSec(answer.result))
    {
      var capacity := cfg.maxRequests;
      if ip in penalizedIps {
        if now < penalizedIps[ip].expiresAt {
          capacity := penalizedIps[ip].maxRequests;
        } else {
          penalizedIps := penalizedIps - {ip};
        }
      }
      RemainingFits(cfg.windowMs, capacity, Lookup(memoryBuckets, ip), now);
      var result := EvalTokenBucketMemory(ip, capacity, now);
      answer := Answer(ip, capacity, result);
      resetAt := now + ResetMs(cfg.windowMs, capacity, result.remaining);
      retryAfterSec := if result.allowed then None else Some(Max(1, CeilDiv(result.retryAfterMs, 1000)));
    }
  }
}
