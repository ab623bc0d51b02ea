/**
 * The fixed-window rate limiter that guards login and bootstrap
 * (backend/app/core/rate_limit.py).
 *
 * One monotone clock reading serves a whole call.  The in-memory limiter keeps one
 * window per key; the Redis limiter, a counter with an expiry, is its specification.
 */
module RateLimit {

  datatype Outcome = Outcome(allowed: bool, remaining: int, retryAfter: int)

  /** A stored window: hits so far, when it opened, and how long it lasts. */
  datatype Window = Window(count: nat, start: real, span: int)

  /** What `defaultdict` supplies for a key nobody has hit. */
  const FRESH := Window(0, 0.0, 0)

  /** Python's `int(x)`: truncation towards zero. */
  function Truncate(x: real): int {
    if x >= 0.0 then x.Floor else -((-x).Floor)
  }

  function Max(a: int, b: int): int {
    if a >= b then a else b
  }

  predicate Expired(w: Window, now: real) {
    w.count == 0 || w.span == 0 || now - w.start >= w.span as real
  }

  /** Count and start of the window in force at `now`. */
  function Current(w: Window, now: real): (nat, real) {
    if Expired(w, now) then (0, now) else (w.count, w.start)
  }

  function AfterHit(w: Window, now: real, span: int): Window {
    var (count, start) := Current(w, now);
    Window(count + 1, start, span)
  }

  function Denied(start: real, now: real, span: int): Outcome {
    Outcome(false, 0, Max(Truncate(span as real - (now - start)) + 1, 1))
  }

  function HitOutcome(w: Window, now: real, span: int, limit: int): Outcome {
    var (count, start) := Current(w, now);
    if count + 1 <= limit then Outcome(true, limit - (count + 1), 0) else Denied(start, now, span)
  }

  function CheckOutcome(w: Window, now: real, span: int, limit: int): Outcome {
    var (count, start) := Current(w, now);
    if count < limit then Outcome(true, limit - count, 0) else Denied(start, now, span)
  }

  class InMemoryRateLimiter {
    var windows: map<string, Window>

    constructor ()
      ensures windows == map[]
    {
      windows := map[];
    }

    /** The window a lookup of `key` yields. */
    function At(key: string): Window
      reads this
    {
      if key in windows then windows[key] else FRESH
    }

    /** A lookup stores the default for an absent key; no key's window changes. */
    method CurrentCount(key: string, now: real) returns (count: nat, start: real)
      modifies this
      ensures (count, start) == Current(old(At(key)), now)
      ensures windows == old(windows)[key := old(At(key))]
    {
      if key !in windows {
        windows := windows[key := FRESH];
      }
      var w := windows[key];
      if w.count == 0 || w.span == 0 || now - w.start >= w.span as real {
        return 0, now;
      }
      return w.count, w.start;
    }

    /** One INCR and EXPIRE NX on the counter that the key's window stands for; other keys are left alone. */
    method Hit(key: string, now: real, span: int, limit: int) returns (r: Outcome)
      modifies this
      ensures forall k :: span > 0 && Agree(old(At(key)), k, span) ==>
                && (r.allowed, r.remaining) == RedisAllowed(k, Call.Hit(now), span, limit)
                && Agree(At(key), IncrExpireNx(k, now, span), span)
      ensures forall other :: other != key ==> At(other) == old(At(other))
      ensures r == HitOutcome(old(At(key)), now, span, limit)
      ensures windows == old(windows)[key := AfterHit(old(At(key)), now, span)]
    {
      var count, start := CurrentCount(key, now);
      if count == 0 {
        start := now;
      }
      count := count + 1;
      windows := windows[key := Window(count, start, span)];
      if count <= limit {
        return Outcome(true, limit - count, 0);
      }
      var elapsed := now - start;
      return Outcome(false, 0, Max(Truncate(span as real - elapsed) + 1, 1));
    }

    /** A GET on that counter. */
    method Check(key: string, now: real, span: int, limit: int) returns (r: Outcome)
      modifies this
      ensures forall k :: span > 0 && Agree(old(At(key)), k, span) ==>
                (r.allowed, r.remaining) == RedisAllowed(k, Call.Check(now), span, limit)
      ensures r == CheckOutcome(old(At(key)), now, span, limit)
      ensures forall k :: At(k) == old(At(k))
    {
      var count, start := CurrentCount(key, now);
      if count < limit {
        return Outcome(true, limit - count, 0);
      }
      var elapsed := now - start;
      return Outcome(false, 0, Max(Truncate(span as real - elapsed) + 1, 1));
    }
  }

  // ---- Timed traces of one key with a fixed window and limit ----

  datatype Call = Hit(at: real) | Check(at: real)

  ghost predicate Timed(trace: seq<Call>, from: real) {
    trace != [] ==> from <= trace[0].at && Timed(trace[1..], trace[0].at)
  }

  /** The window left behind by one call. */
  function AfterCall(w: Window, c: Call, span: int): Window {
    if c.Hit? then AfterHit(w, c.at, span) else w
  }

  function OutcomeOf(w: Window, c: Call, span: int, limit: int): Outcome {
    if c.Hit? then HitOutcome(w, c.at, span, limit) else CheckOutcome(w, c.at, span, limit)
  }

  /** How many hits of the trace are allowed at times in `[lo, hi)`. */
  function AllowedHits(w: Window, trace: seq<Call>, span: int, limit: int, lo: real, hi: real): nat
    decreases |trace|
  {
    if trace == [] then 0
    else
      var c := trace[0];
      (if c.Hit? && lo <= c.at < hi && HitOutcome(w, c.at, span, limit).allowed then 1 else 0)
      + AllowedHits(AfterCall(w, c, span), trace[1..], span, limit, lo, hi)
  }

  ghost predicate ValidWindow(w: Window, now: real, span: int) {
    w == FRESH || (w.span == span && w.count >= 1 && w.start <= now)
  }

  /** Hits that can still be allowed in `[lo, lo + span)`, seen from window `w` at time `now`. */
  ghost function Budget(w: Window, now: real, span: int, limit: int, lo: real): int {
    if now >= lo + span as real then 0
    else if Expired(w, now) then (if now >= lo then limit else 2 * limit - 1)
    else if w.start >= lo then Max(limit - w.count, 0)
    else if w.start + span as real > lo then Max(limit - w.count, 0) + limit
    else 2 * limit - 1
  }

  lemma {:induction false} AllowedWithinBudget(w: Window, now: real, trace: seq<Call>, span: int, limit: int, lo: real)
    requires span > 0 && limit >= 1
    requires ValidWindow(w, now, span) && Timed(trace, now)
    ensures AllowedHits(w, trace, span, limit, lo, lo + span as real) <= Budget(w, now, span, limit, lo)
    decreases |trace|
  {
    if trace != [] {
      var c := trace[0];
      AllowedWithinBudget(AfterCall(w, c, span), c.at, trace[1..], span, limit, lo);
    }
  }

  /** No trace gets twice the limit through any half-open interval one window long. */
  lemma LessThanTwiceLimitPerInterval(trace: seq<Call>, span: int, limit: int, from: real, lo: real)
    requires span > 0 && limit >= 1 && Timed(trace, from)
    ensures AllowedHits(FRESH, trace, span, limit, lo, lo + span as real) <= 2 * limit - 1
  {
    AllowedWithinBudget(FRESH, from, trace, span, limit, lo);
  }

  function Burst(at: real, n: nat): seq<Call> {
    seq(n, _ => Hit(at))
  }

  /** Hits that fit into an open window are all allowed, and only move its count. */
  lemma {:induction false} BurstAllowed(w: Window, at: real, n: nat, rest: seq<Call>, span: int, limit: int, lo: real,
                                        hi: real)
    requires span > 0 && w.count >= 1 && w.span == span && at - w.start < span as real
    requires w.count + n <= limit && lo <= at < hi
    ensures AllowedHits(w, Burst(at, n) + rest, span, limit, lo, hi)
            == n + AllowedHits(w.(count := w.count + n), rest, span, limit, lo, hi)
    decreases n
  {
    if n == 0 {
      assert Burst(at, 0) + rest == rest;
    } else {
      assert Burst(at, n) + rest == [Hit(at)] + (Burst(at, n - 1) + rest);
      BurstAllowed(w.(count := w.count + 1), at, n - 1, rest, span, limit, lo, hi);
    }
  }

  lemma {:induction false} BurstTimed(at: real, n: nat, rest: seq<Call>, from: real)
    requires from <= at && Timed(rest, at)
    ensures Timed(Burst(at, n) + rest, from)
    decreases n
  {
    if n == 0 {
      assert Burst(at, 0) + rest == rest;
    } else {
      assert Burst(at, n) + rest == [Hit(at)] + (Burst(at, n - 1) + rest);
      BurstTimed(at, n - 1, rest, at);
    }
  }

  /** A window's worth of hits late in one window, a window's worth at the start of the next. */
  function DoubleBurst(span: int, limit: nat): seq<Call>
    requires limit >= 1
  {
    [Hit(0.0)] + (Burst(span as real / 2.0, limit - 1) + ([Hit(span as real)] + (Burst(span as real, limit - 1) + [])))
  }

  /** The bound of `LessThanTwiceLimitPerInterval` is reached, for every window and limit. */
  lemma TwiceLimitLessOneIsReached(span: int, limit: nat)
    requires span > 0 && limit >= 1
    ensures Timed(DoubleBurst(span, limit), 0.0)
    ensures var half := span as real / 2.0;
            AllowedHits(FRESH, DoubleBurst(span, limit), span, limit, half, half + span as real) == 2 * limit - 1
  {
    var half, full := span as real / 2.0, span as real;
    var tail := [Hit(full)] + (Burst(full, limit - 1) + []);
    BurstAllowed(Window(1, 0.0, span), half, limit - 1, tail, span, limit, half, half + full);
    BurstAllowed(Window(1, full, span), full, limit - 1, [], span, limit, half, half + full);
    BurstTimed(full, limit - 1, [], full);
    BurstTimed(half, limit - 1, tail, 0.0);
  }

  /** A hit that opens a window is followed by at most the limit inside that window, itself included. */
  lemma AtMostLimitPerWindow(w: Window, trace: seq<Call>, span: int, limit: int)
    requires span > 0 && limit >= 1
    requires trace != [] && trace[0].Hit? && Timed(trace, trace[0].at)
    requires ValidWindow(w, trace[0].at, span) && Expired(w, trace[0].at)
    ensures AllowedHits(w, trace, span, limit, trace[0].at, trace[0].at + span as real) <= limit
  {
    AllowedWithinBudget(w, trace[0].at, trace, span, limit, trace[0].at);
  }

  /** `check` answers what the next `hit` would, one slot of `remaining` apart. */
  lemma CheckPredictsHit(w: Window, now: real, span: int, limit: int)
    ensures var check := CheckOutcome(w, now, span, limit);
            var hit := HitOutcome(w, now, span, limit);
            && check.allowed == hit.allowed
            && (check.allowed ==> check.remaining == hit.remaining + 1)
            && check.retryAfter == hit.retryAfter
  {
  }

  lemma TruncateBounds(x: real)
    requires x >= 0.0
    ensures Truncate(x) >= 0 && Truncate(x) as real <= x < Truncate(x) as real + 1.0
  {
  }

  /**
   * A denied caller who sleeps for `retryAfter` finds the window expired, so its next
   * hit goes through; the wait is at least a second and at most one second more than the window.
   */
  lemma WaitingOutRetryAfter(w: Window, now: real, later: real, span: int, limit: int)
    requires span > 0 && limit >= 1 && ValidWindow(w, now, span)
    requires !HitOutcome(w, now, span, limit).allowed
    requires later >= now + HitOutcome(w, now, span, limit).retryAfter as real
    ensures 1 <= HitOutcome(w, now, span, limit).retryAfter <= span + 1
    ensures Expired(AfterHit(w, now, span), later)
    ensures HitOutcome(AfterHit(w, now, span), later, span, limit).allowed
  {
    var (count, start) := Current(w, now);
    var left := span as real - (now - start);
    TruncateBounds(left);
    assert HitOutcome(w, now, span, limit).retryAfter == Truncate(left) + 1;
    assert left <= span as real;
  }

  lemma {:induction false} BurstDenied(w: Window, at: real, n: nat, span: int, limit: int, lo: real, hi: real)
    requires span > 0 && w.count >= 1 && w.span == span && at - w.start < span as real && w.count >= limit
    ensures AllowedHits(w, Burst(at, n), span, limit, lo, hi) == 0
    decreases n
  {
    if n > 0 {
      assert Burst(at, n) == [Hit(at)] + Burst(at, n - 1);
      BurstDenied(w.(count := w.count + 1), at, n - 1, span, limit, lo, hi);
    }
  }

  /** After an allowed hit, `remaining` is the number of further hits that would be allowed at once. */
  lemma RemainingIsExact(w: Window, at: real, span: int, limit: int, extra: nat)
    requires span > 0 && limit >= 1 && ValidWindow(w, at, span) && HitOutcome(w, at, span, limit).allowed
    ensures var left := HitOutcome(w, at, span, limit).remaining;
            && left >= 0
            && AllowedHits(AfterHit(w, at, span), Burst(at, left + extra), span, limit, at, at + span as real) == left
  {
    var left, next := HitOutcome(w, at, span, limit).remaining, AfterHit(w, at, span);
    assert Burst(at, left + extra) == Burst(at, left) + Burst(at, extra);
    BurstAllowed(next, at, left, Burst(at, extra), span, limit, at, at + span as real);
    BurstDenied(next.(count := next.count + left), at, extra, span, limit, at, at + span as real);
  }

  /** And after a check, the number that would be allowed from then on. */
  lemma CheckRemainingIsExact(w: Window, at: real, span: int, limit: int, extra: nat)
    requires span > 0 && limit >= 1 && ValidWindow(w, at, span) && CheckOutcome(w, at, span, limit).allowed
    ensures var left := CheckOutcome(w, at, span, limit).remaining;
            left >= 0 && AllowedHits(w, Burst(at, left + extra), span, limit, at, at + span as real) == left
  {
    var left := CheckOutcome(w, at, span, limit).remaining;
    CheckPredictsHit(w, at, span, limit);
    RemainingIsExact(w, at, span, limit, extra);
    assert Burst(at, left + extra) == [Hit(at)] + Burst(at, left - 1 + extra);
  }

  /** And the wait is at most one second too long: any earlier than that, the window is still in force. */
  lemma RetryAfterIsTight(w: Window, now: real, later: real, span: int, limit: int)
    requires span > 0 && limit >= 1 && ValidWindow(w, now, span)
    requires !HitOutcome(w, now, span, limit).allowed
    requires now <= later < now + (HitOutcome(w, now, span, limit).retryAfter - 1) as real
    ensures !Expired(AfterHit(w, now, span), later)
    ensures !HitOutcome(AfterHit(w, now, span), later, span, limit).allowed
  {
    var (count, start) := Current(w, now);
    var left := span as real - (now - start);
    TruncateBounds(left);
    assert HitOutcome(w, now, span, limit).retryAfter == Truncate(left) + 1;
  }

  // ---- The Redis limiter as specification ----

  /** A Redis key: its counter and the instant at which it vanishes. */
  datatype Counter = Absent | Live(count: nat, expiresAt: real)

  /** What a command sees at `now`. */
  function Visible(k: Counter, now: real): Counter {
    if k.Live? && now < k.expiresAt then k else Absent
  }

  /** INCR followed by EXPIRE NX: only the increment that creates the key sets its expiry. */
  function IncrExpireNx(k: Counter, now: real, span: int): Counter {
    match Visible(k, now)
    case Absent => Live(1, now + span as real)
    case Live(count, expiresAt) => Live(count + 1, expiresAt)
  }

  function CountOf(k: Counter): nat {
    if k.Live? then k.count else 0
  }

  function RedisAllowed(k: Counter, c: Call, span: int, limit: int): (bool, int) {
    if c.Hit? then
      var count := CountOf(IncrExpireNx(k, c.at, span));
      if count <= limit then (true, limit - count) else (false, 0)
    else
      var count := CountOf(Visible(k, c.at));
      if count < limit then (true, limit - count) else (false, 0)
  }

  function RedisAfter(k: Counter, c: Call, span: int): Counter {
    if c.Hit? then IncrExpireNx(k, c.at, span) else k
  }

  /** The two stores agree on every window still in force. */
  ghost predicate Agree(w: Window, k: Counter, span: int) {
    if w == FRESH then k == Absent
    else w.count >= 1 && w.span == span && k == Live(w.count, w.start + span as real)
  }

  function Verdicts(w: Window, trace: seq<Call>, span: int, limit: int): seq<(bool, int)>
    decreases |trace|
  {
    if trace == [] then []
    else
      var r := OutcomeOf(w, trace[0], span, limit);
      [(r.allowed, r.remaining)] + Verdicts(AfterCall(w, trace[0], span), trace[1..], span, limit)
  }

  function RedisVerdicts(k: Counter, trace: seq<Call>, span: int, limit: int): seq<(bool, int)>
    decreases |trace|
  {
    if trace == [] then []
    else [RedisAllowed(k, trace[0], span, limit)]
         + RedisVerdicts(RedisAfter(k, trace[0], span), trace[1..], span, limit)
  }

  /** On every trace the in-memory limiter and the Redis counter give the same verdicts. */
  lemma {:induction false} InMemoryRefinesRedis(w: Window, k: Counter, trace: seq<Call>, span: int, limit: int)
    requires span > 0 && Agree(w, k, span)
    ensures Verdicts(w, trace, span, limit) == RedisVerdicts(k, trace, span, limit)
    decreases |trace|
  {
    if trace != [] {
      var c := trace[0];
      var w', k' := AfterCall(w, c, span), RedisAfter(k, c, span);
      assert Agree(w', k', span);
      InMemoryRefinesRedis(w', k', trace[1..], span, limit);
    }
  }
}
