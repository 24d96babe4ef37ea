/** The fixed-window rate limiter (internal/core/ratelimit/ratelimit.go): the Redis script, the decision
    built from its answer, and what a stream of requests on one key experiences. Times are whole
    milliseconds unless named otherwise. */
module RateLimit {
  import opened Wrappers

  // ----- One call of the script -----

  datatype Counter = Counter(count: nat, expires: int)

  /** Redis may show a key for up to `linger` more milliseconds once its time is reached. */
  predicate Live(c: Option<Counter>, now: int, linger: nat) {
    c.Some? && now < c.value.expires + linger
  }

  function TimeToLive(c: Option<Counter>, now: int): int {
    if c == None then -2 else if c.value.expires <= now then 0 else c.value.expires - now
  }

  datatype ScriptResult = ScriptResult(after: Option<Counter>, allowed: bool, current: nat, ttl: int)

  /** INCR, PEXPIRE on the first increment (which deletes the key for a window under 1 ms), PTTL. */
  function Script(before: Option<Counter>, now: int, linger: nat, limit: int, window: nat): ScriptResult {
    var current := if Live(before, now, linger) then before.value.count + 1 else 1;
    var after :=
      if current > 1 then Some(Counter(current, before.value.expires))
      else if window == 0 then None
      else Some(Counter(1, now + window));
    var ttl := TimeToLive(after, now);
    ScriptResult(after, current <= limit, current, if ttl < 0 then window else ttl)
  }

  // ----- The decision -----

  const NANOS_PER_MILLI := 1_000_000
  const NANOS_PER_SECOND := 1_000_000_000

  /** Window in nanoseconds, as a time.Duration. */
  datatype Request = Request(key: string, limit: int, window: int)

  datatype Decision = Decision(allowed: bool, remaining: nat, retryAfter: int)

  datatype RequestError = LimitNotPositive | WindowNotPositive

  function WindowMillis(window: int): nat
    requires window > 0
  {
    window / NANOS_PER_MILLI
  }

  function RetryAfterSeconds(d: int): nat {
    if d <= 0 then 0 else (d + NANOS_PER_SECOND - 1) / NANOS_PER_SECOND
  }

  /** The least number of whole seconds that covers the delay. */
  lemma RetryAfterSecondsIsCeiling(d: int, n: nat)
    ensures RetryAfterSeconds(d) <= n <==> d <= n * NANOS_PER_SECOND
  {
    var q := (d + NANOS_PER_SECOND - 1) / NANOS_PER_SECOND;
    assert q * NANOS_PER_SECOND <= d + NANOS_PER_SECOND - 1 < (q + 1) * NANOS_PER_SECOND;
  }

  function Decide(s: ScriptResult, limit: int, window: int): Decision {
    Decision(s.allowed,
             if limit - s.current < 0 then 0 else limit - s.current,
             if s.allowed then 0 else if s.ttl > 0 then s.ttl * NANOS_PER_MILLI else window)
  }

  function Stored(counters: map<string, Counter>, key: string): Option<Counter> {
    if key in counters then Some(counters[key]) else None
  }

  class RedisLimiter {
    var counters: map<string, Counter>
    const linger: nat

    constructor (linger: nat)
      ensures counters == map[] && this.linger == linger
    {
      counters := map[];
      this.linger := linger;
    }

    /** A bad request is refused untouched; otherwise the script runs on the request's key and no other
        key's counter changes. */
    method Allow(now: int, req: Request) returns (r: Result<Decision, RequestError>)
      modifies this`counters
      ensures req.limit <= 0 ==> r == Err(LimitNotPositive)
      ensures req.limit > 0 && req.window <= 0 ==> r == Err(WindowNotPositive)
      ensures r.Err? ==> counters == old(counters)
      ensures r.Ok? ==>
                var s := Script(Stored(old(counters), req.key), now, linger, req.limit, WindowMillis(req.window));
                && r.value == Decide(s, req.limit, req.window) && Stored(counters, req.key) == s.after
                && counters - {req.key} == old(counters) - {req.key}
    {
      if req.limit <= 0 { return Err(LimitNotPositive); }
      if req.window <= 0 { return Err(WindowNotPositive); }
      var window := WindowMillis(req.window);
      var s := Script(Stored(counters, req.key), now, linger, req.limit, window);
      counters := match s.after case Some(c) => counters[req.key := c] case None => counters - {req.key};
      var remaining := req.limit - s.current;
      if remaining < 0 {
        remaining := 0;
      }
      var retryAfter := 0;
      if !s.allowed {
        if s.ttl > 0 {
          retryAfter := s.ttl * NANOS_PER_MILLI;
        }
        if retryAfter <= 0 {
          retryAfter := req.window;
        }
      }
      return Ok(Decision(s.allowed, remaining, retryAfter));
    }
  }

  // ----- A stream of requests on one key -----

  /** Arrival times with the constant limit and window they meet. */
  datatype Stream = Stream(times: seq<int>, linger: nat, limit: int, window: nat)

  predicate Valid(s: Stream) {
    && s.limit > 0 && s.window > 0
    && forall i, j | 0 <= i <= j < |s.times| :: s.times[i] <= s.times[j]
  }

  /** What the script answers request n. */
  function Answer(s: Stream, n: nat): ScriptResult
    requires n < |s.times|
  {
    Script(if n == 0 then None else Answer(s, n - 1).after, s.times[n], s.linger, s.limit, s.window)
  }

  /** The request that opened the window of request n, read off the arrival times alone. */
  function Opener(s: Stream, n: nat): (o: nat)
    requires n < |s.times|
    ensures o <= n
  {
    if n == 0 then 0
    else if s.times[n] >= s.times[Opener(s, n - 1)] + s.window + s.linger then n
    else Opener(s, n - 1)
  }

  /** The counter holds the request's number within its window, and the window's end. */
  lemma {:induction false} CounterTracksWindow(s: Stream, n: nat)
    requires Valid(s) && n < |s.times|
    ensures Answer(s, n).after == Some(Counter(n - Opener(s, n) + 1, s.times[Opener(s, n)] + s.window))
    ensures Answer(s, n).current == n - Opener(s, n) + 1
  {
    if n > 0 {
      CounterTracksWindow(s, n - 1);
    }
  }

  predicate Admitted(s: Stream, n: nat)
    requires n < |s.times|
  {
    Answer(s, n).allowed
  }

  /** Each window admits exactly its first `limit` requests and reports what is left. */
  lemma WindowAdmitsItsFirst(s: Stream, n: nat)
    requires Valid(s) && n < |s.times|
    ensures Admitted(s, n) <==> n - Opener(s, n) < s.limit
    ensures Decide(Answer(s, n), s.limit, s.window * NANOS_PER_MILLI).remaining ==
            if Admitted(s, n) then s.limit - (n - Opener(s, n)) - 1 else 0
  {
    CounterTracksWindow(s, n);
  }

  // ----- Windows do not overlap -----

  /** Between an opener and a request of its window every request is of that window. */
  lemma {:induction false} WindowIsContiguous(s: Stream, i: nat, n: nat)
    requires n < |s.times| && Opener(s, n) <= i <= n
    ensures Opener(s, i) == Opener(s, n)
    decreases n
  {
    if i < n {
      WindowIsContiguous(s, i, n - 1);
    }
  }

  /** A later window opens at least one window length after an earlier one. */
  lemma {:induction false} WindowsAreApart(s: Stream, i: nat, n: nat)
    requires Valid(s) && i <= n < |s.times| && Opener(s, i) != Opener(s, n)
    ensures i < Opener(s, n) && s.times[Opener(s, n)] >= s.times[Opener(s, i)] + s.window + s.linger
    decreases n
  {
    if Opener(s, n) == n {
      if Opener(s, n - 1) != Opener(s, i) {
        WindowsAreApart(s, i, n - 1);
      }
    } else {
      WindowsAreApart(s, i, n - 1);
    }
  }

  // ----- The bound over any span -----

  function Span(s: Stream, from: int): set<nat> {
    set i: nat | i < |s.times| && from <= s.times[i] < from + s.window && Admitted(s, i)
  }

  function Interval(lo: nat, n: nat): set<nat> {
    if n == 0 then {} else Interval(lo, n - 1) + {lo + n - 1}
  }

  lemma {:induction false} IntervalSize(lo: nat, n: nat)
    ensures |Interval(lo, n)| == n && forall i: nat :: i in Interval(lo, n) <==> lo <= i < lo + n
  {
    if n > 0 {
      IntervalSize(lo, n - 1);
    }
  }

  lemma {:induction false} SubsetSize(a: set<nat>, b: set<nat>)
    requires a <= b
    ensures |a| <= |b|
  {
    if a != {} {
      var x :| x in a;
      SubsetSize(a - {x}, b - {x});
    }
  }

  lemma WithinInterval(a: set<nat>, lo: nat, n: nat)
    requires forall i | i in a :: lo <= i < lo + n
    ensures |a| <= n
  {
    IntervalSize(lo, n);
    SubsetSize(a, Interval(lo, n));
  }

  /** The requests of the span in the window opened by `o`. */
  function SpanOf(s: Stream, from: int, o: nat): set<nat> {
    set i: nat | i in Span(s, from) && Opener(s, i) == o
  }

  lemma SpanWithinTwo(s: Stream, from: int, first: nat, i: nat, last: nat)
    requires Valid(s) && first <= i <= last && first in Span(s, from) && i in Span(s, from) && last in Span(s, from)
    ensures Opener(s, i) == Opener(s, first) || Opener(s, i) == Opener(s, last)
    ensures Opener(s, first) != Opener(s, last) ==> Opener(s, first) !in Span(s, from)
  {
    if Opener(s, first) != Opener(s, last) {
      WindowsAreApart(s, first, last);
      if Opener(s, i) != Opener(s, first) && Opener(s, i) != Opener(s, last) {
        WindowsAreApart(s, first, i);
        WindowsAreApart(s, i, last);
      }
    } else {
      WindowIsContiguous(s, i, last);
    }
  }

  lemma Ends(a: set<nat>) returns (lo: nat, hi: nat)
    requires a != {}
    ensures lo in a && hi in a && forall i | i in a :: lo <= i <= hi
  {
    var x :| x in a;
    if a == {x} {
      lo, hi := x, x;
    } else {
      var l, h := Ends(a - {x});
      lo, hi := if l < x then l else x, if h > x then h else x;
      assert forall i | i in a :: i == x || i in a - {x};
    }
  }

  /** A half-open span as long as the window admits at most 2 * limit - 1 requests. */
  lemma SpanBound(s: Stream, from: int)
    requires Valid(s)
    ensures |Span(s, from)| <= 2 * s.limit - 1
  {
    var span := Span(s, from);
    if span != {} {
      var first, last := Ends(span);
      var o, o' := Opener(s, first), Opener(s, last);
      forall i | i in span
        ensures Opener(s, i) == o || Opener(s, i) == o'
        ensures i - Opener(s, i) < s.limit && (o != o' ==> o != i)
      {
        SpanWithinTwo(s, from, first, i, last);
        WindowAdmitsItsFirst(s, i);
      }
      var early, late := SpanOf(s, from, o), SpanOf(s, from, o');
      assert span == early + late;
      WithinInterval(late, o', s.limit);
      if o == o' {
        assert early == late && span == late;
      } else {
        WithinInterval(early, o + 1, s.limit - 1);
        assert |early + late| <= |early| + |late|;
      }
    }
  }

  /** One request, a burst up to the limit later in its window, and a full burst in the next. */
  function Burst(limit: nat, window: nat, linger: nat): Stream
    requires limit > 0 && window > 1
  {
    Stream(seq(2 * limit, i => if i == 0 then 0 else if i < limit then linger + 1 else window + linger), linger, limit, window)
  }

  lemma {:induction false} BurstOpeners(limit: nat, window: nat, linger: nat, n: nat)
    requires limit > 0 && window > 1 && n < 2 * limit
    ensures Opener(Burst(limit, window, linger), n) == if n < limit then 0 else limit
  {
    if n > 0 {
      BurstOpeners(limit, window, linger, n - 1);
    }
  }

  lemma BurstValid(limit: nat, window: nat, linger: nat)
    requires limit > 0 && window > 1
    ensures Valid(Burst(limit, window, linger))
  {
  }

  lemma BurstInSpan(limit: nat, window: nat, linger: nat, i: nat)
    requires limit > 0 && window > 1 && 1 <= i < 2 * limit
    ensures i in Span(Burst(limit, window, linger), linger + 1)
  {
    var s := Burst(limit, window, linger);
    BurstValid(limit, window, linger);
    BurstOpeners(limit, window, linger, i);
    WindowAdmitsItsFirst(s, i);
  }

  /** For every window above one millisecond the bound is met exactly. */
  lemma SpanBoundIsTight(limit: nat, window: nat, linger: nat)
    requires limit > 0 && window > 1
    ensures Valid(Burst(limit, window, linger)) && |Span(Burst(limit, window, linger), linger + 1)| == 2 * limit - 1
  {
    var s, all := Burst(limit, window, linger), Interval(1, 2 * limit - 1);
    BurstValid(limit, window, linger);
    IntervalSize(1, 2 * limit - 1);
    forall i | i in all ensures i in Span(s, linger + 1) {
      BurstInSpan(limit, window, linger, i);
    }
    var span := Span(s, linger + 1);
    assert all <= span;
    SubsetSize(all, span);
    SpanBound(s, linger + 1);
  }

  /** A one-millisecond span lies within one window, so it admits at most the limit. */
  lemma OneMillisecondBound(s: Stream, from: int)
    requires Valid(s) && s.window == 1
    ensures |Span(s, from)| <= s.limit
  {
    var span := Span(s, from);
    if span != {} {
      var first, last := Ends(span);
      if Opener(s, first) != Opener(s, last) {
        WindowsAreApart(s, first, last);
        SameInstantSameWindow(s, first, last);
      }
      forall i | i in span ensures Opener(s, first) <= i < Opener(s, first) + s.limit {
        WindowIsContiguous(s, i, last);
        WindowAdmitsItsFirst(s, i);
      }
      WithinInterval(span, Opener(s, first), s.limit);
    }
  }

  lemma SameInstantSameWindow(s: Stream, i: nat, n: nat)
    requires Valid(s) && i <= n < |s.times| && s.times[i] == s.times[n]
    ensures Opener(s, i) == Opener(s, n)
  {
    if Opener(s, i) != Opener(s, n) {
      WindowsAreApart(s, i, n);
    }
  }

  /** And a burst of that many at one instant is admitted whole. */
  lemma OneMillisecondBoundIsTight(limit: nat, linger: nat)
    requires limit > 0
    ensures var s := Stream(seq(limit, i => 0), linger, limit, 1); Valid(s) && |Span(s, 0)| == limit
  {
    var s := Stream(seq(limit, i => 0), linger, limit, 1);
    var all := Interval(0, limit);
    IntervalSize(0, limit);
    forall i | i in all ensures i in Span(s, 0) {
      SameInstantSameWindow(s, 0, i);
      WindowAdmitsItsFirst(s, i);
    }
    SubsetSize(all, Span(s, 0));
    OneMillisecondBound(s, 0);
  }

  // ----- Waiting -----

  /** A blocked request that waits the whole seconds it was told reaches the end of its window; the first
      request once that window is gone is admitted. */
  lemma RetryReachesWindowEnd(s: Stream, n: nat, nanos: int)
    requires Valid(s) && n < |s.times| && !Admitted(s, n)
    requires nanos > 0 && WindowMillis(nanos) == s.window
    ensures var d := Decide(Answer(s, n), s.limit, nanos);
            d.retryAfter > 0 && s.times[n] + 1000 * RetryAfterSeconds(d.retryAfter) >= s.times[Opener(s, n)] + s.window
    ensures forall now | now >= s.times[Opener(s, n)] + s.window + s.linger ::
              Script(Answer(s, n).after, now, s.linger, s.limit, s.window).allowed
  {
    CounterTracksWindow(s, n);
    var d := Decide(Answer(s, n), s.limit, nanos);
    RetryAfterSecondsIsCeiling(d.retryAfter, RetryAfterSeconds(d.retryAfter));
  }

  /** A window under one millisecond never blocks: its key is deleted as soon as it is made. */
  lemma {:induction false} SubMillisecondNeverBlocks(s: Stream, n: nat)
    requires s.limit > 0 && s.window == 0 && n < |s.times|
    ensures Answer(s, n).after == None && Admitted(s, n)
  {
    if n > 0 {
      SubMillisecondNeverBlocks(s, n - 1);
    }
  }
}
