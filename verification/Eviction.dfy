/** When dropping idle buckets is invisible: the TTL eviction of the memory store against no eviction. */
module Eviction {
  import opened Backoff
  import opened TokenBucket
  import opened Budgets
  import opened MemoryLimiter

  datatype Event = Allow(key: string, at: int) | Cleanup(at: int)

  predicate OrderedFrom(events: seq<Event>, now: int) {
    events == [] || (now <= events[0].at && OrderedFrom(events[1..], events[0].at))
  }

  /** The answers Allow gives over a run, with cleanup evicting or doing nothing. */
  function Answers(limit: Limit, visitors: Visitors, events: seq<Event>, evicts: bool): seq<bool>
    decreases events
  {
    if events == [] then []
    else
      match events[0]
      case Allow(key, at) =>
        var (ok, next) := AllowIn(visitors, key, at, limit);
        [ok] + Answers(limit, next, events[1..], evicts)
      case Cleanup(at) =>
        Answers(limit, if evicts then EvictIn(visitors, at) else visitors, events[1..], evicts)
  }

  /** A bucket idle for longer than the TTL has refilled completely. */
  predicate RefillsWithinTtl(limit: Limit) {
    limit.burst as real <= limit.rate * (VISITOR_TTL + 1) as real
  }

  ghost predicate WellKept(limit: Limit, visitors: Visitors, now: int) {
    forall k :: k in visitors ==>
      && visitors[k].limit == limit && Sound(limit, visitors[k].bucket, now)
      && visitors[k].bucket.last <= visitors[k].lastSeen <= now
  }

  predicate IsFull(limit: Limit, visitors: Visitors, key: string, now: int)
    requires key in visitors
  {
    Level(limit, visitors[key].bucket, now) == limit.burst as real
  }

  /** The two stores hold the same bucket for the key, or a full one where either holds one at all. */
  predicate SameFor(limit: Limit, v: Visitors, w: Visitors, key: string, now: int) {
    || (key in v && key in w && v[key].bucket == w[key].bucket)
    || ((key in v ==> IsFull(limit, v, key, now)) && (key in w ==> IsFull(limit, w, key, now)))
  }

  ghost predicate Same(limit: Limit, v: Visitors, w: Visitors, now: int) {
    WellKept(limit, v, now) && WellKept(limit, w, now) && forall k :: SameFor(limit, v, w, k, now)
  }

  lemma FullLater(limit: Limit, b: Bucket, now: int, later: int)
    requires Sound(limit, b, now) && now <= later && Level(limit, b, now) == limit.burst as real
    ensures Level(limit, b, later) == limit.burst as real
  {
    LevelLater(limit, b, now, later);
    EarnedNonNegative(limit.rate, now, later);
  }

  lemma SameLater(limit: Limit, v: Visitors, w: Visitors, now: int, later: int)
    requires Same(limit, v, w, now) && now <= later
    ensures Same(limit, v, w, later)
  {
    forall k ensures SameFor(limit, v, w, k, later) {
      assert SameFor(limit, v, w, k, now);
      if k in v && IsFull(limit, v, k, now) {
        FullLater(limit, v[k].bucket, now, later);
      }
      if k in w && IsFull(limit, w, k, now) {
        FullLater(limit, w[k].bucket, now, later);
      }
    }
  }

  lemma AllowKeepsSame(limit: Limit, v: Visitors, w: Visitors, key: string, now: int)
    requires Same(limit, v, w, now) && limit.rate >= 0.0
    ensures AllowIn(v, key, now, limit).0 == AllowIn(w, key, now, limit).0
    ensures Same(limit, AllowIn(v, key, now, limit).1, AllowIn(w, key, now, limit).1, now)
  {
    assert SameFor(limit, v, w, key, now);
    var a, b := VisitorOf(v, key, now, limit).bucket, VisitorOf(w, key, now, limit).bucket;
    assert Level(limit, a, now) == Level(limit, b, now);
    TakeSound(limit, a, now);
    TakeSound(limit, b, now);
    var v', w' := AllowIn(v, key, now, limit).1, AllowIn(w, key, now, limit).1;
    forall k ensures SameFor(limit, v', w', k, now) {
      assert SameFor(limit, v, w, k, now);
      if k == key {
        TakeCost(limit, a, now);
        TakeCost(limit, b, now);
      }
    }
  }

  lemma EvictKeepsSame(limit: Limit, v: Visitors, w: Visitors, now: int)
    requires Same(limit, v, w, now) && limit.rate >= 0.0 && RefillsWithinTtl(limit)
    ensures Same(limit, EvictIn(v, now), w, now)
  {
    var v' := EvictIn(v, now);
    forall k ensures SameFor(limit, v', w, k, now) {
      assert SameFor(limit, v, w, k, now);
      if k in v && k !in v' {
        var b := v[k].bucket;
        EarnedMonotone(limit.rate, b.last, now, VISITOR_TTL + 1);
        LevelBounds(limit, b, now);
        assert IsFull(limit, v, k, now);
      }
    }
  }

  lemma {:induction false} EvictionInvisible(limit: Limit, v: Visitors, w: Visitors, events: seq<Event>, now: int)
    requires limit.rate >= 0.0 && RefillsWithinTtl(limit)
    requires Same(limit, v, w, now) && OrderedFrom(events, now)
    ensures Answers(limit, v, events, true) == Answers(limit, w, events, false)
    decreases events
  {
    if events != [] {
      var at := events[0].at;
      SameLater(limit, v, w, now, at);
      match events[0]
      case Allow(key, _) =>
        AllowKeepsSame(limit, v, w, key, at);
        EvictionInvisible(limit, AllowIn(v, key, at, limit).1, AllowIn(w, key, at, limit).1, events[1..], at);
      case Cleanup(_) =>
        EvictKeepsSame(limit, v, w, at);
        EvictionInvisible(limit, EvictIn(v, at), w, events[1..], at);
    }
  }

  // The run that shows eviction when the bucket is slower than the TTL.

  /** n calls for the key at one instant, then the rest. */
  function Calls(key: string, n: nat, at: int, rest: seq<Event>): (events: seq<Event>)
    ensures |events| == n + |rest|
  {
    if n == 0 then rest else [Allow(key, at)] + Calls(key, n - 1, at, rest)
  }

  function Trues(n: nat): (s: seq<bool>)
    ensures |s| == n && forall i :: 0 <= i < n ==> s[i]
  {
    seq(n, _ => true)
  }

  lemma {:induction false} OrderedCalls(key: string, n: nat, at: int, rest: seq<Event>, now: int)
    requires now <= at && OrderedFrom(rest, at)
    ensures OrderedFrom(Calls(key, n, at, rest), now)
  {
    if n == 0 {
      if rest != [] {
        assert at <= rest[0].at;
      }
    } else {
      OrderedCalls(key, n - 1, at, rest, at);
      assert Calls(key, n, at, rest)[1..] == Calls(key, n - 1, at, rest);
    }
  }

  /** With at least n tokens, n calls at one instant are all allowed and leave n tokens less. */
  lemma {:induction false} EnoughTokens(limit: Limit, visitors: Visitors, key: string, n: nat, at: int,
                                        rest: seq<Event>, evicts: bool) returns (after: Visitors)
    requires WellKept(limit, visitors, at) && limit.rate >= 0.0
    requires Level(limit, VisitorOf(visitors, key, at, limit).bucket, at) >= n as real
    ensures WellKept(limit, after, at)
    ensures Level(limit, VisitorOf(after, key, at, limit).bucket, at)
         == Level(limit, VisitorOf(visitors, key, at, limit).bucket, at) - n as real
    ensures if n == 0 then after == visitors else key in after && after[key].lastSeen == at
    ensures Answers(limit, visitors, Calls(key, n, at, rest), evicts)
         == Trues(n) + Answers(limit, after, rest, evicts)
    decreases n
  {
    if n == 0 {
      after := visitors;
      assert Trues(0) + Answers(limit, after, rest, evicts) == Answers(limit, after, rest, evicts);
    } else {
      var b := VisitorOf(visitors, key, at, limit).bucket;
      TakeSound(limit, b, at);
      TakeCost(limit, b, at);
      var next := AllowIn(visitors, key, at, limit).1;
      after := EnoughTokens(limit, next, key, n - 1, at, rest, evicts);
      if n == 1 {
        assert Calls(key, 0, at, rest) == rest;
      }
      assert Calls(key, n, at, rest)[1..] == Calls(key, n - 1, at, rest);
      assert Trues(n) == [true] + Trues(n - 1);
    }
  }

  /** With fewer than n tokens, one of n calls at one instant is refused. */
  lemma {:induction false} TooFewTokens(limit: Limit, visitors: Visitors, key: string, n: nat, at: int, evicts: bool)
    requires WellKept(limit, visitors, at) && limit.rate >= 0.0
    requires Level(limit, VisitorOf(visitors, key, at, limit).bucket, at) < n as real
    ensures Answers(limit, visitors, Calls(key, n, at, []), evicts) != Trues(n)
    decreases n
  {
    var b := VisitorOf(visitors, key, at, limit).bucket;
    LevelBounds(limit, b, at);
    var (ok, next) := AllowIn(visitors, key, at, limit);
    var answers := Answers(limit, visitors, Calls(key, n, at, []), evicts);
    assert Calls(key, n, at, [])[1..] == Calls(key, n - 1, at, []);
    assert answers[0] == ok;
    if ok {
      TakeSound(limit, b, at);
      TakeCost(limit, b, at);
      TooFewTokens(limit, next, key, n - 1, at, evicts);
      assert answers[1..] == Answers(limit, next, Calls(key, n - 1, at, []), evicts);
      assert Trues(n)[1..] == Trues(n - 1);
    }
  }

  /** Drain a key, clean up just after the TTL, and drain it again. */
  function DrainTwice(limit: Limit): seq<Event> {
    var later := VISITOR_TTL + 1;
    Calls("10.0.0.1", limit.burst, 0, [Cleanup(later)] + Calls("10.0.0.1", limit.burst, later, []))
  }

  lemma DrainTwiceOrdered(limit: Limit)
    ensures OrderedFrom(DrainTwice(limit), 0)
  {
    var key, n, later := "10.0.0.1", limit.burst, VISITOR_TTL + 1;
    var again := Calls(key, n, later, []);
    OrderedCalls(key, n, later, [], later);
    assert ([Cleanup(later)] + again)[1..] == again;
    OrderedCalls(key, n, 0, [Cleanup(later)] + again, 0);
  }

  /** With eviction every call of the run is allowed. */
  lemma DrainTwiceEvicting(limit: Limit)
    requires limit.rate >= 0.0 && limit.burst > 0
    ensures Answers(limit, map[], DrainTwice(limit), true) == Trues(limit.burst) + Trues(limit.burst)
  {
    var key, n, later := "10.0.0.1", limit.burst, VISITOR_TTL + 1;
    var again := Calls(key, n, later, []);
    var rest := [Cleanup(later)] + again;
    var drained := EnoughTokens(limit, map[], key, n, 0, rest, true);
    var emptied := EvictIn(drained, later);
    assert rest[1..] == again;
    var _ := EnoughTokens(limit, emptied, key, n, later, [], true);
    assert Trues(n) + [] == Trues(n);
  }

  /** Without it the second drain finds less than a burst. */
  lemma DrainTwiceKeeping(limit: Limit)
    requires limit.rate >= 0.0 && limit.burst > 0 && !RefillsWithinTtl(limit)
    ensures Answers(limit, map[], DrainTwice(limit), false) != Trues(limit.burst) + Trues(limit.burst)
  {
    var key, n, later := "10.0.0.1", limit.burst, VISITOR_TTL + 1;
    var again := Calls(key, n, later, []);
    var rest := [Cleanup(later)] + again;
    var drained := EnoughTokens(limit, map[], key, n, 0, rest, false);
    assert rest[1..] == again;
    LevelLater(limit, drained[key].bucket, 0, later);
    TooFewTokens(limit, drained, key, n, later, false);
    var keeping := Answers(limit, drained, again, false);
    assert (Trues(n) + keeping)[n..] == keeping;
    assert (Trues(n) + Trues(n))[n..] == Trues(n);
  }

  lemma EvictionVisible(limit: Limit)
    requires limit.rate >= 0.0 && !RefillsWithinTtl(limit)
    ensures OrderedFrom(DrainTwice(limit), 0) && !InvisibleOn(limit, DrainTwice(limit))
  {
    assert limit.rate * (VISITOR_TTL + 1) as real >= 0.0;
    DrainTwiceOrdered(limit);
    DrainTwiceEvicting(limit);
    DrainTwiceKeeping(limit);
  }

  /** From an empty store, the run gets the same answers with and without eviction. */
  predicate InvisibleOn(limit: Limit, events: seq<Event>) {
    Answers(limit, map[], events, true) == Answers(limit, map[], events, false)
  }

  ghost predicate EvictionInvisibleAlways(limit: Limit) {
    forall events, start {:trigger OrderedFrom(events, start), InvisibleOn(limit, events)} ::
      OrderedFrom(events, start) ==> InvisibleOn(limit, events)
  }

  /** Evicting idle buckets changes no answer of any timed run iff a bucket refills within the TTL. */
  lemma EvictionInvisibleIff(limit: Limit)
    requires limit.rate >= 0.0
    ensures EvictionInvisibleAlways(limit) <==> RefillsWithinTtl(limit)
  {
    if RefillsWithinTtl(limit) {
      forall events, start | OrderedFrom(events, start) ensures InvisibleOn(limit, events) {
        EvictionInvisible(limit, map[], map[], events, start);
      }
    } else {
      EvictionVisible(limit);
    }
  }

  lemma MoreThanHalf(n: nat)
    requires 1 <= n <= HOUR
    ensures 2 * (HOUR / n * n) > HOUR && HOUR / n >= 1
  {
    var q := HOUR / n;
    QuotientBounds(HOUR, n);
    if q < 1 {
      ProductMonotone(n, q + 1, 1);
    }
    Commute(q, n);
    ProductMonotone(n, 1, q);
  }

  /** The failed-login bucket takes more than half an hour to refill, so a ten-minute eviction is visible. */
  lemma FailedLoginBudgetOutlivesTtl(n: nat)
    requires 1 <= n <= HOUR
    ensures !RefillsWithinTtl(LoginBudget(n).limit)
  {
    var d := HOUR / n;
    MoreThanHalf(n);
    EveryWithin(d);
    RateTooSlow(n, d, LoginRate(n));
  }

  lemma RateTooSlow(n: nat, d: nat, r: real)
    requires IsRateOf(d, r) && 2 * (d * n) > HOUR
    ensures !RefillsWithinTtl(Limit(r / SECOND as real, n))
  {
    TimesIsProduct(d, r);
    TooSlow(n, d, r);
  }

  lemma TooSlow(n: nat, d: nat, r: real)
    requires r > 0.0 && 2 * (d * n) > HOUR && d as real * r <= 1.5 * SECOND as real
    ensures n as real > r / SECOND as real * (VISITOR_TTL + 1) as real
  {
    var ttl := (VISITOR_TTL + 1) as real;
    if n as real <= r / SECOND as real * ttl {
      AtMostScaled(n as real * SECOND as real, r * ttl, d as real);
      Associates(d as real, r, ttl);
      AtMostScaled(d as real * r, 1.5 * SECOND as real, ttl);
      WholeProduct(d, n);
    }
  }
}
