/**
 Admissions of one key across N replicas while Redis goes up and down: every request is answered from the
 shared bucket or from the memory bucket of the replica that serves it.
 */
module LimiterWindow {
  import opened TokenBucket
  import opened Gcra
  import opened MemoryLimiter
  import opened Eviction
  import opened RedisLimiter

  datatype Cluster = Cluster(redis: RedisState, fallbacks: seq<Visitors>)

  datatype Traffic =
    | Request(replica: nat, key: string, at: int, call: Command)
    | Sweep(replica: nat, at: int)

  /** Which bucket answers a request. */
  datatype Source = Shared | Local(replica: nat)

  datatype Policy = Policy(limit: Limit, period: nat) {
    /** A positive rate and period, and buckets that refill within the TTL. */
    predicate Valid() {
      limit.rate > 0.0 && period >= 1 && RefillsWithinTtl(limit)
    }
  }

  function SourceOf(e: Traffic): Source
    requires e.Request?
  {
    if e.call.Replied? then Shared else Local(e.replica)
  }

  /** Replica numbers are below n and times lie in order within [start, end]. */
  predicate Timed(events: seq<Traffic>, n: nat, start: int, end: int) {
    && start <= end
    && (events == [] || (events[0].replica < n && start <= events[0].at && Timed(events[1..], n, events[0].at, end)))
  }

  /** One event: the answer (cleanup counts as refused) and the next state. */
  function Step(p: Policy, c: Cluster, e: Traffic): (bool, Cluster)
    requires e.replica < |c.fallbacks|
  {
    match e
    case Request(i, key, at, call) =>
      var (ok, redis, visitors) := AllowCallIn(c.redis, c.fallbacks[i], key, p.limit, p.period, at, call);
      (ok, Cluster(redis, c.fallbacks[i := visitors]))
    case Sweep(i, at) =>
      (false, c.(fallbacks := c.fallbacks[i := EvictIn(c.fallbacks[i], at)]))
  }

  function After(p: Policy, c: Cluster, events: seq<Traffic>, start: int, end: int): (r: Cluster)
    requires Timed(events, |c.fallbacks|, start, end)
    ensures |r.fallbacks| == |c.fallbacks|
    decreases events
  {
    if events == [] then c else After(p, Step(p, c, events[0]).1, events[1..], events[0].at, end)
  }

  /** Whether this event admits a request of the key. */
  predicate Admits(p: Policy, c: Cluster, e: Traffic, key: string)
    requires e.replica < |c.fallbacks|
  {
    e.Request? && e.key == key && Step(p, c, e).0
  }

  /** How many requests of the key the run admits. */
  function Admitted(p: Policy, c: Cluster, events: seq<Traffic>, key: string, start: int, end: int): nat
    requires Timed(events, |c.fallbacks|, start, end)
    decreases events
  {
    if events == [] then 0
    else
      (if Admits(p, c, events[0], key) then 1 else 0)
      + Admitted(p, Step(p, c, events[0]).1, events[1..], key, events[0].at, end)
  }

  /** The part of them that one bucket answered. */
  function AdmittedBy(p: Policy, c: Cluster, events: seq<Traffic>, key: string, source: Source,
                      start: int, end: int): nat
    requires Timed(events, |c.fallbacks|, start, end)
    decreases events
  {
    if events == [] then 0
    else
      (if Admits(p, c, events[0], key) && SourceOf(events[0]) == source then 1 else 0)
      + AdmittedBy(p, Step(p, c, events[0]).1, events[1..], key, source, events[0].at, end)
  }

  /** Admissions by the memory stores of the first n replicas. */
  function AdmittedLocally(p: Policy, c: Cluster, events: seq<Traffic>, key: string, n: nat,
                           start: int, end: int): nat
    requires Timed(events, |c.fallbacks|, start, end)
  {
    if n == 0 then 0
    else
      AdmittedLocally(p, c, events, key, n - 1, start, end)
      + AdmittedBy(p, c, events, key, Local(n - 1), start, end)
  }

  lemma {:induction false} LocallyStep(p: Policy, c: Cluster, events: seq<Traffic>, key: string, n: nat,
                                       start: int, end: int)
    requires Timed(events, |c.fallbacks|, start, end) && events != []
    ensures AdmittedLocally(p, c, events, key, n, start, end)
         == AdmittedLocally(p, Step(p, c, events[0]).1, events[1..], key, n, events[0].at, end)
          + if Admits(p, c, events[0], key) && !events[0].call.Replied? && events[0].replica < n then 1 else 0
    decreases n
  {
    if n > 0 {
      LocallyStep(p, c, events, key, n - 1, start, end);
    }
  }

  lemma {:induction false} LocallyNothing(p: Policy, c: Cluster, key: string, n: nat, start: int, end: int)
    requires start <= end
    ensures AdmittedLocally(p, c, [], key, n, start, end) == 0
    decreases n
  {
    if n > 0 {
      LocallyNothing(p, c, key, n - 1, start, end);
    }
  }

  /** Every admission was granted by exactly one of the N + 1 buckets. */
  lemma {:induction false} AdmissionsSplit(p: Policy, c: Cluster, events: seq<Traffic>, key: string,
                                           start: int, end: int)
    requires Timed(events, |c.fallbacks|, start, end)
    ensures Admitted(p, c, events, key, start, end)
         == AdmittedBy(p, c, events, key, Shared, start, end)
          + AdmittedLocally(p, c, events, key, |c.fallbacks|, start, end)
    decreases events
  {
    if events == [] {
      LocallyNothing(p, c, key, |c.fallbacks|, start, end);
    } else {
      AdmissionsSplit(p, Step(p, c, events[0]).1, events[1..], key, events[0].at, end);
      LocallyStep(p, c, events, key, |c.fallbacks|, start, end);
    }
  }

  // One memory bucket.

  /** The tokens a key has in a memory store; an unknown key has a full bucket. */
  function LevelOf(limit: Limit, visitors: Visitors, key: string, now: int): real {
    Level(limit, VisitorOf(visitors, key, now, limit).bucket, now)
  }

  lemma LevelOfBounds(limit: Limit, visitors: Visitors, key: string, now: int)
    requires limit.rate > 0.0 && WellKept(limit, visitors, now)
    ensures 0.0 <= LevelOf(limit, visitors, key, now) <= limit.burst as real
  {
    LevelBounds(limit, VisitorOf(visitors, key, now, limit).bucket, now);
  }

  lemma LevelOfLater(limit: Limit, visitors: Visitors, key: string, now: int, later: int)
    requires limit.rate > 0.0 && WellKept(limit, visitors, now) && now <= later
    ensures WellKept(limit, visitors, later)
    ensures LevelOf(limit, visitors, key, later) <= LevelOf(limit, visitors, key, now) + Times(later - now, limit.rate)
  {
    if key in visitors {
      LevelLater(limit, visitors[key].bucket, now, later);
    }
    EarnedNonNegative(limit.rate, now, later);
    TimesIsProduct(later - now, limit.rate);
  }

  lemma LevelOfAllow(limit: Limit, visitors: Visitors, other: string, key: string, now: int)
    requires limit.rate > 0.0 && WellKept(limit, visitors, now)
    ensures var (ok, next) := AllowIn(visitors, other, now, limit);
            && WellKept(limit, next, now)
            && LevelOf(limit, next, key, now)
               == LevelOf(limit, visitors, key, now) - (if ok && other == key then 1.0 else 0.0)
  {
    var b := VisitorOf(visitors, other, now, limit).bucket;
    TakeSound(limit, b, now);
    TakeCost(limit, b, now);
  }

  /** Evicting a bucket that has refilled leaves the key's level alone. */
  lemma LevelOfEvict(limit: Limit, visitors: Visitors, key: string, now: int)
    requires limit.rate > 0.0 && RefillsWithinTtl(limit) && WellKept(limit, visitors, now)
    ensures WellKept(limit, EvictIn(visitors, now), now)
    ensures LevelOf(limit, EvictIn(visitors, now), key, now) == LevelOf(limit, visitors, key, now)
  {
    if key in visitors && key !in EvictIn(visitors, now) {
      var b := visitors[key].bucket;
      EarnedMonotone(limit.rate, b.last, now, VISITOR_TTL + 1);
      LevelBounds(limit, b, now);
    }
  }

  // The shared bucket.

  function SharedLevel(p: Policy, redis: RedisState, key: string, now: int): real
    requires p.period >= 1
  {
    p.limit.burst as real - Debt(TatAt(redis, key, now), now) as real / p.period as real
  }

  /** The key's tat is never more than a burst ahead of the clock, and its key outlives it. */
  ghost predicate TatsKept(p: Policy, redis: RedisState, now: int) {
    TatsOutlived(redis) && forall key :: key in redis.tats ==> redis.tats[key].tat <= now + p.period * p.limit.burst
  }

  lemma QuotientBetween(d: real, period: real, burst: real)
    requires period > 0.0 && 0.0 <= d <= period * burst
    ensures 0.0 <= d / period <= burst
  {
    var q := d / period;
    assert q * period == d;
    assert (burst - q) * period >= 0.0;
  }

  lemma DivideBurst(period: nat, burst: nat, debt: int)
    requires period >= 1 && 0 <= debt <= period * burst
    ensures 0.0 <= burst as real - debt as real / period as real <= burst as real
  {
    assert (period * burst) as real == period as real * burst as real;
    QuotientBetween(debt as real, period as real, burst as real);
  }

  lemma SharedLevelBounds(p: Policy, redis: RedisState, key: string, now: int)
    requires p.period >= 1 && TatsKept(p, redis, now)
    ensures 0.0 <= SharedLevel(p, redis, key, now) <= p.limit.burst as real
  {
    assert p.period * p.limit.burst >= 0;
    DivideBurst(p.period, p.limit.burst, Debt(TatAt(redis, key, now), now));
  }

  lemma QuotientAdds(a: real, b: real, period: real)
    requires period > 0.0
    ensures (a + b) / period == a / period + b / period
  {
  }

  lemma QuotientDifference(b: real, a: real, gap: real, period: real)
    requires period > 0.0 && b <= a + gap
    ensures b / period <= a / period + gap / period
  {
    var slack := (a + gap - b) / period;
    assert slack * period == a + gap - b;
    assert slack >= 0.0;
    QuotientAdds(a, gap, period);
    QuotientAdds(b, a + gap - b, period);
  }

  lemma DivideDifference(a: int, b: int, gap: int, period: nat)
    requires period >= 1 && b <= a + gap
    ensures b as real / period as real <= a as real / period as real + gap as real / period as real
  {
    QuotientDifference(b as real, a as real, gap as real, period as real);
  }

  lemma SharedLevelLater(p: Policy, redis: RedisState, key: string, now: int, later: int)
    requires p.period >= 1 && TatsKept(p, redis, now) && now <= later
    ensures TatsKept(p, redis, later)
    ensures SharedLevel(p, redis, key, later)
         <= SharedLevel(p, redis, key, now) + (later - now) as real / p.period as real
  {
    DivideDifference(Debt(TatAt(redis, key, later), later), Debt(TatAt(redis, key, now), now), later - now, p.period);
  }

  lemma DivideOne(a: int, period: nat)
    requires period >= 1
    ensures (a + period) as real / period as real == a as real / period as real + 1.0
  {
    assert (a + period) as real == a as real + period as real;
    QuotientAdds(a as real, period as real, period as real);
    assert period as real / period as real == 1.0;
  }

  lemma SharedLevelAllow(p: Policy, redis: RedisState, other: string, key: string, now: int)
    requires p.period >= 1 && TatsKept(p, redis, now)
    ensures var (ok, next) := RedisAllowIn(redis, other, now, p.period, p.limit.burst);
            && TatsKept(p, next, now)
            && SharedLevel(p, next, key, now)
               == SharedLevel(p, redis, key, now) - (if ok && other == key then 1.0 else 0.0)
  {
    var (ok, next) := RedisAllowIn(redis, other, now, p.period, p.limit.burst);
    if ok && other == key {
      DivideOne(Debt(TatAt(redis, key, now), now), p.period);
      assert Debt(TatAt(next, key, now), now) == Debt(TatAt(redis, key, now), now) + p.period;
    }
  }

  lemma {:induction false} SharedLevelLost(p: Policy, redis: RedisState, other: string, key: string, now: int,
                                           lost: nat)
    requires p.period >= 1 && TatsKept(p, redis, now)
    ensures var next := AllowLostIn(redis, other, now, p.period, p.limit.burst, lost);
            TatsKept(p, next, now) && SharedLevel(p, next, key, now) <= SharedLevel(p, redis, key, now)
  {
    if lost > 0 {
      SharedLevelLost(p, redis, other, key, now, lost - 1);
      SharedLevelAllow(p, AllowLostIn(redis, other, now, p.period, p.limit.burst, lost - 1), other, key, now);
    }
  }

  /** A call costs the shared bucket a token if it grants one, and what its lost runs took. */
  lemma SharedLevelCall(p: Policy, c: Cluster, e: Traffic, key: string)
    requires p.period >= 1 && TatsKept(p, c.redis, e.at) && e.replica < |c.fallbacks| && e.Request?
    ensures var next := Step(p, c, e).1.redis;
            && TatsKept(p, next, e.at)
            && SharedLevel(p, next, key, e.at)
               <= SharedLevel(p, c.redis, key, e.at)
                - if Admits(p, c, e, key) && SourceOf(e) == Shared then 1.0 else 0.0
  {
    SharedLevelLost(p, c.redis, e.key, key, e.at, e.call.lost);
    SharedLevelAllow(p, AllowLostIn(c.redis, e.key, e.at, p.period, p.limit.burst, e.call.lost), e.key, key, e.at);
  }

  /**
   A reply that is lost after the script ran costs two tokens for one answer: one of the shared bucket, one
   of the replica's own.
   */
  lemma LostReplySpendsTwice(p: Policy, c: Cluster, i: nat, key: string, at: int)
    requires p.Valid() && Kept(p, c, at) && i < |c.fallbacks|
    requires RedisAllowIn(c.redis, key, at, p.period, p.limit.burst).0
    ensures var e := Request(i, key, at, NoReply(1));
            var next := Step(p, c, e).1;
            && SharedLevel(p, next.redis, key, at) == SharedLevel(p, c.redis, key, at) - 1.0
            && LevelOf(p.limit, next.fallbacks[i], key, at)
               == LevelOf(p.limit, c.fallbacks[i], key, at) - if Admits(p, c, e, key) then 1.0 else 0.0
  {
    assert AllowLostIn(c.redis, key, at, p.period, p.limit.burst, 0) == c.redis;
    SharedLevelAllow(p, c.redis, key, key, at);
    LevelOfAllow(p.limit, c.fallbacks[i], key, key, at);
  }

  // Runs.

  ghost predicate Kept(p: Policy, c: Cluster, now: int) {
    TatsKept(p, c.redis, now) && forall i :: 0 <= i < |c.fallbacks| ==> WellKept(p.limit, c.fallbacks[i], now)
  }

  lemma KeptLater(p: Policy, c: Cluster, now: int, later: int)
    requires p.Valid() && Kept(p, c, now) && now <= later
    ensures Kept(p, c, later)
  {
    SharedLevelLater(p, c.redis, "", now, later);
    forall i | 0 <= i < |c.fallbacks| ensures WellKept(p.limit, c.fallbacks[i], later) {
      LevelOfLater(p.limit, c.fallbacks[i], "", now, later);
    }
  }

  lemma StepKept(p: Policy, c: Cluster, e: Traffic)
    requires p.Valid() && Kept(p, c, e.at) && e.replica < |c.fallbacks|
    ensures Kept(p, Step(p, c, e).1, e.at)
  {
    match e
    case Request(i, key, at, _) =>
      SharedLevelCall(p, c, e, key);
      LevelOfAllow(p.limit, c.fallbacks[i], key, key, at);
    case Sweep(i, at) =>
      LevelOfEvict(p.limit, c.fallbacks[i], "", at);
  }

  lemma {:induction false} AfterKept(p: Policy, c: Cluster, events: seq<Traffic>, start: int, end: int)
    requires p.Valid() && Kept(p, c, start) && Timed(events, |c.fallbacks|, start, end)
    ensures Kept(p, After(p, c, events, start, end), end)
    decreases events
  {
    if events == [] {
      KeptLater(p, c, start, end);
    } else {
      KeptLater(p, c, start, events[0].at);
      StepKept(p, c, events[0]);
      AfterKept(p, Step(p, c, events[0]).1, events[1..], events[0].at, end);
    }
  }

  /** One memory bucket admits at most what it holds plus what it is refilled with. */
  lemma {:induction false} LocalBound(p: Policy, c: Cluster, events: seq<Traffic>, key: string, i: nat,
                                      start: int, end: int)
    requires p.Valid() && Kept(p, c, start) && Timed(events, |c.fallbacks|, start, end) && i < |c.fallbacks|
    ensures AdmittedBy(p, c, events, key, Local(i), start, end) as real
         <= LevelOf(p.limit, c.fallbacks[i], key, start) + Times(end - start, p.limit.rate)
    decreases events
  {
    if events == [] {
      LevelOfBounds(p.limit, c.fallbacks[i], key, start);
      TimesNonNegative(end - start, p.limit.rate);
    } else {
      var e := events[0];
      TimedTail(events, |c.fallbacks|, start, end);
      KeptLater(p, c, start, e.at);
      StepKept(p, c, e);
      LocalBound(p, Step(p, c, e).1, events[1..], key, i, e.at, end);
      LevelOfLater(p.limit, c.fallbacks[i], key, start, e.at);
      LocalStep(p, c, e, key, i);
      TimesAdds(e.at - start, end - e.at, p.limit.rate);
    }
  }

  lemma TimedTail(events: seq<Traffic>, n: nat, start: int, end: int)
    requires Timed(events, n, start, end) && events != []
    ensures start <= events[0].at <= end && Timed(events[1..], n, events[0].at, end)
  {
  }

  lemma LocalStep(p: Policy, c: Cluster, e: Traffic, key: string, i: nat)
    requires p.Valid() && Kept(p, c, e.at) && e.replica < |c.fallbacks| && i < |c.fallbacks|
    ensures LevelOf(p.limit, Step(p, c, e).1.fallbacks[i], key, e.at)
         == LevelOf(p.limit, c.fallbacks[i], key, e.at)
          - if Admits(p, c, e, key) && SourceOf(e) == Local(i) then 1.0 else 0.0
  {
    match e
    case Request(j, other, at, _) =>
      LevelOfAllow(p.limit, c.fallbacks[i], other, key, at);
    case Sweep(j, at) =>
      LevelOfEvict(p.limit, c.fallbacks[i], key, at);
  }

  lemma SplitDivision(start: int, at: int, end: int, period: nat)
    requires period >= 1
    ensures (end - start) as real / period as real
         == (at - start) as real / period as real + (end - at) as real / period as real
  {
    assert (end - start) as real == (at - start) as real + (end - at) as real;
  }

  lemma DivisionNonNegative(gap: int, period: nat)
    requires period >= 1 && gap >= 0
    ensures gap as real / period as real >= 0.0
  {
  }

  /** The shared bucket likewise, at one token per period. */
  lemma {:induction false} SharedBound(p: Policy, c: Cluster, events: seq<Traffic>, key: string, start: int, end: int)
    requires p.Valid() && Kept(p, c, start) && Timed(events, |c.fallbacks|, start, end)
    ensures AdmittedBy(p, c, events, key, Shared, start, end) as real
         <= SharedLevel(p, c.redis, key, start) + (end - start) as real / p.period as real
    decreases events
  {
    if events == [] {
      SharedLevelBounds(p, c.redis, key, start);
      DivisionNonNegative(end - start, p.period);
    } else {
      var e := events[0];
      var next := Step(p, c, e).1;
      KeptLater(p, c, start, e.at);
      StepKept(p, c, e);
      SharedBound(p, next, events[1..], key, e.at, end);
      SharedLevelLater(p, c.redis, key, start, e.at);
      if e.Request? {
        SharedLevelCall(p, c, e, key);
      }
      SplitDivision(start, e.at, end, p.period);
    }
  }

  lemma {:induction false} LocalsBound(p: Policy, c: Cluster, events: seq<Traffic>, key: string, n: nat,
                                       start: int, end: int)
    requires p.Valid() && Kept(p, c, start) && Timed(events, |c.fallbacks|, start, end) && n <= |c.fallbacks|
    ensures AdmittedLocally(p, c, events, key, n, start, end) as real
         <= Times(n, p.limit.burst as real + Times(end - start, p.limit.rate))
    decreases n
  {
    if n > 0 {
      LocalsBound(p, c, events, key, n - 1, start, end);
      LocalBound(p, c, events, key, n - 1, start, end);
      LevelOfBounds(p.limit, c.fallbacks[n - 1], key, start);
    }
  }

  /** A cluster of n replicas that has seen no traffic. */
  function Idle(n: nat): (c: Cluster)
    ensures |c.fallbacks| == n
  {
    Cluster(EMPTY, seq(n, _ => map[]))
  }

  lemma IdleKept(p: Policy, n: nat, now: int)
    ensures Kept(p, Idle(n), now)
  {
  }

  /** What one bucket may admit in a window: a burst and the refill. */
  function Share(limit: Limit, start: int, end: int): real
    requires start <= end
  {
    limit.burst as real + Times(end - start, limit.rate)
  }

  lemma Reached(p: Policy, n: nat, before: seq<Traffic>, origin: int, start: int)
    requires p.Valid() && Timed(before, n, origin, start)
    ensures Kept(p, After(p, Idle(n), before, origin, start), start)
  {
    IdleKept(p, n, origin);
    AfterKept(p, Idle(n), before, origin, start);
  }

  lemma BoundFrom(p: Policy, c: Cluster, window: seq<Traffic>, key: string, start: int, end: int)
    requires p.Valid() && Kept(p, c, start) && Timed(window, |c.fallbacks|, start, end)
    ensures Admitted(p, c, window, key, start, end) as real
         <= Times(|c.fallbacks|, Share(p.limit, start, end))
          + (p.limit.burst as real + (end - start) as real / p.period as real)
  {
    AdmissionsSplit(p, c, window, key, start, end);
    SharedBound(p, c, window, key, start, end);
    SharedLevelBounds(p, c.redis, key, start);
    LocalsBound(p, c, window, key, |c.fallbacks|, start, end);
  }

  /**
   Main bound. After any traffic at all, with Redis replying or not at each request as it likes, the requests
   of one key admitted in a window [start, end] are at most N memory buckets' and one shared bucket's
   worth: a burst each plus what is refilled in the window. Times(n, x) is n * x (TimesIsProduct).
   */
  lemma WindowBound(p: Policy, n: nat, before: seq<Traffic>, window: seq<Traffic>, key: string,
                    origin: int, start: int, end: int)
    requires p.Valid() && Timed(before, n, origin, start) && Timed(window, n, start, end)
    ensures Admitted(p, After(p, Idle(n), before, origin, start), window, key, start, end) as real
         <= Times(n, Share(p.limit, start, end))
          + (p.limit.burst as real + (end - start) as real / p.period as real)
  {
    Reached(p, n, before, origin, start);
    BoundFrom(p, After(p, Idle(n), before, origin, start), window, key, start, end);
  }

  /** When the time per token is a whole number of nanoseconds, N + 1 times the configured limit. */
  lemma WindowBoundExactPeriod(p: Policy, n: nat, before: seq<Traffic>, window: seq<Traffic>, key: string,
                               origin: int, start: int, end: int)
    requires p.Valid() && p.limit.rate * p.period as real == 1.0
    requires Timed(before, n, origin, start) && Timed(window, n, start, end)
    ensures Admitted(p, After(p, Idle(n), before, origin, start), window, key, start, end) as real
         <= Times(n + 1, Share(p.limit, start, end))
  {
    WindowBound(p, n, before, window, key, origin, start, end);
    SharedShare(p, start, end);
  }

  lemma SharedShare(p: Policy, start: int, end: int)
    requires p.period >= 1 && p.limit.rate * p.period as real == 1.0 && start <= end
    ensures p.limit.burst as real + (end - start) as real / p.period as real == Share(p.limit, start, end)
  {
    TimesIsProduct(end - start, p.limit.rate);
    InverseProduct((end - start) as real, p.limit.rate, p.period as real);
  }

  lemma InverseProduct(x: real, rate: real, period: real)
    requires period > 0.0 && rate * period == 1.0
    ensures x / period == x * rate
  {
    var q := x / period;
    assert q * period == x;
    assert q == q * (rate * period) == (q * period) * rate;
  }

  predicate AlwaysDown(events: seq<Traffic>) {
    forall i :: 0 <= i < |events| && events[i].Request? ==> events[i].call.NoReply?
  }

  lemma {:induction false} DownAdmitsNothingShared(p: Policy, c: Cluster, events: seq<Traffic>, key: string,
                                                   start: int, end: int)
    requires Timed(events, |c.fallbacks|, start, end) && AlwaysDown(events)
    ensures AdmittedBy(p, c, events, key, Shared, start, end) == 0
    decreases events
  {
    if events != [] {
      assert AlwaysDown(events[1..]);
      DownAdmitsNothingShared(p, Step(p, c, events[0]).1, events[1..], key, events[0].at, end);
    }
  }

  /** With Redis down throughout the window, the limit is raised to N times its configured value. */
  lemma WindowBoundRedisDown(p: Policy, n: nat, before: seq<Traffic>, window: seq<Traffic>, key: string,
                             origin: int, start: int, end: int)
    requires p.Valid() && Timed(before, n, origin, start) && Timed(window, n, start, end) && AlwaysDown(window)
    ensures Admitted(p, After(p, Idle(n), before, origin, start), window, key, start, end) as real
         <= Times(n, Share(p.limit, start, end))
  {
    Reached(p, n, before, origin, start);
    DownBoundFrom(p, After(p, Idle(n), before, origin, start), window, key, start, end);
  }

  lemma DownBoundFrom(p: Policy, c: Cluster, window: seq<Traffic>, key: string, start: int, end: int)
    requires p.Valid() && Kept(p, c, start) && Timed(window, |c.fallbacks|, start, end) && AlwaysDown(window)
    ensures Admitted(p, c, window, key, start, end) as real <= Times(|c.fallbacks|, Share(p.limit, start, end))
  {
    AdmissionsSplit(p, c, window, key, start, end);
    DownAdmitsNothingShared(p, c, window, key, start, end);
    LocalsBound(p, c, window, key, |c.fallbacks|, start, end);
  }
}
