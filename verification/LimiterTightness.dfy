/**
 The window bound is attained: runs in which every bucket is drained whenever it holds a token, with Redis
 up for the shared bucket and down for the others.
 */
module LimiterTightness {
  import opened TokenBucket
  import opened Gcra
  import opened Budgets
  import opened MemoryLimiter
  import opened Eviction
  import opened RedisLimiter
  import opened LimiterWindow

  predicate HasBucket(c: Cluster, s: Source) {
    s.Local? ==> s.replica < |c.fallbacks|
  }

  /** The tokens of the key in one bucket of the cluster. */
  function LevelIn(p: Policy, c: Cluster, key: string, s: Source, at: int): real
    requires p.period >= 1 && HasBucket(c, s)
  {
    match s
    case Shared => SharedLevel(p, c.redis, key, at)
    case Local(i) => LevelOf(p.limit, c.fallbacks[i], key, at)
  }

  lemma WholeTokens(debt: int, period: nat, burst: nat)
    requires period >= 1
    ensures burst as real - debt as real / period as real >= 1.0 <==> debt + period <= period * burst
  {
    var q := debt as real / period as real;
    assert q * period as real == debt as real;
    TimesPeriod(q, burst as real - 1.0, period as real);
    assert (period * burst) as real == period as real * burst as real;
  }

  lemma TimesPeriod(q: real, limit: real, period: real)
    requires period > 0.0
    ensures q <= limit <==> q * period <= limit * period
  {
    if q <= limit {
      assert (limit - q) * period >= 0.0;
    } else {
      assert (q - limit) * period > 0.0;
    }
  }

  /** A request whose command runs once or not at all. */
  predicate Clean(e: Traffic) {
    e.Request? && e.call.lost == 0
  }

  /** It is admitted exactly when its bucket holds a token, and takes that token only. */
  lemma StepLevels(p: Policy, c: Cluster, e: Traffic, s: Source)
    requires p.Valid() && Kept(p, c, e.at) && Clean(e) && e.replica < |c.fallbacks|
    requires HasBucket(c, s)
    ensures Admits(p, c, e, e.key) <==> LevelIn(p, c, e.key, SourceOf(e), e.at) >= 1.0
    ensures LevelIn(p, Step(p, c, e).1, e.key, s, e.at)
         == LevelIn(p, c, e.key, s, e.at) - if Admits(p, c, e, e.key) && SourceOf(e) == s then 1.0 else 0.0
  {
    assert AllowLostIn(c.redis, e.key, e.at, p.period, p.limit.burst, 0) == c.redis;
    if e.call.Replied? {
      WholeTokens(Debt(TatAt(c.redis, e.key, e.at), e.at), p.period, p.limit.burst);
      SharedLevelAllow(p, c.redis, e.key, e.key, e.at);
    } else {
      LevelOfAllow(p.limit, c.fallbacks[e.replica], e.key, e.key, e.at);
      assert VisitorOf(c.fallbacks[e.replica], e.key, e.at, p.limit).limit == p.limit;
    }
  }

  function Repeat(e: Traffic, m: nat): seq<Traffic> {
    if m == 0 then [] else [e] + Repeat(e, m - 1)
  }

  lemma TailOf(e: Traffic, m: nat, rest: seq<Traffic>)
    requires m > 0
    ensures var events := Repeat(e, m) + rest;
            events != [] && events[0] == e && events[1..] == Repeat(e, m - 1) + rest
  {
    assert Repeat(e, m)[1..] == Repeat(e, m - 1);
  }

  lemma {:induction false} TimedRepeat(e: Traffic, m: nat, rest: seq<Traffic>, n: nat, start: int, end: int)
    requires e.replica < n && start <= e.at && Timed(rest, n, e.at, end)
    ensures Timed(Repeat(e, m) + rest, n, start, end)
    decreases m
  {
    if m == 0 {
      assert Repeat(e, 0) + rest == rest;
    } else {
      TailOf(e, m, rest);
      TimedRepeat(e, m - 1, rest, n, e.at, end);
    }
  }

  // Playing events without regard to times, which the rounds keep in order by themselves.

  /** Where the events lead, and how many requests of the key they admit. */
  function Play(p: Policy, c: Cluster, events: seq<Traffic>, key: string): (r: (Cluster, nat))
    ensures |r.0.fallbacks| == |c.fallbacks|
    decreases events
  {
    if events == [] then (c, 0)
    else if events[0].replica >= |c.fallbacks| then Play(p, c, events[1..], key)
    else
      var (next, m) := Play(p, Step(p, c, events[0]).1, events[1..], key);
      (next, m + if Admits(p, c, events[0], key) then 1 else 0)
  }

  lemma {:induction false} PlayIsAdmitted(p: Policy, c: Cluster, events: seq<Traffic>, key: string,
                                          start: int, end: int)
    requires Timed(events, |c.fallbacks|, start, end)
    ensures Play(p, c, events, key).1 == Admitted(p, c, events, key, start, end)
    decreases events
  {
    if events != [] {
      PlayIsAdmitted(p, Step(p, c, events[0]).1, events[1..], key, events[0].at, end);
    }
  }

  lemma {:induction false} PlayThen(p: Policy, c: Cluster, first: seq<Traffic>, second: seq<Traffic>, key: string)
    ensures var (mid, m) := Play(p, c, first, key);
            var (next, k) := Play(p, mid, second, key);
            Play(p, c, first + second, key) == (next, m + k)
    decreases first
  {
    if first == [] {
      assert first + second == second;
    } else {
      assert (first + second)[1..] == first[1..] + second;
      if first[0].replica >= |c.fallbacks| {
        PlayThen(p, c, first[1..], second, key);
      } else {
        PlayThen(p, Step(p, c, first[0]).1, first[1..], second, key);
      }
    }
  }

  /** Played from c, the events admit m requests of the key and lead to `next`. */
  predicate Adds(p: Policy, c: Cluster, events: seq<Traffic>, key: string, next: Cluster, m: nat) {
    Play(p, c, events, key) == (next, m)
  }

  lemma AddsNothing(p: Policy, c: Cluster, key: string)
    ensures Adds(p, c, [], key, c, 0)
  {
  }

  lemma AddsThen(p: Policy, c: Cluster, first: seq<Traffic>, key: string, mid: Cluster, m: nat,
                 second: seq<Traffic>, next: Cluster, k: nat)
    requires Adds(p, c, first, key, mid, m) && Adds(p, mid, second, key, next, k)
    ensures Adds(p, c, first + second, key, next, m + k)
  {
    PlayThen(p, c, first, second, key);
  }

  lemma AddsFirst(p: Policy, c: Cluster, e: Traffic, m: nat, next: Cluster)
    requires e.Request? && e.replica < |c.fallbacks| && Admits(p, c, e, e.key)
    requires Adds(p, Step(p, c, e).1, Repeat(e, m), e.key, next, m)
    ensures Adds(p, c, Repeat(e, m + 1), e.key, next, m + 1)
  {
    assert Repeat(e, m + 1)[1..] == Repeat(e, m);
  }

  /** The event's bucket loses a token, the others nothing. */
  ghost predicate TakesOne(p: Policy, c: Cluster, next: Cluster, e: Traffic)
    requires p.period >= 1 && e.Request? && e.replica < |c.fallbacks|
  {
    && Kept(p, next, e.at) && |next.fallbacks| == |c.fallbacks|
    && forall s: Source :: HasBucket(c, s) ==>
         LevelIn(p, next, e.key, s, e.at)
         == LevelIn(p, c, e.key, s, e.at) - if s == SourceOf(e) then 1.0 else 0.0
  }

  /** The event's bucket is empty, the others as before. */
  ghost predicate OnlyDrains(p: Policy, c: Cluster, next: Cluster, e: Traffic)
    requires p.period >= 1 && e.Request? && e.replica < |c.fallbacks|
  {
    && Kept(p, next, e.at) && |next.fallbacks| == |c.fallbacks|
    && forall s: Source :: HasBucket(c, s) ==>
         LevelIn(p, next, e.key, s, e.at) == if s == SourceOf(e) then 0.0 else LevelIn(p, c, e.key, s, e.at)
  }

  lemma DrainsThrough(p: Policy, c: Cluster, stepped: Cluster, next: Cluster, e: Traffic)
    requires p.period >= 1 && e.Request? && e.replica < |c.fallbacks|
    requires TakesOne(p, c, stepped, e) && OnlyDrains(p, stepped, next, e)
    ensures OnlyDrains(p, c, next, e)
  {
    forall s: Source | HasBucket(c, s)
      ensures LevelIn(p, next, e.key, s, e.at) == if s == SourceOf(e) then 0.0 else LevelIn(p, c, e.key, s, e.at)
    {
      assert HasBucket(stepped, s);
    }
  }

  lemma OneDrained(p: Policy, c: Cluster, e: Traffic)
    requires p.Valid() && Kept(p, c, e.at) && Clean(e) && e.replica < |c.fallbacks|
    requires LevelIn(p, c, e.key, SourceOf(e), e.at) >= 1.0
    ensures Admits(p, c, e, e.key) && TakesOne(p, c, Step(p, c, e).1, e)
  {
    var stepped := Step(p, c, e).1;
    StepKept(p, c, e);
    StepLevels(p, c, e, SourceOf(e));
    forall s: Source | HasBucket(c, s)
      ensures LevelIn(p, stepped, e.key, s, e.at)
           == LevelIn(p, c, e.key, s, e.at) - if s == SourceOf(e) then 1.0 else 0.0
    {
      StepLevels(p, c, e, s);
    }
  }

  /** The event repeated as often as its bucket holds tokens: every time admitted, the other buckets untouched. */
  lemma {:induction false} DrainOne(p: Policy, c: Cluster, e: Traffic, m: nat) returns (next: Cluster)
    requires p.Valid() && Kept(p, c, e.at) && Clean(e) && e.replica < |c.fallbacks|
    requires LevelIn(p, c, e.key, SourceOf(e), e.at) == m as real
    ensures OnlyDrains(p, c, next, e) && Adds(p, c, Repeat(e, m), e.key, next, m)
    decreases m
  {
    if m == 0 {
      AddsNothing(p, c, e.key);
      next := c;
    } else {
      var stepped := Step(p, c, e).1;
      OneDrained(p, c, e);
      next := DrainOne(p, stepped, e, m - 1);
      DrainsThrough(p, c, stepped, next, e);
      AddsFirst(p, c, e, m - 1, next);
    }
  }

  /** k * m as a repeated sum. */
  function Copies(k: nat, m: nat): nat {
    if k == 0 then 0 else m + Copies(k - 1, m)
  }

  lemma {:induction false} CopiesIsProduct(k: nat, m: nat)
    ensures Copies(k, m) == k * m
  {
    if k > 0 {
      CopiesIsProduct(k - 1, m);
      OneMoreCopy(k, m);
    }
  }

  lemma OneMoreCopy(k: nat, m: nat)
    requires k > 0
    ensures m + (k - 1) * m == k * m
  {
  }

  /** m requests to the memory bucket of each replica from number i on. */
  function LocalRound(n: nat, i: nat, key: string, at: int, m: nat): seq<Traffic>
    requires i <= n
    decreases n - i
  {
    if i == n then [] else Repeat(Request(i, key, at, NoReply(0)), m) + LocalRound(n, i + 1, key, at, m)
  }

  /** The same preceded by m requests to the shared bucket. */
  function Round(n: nat, key: string, at: int, m: nat): seq<Traffic> {
    Repeat(Request(0, key, at, Replied(0)), m) + LocalRound(n, 0, key, at, m)
  }

  /** The shared bucket and the memory buckets from number i on hold `level`, the others nothing. */
  ghost predicate Hold(p: Policy, c: Cluster, key: string, at: int, level: real, shared: bool, i: nat) {
    && p.period >= 1 && Kept(p, c, at)
    && LevelIn(p, c, key, Shared, at) == (if shared then level else 0.0)
    && forall k :: 0 <= k < |c.fallbacks| ==> LevelIn(p, c, key, Local(k), at) == (if k >= i then level else 0.0)
  }

  lemma DrainNextLocal(p: Policy, c: Cluster, i: nat, key: string, at: int, m: nat) returns (next: Cluster)
    requires p.Valid() && i < |c.fallbacks| && Hold(p, c, key, at, m as real, false, i)
    ensures Hold(p, next, key, at, m as real, false, i + 1)
    ensures Adds(p, c, Repeat(Request(i, key, at, NoReply(0)), m), key, next, m)
  {
    var e := Request(i, key, at, NoReply(0));
    assert LevelIn(p, c, key, Local(i), at) == m as real;
    next := DrainOne(p, c, e, m);
    forall k | 0 <= k < |c.fallbacks|
      ensures LevelIn(p, next, key, Local(k), at) == (if k >= i + 1 then m as real else 0.0)
    {
      assert HasBucket(c, Local(k));
      assert LevelIn(p, c, key, Local(k), at) == (if k >= i then m as real else 0.0);
    }
    assert HasBucket(c, Shared);
  }

  lemma NoneLeft(p: Policy, c: Cluster, key: string, at: int, m: nat)
    requires Hold(p, c, key, at, m as real, false, |c.fallbacks|)
    ensures Hold(p, c, key, at, 0.0, true, 0)
    ensures Adds(p, c, LocalRound(|c.fallbacks|, |c.fallbacks|, key, at, m), key, c, Copies(0, m))
  {
    AddsNothing(p, c, key);
  }

  lemma LocalsJoin(p: Policy, c: Cluster, drained: Cluster, next: Cluster, n: nat, i: nat, key: string, at: int, m: nat)
    requires i < n
    requires Adds(p, c, Repeat(Request(i, key, at, NoReply(0)), m), key, drained, m)
    requires Adds(p, drained, LocalRound(n, i + 1, key, at, m), key, next, Copies(n - i - 1, m))
    ensures Adds(p, c, LocalRound(n, i, key, at, m), key, next, Copies(n - i, m))
  {
    AddsThen(p, c, Repeat(Request(i, key, at, NoReply(0)), m), key, drained, m,
             LocalRound(n, i + 1, key, at, m), next, Copies(n - i - 1, m));
  }

  lemma {:induction false} DrainLocals(p: Policy, c: Cluster, i: nat, key: string, at: int, m: nat)
    returns (next: Cluster)
    requires p.Valid() && i <= |c.fallbacks| && Hold(p, c, key, at, m as real, false, i)
    ensures Hold(p, next, key, at, 0.0, true, 0)
    ensures Adds(p, c, LocalRound(|c.fallbacks|, i, key, at, m), key, next, Copies(|c.fallbacks| - i, m))
    decreases |c.fallbacks| - i
  {
    var n := |c.fallbacks|;
    if i == n {
      NoneLeft(p, c, key, at, m);
      next := c;
    } else {
      var drained := DrainNextLocal(p, c, i, key, at, m);
      next := DrainLocals(p, drained, i + 1, key, at, m);
      LocalsJoin(p, c, drained, next, n, i, key, at, m);
    }
  }

  lemma DrainShared(p: Policy, c: Cluster, key: string, at: int, m: nat) returns (next: Cluster)
    requires p.Valid() && |c.fallbacks| >= 1 && Hold(p, c, key, at, m as real, true, 0)
    ensures Hold(p, next, key, at, m as real, false, 0)
    ensures Adds(p, c, Repeat(Request(0, key, at, Replied(0)), m), key, next, m)
  {
    next := DrainOne(p, c, Request(0, key, at, Replied(0)), m);
    assert HasBucket(c, Shared);
    forall k | 0 <= k < |c.fallbacks| ensures LevelIn(p, next, key, Local(k), at) == m as real {
      assert HasBucket(c, Local(k));
      assert LevelIn(p, c, key, Local(k), at) == m as real;
    }
  }

  /** A round of m requests to every one of the N + 1 buckets, each holding m tokens, is admitted in full. */
  lemma DrainRound(p: Policy, c: Cluster, key: string, at: int, m: nat) returns (next: Cluster)
    requires p.Valid() && |c.fallbacks| >= 1 && Hold(p, c, key, at, m as real, true, 0)
    ensures Hold(p, next, key, at, 0.0, true, 0)
    ensures Adds(p, c, Round(|c.fallbacks|, key, at, m), key, next, Copies(|c.fallbacks| + 1, m))
  {
    var n := |c.fallbacks|;
    var drained := DrainShared(p, c, key, at, m);
    next := DrainLocals(p, drained, 0, key, at, m);
    AddsThen(p, c, Repeat(Request(0, key, at, Replied(0)), m), key, drained, m,
             LocalRound(n, 0, key, at, m), next, Copies(n, m));
  }

  // Rounds are in order.

  lemma RoundSplits(n: nat, i: nat, key: string, at: int, m: nat, rest: seq<Traffic>)
    requires i < n
    ensures LocalRound(n, i, key, at, m) + rest
         == Repeat(Request(i, key, at, NoReply(0)), m) + (LocalRound(n, i + 1, key, at, m) + rest)
  {
  }

  lemma RoundStarts(n: nat, key: string, at: int, m: nat, rest: seq<Traffic>)
    ensures Round(n, key, at, m) + rest
         == Repeat(Request(0, key, at, Replied(0)), m) + (LocalRound(n, 0, key, at, m) + rest)
  {
  }

  lemma {:induction false} TimedLocalRound(n: nat, i: nat, key: string, at: int, m: nat, rest: seq<Traffic>,
                                           start: int, end: int)
    requires i <= n && start <= at && Timed(rest, n, at, end)
    ensures Timed(LocalRound(n, i, key, at, m) + rest, n, start, end)
    decreases n - i
  {
    if i == n {
      assert LocalRound(n, n, key, at, m) + rest == rest;
    } else {
      TimedLocalRound(n, i + 1, key, at, m, rest, at, end);
      RoundSplits(n, i, key, at, m, rest);
      TimedRepeat(Request(i, key, at, NoReply(0)), m, LocalRound(n, i + 1, key, at, m) + rest, n, start, end);
    }
  }

  lemma TimedRound(n: nat, key: string, at: int, m: nat, rest: seq<Traffic>, start: int, end: int)
    requires n >= 1 && start <= at && Timed(rest, n, at, end)
    ensures Timed(Round(n, key, at, m) + rest, n, start, end)
  {
    TimedLocalRound(n, 0, key, at, m, rest, at, end);
    TimedRepeat(Request(0, key, at, Replied(0)), m, LocalRound(n, 0, key, at, m) + rest, n, start, end);
    RoundStarts(n, key, at, m, rest);
  }

  // Zero-width windows.

  lemma IdleHolds(p: Policy, n: nat, key: string, at: int)
    requires p.Valid()
    ensures Hold(p, Idle(n), key, at, p.limit.burst as real, true, 0)
  {
    IdleKept(p, n, at);
    assert Debt(at, at) == 0;
  }

  lemma DrainIdle(p: Policy, n: nat, key: string, at: int) returns (next: Cluster)
    requires p.Valid() && n >= 1
    ensures |next.fallbacks| == n && Hold(p, next, key, at, 0.0, true, 0)
    ensures Adds(p, Idle(n), Round(n, key, at, p.limit.burst), key, next, Copies(n + 1, p.limit.burst))
  {
    IdleHolds(p, n, key, at);
    next := DrainRound(p, Idle(n), key, at, p.limit.burst);
  }

  /** n + 1 shares in whole numbers, and more than n of them. */
  lemma SharesExceeded(n: nat, share: nat)
    ensures Times(n + 1, share as real) == ((n + 1) * share) as real
    ensures share >= 1 ==> Times(n + 1, share as real) > Times(n, share as real)
  {
    TimesIsProduct(n + 1, share as real);
    WholeProduct(n + 1, share);
  }

  /**
   In one instant a key is admitted N + 1 bursts: exactly the bound for a window of no width, and more than
   the documented N times the limit whenever the limit admits anything.
   */
  lemma InstantBoundAttained(p: Policy, n: nat, key: string, at: int)
    requires p.Valid() && n >= 1
    ensures var window := Round(n, key, at, p.limit.burst);
            && Timed(window, n, at, at)
            && Admitted(p, Idle(n), window, key, at, at) as real == Times(n + 1, Share(p.limit, at, at))
            && (p.limit.burst >= 1 ==> Times(n + 1, Share(p.limit, at, at)) > Times(n, Share(p.limit, at, at)))
  {
    var window := Round(n, key, at, p.limit.burst);
    assert window + [] == window;
    TimedRound(n, key, at, p.limit.burst, [], at, at);
    var next := DrainIdle(p, n, key, at);
    CopiesIsProduct(n + 1, p.limit.burst);
    PlayIsAdmitted(p, Idle(n), window, key, at, at);
    SharesExceeded(n, p.limit.burst);
  }

  // Wider windows.

  function Flat(rounds: seq<seq<Traffic>>): seq<Traffic> {
    if rounds == [] then [] else rounds[0] + Flat(rounds[1..])
  }

  /** A round of one request to every bucket at the end of each of the next k periods. */
  function Rounds(n: nat, key: string, at: int, period: nat, k: nat): (r: seq<seq<Traffic>>)
    ensures |r| == k
    decreases k
  {
    if k == 0 then [] else [Round(n, key, at + period, 1)] + Rounds(n, key, at + period, period, k - 1)
  }

  function Ticks(n: nat, key: string, at: int, period: nat, k: nat): seq<Traffic> {
    Flat(Rounds(n, key, at, period, k))
  }

  /** From c on, each round admits m requests. */
  predicate Ticking(p: Policy, c: Cluster, rounds: seq<seq<Traffic>>, key: string, m: nat)
    decreases rounds
  {
    rounds == [] ||
    (Play(p, c, rounds[0], key).1 == m && Ticking(p, Play(p, c, rounds[0], key).0, rounds[1..], key, m))
  }

  lemma {:induction false} TicksAdmitted(p: Policy, c: Cluster, rounds: seq<seq<Traffic>>, key: string, m: nat)
    requires Ticking(p, c, rounds, key, m)
    ensures Play(p, c, Flat(rounds), key).1 == Copies(|rounds|, m)
    decreases rounds
  {
    if rounds != [] {
      TicksAdmitted(p, Play(p, c, rounds[0], key).0, rounds[1..], key, m);
      PlayThen(p, c, rounds[0], Flat(rounds[1..]), key);
    }
  }

  lemma TickingFirst(p: Policy, c: Cluster, round: seq<Traffic>, rest: seq<seq<Traffic>>, key: string, m: nat,
                     ticked: Cluster)
    requires Adds(p, c, round, key, ticked, m) && Ticking(p, ticked, rest, key, m)
    ensures Ticking(p, c, [round] + rest, key, m)
  {
    assert ([round] + rest)[1..] == rest;
  }

  lemma OnePeriodEarns(rate: real, period: nat, at: int)
    requires rate * period as real == 1.0
    ensures Earned(rate, at, at + period) == 1.0
  {
  }

  lemma LocalTokenLater(p: Policy, visitors: Visitors, key: string, at: int)
    requires p.Valid() && p.limit.rate * p.period as real == 1.0 && p.limit.burst >= 1
    requires WellKept(p.limit, visitors, at) && LevelOf(p.limit, visitors, key, at) == 0.0
    ensures LevelOf(p.limit, visitors, key, at + p.period) == 1.0
  {
    if key in visitors {
      LevelLater(p.limit, visitors[key].bucket, at, at + p.period);
      OnePeriodEarns(p.limit.rate, p.period, at);
    }
  }

  /** An empty bucket holds exactly one token a whole period later. */
  lemma OneTokenLater(p: Policy, c: Cluster, key: string, at: int)
    requires p.Valid() && p.limit.rate * p.period as real == 1.0 && p.limit.burst >= 1
    requires Hold(p, c, key, at, 0.0, true, 0)
    ensures Hold(p, c, key, at + p.period, 1.0, true, 0)
  {
    KeptLater(p, c, at, at + p.period);
    SharedTokenLater(p, c.redis, key, at);
    forall k | 0 <= k < |c.fallbacks| ensures LevelIn(p, c, key, Local(k), at + p.period) == 1.0 {
      assert LevelIn(p, c, key, Local(k), at) == 0.0;
      LocalTokenLater(p, c.fallbacks[k], key, at);
    }
  }

  lemma SharedTokenLater(p: Policy, redis: RedisState, key: string, at: int)
    requires p.Valid() && p.limit.burst >= 1 && TatsKept(p, redis, at) && SharedLevel(p, redis, key, at) == 0.0
    ensures SharedLevel(p, redis, key, at + p.period) == 1.0
  {
    var debt := Debt(TatAt(redis, key, at), at);
    FullDebt(debt, p.period, p.limit.burst);
    MulMonotone(p.period, 1, p.limit.burst);
    assert Debt(TatAt(redis, key, at + p.period), at + p.period) == debt - p.period;
    DivideOne(debt - p.period, p.period);
  }

  lemma FullDebt(debt: int, period: nat, burst: nat)
    requires period >= 1 && burst as real - debt as real / period as real == 0.0
    ensures debt == period * burst
  {
    var q := debt as real / period as real;
    assert q * period as real == debt as real;
    WholeProduct(period, burst);
  }

  /** A cluster whose buckets have just been drained. */
  ghost predicate Drained(p: Policy, c: Cluster, key: string, at: int) {
    |c.fallbacks| >= 1 && Hold(p, c, key, at, 0.0, true, 0)
  }

  /** A whole-nanosecond period, and a burst. */
  predicate Exact(p: Policy) {
    p.Valid() && p.limit.rate * p.period as real == 1.0 && p.limit.burst >= 1
  }

  lemma TickAdmitted(p: Policy, c: Cluster, n: nat, key: string, at: int) returns (next: Cluster)
    requires Exact(p) && Drained(p, c, key, at) && |c.fallbacks| == n
    ensures Drained(p, next, key, at + p.period) && |next.fallbacks| == n
    ensures Adds(p, c, Round(n, key, at + p.period, 1), key, next, n + 1)
  {
    OneTokenLater(p, c, key, at);
    next := DrainRound(p, c, key, at + p.period, 1);
    CopiesIsProduct(n + 1, 1);
  }

  lemma {:induction false} DrainedTicks(p: Policy, c: Cluster, n: nat, key: string, at: int, k: nat)
    requires Exact(p) && Drained(p, c, key, at) && |c.fallbacks| == n
    ensures Ticking(p, c, Rounds(n, key, at, p.period, k), key, n + 1)
    decreases k
  {
    if k > 0 {
      var ticked := TickAdmitted(p, c, n, key, at);
      DrainedTicks(p, ticked, n, key, at + p.period, k - 1);
      TickingFirst(p, c, Round(n, key, at + p.period, 1), Rounds(n, key, at + p.period, p.period, k - 1), key, n + 1,
                   ticked);
    }
  }

  lemma FlatFirst(round: seq<Traffic>, rest: seq<seq<Traffic>>)
    ensures Flat([round] + rest) == round + Flat(rest)
  {
    assert ([round] + rest)[1..] == rest;
  }

  lemma {:induction false} TimedTicks(n: nat, key: string, at: int, period: nat, k: nat, start: int, end: int)
    requires n >= 1 && start <= at && end == at + Copies(k, period)
    ensures Timed(Ticks(n, key, at, period, k), n, start, end)
    decreases k
  {
    if k > 0 {
      FlatFirst(Round(n, key, at + period, 1), Rounds(n, key, at + period, period, k - 1));
      TimedTicks(n, key, at + period, period, k - 1, at + period, end);
      TimedRound(n, key, at + period, 1, Ticks(n, key, at + period, period, k - 1), start, end);
    }
  }

  lemma DrainIdleExactly(p: Policy, n: nat, key: string, start: int) returns (drained: Cluster)
    requires p.Valid() && n >= 1 && p.limit.burst >= 1 && p.limit.rate * p.period as real == 1.0
    ensures |drained.fallbacks| == n && Drained(p, drained, key, start)
    ensures Adds(p, Idle(n), Round(n, key, start, p.limit.burst), key, drained, Copies(n + 1, p.limit.burst))
  {
    drained := DrainIdle(p, n, key, start);
  }

  lemma WindowCounts(p: Policy, n: nat, key: string, start: int, k: nat)
    requires p.Valid() && n >= 1 && p.limit.burst >= 1 && p.limit.rate * p.period as real == 1.0
    ensures Play(p, Idle(n), Round(n, key, start, p.limit.burst) + Ticks(n, key, start, p.period, k), key).1
         == Copies(n + 1, p.limit.burst) + Copies(k, n + 1)
  {
    var drained := DrainIdleExactly(p, n, key, start);
    DrainedTicks(p, drained, n, key, start, k);
    TicksAdmitted(p, drained, Rounds(n, key, start, p.period, k), key, n + 1);
    PlayThen(p, Idle(n), Round(n, key, start, p.limit.burst), Ticks(n, key, start, p.period, k), key);
  }

  lemma TotalOfWindow(n: nat, burst: nat, k: nat)
    ensures Copies(n + 1, burst) + Copies(k, n + 1) == (n + 1) * (burst + k)
  {
    CopiesIsProduct(n + 1, burst);
    CopiesIsProduct(k, n + 1);
    Distribute(n + 1, burst, k);
  }

  lemma ShareOfPeriods(p: Policy, start: int, k: nat)
    requires p.limit.rate * p.period as real == 1.0
    ensures Share(p.limit, start, start + k * p.period) == (p.limit.burst + k) as real
  {
    TimesIsProduct(k * p.period, p.limit.rate);
    RateTimesPeriods(p.limit.rate, p.period, k);
  }

  lemma WindowAdmits(p: Policy, n: nat, key: string, start: int, k: nat, end: int)
    requires p.Valid() && n >= 1 && p.limit.burst >= 1 && p.limit.rate * p.period as real == 1.0
    requires end == start + Copies(k, p.period)
    ensures var window := Round(n, key, start, p.limit.burst) + Ticks(n, key, start, p.period, k);
            && Timed(window, n, start, end)
            && Admitted(p, Idle(n), window, key, start, end) == Copies(n + 1, p.limit.burst) + Copies(k, n + 1)
  {
    var ticks := Ticks(n, key, start, p.period, k);
    TimedTicks(n, key, start, p.period, k, start, end);
    TimedRound(n, key, start, p.limit.burst, ticks, start, end);
    WindowCounts(p, n, key, start, k);
    PlayIsAdmitted(p, Idle(n), Round(n, key, start, p.limit.burst) + ticks, key, start, end);
  }

  /**
   With a whole-nanosecond period the bound of N + 1 shares is attained in every window of k periods: a
   burst from every bucket at the start, and one request to each at the end of every period.
   */
  lemma WindowBoundAttained(p: Policy, n: nat, key: string, start: int, k: nat)
    requires p.Valid() && n >= 1 && p.limit.burst >= 1 && p.limit.rate * p.period as real == 1.0
    ensures var window := Round(n, key, start, p.limit.burst) + Ticks(n, key, start, p.period, k);
            var end := start + k * p.period;
            && Timed(window, n, start, end)
            && Admitted(p, Idle(n), window, key, start, end) as real == Times(n + 1, Share(p.limit, start, end))
            && Times(n + 1, Share(p.limit, start, end)) > Times(n, Share(p.limit, start, end))
  {
    CopiesIsProduct(k, p.period);
    WindowAdmits(p, n, key, start, k, start + k * p.period);
    ShareOfPeriods(p, start, k);
    AttainedShares(n, p.limit.burst, k, Share(p.limit, start, start + k * p.period));
  }

  lemma AttainedShares(n: nat, burst: nat, k: nat, share: real)
    requires share == (burst + k) as real && burst >= 1
    ensures (Copies(n + 1, burst) + Copies(k, n + 1)) as real == Times(n + 1, share) > Times(n, share)
  {
    TotalOfWindow(n, burst, k);
    SharesExceeded(n, burst + k);
  }

  lemma Distribute(n: nat, a: nat, b: nat)
    ensures n * a + b * n == n * (a + b)
  {
  }

  lemma RateTimesPeriods(rate: real, period: nat, k: nat)
    requires rate * period as real == 1.0
    ensures (k * period) as real * rate == k as real
  {
    WholeProduct(k, period);
    assert (k as real * period as real) * rate == k as real * (rate * period as real);
  }
}
