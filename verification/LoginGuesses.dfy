/**
 How many guesses the failed-login limiter lets a client try. The block is checked before the handler runs
 and the token taken after it, so requests in flight together are all evaluated; one at a time, the bucket
 and the blocks bound them.
 */
module LoginGuesses {
  import opened Bytes
  import opened Wrappers
  import opened Backoff
  import opened TokenBucket
  import opened Gcra
  import opened MemoryLimiter
  import opened RedisLimiter
  import opened Budgets
  import opened Middleware
  import opened FailedLogins
  import W = LimiterWindow

  /** The handler of one of the client's requests answers. */
  predicate Answers(s: Cluster, e: Event, ip: string) {
    e.Finish? && e.id in s.inFlight && s.inFlight[e.id].replica < |s.limits.locals| && s.inFlight[e.id].ip == ip
  }

  /** It has evaluated a wrong guess. */
  predicate Guesses(s: Cluster, e: Event, ip: string) {
    Answers(s, e, ip) && e.outcome == UNAUTHORIZED
  }

  /** There is a token for it. */
  predicate Pays(c: Config, s: Cluster, e: Event)
    requires e.Finish? && e.id in s.inFlight && s.inFlight[e.id].replica < |s.limits.locals|
  {
    SpendIn(At(s.limits, s.inFlight[e.id].replica), c.budget, s.inFlight[e.id].ip, e.at, e.up).0
  }

  function GuessCount(c: Config, s: Cluster, events: seq<Event>, ip: string): nat
    decreases events
  {
    if events == [] then 0
    else (if Guesses(s, events[0], ip) then 1 else 0) + GuessCount(c, Step(c, s, events[0]), events[1..], ip)
  }

  /** The guesses paid for. */
  function PaidCount(c: Config, s: Cluster, events: seq<Event>, ip: string): nat
    decreases events
  {
    if events == [] then 0
    else
      (if Guesses(s, events[0], ip) && Pays(c, s, events[0]) then 1 else 0)
      + PaidCount(c, Step(c, s, events[0]), events[1..], ip)
  }

  /** The others, each an offense. */
  function OffenseCount(c: Config, s: Cluster, events: seq<Event>, ip: string): nat
    decreases events
  {
    if events == [] then 0
    else
      (if Guesses(s, events[0], ip) && !Pays(c, s, events[0]) then 1 else 0)
      + OffenseCount(c, Step(c, s, events[0]), events[1..], ip)
  }

  lemma {:induction false} PaidOrOffense(c: Config, s: Cluster, events: seq<Event>, ip: string)
    ensures GuessCount(c, s, events, ip) == PaidCount(c, s, events, ip) + OffenseCount(c, s, events, ip)
    decreases events
  {
    if events != [] {
      PaidOrOffense(c, Step(c, s, events[0]), events[1..], ip);
    }
  }

  // Any number of requests in flight together.

  const REPLYING := Up(true, Replied(0), Replied(0), Executed)

  /** Requests k up to m arrive at one replica at once... */
  function ArriveFrom(ip: string, k: nat, m: nat): seq<Event>
    requires k <= m
    decreases m - k
  {
    if k == m then [] else [Arrive(k, 0, ip, 0, REPLYING)] + ArriveFrom(ip, k + 1, m)
  }

  /** ...and are answered at once. */
  function FinishFrom(k: nat, m: nat): seq<Event>
    requires k <= m
    decreases m - k
  {
    if k == m then [] else [Finish(k, 0, REPLYING, UNAUTHORIZED)] + FinishFrom(k + 1, m)
  }

  function FirstRequests(ip: string, m: nat): map<nat, Pending> {
    if m == 0 then map[] else FirstRequests(ip, m - 1)[m - 1 := Pending(0, ip)]
  }

  lemma {:induction false} FirstRequestsAre(ip: string, m: nat)
    ensures forall id: nat :: id < m ==> id in FirstRequests(ip, m) && FirstRequests(ip, m)[id] == Pending(0, ip)
  {
    if m > 0 {
      FirstRequestsAre(ip, m - 1);
    }
  }

  /** The first m requests are in flight. */
  function Waiting(n: nat, ip: string, m: nat): Cluster {
    Cluster(Fresh(n), FirstRequests(ip, m), map[])
  }

  lemma ArriveStep(c: Config, n: nat, ip: string, k: nat)
    requires n >= 1
    ensures Step(c, Waiting(n, ip, k), Arrive(k, 0, ip, 0, REPLYING)) == Waiting(n, ip, k + 1)
  {
  }

  lemma ArriveFirst(ip: string, k: nat, m: nat, rest: seq<Event>)
    requires k < m
    ensures ArriveFrom(ip, k, m) + rest == [Arrive(k, 0, ip, 0, REPLYING)] + (ArriveFrom(ip, k + 1, m) + rest)
  {
  }

  lemma CountAfterArrival(c: Config, s: Cluster, e: Event, rest: seq<Event>, ip: string)
    requires e.Arrive?
    ensures GuessCount(c, s, [e] + rest, ip) == GuessCount(c, Step(c, s, e), rest, ip)
  {
    assert ([e] + rest)[1..] == rest;
  }

  lemma {:induction false} AllArrive(c: Config, n: nat, ip: string, k: nat, m: nat, rest: seq<Event>)
    requires n >= 1 && k <= m
    ensures GuessCount(c, Waiting(n, ip, k), ArriveFrom(ip, k, m) + rest, ip)
         == GuessCount(c, Waiting(n, ip, m), rest, ip)
    decreases m - k
  {
    if k == m {
      assert ArriveFrom(ip, m, m) + rest == rest;
    } else {
      ArriveFirst(ip, k, m, rest);
      CountAfterArrival(c, Waiting(n, ip, k), Arrive(k, 0, ip, 0, REPLYING), ArriveFrom(ip, k + 1, m) + rest, ip);
      ArriveStep(c, n, ip, k);
      AllArrive(c, n, ip, k + 1, m, rest);
    }
  }

  lemma {:induction false} AllGuess(c: Config, s: Cluster, ip: string, k: nat, m: nat)
    requires k <= m && |s.limits.locals| >= 1
    requires forall id :: k <= id < m ==> id in s.inFlight && s.inFlight[id] == Pending(0, ip)
    ensures GuessCount(c, s, FinishFrom(k, m), ip) == m - k
    decreases m - k
  {
    if k < m {
      assert FinishFrom(k, m)[1..] == FinishFrom(k + 1, m);
      AllGuess(c, Step(c, s, FinishFrom(k, m)[0]), ip, k + 1, m);
    }
  }

  /** Whatever the budget, any number of guesses sent together is evaluated in full. */
  lemma FloodIsEvaluated(c: Config, n: nat, ip: string, m: nat)
    requires n >= 1
    ensures GuessCount(c, Start(n), ArriveFrom(ip, 0, m) + FinishFrom(0, m), ip) == m
  {
    assert Start(n) == Waiting(n, ip, 0);
    AllArrive(c, n, ip, 0, m, FinishFrom(0, m));
    FirstRequestsAre(ip, m);
    AllGuess(c, Waiting(n, ip, m), ip, 0, m);
  }

  // One request at a time.

  /** Times lie in order within [start, end]. */
  predicate Timed(events: seq<Event>, start: int, end: int) {
    && start <= end
    && (events == [] || (start <= events[0].at && Timed(events[1..], events[0].at, end)))
  }

  /** Redis replies to every command; retries may have run some more often. */
  predicate AllReply(up: Up) {
    up.query && up.allow.Replied? && up.incr.Replied? && up.pipe.Executed?
  }

  predicate NoneInFlight(s: Cluster, ip: string) {
    forall id :: id in s.inFlight ==> s.inFlight[id].ip != ip
  }

  predicate AtMostOneInFlight(s: Cluster, ip: string) {
    forall i, j :: i in s.inFlight && j in s.inFlight && s.inFlight[i].ip == ip && s.inFlight[j].ip == ip ==> i == j
  }

  /** The client sends one request after the other, and Redis replies to what they ask. */
  predicate Orderly(c: Config, s: Cluster, events: seq<Event>, ip: string)
    decreases events
  {
    events != [] ==>
      && (events[0].Arrive? && events[0].ip == ip ==> NoneInFlight(s, ip) && AllReply(events[0].up))
      && (Answers(s, events[0], ip) ==> AllReply(events[0].up))
      && Orderly(c, Step(c, s, events[0]), events[1..], ip)
  }

  // The paid guesses: the shared bucket.

  function PolicyOf(c: Config): W.Policy {
    W.Policy(c.budget.limit, c.budget.period)
  }

  lemma SpendLevel(c: Config, s: LimiterState, client: string, ip: string, at: int, up: Up)
    requires c.budget.period >= 1 && W.TatsKept(PolicyOf(c), s.redis, at)
    ensures var (ok, next) := SpendIn(s, c.budget, client, at, up);
            && W.TatsKept(PolicyOf(c), next.redis, at)
            && W.SharedLevel(PolicyOf(c), next.redis, ip, at)
               <= W.SharedLevel(PolicyOf(c), s.redis, ip, at)
                - if ok && client == ip && up.allow.Replied? then 1.0 else 0.0
  {
    var b := c.budget;
    W.SharedLevelLost(PolicyOf(c), s.redis, client, ip, at, up.allow.lost);
    var before := AllowLostIn(s.redis, client, at, b.period, b.limit.burst, up.allow.lost);
    W.SharedLevelAllow(PolicyOf(c), before, client, ip, at);
  }

  lemma OffendTats(s: LimiterState, client: string, base: int, at: int, up: Up)
    ensures OffendIn(s, client, base, at, up).redis.tats == s.redis.tats
  {
    IncrLostExpiry(s.redis, client, at, up.incr.lost);
  }

  /** Both read the same buckets. */
  lemma SameTats(p: W.Policy, x: RedisState, y: RedisState, ip: string, at: int)
    requires p.period >= 1 && x.tats == y.tats && W.TatsKept(p, x, at)
    ensures W.TatsKept(p, y, at) && W.SharedLevel(p, y, ip, at) == W.SharedLevel(p, x, ip, at)
  {
  }

  lemma FinishLevel(c: Config, s: LimiterState, client: string, ip: string, at: int, up: Up, outcome: Outcome)
    requires c.budget.period >= 1 && W.TatsKept(PolicyOf(c), s.redis, at)
    ensures var next := FinishIn(s, c, client, at, up, outcome).1;
            && W.TatsKept(PolicyOf(c), next.redis, at)
            && W.SharedLevel(PolicyOf(c), next.redis, ip, at)
               <= W.SharedLevel(PolicyOf(c), s.redis, ip, at)
                - if outcome == UNAUTHORIZED && SpendIn(s, c.budget, client, at, up).0 && client == ip
                     && up.allow.Replied? then 1.0 else 0.0
  {
    if outcome == UNAUTHORIZED {
      SpendLevel(c, s, client, ip, at, up);
      var spent := SpendIn(s, c.budget, client, at, up).1;
      OffendTats(spent, client, c.blockDuration, at, up);
      SameTats(PolicyOf(c), spent.redis, FinishIn(s, c, client, at, up, outcome).1.redis, ip, at);
    }
  }

  /** One event costs the client's shared bucket a token for a paid guess. */
  lemma StepLevel(c: Config, s: Cluster, e: Event, ip: string)
    requires c.budget.period >= 1 && W.TatsKept(PolicyOf(c), s.limits.redis, e.at)
    requires Answers(s, e, ip) ==> AllReply(e.up)
    ensures W.TatsKept(PolicyOf(c), Step(c, s, e).limits.redis, e.at)
    ensures W.SharedLevel(PolicyOf(c), Step(c, s, e).limits.redis, ip, e.at)
         <= W.SharedLevel(PolicyOf(c), s.limits.redis, ip, e.at)
          - if Guesses(s, e, ip) && Pays(c, s, e) then 1.0 else 0.0
  {
    if e.Finish? && e.id in s.inFlight && s.inFlight[e.id].replica < |s.limits.locals| {
      var p := s.inFlight[e.id];
      FinishLevel(c, At(s.limits, p.replica), p.ip, ip, e.at, e.up, e.outcome);
    }
  }

  lemma {:induction false} TatsStayKept(c: Config, s: Cluster, events: seq<Event>, start: int, end: int)
    requires c.budget.period >= 1 && W.TatsKept(PolicyOf(c), s.limits.redis, start) && Timed(events, start, end)
    ensures W.TatsKept(PolicyOf(c), Run(c, s, events).limits.redis, end)
    decreases events
  {
    if events == [] {
      W.SharedLevelLater(PolicyOf(c), s.limits.redis, "", start, end);
    } else {
      var e := events[0];
      W.SharedLevelLater(PolicyOf(c), s.limits.redis, "", start, e.at);
      StepKeepsTats(c, s, e);
      TatsStayKept(c, Step(c, s, e), events[1..], e.at, end);
    }
  }

  lemma StepKeepsTats(c: Config, s: Cluster, e: Event)
    requires c.budget.period >= 1 && W.TatsKept(PolicyOf(c), s.limits.redis, e.at)
    ensures W.TatsKept(PolicyOf(c), Step(c, s, e).limits.redis, e.at)
  {
    if e.Finish? && e.id in s.inFlight && s.inFlight[e.id].replica < |s.limits.locals| {
      var p := s.inFlight[e.id];
      FinishLevel(c, At(s.limits, p.replica), p.ip, p.ip, e.at, e.up, e.outcome);
    }
  }

  /** The paid guesses number at most what the bucket holds and is refilled with. */
  lemma {:induction false} PaidBound(c: Config, s: Cluster, events: seq<Event>, ip: string, start: int, end: int)
    requires c.budget.period >= 1 && W.TatsKept(PolicyOf(c), s.limits.redis, start)
    requires Timed(events, start, end) && Orderly(c, s, events, ip)
    ensures PaidCount(c, s, events, ip) as real
         <= W.SharedLevel(PolicyOf(c), s.limits.redis, ip, start) + (end - start) as real / c.budget.period as real
    decreases events
  {
    if events == [] {
      W.SharedLevelBounds(PolicyOf(c), s.limits.redis, ip, start);
      W.DivisionNonNegative(end - start, c.budget.period);
    } else {
      var e := events[0];
      W.SharedLevelLater(PolicyOf(c), s.limits.redis, ip, start, e.at);
      StepLevel(c, s, e, ip);
      PaidBound(c, Step(c, s, e), events[1..], ip, e.at, end);
      W.SplitDivision(start, e.at, end, c.budget.period);
    }
  }

  // The offenses: each blocks the client for a while.

  /** The shortest block. */
  function Shortest(c: Config): int
    requires c.blockDuration > 0
  {
    AtLeast(c.blockDuration, 1)
  }

  lemma {:induction false} ShortestIsLeast(base: int, k: nat)
    requires base > 0 && k >= 1
    ensures AtLeast(base, 1) <= AtLeast(base, k)
    decreases k
  {
    if k > 1 {
      ShortestIsLeast(base, k - 1);
      AtLeastRises(base, k - 1);
    }
  }

  /** No offense before `free`: the client is blocked until then, and anything in flight came later. */
  ghost predicate Barred(c: Config, s: Cluster, ip: string, free: int, now: int)
    requires c.blockDuration > 0
  {
    && AtMostOneInFlight(s, ip) && Holds(s.limits.redis, ip, c.blockDuration, free, now)
    && (NoneInFlight(s, ip) || free <= now)
  }

  lemma HoldsLater(redis: RedisState, ip: string, base: int, free: int, now: int, later: int)
    requires Holds(redis, ip, base, free, now) && now <= later
    ensures Holds(redis, ip, base, free, later)
  {
  }

  /** An offense bars the client for the shortest block at least. */
  lemma OffenseBars(c: Config, s: LimiterState, ip: string, at: int, up: Up)
    requires c.blockDuration > 0 && up.incr.Replied? && up.pipe.Executed?
    ensures Holds(OffendIn(s, ip, c.blockDuration, at, up).redis, ip, c.blockDuration, at + Shortest(c), at)
  {
    var counted := IncrIn(IncrLostIn(s.redis, ip, at, up.incr.lost), ip, at);
    var count := counted.offenses[ip].count;
    BlockDurationExactly(c.blockDuration, count);
    ShortestIsLeast(c.blockDuration, count);
  }

  lemma AnsweredAlone(s: Cluster, t: Cluster, id: nat, ip: string)
    requires AtMostOneInFlight(s, ip) && id in s.inFlight && s.inFlight[id].ip == ip && t.inFlight == s.inFlight - {id}
    ensures NoneInFlight(t, ip)
  {
  }

  lemma OffenseStep(c: Config, s: Cluster, e: Event, ip: string, free: int)
    requires c.blockDuration > 0 && c.onLimitExceeded == ActionBlock
    requires Guesses(s, e, ip) && !Pays(c, s, e) && AllReply(e.up) && Barred(c, s, ip, free, e.at)
    ensures free <= e.at && Barred(c, Step(c, s, e), ip, e.at + Shortest(c), e.at)
  {
    var p := s.inFlight[e.id];
    AnsweredAlone(s, Step(c, s, e), e.id, ip);
    OffenseBars(c, SpendIn(At(s.limits, p.replica), c.budget, ip, e.at, e.up).1, ip, e.at, e.up);
  }

  lemma NoOffenseStep(c: Config, s: Cluster, e: Event, ip: string, free: int)
    requires c.blockDuration > 0 && Answers(s, e, ip) && Barred(c, s, ip, free, e.at)
    ensures free <= e.at && Barred(c, Step(c, s, e), ip, e.at, e.at)
  {
    AnsweredAlone(s, Step(c, s, e), e.id, ip);
  }

  /** Any other event leaves the client barred. */
  lemma OtherStepBars(c: Config, s: Cluster, e: Event, ip: string, free: int)
    requires c.blockDuration > 0 && Barred(c, s, ip, free, e.at) && !Answers(s, e, ip)
    requires e.Arrive? && e.ip == ip ==> NoneInFlight(s, ip) && AllReply(e.up)
    ensures Barred(c, Step(c, s, e), ip, free, e.at)
  {
    if e.Finish? && e.id in s.inFlight && s.inFlight[e.id].replica < |s.limits.locals| {
      var p := s.inFlight[e.id];
      FinishHolds(At(s.limits, p.replica), c, ip, p.ip, free, e.at, e.up, e.outcome);
    }
  }

  /** k offenses are at least k - 1 shortest blocks apart. */
  predicate SpacedOut(k: nat, block: int, room: int) {
    k > 0 ==> (k - 1) * block <= room
  }

  lemma OneMoreOffense(k: nat, block: int, room: int, at: int, end: int)
    requires block >= 0 && SpacedOut(k, block, end - (at + block)) && at <= end && end - at <= room
    ensures SpacedOut(k + 1, block, room)
  {
    if k > 0 {
      assert k * block == (k - 1) * block + block;
    } else {
      assert 0 * block == 0;
    }
  }

  lemma MoreRoom(k: nat, block: int, room: int, more: int)
    requires SpacedOut(k, block, room) && room <= more
    ensures SpacedOut(k, block, more)
  {
  }

  lemma {:induction false} OffensesSpaced(c: Config, s: Cluster, events: seq<Event>, ip: string, free: int,
                                          now: int, end: int)
    requires c.blockDuration > 0 && c.onLimitExceeded == ActionBlock
    requires Timed(events, now, end) && Orderly(c, s, events, ip) && Barred(c, s, ip, free, now)
    ensures SpacedOut(OffenseCount(c, s, events, ip), Shortest(c), end - Max(free, now))
    decreases |events|, 1
  {
    if events != [] {
      HoldsLater(s.limits.redis, ip, c.blockDuration, free, now, events[0].at);
      if !Answers(s, events[0], ip) {
        OtherStepBars(c, s, events[0], ip, free);
        OffensesSpaced(c, Step(c, s, events[0]), events[1..], ip, free, events[0].at, end);
        MoreRoom(OffenseCount(c, s, events, ip), Shortest(c), end - Max(free, events[0].at), end - Max(free, now));
      } else if Guesses(s, events[0], ip) && !Pays(c, s, events[0]) {
        AfterOffense(c, s, events, ip, free, end);
        MoreRoom(OffenseCount(c, s, events, ip), Shortest(c), end - events[0].at, end - Max(free, now));
      } else {
        NoOffenseStep(c, s, events[0], ip, free);
        OffensesSpaced(c, Step(c, s, events[0]), events[1..], ip, events[0].at, events[0].at, end);
        MoreRoom(OffenseCount(c, s, events, ip), Shortest(c), end - events[0].at, end - Max(free, now));
      }
    }
  }

  lemma {:induction false} AfterOffense(c: Config, s: Cluster, events: seq<Event>, ip: string, free: int, end: int)
    requires c.blockDuration > 0 && c.onLimitExceeded == ActionBlock && events != []
    requires Timed(events, events[0].at, end) && Orderly(c, s, events, ip) && Barred(c, s, ip, free, events[0].at)
    requires Guesses(s, events[0], ip) && !Pays(c, s, events[0])
    ensures free <= events[0].at
    ensures SpacedOut(OffenseCount(c, s, events, ip), Shortest(c), end - events[0].at)
    decreases |events|, 0
  {
    var e := events[0];
    var next := Step(c, s, e);
    OffenseStep(c, s, e, ip, free);
    BlockDurationExactly(c.blockDuration, 1);
    OffensesSpaced(c, next, events[1..], ip, e.at + Shortest(c), e.at, end);
    OneMoreOffense(OffenseCount(c, next, events[1..], ip), Shortest(c), end - e.at, e.at, end);
  }

  /**
   Main result. A client that sends its requests one after the other, to any replicas, with Redis replying to
   what they ask and anything at all going on besides, has at most so many guesses evaluated in a window: a
   burst, the tokens refilled, one, and one more for each shortest block that fits in the window.
   */
  lemma GuessesBounded(c: Config, n: nat, before: seq<Event>, window: seq<Event>, ip: string,
                       origin: int, start: int, end: int)
    requires c.blockDuration > 0 && c.onLimitExceeded == ActionBlock && c.budget.period >= 1
    requires Timed(before, origin, start) && Timed(window, start, end)
    requires AtMostOneInFlight(Run(c, Start(n), before), ip) && Orderly(c, Run(c, Start(n), before), window, ip)
    ensures GuessCount(c, Run(c, Start(n), before), window, ip) as real
         <= c.budget.limit.burst as real + (end - start) as real / c.budget.period as real
          + 1.0 + (end - start) as real / Shortest(c) as real
  {
    var s := Run(c, Start(n), before);
    TatsStayKept(c, Start(n), before, origin, start);
    PaidBound(c, s, window, ip, start, end);
    W.SharedLevelBounds(PolicyOf(c), s.limits.redis, ip, start);
    OffensesSpaced(c, s, window, ip, start, start, end);
    BlockDurationExactly(c.blockDuration, 1);
    SpacedQuotient(OffenseCount(c, s, window, ip), Shortest(c), end - start);
    PaidOrOffense(c, s, window, ip);
  }

  lemma SpacedQuotient(k: nat, block: int, room: int)
    requires block > 0 && room >= 0 && SpacedOut(k, block, room)
    ensures k as real <= 1.0 + room as real / block as real
  {
    W.DivisionNonNegative(room, block);
    if k > 0 {
      assert ((k - 1) * block) as real == (k - 1) as real * block as real;
      AtMostQuotient((k - 1) as real, room as real, block as real);
    }
  }

  lemma AtMostQuotient(x: real, room: real, block: real)
    requires block > 0.0 && x * block <= room
    ensures x <= room / block
  {
    var q := room / block;
    assert q * block == room;
    if x > q {
      BelowScaled(q, x, block);
    }
  }

  // The limiter the program builds.

  lemma {:induction false} RefusedSooner(c: Config, s: Cluster, events: seq<Event>, ip: string, sooner: int, until: int)
    requires Refused(c, s, events, ip, until) && sooner <= until
    ensures Refused(c, s, events, ip, sooner)
    decreases events
  {
    if events != [] {
      RefusedSooner(c, Step(c, s, events[0]), events[1..], ip, sooner, until);
    }
  }

  /** The configured duration, or ten years if that is less. */
  function AtMostTenYears(blockDuration: int): int {
    if blockDuration < 315_360_000_000_000_000 then blockDuration else 315_360_000_000_000_000
  }

  lemma ShortestIs(base: int)
    requires 0 < base <= MAX_INT64
    ensures AtLeast(base, 1) == AtMostTenYears(base)
  {
    BlockDurationExactly(base, 1);
    assert Factor(1) == 1;
  }

  /**
   Main result for it. A failed login that finds no token is answered 403, and whatever happens next on any
   replica, every request of that client that can ask Redis is refused for the configured duration at least.
   */
  lemma LoginsAreBlocked(failedLoginLimit: nat, blockDuration: int, s: Cluster, e: Event, events: seq<Event>)
    requires 1 <= failedLoginLimit <= HOUR && 0 < blockDuration <= MAX_INT64
    requires e.Finish? && e.id in s.inFlight && s.inFlight[e.id].replica < |s.limits.locals|
    requires e.outcome == Status(401) && e.up.incr.Replied? && e.up.pipe.Executed? && Ordered(events, e.at)
    requires !Pays(LoginConfig(failedLoginLimit, blockDuration), s, e)
    ensures var c := LoginConfig(failedLoginLimit, blockDuration);
            && e.id in Step(c, s, e).answers && Step(c, s, e).answers[e.id] == Forbidden
            && Refused(c, Step(c, s, e), events, s.inFlight[e.id].ip, e.at + AtMostTenYears(blockDuration))
  {
    var c := LoginConfig(failedLoginLimit, blockDuration);
    var p := s.inFlight[e.id];
    LoginDecides(At(s.limits, p.replica), failedLoginLimit, blockDuration, p.ip, e.at, e.up, e.outcome);
    BlockIsEnforced(c, s, e, events);
    var count := Step(c, s, e).limits.redis.offenses[p.ip].count;
    ShortestIsLeast(blockDuration, count);
    ShortestIs(blockDuration);
    RefusedSooner(c, Step(c, s, e), events, p.ip, e.at + AtMostTenYears(blockDuration),
                  e.at + AtLeast(blockDuration, count));
  }

  /** And the bound on its guesses: failedLoginLimit, the refill, one, and one more for each block that fits. */
  lemma LoginGuessesBounded(failedLoginLimit: nat, blockDuration: int, n: nat, before: seq<Event>, window: seq<Event>,
                            ip: string, origin: int, start: int, end: int)
    requires 1 <= failedLoginLimit <= HOUR && 0 < blockDuration <= MAX_INT64
    requires Timed(before, origin, start) && Timed(window, start, end)
    requires var c := LoginConfig(failedLoginLimit, blockDuration);
             AtMostOneInFlight(Run(c, Start(n), before), ip) && Orderly(c, Run(c, Start(n), before), window, ip)
    ensures LoginBudget(failedLoginLimit).period >= 1
    ensures var c := LoginConfig(failedLoginLimit, blockDuration);
            GuessCount(c, Run(c, Start(n), before), window, ip) as real
            <= failedLoginLimit as real + (end - start) as real / LoginBudget(failedLoginLimit).period as real
             + 1.0 + (end - start) as real / AtMostTenYears(blockDuration) as real
  {
    LoginPeriodPositive(failedLoginLimit);
    ShortestIs(blockDuration);
    GuessesBounded(LoginConfig(failedLoginLimit, blockDuration), n, before, window, ip, origin, start, end);
  }
}
