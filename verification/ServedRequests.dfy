/**
 What RateLimit lets through: requests interleaved store call by store call, and cleanups, on any number
 of replicas, with Redis up or down at every call, against the bound on the limiter's admissions.
 */
module ServedRequests {
  import opened Wrappers
  import opened Backoff
  import opened TokenBucket
  import opened Gcra
  import opened MemoryLimiter
  import opened RedisLimiter
  import opened Middleware
  import opened Budgets
  import W = LimiterWindow

  /** A request in progress: about to spend a token, or over the limit and about to be blocked. */
  datatype Pc = Spending(replica: nat, ip: string) | Offending(replica: nat, ip: string)

  datatype System = System(limits: Replicas, pcs: map<nat, Pc>)

  /** One store call of a request, or a cleanup. */
  datatype Event =
    | Check(req: nat, replica: nat, ip: string, at: int, up: Up)
    | Spend(req: nat, at: int, up: Up)
    | Offend(req: nat, at: int, up: Up)
    | Sweep(replica: nat, at: int)

  /** The request goes on to its handler, or is answered by the limiter. */
  datatype Verdict = Pass | Refuse(answer: Answer)

  predicate Placed(s: System) {
    forall req :: req in s.pcs ==> s.pcs[req].replica < |s.limits.locals|
  }

  predicate OnReplicas(e: Event, n: nat) {
    e.Check? || e.Sweep? ==> e.replica < n
  }

  /** Replica numbers are below n and times lie in order within [start, end]. */
  predicate Timed(events: seq<Event>, n: nat, start: int, end: int) {
    && start <= end
    && (events == []
        || (OnReplicas(events[0], n) && start <= events[0].at && Timed(events[1..], n, events[0].at, end)))
  }

  /** isBlocked, for a request that is new, limited and not whitelisted. */
  function CheckStep(c: Config, s: System, req: nat, i: nat, ip: string, at: int, up: Up): (Option<Verdict>, System)
    requires i < |s.limits.locals|
  {
    if req in s.pcs then (None, s)
    else if !Active(c) || ip in c.whitelist then (Some(Pass), s)
    else if BlockedNow(At(s.limits, i), ip, at, up) then (Some(Refuse(Forbidden)), s)
    else (None, s.(pcs := s.pcs[req := Spending(i, ip)]))
  }

  /** allow, and without a token the choice of applyLimitAction. */
  function SpendStep(c: Config, s: System, req: nat, at: int, up: Up): (Option<Verdict>, System)
    requires Placed(s)
  {
    if req !in s.pcs || !s.pcs[req].Spending? then (None, s)
    else
      var Spending(i, ip) := s.pcs[req];
      var (ok, spent) := SpendIn(At(s.limits, i), c.budget, ip, at, up);
      var next := System(Put(s.limits, i, spent), s.pcs - {req});
      if ok then (Some(Pass), next)
      else
        match c.onLimitExceeded
        case ActionBlock => (None, next.(pcs := s.pcs[req := Offending(i, ip)]))
        case ActionNone => (Some(Pass), next)
        case _ => (Some(Refuse(TooManyRequests)), next)
  }

  /** block. */
  function OffendStep(c: Config, s: System, req: nat, at: int, up: Up): (Option<Verdict>, System)
    requires Placed(s)
  {
    if req !in s.pcs || !s.pcs[req].Offending? then (None, s)
    else
      var Offending(i, ip) := s.pcs[req];
      var limits := Put(s.limits, i, OffendIn(At(s.limits, i), ip, c.blockDuration, at, up));
      (Some(Refuse(Forbidden)), System(limits, s.pcs - {req}))
  }

  /** The verdict this event brings, if any, and the next state. */
  function Step(c: Config, s: System, e: Event): (r: (Option<Verdict>, System))
    requires Placed(s) && OnReplicas(e, |s.limits.locals|)
    ensures Placed(r.1) && |r.1.limits.locals| == |s.limits.locals|
  {
    match e
    case Check(req, i, ip, at, up) => CheckStep(c, s, req, i, ip, at, up)
    case Spend(req, at, up) => SpendStep(c, s, req, at, up)
    case Offend(req, at, up) => OffendStep(c, s, req, at, up)
    case Sweep(i, at) => (None, s.(limits := SweepIn(s.limits, i, at)))
  }

  function Run(c: Config, s: System, events: seq<Event>, start: int, end: int): (next: System)
    requires Placed(s) && Timed(events, |s.limits.locals|, start, end)
    ensures Placed(next) && |next.limits.locals| == |s.limits.locals|
    decreases events
  {
    if events == [] then s else Run(c, Step(c, s, events[0]).1, events[1..], events[0].at, end)
  }

  function Fresh(n: nat): (s: System)
    ensures Placed(s) && |s.limits.locals| == n
  {
    System(Middleware.Fresh(n), map[])
  }

  lemma PutTwice(r: Replicas, i: nat, a: LimiterState, b: LimiterState)
    requires i < |r.locals|
    ensures At(Put(r, i, a), i) == a && Put(Put(r, i, a), i, b) == Put(r, i, b) && Put(r, i, At(r, i)) == r
  {
  }

  /** The state after an unblocked request's spend and, if it comes to that, its block. */
  lemma FromSpending(c: Config, s: System, req: nat, i: nat, ip: string, at: int, later: int, up: Up)
    requires Placed(s) && req in s.pcs && s.pcs[req] == Spending(i, ip)
    ensures var (v2, s2) := SpendStep(c, s, req, at, up);
            var (v3, s3) := OffendStep(c, s2, req, later, up);
            var (ok, spent) := SpendIn(At(s.limits, i), c.budget, ip, at, up);
            var (answer, next) := LimitActionIn(spent, c, ip, later, up);
            && s3 == System(Put(s.limits, i, if ok then spent else next), s.pcs - {req})
            && (if v2.Some? then v2 else v3)
               == Some(if ok || answer.None? then Pass else Refuse(answer.value))
  {
    var (ok, spent) := SpendIn(At(s.limits, i), c.budget, ip, at, up);
    PutTwice(s.limits, i, spent, LimitActionIn(spent, c, ip, later, up).1);
    assert s.pcs[req := Offending(i, ip)] - {req} == s.pcs - {req};
  }

  /** A request run with nothing in between gets the handler's answer and leaves its state. */
  lemma AloneIsRateLimit(c: Config, s: System, req: nat, i: nat, ip: string, at: Clocks, up: Up, outcome: Outcome)
    requires Placed(s) && req !in s.pcs && i < |s.limits.locals|
    ensures var (v1, s1) := Step(c, s, Check(req, i, ip, at.check, up));
            var (v2, s2) := Step(c, s1, Spend(req, at.spend, up));
            var (v3, s3) := Step(c, s2, Event.Offend(req, at.block, up));
            var (answer, next) := RateLimitIn(At(s.limits, i), c, ip, at, up, outcome);
            && s3 == System(Put(s.limits, i, next), s.pcs)
            && var verdict := if v1.Some? then v1 else if v2.Some? then v2 else v3;
               verdict.Some? && answer == if verdict.value.Pass? then FromHandler(outcome) else verdict.value.answer
  {
    PutTwice(s.limits, i, At(s.limits, i), At(s.limits, i));
    var s1 := CheckStep(c, s, req, i, ip, at.check, up).1;
    if req in s1.pcs {
      FromSpending(c, s1, req, i, ip, at.spend, at.block, up);
      assert s1.pcs - {req} == s.pcs;
    }
  }

  /** The event brings one of the client's requests to its handler. */
  predicate Serves(c: Config, s: System, e: Event, ip: string)
    requires Placed(s) && OnReplicas(e, |s.limits.locals|)
  {
    && Step(c, s, e).0 == Some(Pass)
    && (e.Check? ==> e.ip == ip)
    && (e.Spend? || e.Offend? ==> e.req in s.pcs && s.pcs[e.req].ip == ip)
  }

  /** How many requests of the client reach their handlers. */
  function Served(c: Config, s: System, events: seq<Event>, ip: string, start: int, end: int): nat
    requires Placed(s) && Timed(events, |s.limits.locals|, start, end)
    decreases events
  {
    if events == [] then 0
    else
      (if Serves(c, s, events[0], ip) then 1 else 0)
      + Served(c, Step(c, s, events[0]).1, events[1..], ip, events[0].at, end)
  }

  /** The limiter is on, and exceeding the limit has a consequence. */
  predicate Limiting(c: Config) {
    Active(c) && !c.onLimitExceeded.ActionNone?
  }

  // The spends behind the requests.

  /** What one event asks of the buckets. */
  function Spends(s: System, e: Event): seq<W.Traffic>
    requires Placed(s)
  {
    match e
    case Spend(req, at, up) =>
      if req in s.pcs && s.pcs[req].Spending? then [W.Request(s.pcs[req].replica, s.pcs[req].ip, at, up.allow)] else []
    case Sweep(i, at) => [W.Sweep(i, at)]
    case _ => []
  }

  function AllSpends(c: Config, s: System, events: seq<Event>, start: int, end: int): seq<W.Traffic>
    requires Placed(s) && Timed(events, |s.limits.locals|, start, end)
    decreases events
  {
    if events == [] then []
    else Spends(s, events[0]) + AllSpends(c, Step(c, s, events[0]).1, events[1..], events[0].at, end)
  }

  /** Both hold the same buckets; blocks are left aside. */
  ghost predicate SameBuckets(r: Replicas, w: W.Cluster) {
    && w.redis.tats == r.redis.tats && |w.fallbacks| == |r.locals|
    && forall i :: 0 <= i < |r.locals| ==> w.fallbacks[i] == r.locals[i].visitors
  }

  lemma SpendMatches(c: Config, p: W.Policy, r: Replicas, w: W.Cluster, i: nat, ip: string, at: int, up: Up)
    requires SameBuckets(r, w) && i < |r.locals| && c.budget == Budget(p.limit, p.period)
    ensures var (ok, next) := SpendIn(At(r, i), c.budget, ip, at, up);
            var (admitted, w') := W.Step(p, w, W.Request(i, ip, at, up.allow));
            && ok == admitted && SameBuckets(Put(r, i, next), w')
  {
    AllowLostSeesTats(r.redis, w.redis, ip, at, p.period, p.limit.burst, up.allow.lost);
  }

  lemma OffendKeepsBuckets(r: Replicas, w: W.Cluster, i: nat, ip: string, base: int, at: int, up: Up)
    requires SameBuckets(r, w) && i < |r.locals|
    ensures SameBuckets(Put(r, i, OffendIn(At(r, i), ip, base, at, up)), w)
  {
    var next := OffendIn(At(r, i), ip, base, at, up);
    IncrLostExpiry(r.redis, ip, at, up.incr.lost);
    assert next.redis.tats == r.redis.tats && next.visitors == r.locals[i].visitors;
  }

  /** An event changes the buckets as its spends do, and serves exactly the admitted requests. */
  lemma StepMatches(c: Config, p: W.Policy, s: System, w: W.Cluster, e: Event, ip: string)
    requires Limiting(c) && ip !in c.whitelist && c.budget == Budget(p.limit, p.period)
    requires Placed(s) && SameBuckets(s.limits, w) && OnReplicas(e, |s.limits.locals|)
    ensures |Spends(s, e)| <= 1
    ensures Spends(s, e) == [] ==> SameBuckets(Step(c, s, e).1.limits, w) && !Serves(c, s, e, ip)
    ensures Spends(s, e) != [] ==>
              var t := Spends(s, e)[0];
              && t.replica < |w.fallbacks| && t.at == e.at
              && SameBuckets(Step(c, s, e).1.limits, W.Step(p, w, t).1)
              && (Serves(c, s, e, ip) <==> W.Admits(p, w, t, ip))
  {
    match e
    case Spend(req, at, up) =>
      if Spends(s, e) != [] {
        SpendMatches(c, p, s.limits, w, s.pcs[req].replica, s.pcs[req].ip, at, up);
      }
    case Offend(req, at, up) =>
      if req in s.pcs {
        OffendKeepsBuckets(s.limits, w, s.pcs[req].replica, s.pcs[req].ip, c.blockDuration, at, up);
      }
    case _ =>
  }

  lemma TimedEarlier(events: seq<W.Traffic>, n: nat, earlier: int, start: int, end: int)
    requires earlier <= start && W.Timed(events, n, start, end)
    ensures W.Timed(events, n, earlier, end)
  {
  }

  lemma PrependTraffic(t: W.Traffic, rest: seq<W.Traffic>, n: nat, start: int, end: int)
    requires t.replica < n && start <= t.at && W.Timed(rest, n, t.at, end)
    ensures W.Timed([t] + rest, n, start, end) && ([t] + rest)[1..] == rest
  {
  }

  /** Over a run, the buckets are those of the traffic, and the client's served requests its admissions. */
  ghost predicate Matches(c: Config, p: W.Policy, s: System, w: W.Cluster, events: seq<Event>, ip: string,
                          start: int, end: int, traffic: seq<W.Traffic>)
    requires Placed(s) && Timed(events, |s.limits.locals|, start, end)
  {
    && W.Timed(traffic, |w.fallbacks|, start, end)
    && SameBuckets(Run(c, s, events, start, end).limits, W.After(p, w, traffic, start, end))
    && Served(c, s, events, ip, start, end) == W.Admitted(p, w, traffic, ip, start, end)
  }

  lemma QuietFirst(c: Config, p: W.Policy, s: System, w: W.Cluster, events: seq<Event>, ip: string,
                   start: int, end: int, rest: seq<W.Traffic>)
    requires Placed(s) && Timed(events, |s.limits.locals|, start, end) && events != []
    requires !Serves(c, s, events[0], ip)
    requires Matches(c, p, Step(c, s, events[0]).1, w, events[1..], ip, events[0].at, end, rest)
    ensures Matches(c, p, s, w, events, ip, start, end, rest)
  {
    TimedEarlier(rest, |w.fallbacks|, start, events[0].at, end);
    if rest != [] {
      assert W.After(p, w, rest, events[0].at, end) == W.After(p, w, rest, start, end);
    }
  }

  lemma SpendFirst(c: Config, p: W.Policy, s: System, w: W.Cluster, events: seq<Event>, ip: string,
                   start: int, end: int, t: W.Traffic, rest: seq<W.Traffic>)
    requires Placed(s) && Timed(events, |s.limits.locals|, start, end) && events != []
    requires t.replica < |w.fallbacks| && t.at == events[0].at
    requires Serves(c, s, events[0], ip) <==> W.Admits(p, w, t, ip)
    requires Matches(c, p, Step(c, s, events[0]).1, W.Step(p, w, t).1, events[1..], ip, events[0].at, end, rest)
    ensures Matches(c, p, s, w, events, ip, start, end, [t] + rest)
  {
    PrependTraffic(t, rest, |w.fallbacks|, start, end);
  }

  /** For any run there is such traffic: what its events spend. */
  lemma {:induction false} RunMatches(c: Config, p: W.Policy, s: System, w: W.Cluster, events: seq<Event>, ip: string,
                                      start: int, end: int)
    requires Limiting(c) && ip !in c.whitelist && c.budget == Budget(p.limit, p.period)
    requires Placed(s) && SameBuckets(s.limits, w) && Timed(events, |s.limits.locals|, start, end)
    ensures Matches(c, p, s, w, events, ip, start, end, AllSpends(c, s, events, start, end))
    decreases events
  {
    if events != [] {
      var e := events[0];
      var next := Step(c, s, e).1;
      var rest := AllSpends(c, next, events[1..], e.at, end);
      StepMatches(c, p, s, w, e, ip);
      if Spends(s, e) == [] {
        RunMatches(c, p, next, w, events[1..], ip, e.at, end);
        assert [] + rest == rest;
        QuietFirst(c, p, s, w, events, ip, start, end, rest);
      } else {
        var t := Spends(s, e)[0];
        RunMatches(c, p, next, W.Step(p, w, t).1, events[1..], ip, e.at, end);
        SpendFirst(c, p, s, w, events, ip, start, end, t, rest);
        assert AllSpends(c, s, events, start, end) == [t] + rest;
      }
    }
  }

  /**
   Main result. On N replicas, after any history, however the store calls of all requests interleave, with
   Redis up or down at every call, and with blocks and cleanups in between, one client that is not
   whitelisted reaches its handlers in a window no more often than N memory shares and the shared bucket
   allow.
   */
  lemma ServedBound(c: Config, p: W.Policy, n: nat, before: seq<Event>, window: seq<Event>, ip: string,
                    origin: int, start: int, end: int)
    requires Limiting(c) && ip !in c.whitelist && c.budget == Budget(p.limit, p.period) && p.Valid()
    requires Timed(before, n, origin, start) && Timed(window, n, start, end)
    ensures Served(c, Run(c, Fresh(n), before, origin, start), window, ip, start, end) as real
         <= Times(n, W.Share(p.limit, start, end))
          + (p.limit.burst as real + (end - start) as real / p.period as real)
  {
    var s := Run(c, Fresh(n), before, origin, start);
    RunMatches(c, p, Fresh(n), W.Idle(n), before, ip, origin, start);
    var history := AllSpends(c, Fresh(n), before, origin, start);
    var w := W.After(p, W.Idle(n), history, origin, start);
    RunMatches(c, p, s, w, window, ip, start, end);
    W.WindowBound(p, n, history, AllSpends(c, s, window, start, end), ip, origin, start, end);
  }

  /** A minute's share of one memory bucket, at the rate float64 gives it. */
  lemma MinuteShare(requestsPerMinute: nat, burst: nat, start: int)
    requires requestsPerMinute > 0
    ensures W.Share(HttpBudget(requestsPerMinute, burst).limit, start, start + MINUTE)
         == burst as real + 60.0 * HttpRate(requestsPerMinute)
  {
    TimesIsProduct(MINUTE, HttpRate(requestsPerMinute) / SECOND as real);
  }

  /** Which is requestsPerMinute but for rounding, and exactly that for multiples of 15. */
  lemma MinuteRate(requestsPerMinute: nat)
    requires 1 <= requestsPerMinute <= MINUTE
    ensures Within3(60.0 * HttpRate(requestsPerMinute), requestsPerMinute as real)
    ensures requestsPerMinute % 15 == 0 ==> 60.0 * HttpRate(requestsPerMinute) == requestsPerMinute as real
  {
    HttpRateWithin(requestsPerMinute);
    if requestsPerMinute % 15 == 0 {
      assert requestsPerMinute == 15 * (requestsPerMinute / 15);
      RateInQuarters(requestsPerMinute / 15);
    }
  }

  /** The bound in the configuration's terms, for windows of one minute; see MinuteRate and HttpPeriodNear. */
  lemma ServedPerMinute(c: Config, requestsPerMinute: nat, burst: nat, n: nat, before: seq<Event>, window: seq<Event>,
                        ip: string, origin: int, start: int)
    requires Limiting(c) && ip !in c.whitelist && c.budget == HttpBudget(requestsPerMinute, burst)
    requires 1 <= requestsPerMinute <= MINUTE && burst * MINUTE <= requestsPerMinute * VISITOR_TTL
    requires Timed(before, n, origin, start) && Timed(window, n, start, start + MINUTE)
    ensures c.budget.period >= 1
    ensures Served(c, Run(c, Fresh(n), before, origin, start), window, ip, start, start + MINUTE) as real
         <= Times(n, burst as real + 60.0 * HttpRate(requestsPerMinute))
          + (burst as real + MINUTE as real / c.budget.period as real)
  {
    var b := HttpBudget(requestsPerMinute, burst);
    var p := W.Policy(b.limit, b.period);
    HttpPolicyValid(requestsPerMinute, burst);
    ServedBound(c, p, n, before, window, ip, origin, start, start + MINUTE);
    MinuteShare(requestsPerMinute, burst, start);
  }

  lemma PeriodPositive(requestsPerMinute: nat, period: nat)
    requires 1 <= requestsPerMinute <= MINUTE && Truncated(MINUTE, requestsPerMinute, period)
    requires requestsPerMinute == MINUTE ==> period == 1
    ensures period >= 1
  {
    Division(MINUTE, requestsPerMinute);
    ProductOrder(requestsPerMinute, 2, MINUTE / requestsPerMinute);
  }

  lemma HttpPolicyValid(requestsPerMinute: nat, burst: nat)
    requires 1 <= requestsPerMinute <= MINUTE && burst * MINUTE <= requestsPerMinute * VISITOR_TTL
    ensures var b := HttpBudget(requestsPerMinute, burst); W.Policy(b.limit, b.period).Valid()
  {
    HttpPeriodPositive(requestsPerMinute);
    HttpRateWithin(requestsPerMinute);
    RefillsInTime(requestsPerMinute, burst, HttpRate(requestsPerMinute));
  }

  lemma HttpPeriodPositive(requestsPerMinute: nat)
    requires 1 <= requestsPerMinute <= MINUTE
    ensures RedisPeriod(HttpRate(requestsPerMinute)) >= 1
  {
    HttpPeriodNear(requestsPerMinute);
    if requestsPerMinute == MINUTE {
      RateInQuarters(MINUTE / 15);
      QuartersBalanced(MINUTE / 15, 1);
      BalancedPeriod(HttpRate(requestsPerMinute), 1);
    }
    PeriodPositive(requestsPerMinute, RedisPeriod(HttpRate(requestsPerMinute)));
  }

  lemma RefillsInTime(requestsPerMinute: nat, burst: nat, r: real)
    requires r > 0.0 && IsHttpRate(requestsPerMinute, r) && burst * MINUTE <= requestsPerMinute * VISITOR_TTL
    ensures burst as real <= r / SECOND as real * (VISITOR_TTL + 1) as real
  {
  }

  // Without a consequence nothing is limited.

  /** Nobody is blocked, and nobody is about to be. */
  ghost predicate Unblocked(s: System) {
    && s.limits.redis.blocks == map[]
    && (forall i :: 0 <= i < |s.limits.locals| ==> s.limits.locals[i].blocks == map[])
    && (forall req :: req in s.pcs ==> s.pcs[req].Spending?)
  }

  lemma NobodyRefused(c: Config, s: System, e: Event)
    requires c.onLimitExceeded.ActionNone? && Placed(s) && OnReplicas(e, |s.limits.locals|) && Unblocked(s)
    ensures Unblocked(Step(c, s, e).1)
    ensures Step(c, s, e).0 in {None, Some(Pass)}
  {
    if e.Spend? && e.req in s.pcs {
      var ip, b := s.pcs[e.req].ip, c.budget;
      AllowLostTouchesTats(s.limits.redis, ip, e.at, b.period, b.limit.burst, e.up.allow.lost);
    }
  }

  lemma {:induction false} StaysUnblocked(c: Config, s: System, events: seq<Event>, start: int, end: int)
    requires c.onLimitExceeded.ActionNone? && Placed(s) && Timed(events, |s.limits.locals|, start, end) && Unblocked(s)
    ensures Unblocked(Run(c, s, events, start, end))
    decreases events
  {
    if events != [] {
      NobodyRefused(c, s, events[0]);
      StaysUnblocked(c, Step(c, s, events[0]).1, events[1..], events[0].at, end);
    }
  }

  /** With the action none, no run ever refuses a request: each is served at its check or its spend. */
  lemma NoActionServesAll(c: Config, n: nat, before: seq<Event>, e: Event, origin: int, start: int)
    requires c.onLimitExceeded.ActionNone? && Timed(before, n, origin, start) && OnReplicas(e, n)
    ensures var s := Run(c, Fresh(n), before, origin, start);
            var (verdict, next) := Step(c, s, e);
            && verdict in {None, Some(Pass)}
            && (e.Check? && e.req !in s.pcs ==> verdict == Some(Pass) || e.req in next.pcs)
            && (e.Spend? && e.req in s.pcs ==> verdict == Some(Pass))
  {
    StaysUnblocked(c, Fresh(n), before, origin, start);
    NobodyRefused(c, Run(c, Fresh(n), before, origin, start), e);
  }
}
