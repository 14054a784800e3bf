/**
 Runs of the failed-login limiter on any number of replicas: requests arrive, their handlers answer
 later, other requests and cleanup sweeps come in between.
 */
module FailedLogins {
  import opened Wrappers
  import opened Bytes
  import opened Backoff
  import opened MemoryLimiter
  import opened RedisLimiter
  import opened Budgets
  import opened Middleware

  datatype Pending = Pending(replica: nat, ip: string)

  datatype Cluster = Cluster(
    limits: Replicas, inFlight: map<nat, Pending>, answers: map<nat, Answer>)

  /** Request `id` arrives; the handler of request `id` answers; a replica's cleanup runs. */
  datatype Event =
    | Arrive(id: nat, replica: nat, ip: string, at: int, up: Up)
    | Finish(id: nat, at: int, up: Up, outcome: Outcome)
    | Sweep(replica: nat, at: int)

  function Start(n: nat): Cluster {
    Cluster(Fresh(n), map[], map[])
  }

  function Step(c: Config, s: Cluster, e: Event): Cluster {
    match e
    case Arrive(id, i, ip, at, up) =>
      if i >= |s.limits.locals| then s
      else if BlockedNow(At(s.limits, i), ip, at, up) then s.(answers := s.answers[id := Forbidden])
      else s.(inFlight := s.inFlight[id := Pending(i, ip)])
    case Finish(id, at, up, outcome) =>
      if id !in s.inFlight || s.inFlight[id].replica >= |s.limits.locals| then s
      else
        var p := s.inFlight[id];
        var (answer, next) := FinishIn(At(s.limits, p.replica), c, p.ip, at, up, outcome);
        s.(limits := Put(s.limits, p.replica, next), inFlight := s.inFlight - {id}, answers := s.answers[id := answer])
    case Sweep(i, at) =>
      if i >= |s.limits.locals| then s
      else s.(limits := SweepIn(s.limits, i, at))
  }

  function Run(c: Config, s: Cluster, events: seq<Event>): Cluster
    decreases events
  {
    if events == [] then s else Run(c, Step(c, s, events[0]), events[1..])
  }

  predicate Concerns(e: Event, ids: set<nat>) {
    e.Sweep? || e.id in ids
  }

  /** The run with every request outside `ids` deleted. */
  function Only(events: seq<Event>, ids: set<nat>): seq<Event> {
    if events == [] then []
    else (if Concerns(events[0], ids) then [events[0]] else []) + Only(events[1..], ids)
  }

  lemma {:induction false} RunOnly(c: Config, s: Cluster, events: seq<Event>, ids: set<nat>)
    requires events != []
    ensures Run(c, s, Only(events, ids))
         == if Concerns(events[0], ids) then Run(c, Step(c, s, events[0]), Only(events[1..], ids))
            else Run(c, s, Only(events[1..], ids))
  {
    var rest := Only(events[1..], ids);
    if Concerns(events[0], ids) {
      assert ([events[0]] + rest)[1..] == rest;
    } else {
      assert [] + rest == rest;
    }
  }

  // Only requests answered 401 matter.

  /** Both clusters agree on the limiter and on the requests in `ids`. */
  ghost predicate Agree(s: Cluster, t: Cluster, ids: set<nat>) {
    && s.limits == t.limits
    && forall id :: id in ids ==> SameRequest(s, t, id)
  }

  predicate SameRequest(s: Cluster, t: Cluster, id: nat) {
    && (id in s.inFlight <==> id in t.inFlight)
    && (id in s.inFlight ==> s.inFlight[id] == t.inFlight[id])
    && (id in s.answers <==> id in t.answers)
    && (id in s.answers ==> s.answers[id] == t.answers[id])
  }

  lemma SameStep(c: Config, s: Cluster, t: Cluster, e: Event, ids: set<nat>)
    requires Agree(s, t, ids) && Concerns(e, ids)
    ensures Agree(Step(c, s, e), Step(c, t, e), ids)
  {
    assert e.Finish? ==> SameRequest(s, t, e.id);
    forall id | id in ids ensures SameRequest(Step(c, s, e), Step(c, t, e), id) {
      assert SameRequest(s, t, id);
    }
  }

  lemma QuietStep(c: Config, s: Cluster, t: Cluster, e: Event, ids: set<nat>)
    requires Agree(s, t, ids) && !Concerns(e, ids) && (e.Finish? ==> e.outcome != UNAUTHORIZED)
    ensures Agree(Step(c, s, e), t, ids)
  {
    var next := Step(c, s, e);
    if e.Finish? && e.id in s.inFlight && s.inFlight[e.id].replica < |s.limits.locals| {
      assert next.limits.locals == s.limits.locals;
    }
    forall id | id in ids ensures SameRequest(next, t, id) {
      assert SameRequest(s, t, id);
    }
  }

  predicate QuietOutside(events: seq<Event>, ids: set<nat>) {
    forall i :: 0 <= i < |events| && events[i].Finish? && events[i].id !in ids ==> events[i].outcome != UNAUTHORIZED
  }

  lemma {:induction false} ProjectionFrom(c: Config, s: Cluster, t: Cluster, events: seq<Event>, ids: set<nat>)
    requires Agree(s, t, ids) && QuietOutside(events, ids)
    ensures Agree(Run(c, s, events), Run(c, t, Only(events, ids)), ids)
    decreases events
  {
    if events != [] {
      RunOnly(c, t, events, ids);
      assert QuietOutside(events[1..], ids);
      if Concerns(events[0], ids) {
        SameStep(c, s, t, events[0], ids);
        ProjectionFrom(c, Step(c, s, events[0]), Step(c, t, events[0]), events[1..], ids);
      } else {
        QuietStep(c, s, t, events[0], ids);
        ProjectionFrom(c, Step(c, s, events[0]), t, events[1..], ids);
      }
    }
  }

  /**
   Main result. Deleting requests whose handlers never answer 401 from any run leaves the limiter state
   of every replica and every answer to the remaining requests unchanged.
   */
  lemma FailedLoginProjection(c: Config, n: nat, events: seq<Event>, ids: set<nat>)
    requires QuietOutside(events, ids)
    ensures var full, projected := Run(c, Start(n), events), Run(c, Start(n), Only(events, ids));
            && full.limits == projected.limits
            && forall id :: id in ids ==> SameRequest(full, projected, id)
  {
    ProjectionFrom(c, Start(n), Start(n), events, ids);
  }

  // One client's requests do not see the others'.

  predicate SameEntry<T(==)>(a: map<string, T>, b: map<string, T>, key: string) {
    (key in a <==> key in b) && (key in a ==> a[key] == b[key])
  }

  predicate SameState(s: LimiterState, t: LimiterState, ip: string) {
    && SameRedis(s.redis, t.redis, ip)
    && SameEntry(s.visitors, t.visitors, ip) && SameEntry(s.blocks, t.blocks, ip)
  }

  predicate SameRedis(s: RedisState, t: RedisState, ip: string) {
    SameEntry(s.tats, t.tats, ip) && SameEntry(s.blocks, t.blocks, ip) && SameEntry(s.offenses, t.offenses, ip)
  }

  lemma {:induction false} AllowLostSees(s: RedisState, t: RedisState, ip: string, at: int, period: nat, burst: nat,
                                         lost: nat)
    requires SameRedis(s, t, ip)
    ensures SameRedis(AllowLostIn(s, ip, at, period, burst, lost), AllowLostIn(t, ip, at, period, burst, lost), ip)
  {
    if lost > 0 {
      AllowLostSees(s, t, ip, at, period, burst, lost - 1);
      AllowSees(AllowLostIn(s, ip, at, period, burst, lost - 1), AllowLostIn(t, ip, at, period, burst, lost - 1),
                ip, at, period, burst);
    }
  }

  lemma AllowSees(s: RedisState, t: RedisState, ip: string, at: int, period: nat, burst: nat)
    requires SameRedis(s, t, ip)
    ensures RedisAllowIn(s, ip, at, period, burst).0 == RedisAllowIn(t, ip, at, period, burst).0
    ensures SameRedis(RedisAllowIn(s, ip, at, period, burst).1, RedisAllowIn(t, ip, at, period, burst).1, ip)
  {
  }

  lemma {:induction false} IncrLostSees(s: RedisState, t: RedisState, ip: string, at: int, lost: nat)
    requires SameRedis(s, t, ip)
    ensures SameRedis(IncrLostIn(s, ip, at, lost), IncrLostIn(t, ip, at, lost), ip)
  {
    if lost > 0 {
      IncrLostSees(s, t, ip, at, lost - 1);
    }
  }

  lemma {:induction false} AllowLostKeeps(s: RedisState, ip: string, other: string, at: int, period: nat, burst: nat,
                                          lost: nat)
    requires ip != other
    ensures SameRedis(AllowLostIn(s, ip, at, period, burst, lost), s, other)
  {
    if lost > 0 {
      AllowLostKeeps(s, ip, other, at, period, burst, lost - 1);
    }
  }

  lemma {:induction false} IncrLostKeeps(s: RedisState, ip: string, other: string, at: int, lost: nat)
    requires ip != other
    ensures SameRedis(IncrLostIn(s, ip, at, lost), s, other)
  {
    if lost > 0 {
      IncrLostKeeps(s, ip, other, at, lost - 1);
    }
  }

  lemma SpendSeesOwnEntries(s: LimiterState, t: LimiterState, b: Budget, ip: string, at: int, up: Up)
    requires SameState(s, t, ip)
    ensures SpendIn(s, b, ip, at, up).0 == SpendIn(t, b, ip, at, up).0
    ensures SameState(SpendIn(s, b, ip, at, up).1, SpendIn(t, b, ip, at, up).1, ip)
  {
    AllowLostSees(s.redis, t.redis, ip, at, b.period, b.limit.burst, up.allow.lost);
  }

  lemma OffendSeesOwnEntries(s: LimiterState, t: LimiterState, ip: string, base: int, at: int, up: Up)
    requires SameState(s, t, ip)
    ensures SameState(OffendIn(s, ip, base, at, up), OffendIn(t, ip, base, at, up), ip)
  {
    IncrLostSees(s.redis, t.redis, ip, at, up.incr.lost);
    IncrLostSees(s.redis, t.redis, ip, at, up.incr.lost + 1);
    var x, y := IncrLostIn(s.redis, ip, at, up.incr.lost + 1), IncrLostIn(t.redis, ip, at, up.incr.lost + 1);
    assert x.offenses[ip] == y.offenses[ip];
    PipelineSees(x, y, ip, BlockDuration(base, x.offenses[ip].count), at, up.pipe);
  }

  lemma PipelineSees(s: RedisState, t: RedisState, ip: string, duration: int, at: int, pipe: Pipeline)
    requires SameRedis(s, t, ip) && ip in s.offenses
    ensures SameRedis(PipelineIn(s, ip, duration, at, pipe), PipelineIn(t, ip, duration, at, pipe), ip)
  {
  }

  /** What the limiter does to a client depends only on that client's entries... */
  lemma FinishSeesOwnEntries(s: LimiterState, t: LimiterState, c: Config, ip: string, at: int, up: Up, outcome: Outcome)
    requires SameState(s, t, ip)
    ensures FinishIn(s, c, ip, at, up, outcome).0 == FinishIn(t, c, ip, at, up, outcome).0
    ensures SameState(FinishIn(s, c, ip, at, up, outcome).1, FinishIn(t, c, ip, at, up, outcome).1, ip)
  {
    SpendSeesOwnEntries(s, t, c.budget, ip, at, up);
    var s1, t1 := SpendIn(s, c.budget, ip, at, up).1, SpendIn(t, c.budget, ip, at, up).1;
    OffendSeesOwnEntries(s1, t1, ip, c.blockDuration, at, up);
  }

  lemma SpendKeepsOtherEntries(s: LimiterState, b: Budget, ip: string, other: string, at: int, up: Up)
    requires ip != other
    ensures SameState(SpendIn(s, b, ip, at, up).1, s, other)
  {
    AllowLostKeeps(s.redis, ip, other, at, b.period, b.limit.burst, up.allow.lost);
  }

  lemma OffendKeepsOtherEntries(s: LimiterState, ip: string, other: string, base: int, at: int, up: Up)
    requires ip != other
    ensures SameState(OffendIn(s, ip, base, at, up), s, other)
  {
    IncrLostKeeps(s.redis, ip, other, at, up.incr.lost);
    IncrLostKeeps(s.redis, ip, other, at, up.incr.lost + 1);
    PipelineKeeps(IncrLostIn(s.redis, ip, at, up.incr.lost + 1), s.redis, ip, other,
                  BlockDuration(base, IncrLostIn(s.redis, ip, at, up.incr.lost + 1).offenses[ip].count), at, up.pipe);
  }

  lemma PipelineKeeps(s: RedisState, t: RedisState, ip: string, other: string, duration: int, at: int, pipe: Pipeline)
    requires SameRedis(s, t, other) && ip != other && ip in s.offenses
    ensures SameRedis(PipelineIn(s, ip, duration, at, pipe), t, other)
  {
  }

  /** ...and changes only those. */
  lemma FinishKeepsOtherEntries(s: LimiterState, c: Config, ip: string, other: string, at: int, up: Up,
                                outcome: Outcome)
    requires ip != other
    ensures SameState(FinishIn(s, c, ip, at, up, outcome).1, s, other)
  {
    SpendKeepsOtherEntries(s, c.budget, ip, other, at, up);
    OffendKeepsOtherEntries(SpendIn(s, c.budget, ip, at, up).1, ip, other, c.blockDuration, at, up);
  }

  predicate SameLocal(a: Local, b: Local, ip: string) {
    SameEntry(a.visitors, b.visitors, ip) && SameEntry(a.blocks, b.blocks, ip)
  }

  /** Both clusters hold the same entries for the client, in Redis and on every replica. */
  ghost predicate SameLimits(s: Replicas, t: Replicas, ip: string) {
    && |s.locals| == |t.locals| && SameRedis(s.redis, t.redis, ip)
    && forall i :: 0 <= i < |s.locals| ==> SameLocal(s.locals[i], t.locals[i], ip)
  }

  ghost predicate AgreeFor(s: Cluster, t: Cluster, ip: string, ids: set<nat>) {
    && SameLimits(s.limits, t.limits, ip)
    && (forall id :: id in ids ==> SameRequest(s, t, id))
    && (forall id :: id in s.inFlight ==> (id in ids <==> s.inFlight[id].ip == ip))
  }

  lemma SameAt(s: Replicas, t: Replicas, i: nat, ip: string)
    requires SameLimits(s, t, ip) && i < |s.locals|
    ensures SameState(At(s, i), At(t, i), ip)
  {
    assert SameLocal(s.locals[i], t.locals[i], ip);
  }

  lemma SamePut(s: Replicas, t: Replicas, i: nat, x: LimiterState, y: LimiterState, ip: string)
    requires SameLimits(s, t, ip) && i < |s.locals| && SameState(x, y, ip)
    ensures SameLimits(Put(s, i, x), Put(t, i, y), ip)
  {
    forall j | 0 <= j < |s.locals| ensures SameLocal(Put(s, i, x).locals[j], Put(t, i, y).locals[j], ip) {
      assert SameLocal(s.locals[j], t.locals[j], ip);
    }
  }

  lemma KeptPut(s: Replicas, t: Replicas, i: nat, x: LimiterState, ip: string)
    requires SameLimits(s, t, ip) && i < |s.locals| && SameState(x, At(s, i), ip)
    ensures SameLimits(Put(s, i, x), t, ip)
  {
    forall j | 0 <= j < |s.locals| ensures SameLocal(Put(s, i, x).locals[j], t.locals[j], ip) {
      assert SameLocal(s.locals[j], t.locals[j], ip);
    }
  }

  lemma SameSweep(s: Replicas, t: Replicas, i: nat, at: int, ip: string)
    requires SameLimits(s, t, ip) && i < |s.locals|
    ensures SameLimits(SweepIn(s, i, at), SweepIn(t, i, at), ip)
  {
    forall j | 0 <= j < |s.locals| ensures SameLocal(SweepIn(s, i, at).locals[j], SweepIn(t, i, at).locals[j], ip) {
      assert SameLocal(s.locals[j], t.locals[j], ip);
    }
  }

  lemma OwnFinish(c: Config, s: Cluster, t: Cluster, e: Event, ip: string, ids: set<nat>)
    requires AgreeFor(s, t, ip, ids) && e.Finish? && e.id in ids
    ensures AgreeFor(Step(c, s, e), Step(c, t, e), ip, ids)
  {
    assert SameRequest(s, t, e.id);
    if e.id in s.inFlight && s.inFlight[e.id].replica < |s.limits.locals| {
      var i := s.inFlight[e.id].replica;
      SameAt(s.limits, t.limits, i, ip);
      FinishSeesOwnEntries(At(s.limits, i), At(t.limits, i), c, ip, e.at, e.up, e.outcome);
      SamePut(s.limits, t.limits, i, FinishIn(At(s.limits, i), c, ip, e.at, e.up, e.outcome).1,
              FinishIn(At(t.limits, i), c, ip, e.at, e.up, e.outcome).1, ip);
      OtherRequestsSame(s, t, Step(c, s, e), Step(c, t, e), e.id, ids);
    }
  }

  lemma OtherRequestsSame(s: Cluster, t: Cluster, s': Cluster, t': Cluster, but: nat, ids: set<nat>)
    requires forall id :: id in ids ==> SameRequest(s, t, id)
    requires forall id :: id != but ==> SameRequest(s, s', id) && SameRequest(t, t', id)
    requires SameRequest(s', t', but)
    ensures forall id :: id in ids ==> SameRequest(s', t', id)
  {
    forall id | id in ids ensures SameRequest(s', t', id) {
      assert SameRequest(s, t, id);
      assert id != but ==> SameRequest(s, s', id) && SameRequest(t, t', id);
    }
  }

  lemma OwnArrive(c: Config, s: Cluster, t: Cluster, e: Event, ip: string, ids: set<nat>)
    requires AgreeFor(s, t, ip, ids) && e.Arrive? && e.id in ids && e.ip == ip
    ensures AgreeFor(Step(c, s, e), Step(c, t, e), ip, ids)
  {
    if e.replica < |s.limits.locals| {
      SameAt(s.limits, t.limits, e.replica, ip);
      assert SameRequest(s, t, e.id);
      if BlockedNow(At(s.limits, e.replica), ip, e.at, e.up) {
        var s', t' := s.(answers := s.answers[e.id := Forbidden]), t.(answers := t.answers[e.id := Forbidden]);
        assert Step(c, s, e) == s' && Step(c, t, e) == t';
        OtherRequestsSame(s, t, s', t', e.id, ids);
      } else {
        var p := Pending(e.replica, ip);
        var s', t' := s.(inFlight := s.inFlight[e.id := p]), t.(inFlight := t.inFlight[e.id := p]);
        assert Step(c, s, e) == s' && Step(c, t, e) == t';
        OtherRequestsSame(s, t, s', t', e.id, ids);
      }
    }
  }

  lemma OwnSweep(c: Config, s: Cluster, t: Cluster, e: Event, ip: string, ids: set<nat>)
    requires AgreeFor(s, t, ip, ids) && e.Sweep?
    ensures AgreeFor(Step(c, s, e), Step(c, t, e), ip, ids)
  {
    if e.replica < |s.limits.locals| {
      SameSweep(s.limits, t.limits, e.replica, e.at, ip);
      var s', t' := s.(limits := SweepIn(s.limits, e.replica, e.at)), t.(limits := SweepIn(t.limits, e.replica, e.at));
      assert Step(c, s, e) == s' && Step(c, t, e) == t';
      forall id | id in ids ensures SameRequest(s', t', id) {
        assert SameRequest(s, t, id);
      }
    }
  }

  lemma OwnStep(c: Config, s: Cluster, t: Cluster, e: Event, ip: string, ids: set<nat>)
    requires AgreeFor(s, t, ip, ids) && Concerns(e, ids) && (e.Arrive? ==> e.ip == ip)
    ensures AgreeFor(Step(c, s, e), Step(c, t, e), ip, ids)
  {
    match e
    case Arrive(_, _, _, _, _) => OwnArrive(c, s, t, e, ip, ids);
    case Finish(_, _, _, _) => OwnFinish(c, s, t, e, ip, ids);
    case Sweep(_, _) => OwnSweep(c, s, t, e, ip, ids);
  }

  lemma OtherStep(c: Config, s: Cluster, t: Cluster, e: Event, ip: string, ids: set<nat>)
    requires AgreeFor(s, t, ip, ids) && !Concerns(e, ids) && (e.Arrive? ==> e.ip != ip)
    ensures AgreeFor(Step(c, s, e), t, ip, ids)
  {
    var s' := Step(c, s, e);
    if e.Finish? && e.id in s.inFlight && s.inFlight[e.id].replica < |s.limits.locals| {
      var p := s.inFlight[e.id];
      FinishKeepsOtherEntries(At(s.limits, p.replica), c, p.ip, ip, e.at, e.up, e.outcome);
      KeptPut(s.limits, t.limits, p.replica,
              FinishIn(At(s.limits, p.replica), c, p.ip, e.at, e.up, e.outcome).1, ip);
    }
    forall id | id in ids ensures SameRequest(s', t, id) {
      assert SameRequest(s, t, id);
    }
  }

  /** `ids` are the requests of client `ip`. */
  predicate RequestsOf(events: seq<Event>, ip: string, ids: set<nat>) {
    forall i :: 0 <= i < |events| && events[i].Arrive? ==> (events[i].id in ids <==> events[i].ip == ip)
  }

  lemma {:induction false} IsolationFrom(c: Config, s: Cluster, t: Cluster, events: seq<Event>, ip: string,
                                         ids: set<nat>)
    requires AgreeFor(s, t, ip, ids) && RequestsOf(events, ip, ids)
    ensures AgreeFor(Run(c, s, events), Run(c, t, Only(events, ids)), ip, ids)
    decreases events
  {
    if events != [] {
      RunOnly(c, t, events, ids);
      assert RequestsOf(events[1..], ip, ids);
      if Concerns(events[0], ids) {
        OwnStep(c, s, t, events[0], ip, ids);
        IsolationFrom(c, Step(c, s, events[0]), Step(c, t, events[0]), events[1..], ip, ids);
      } else {
        OtherStep(c, s, t, events[0], ip, ids);
        IsolationFrom(c, Step(c, s, events[0]), t, events[1..], ip, ids);
      }
    }
  }

  /** Each client gets the answers it would get if it were the only one. */
  lemma ClientsAreIsolated(c: Config, n: nat, events: seq<Event>, ip: string, ids: set<nat>, id: nat)
    requires RequestsOf(events, ip, ids) && id in ids
    ensures SameRequest(Run(c, Start(n), events), Run(c, Start(n), Only(events, ids)), id)
  {
    IsolationFrom(c, Start(n), Start(n), events, ip, ids);
  }

  // Blocks are enforced.

  /** What is left of a block after the ten-year clamp. */
  function AtLeast(base: int, offenses: nat): int
    requires offenses >= 1
  {
    var d := BlockDuration(base, offenses);
    if d < MAX_BLOCK_DURATION then d else MAX_BLOCK_DURATION
  }

  lemma AtLeastRises(base: int, k: nat)
    requires base > 0 && k >= 1
    ensures AtLeast(base, k) <= AtLeast(base, k + 1) <= BlockDuration(base, k + 1)
  {
    BlockDurationExactly(base, k);
    BlockDurationExactly(base, k + 1);
    if Fits(base, k + 1) {
      FitsMonotone(base, k, k + 1);
      FactorMonotone(k, k + 1);
      ProductMonotone(base, Factor(k), Factor(k + 1));
    }
  }

  /** Redis holds a block of `ip` until at least `until`, and the offense count outlives it. */
  ghost predicate Holds(redis: RedisState, ip: string, base: int, until: int, now: int) {
    now < until ==>
      && ip in redis.blocks && until <= redis.blocks[ip]
      && ip in redis.offenses && redis.offenses[ip].count >= 1
      && (redis.offenses[ip].expires.Some? ==> until <= redis.offenses[ip].expires.value)
      && until <= now + AtLeast(base, redis.offenses[ip].count)
  }

  lemma IncrHolds(redis: RedisState, ip: string, offender: string, base: int, until: int, now: int)
    requires base > 0 && Holds(redis, ip, base, until, now)
    ensures Holds(IncrIn(redis, offender, now), ip, base, until, now)
  {
    if now < until && offender == ip {
      AtLeastRises(base, redis.offenses[ip].count);
    }
  }

  lemma {:induction false} IncrLostHolds(redis: RedisState, ip: string, offender: string, base: int, until: int,
                                         now: int, lost: nat)
    requires base > 0 && Holds(redis, ip, base, until, now)
    ensures Holds(IncrLostIn(redis, offender, now, lost), ip, base, until, now)
  {
    if lost > 0 {
      IncrLostHolds(redis, ip, offender, base, until, now, lost - 1);
      IncrHolds(IncrLostIn(redis, offender, now, lost - 1), ip, offender, base, until, now);
    }
  }

  lemma PipelineHolds(redis: RedisState, ip: string, offender: string, base: int, until: int, now: int, pipe: Pipeline)
    requires base > 0 && Holds(redis, ip, base, until, now) && offender in redis.offenses
    requires redis.offenses[offender].count >= 1
    ensures var duration := BlockDuration(base, redis.offenses[offender].count);
            Holds(PipelineIn(redis, offender, duration, now, pipe), ip, base, until, now)
  {
  }

  lemma OffendHolds(s: LimiterState, ip: string, offender: string, base: int, until: int, now: int, up: Up)
    requires base > 0 && Holds(s.redis, ip, base, until, now)
    ensures Holds(OffendIn(s, offender, base, now, up).redis, ip, base, until, now)
  {
    IncrLostHolds(s.redis, ip, offender, base, until, now, up.incr.lost);
    var before := IncrLostIn(s.redis, offender, now, up.incr.lost);
    IncrHolds(before, ip, offender, base, until, now);
    PipelineHolds(IncrIn(before, offender, now), ip, offender, base, until, now, up.pipe);
  }

  lemma SpendHolds(s: LimiterState, b: Budget, ip: string, client: string, base: int, until: int, now: int, up: Up)
    requires Holds(s.redis, ip, base, until, now)
    ensures Holds(SpendIn(s, b, client, now, up).1.redis, ip, base, until, now)
  {
    AllowLostTouchesTats(s.redis, client, now, b.period, b.limit.burst, up.allow.lost);
  }

  lemma FinishHolds(s: LimiterState, c: Config, ip: string, client: string, until: int, now: int, up: Up,
                    outcome: Outcome)
    requires c.blockDuration > 0 && Holds(s.redis, ip, c.blockDuration, until, now)
    ensures Holds(FinishIn(s, c, client, now, up, outcome).1.redis, ip, c.blockDuration, until, now)
  {
    SpendHolds(s, c.budget, ip, client, c.blockDuration, until, now, up);
    OffendHolds(SpendIn(s, c.budget, client, now, up).1, ip, client, c.blockDuration, until, now, up);
  }

  predicate Ordered(events: seq<Event>, now: int) {
    events == [] || (now <= events[0].at && Ordered(events[1..], events[0].at))
  }

  /** Along the run every request of `ip` that asks Redis before `until` is refused on arrival. */
  predicate Refused(c: Config, s: Cluster, events: seq<Event>, ip: string, until: int)
    decreases events
  {
    events != [] ==>
      && (var e := events[0];
          e.Arrive? && e.ip == ip && e.up.query && e.at < until && e.replica < |s.limits.locals| ==>
            BlockedNow(At(s.limits, e.replica), ip, e.at, e.up)
            && Step(c, s, e) == s.(answers := s.answers[e.id := Forbidden]))
      && Refused(c, Step(c, s, events[0]), events[1..], ip, until)
  }

  lemma {:induction false} HeldUntil(c: Config, s: Cluster, events: seq<Event>, ip: string, until: int, now: int)
    requires c.blockDuration > 0 && Holds(s.limits.redis, ip, c.blockDuration, until, now) && Ordered(events, now)
    ensures Refused(c, s, events, ip, until)
    decreases events
  {
    if events != [] {
      var e := events[0];
      if e.Finish? && e.id in s.inFlight && s.inFlight[e.id].replica < |s.limits.locals| {
        var p := s.inFlight[e.id];
        FinishHolds(At(s.limits, p.replica), c, ip, p.ip, until, e.at, e.up, e.outcome);
      }
      HeldUntil(c, Step(c, s, e), events[1..], ip, until, e.at);
    }
  }

  /**
   A block is enforced. If a failed login at `s` is recorded in Redis as an offense (its 401 turned into a
   403), then whatever happens next on any replica, for the whole block (at most ten years of it) every
   request of that client that can ask Redis is refused.
   */
  lemma BlockIsEnforced(c: Config, s: Cluster, e: Event, events: seq<Event>)
    requires c.blockDuration > 0 && c.onLimitExceeded == ActionBlock
    requires e.Finish? && e.id in s.inFlight && s.inFlight[e.id].replica < |s.limits.locals|
    requires e.outcome == UNAUTHORIZED && e.up.incr.Replied? && e.up.pipe.Executed?
    requires Step(c, s, e).answers[e.id] == Forbidden && Ordered(events, e.at)
    ensures var ip, next := s.inFlight[e.id].ip, Step(c, s, e);
            && ip in next.limits.redis.offenses && next.limits.redis.offenses[ip].count >= 1
            && Refused(c, next, events, ip, e.at + AtLeast(c.blockDuration, next.limits.redis.offenses[ip].count))
  {
    var p, next := s.inFlight[e.id], Step(c, s, e);
    var (ok, spent) := SpendIn(At(s.limits, p.replica), c.budget, p.ip, e.at, e.up);
    assert !ok;
    var counted := IncrIn(IncrLostIn(spent.redis, p.ip, e.at, e.up.incr.lost), p.ip, e.at);
    var count := counted.offenses[p.ip].count;
    BlockDurationExactly(c.blockDuration, count);
    assert next.limits.redis == PipelineIn(counted, p.ip, BlockDuration(c.blockDuration, count), e.at, Executed);
    HeldUntil(c, next, events, p.ip, e.at + AtLeast(c.blockDuration, count), e.at);
  }
}
