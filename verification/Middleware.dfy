/** The two rate-limiting handlers of ratelimit.go over a limiter store. */
module Middleware {
  import opened Wrappers
  import opened Backoff
  import opened TokenBucket
  import opened Gcra
  import opened MemoryLimiter
  import opened RedisLimiter
  import opened Budgets

  /** What one replica's store can see: the shared Redis and its own fallback maps. */
  datatype LimiterState = LimiterState(redis: RedisState, visitors: Visitors, blocks: BlockList)

  datatype Local = Local(visitors: Visitors, blocks: BlockList)

  /** All replicas' stores. */
  datatype Replicas = Replicas(redis: RedisState, locals: seq<Local>)

  function Fresh(n: nat): Replicas {
    Replicas(EMPTY, seq(n, _ => Local(map[], map[])))
  }

  function At(r: Replicas, i: nat): LimiterState
    requires i < |r.locals|
  {
    LimiterState(r.redis, r.locals[i].visitors, r.locals[i].blocks)
  }

  function Put(r: Replicas, i: nat, s: LimiterState): Replicas
    requires i < |r.locals|
  {
    Replicas(s.redis, r.locals[i := Local(s.visitors, s.blocks)])
  }

  /** The cleanup of one replica's memory store. */
  function SweepIn(r: Replicas, i: nat, now: int): Replicas
    requires i < |r.locals|
  {
    r.(locals := r.locals[i := Local(EvictIn(r.locals[i].visitors, now), PruneIn(r.locals[i].blocks, now))])
  }

  datatype OnLimitExceeded = ActionBlock | ActionThrottle | ActionNone | ActionOther

  datatype Config = Config(
    enabled: bool, requestsPerMinute: int, whitelist: seq<string>,
    onLimitExceeded: OnLimitExceeded, blockDuration: int, budget: Budget)

  /** The limiter of RateLimit, from its configuration. */
  function HttpConfig(enabled: bool, requestsPerMinute: int, burst: nat, whitelist: seq<string>,
                      onLimitExceeded: OnLimitExceeded, blockDuration: int): Config
  {
    Config(enabled, requestsPerMinute, whitelist, onLimitExceeded, blockDuration,
           HttpBudget(requestsPerMinute, burst))
  }

  /** The limiter of RateLimitFailedLogins, which only ever blocks. */
  function LoginConfig(failedLoginLimit: nat, blockDuration: int): Config
    requires 1 <= failedLoginLimit <= HOUR
  {
    Config(true, 0, [], ActionBlock, blockDuration, LoginBudget(failedLoginLimit))
  }

  /** RateLimit looks at requests at all. */
  predicate Active(c: Config) {
    c.enabled && c.requestsPerMinute > 0
  }

  /** How the store's Redis commands come out; the query has no effect, so it replies or not. */
  datatype Up = Up(query: bool, allow: Command, incr: Command, pipe: Pipeline)

  /** What the rest of the handler chain does with a request it is given. */
  datatype Outcome = Status(code: int) | Failed

  const UNAUTHORIZED := Status(401)

  datatype Answer = FromHandler(outcome: Outcome) | Forbidden | TooManyRequests

  // Store operations.

  predicate BlockedNow(s: LimiterState, ip: string, now: int, up: Up) {
    if up.query then RedisBlockedIn(s.redis, ip, now) else BlockedIn(s.blocks, ip, now)
  }

  function SpendIn(s: LimiterState, b: Budget, ip: string, now: int, up: Up): (bool, LimiterState) {
    var (ok, redis, visitors) := AllowCallIn(s.redis, s.visitors, ip, b.limit, b.period, now, up.allow);
    (ok, s.(redis := redis, visitors := visitors))
  }

  function OffendIn(s: LimiterState, ip: string, base: int, now: int, up: Up): LimiterState {
    var (redis, blocks) := BlockCallIn(s.redis, s.blocks, ip, base, now, up.incr, up.pipe);
    s.(redis := redis, blocks := blocks)
  }

  // Handlers.

  /** applyLimitAction: the answer, or None when the request goes on to the handler. */
  function LimitActionIn(s: LimiterState, c: Config, ip: string, now: int, up: Up): (Option<Answer>, LimiterState) {
    match c.onLimitExceeded
    case ActionBlock => (Some(Forbidden), OffendIn(s, ip, c.blockDuration, now, up))
    case ActionNone => (None, s)
    case ActionThrottle => (Some(TooManyRequests), s)
    case ActionOther => (Some(TooManyRequests), s)
  }

  /** The clock at the check, the spend and the block. */
  datatype Clocks = Clocks(check: int, spend: int, block: int)

  /** RateLimit for a request whose handler, if run, does `outcome`. */
  function RateLimitIn(s: LimiterState, c: Config, ip: string, at: Clocks, up: Up, outcome: Outcome)
      : (Answer, LimiterState)
  {
    if !Active(c) || ip in c.whitelist then (FromHandler(outcome), s)
    else if BlockedNow(s, ip, at.check, up) then (Forbidden, s)
    else
      var (ok, spent) := SpendIn(s, c.budget, ip, at.spend, up);
      if ok then (FromHandler(outcome), spent)
      else
        var (answer, next) := LimitActionIn(spent, c, ip, at.block, up);
        (if answer.Some? then answer.value else FromHandler(outcome), next)
  }

  /** The part of RateLimitFailedLogins after the handler has run. */
  function FinishIn(s: LimiterState, c: Config, ip: string, now: int, up: Up, outcome: Outcome)
      : (Answer, LimiterState)
  {
    if outcome != UNAUTHORIZED then (FromHandler(outcome), s)
    else
      var (ok, spent) := SpendIn(s, c.budget, ip, now, up);
      if ok then (FromHandler(outcome), spent)
      else
        var (answer, next) := LimitActionIn(spent, c, ip, now, up);
        (if answer.Some? then answer.value else FromHandler(outcome), next)
  }

  class RateLimiter {
    const config: Config
    const store: RedisLimiterStore

    constructor Http(enabled: bool, requestsPerMinute: int, burst: nat, whitelist: seq<string>,
                     onLimitExceeded: OnLimitExceeded, blockDuration: int, store: RedisLimiterStore)
      ensures config == HttpConfig(enabled, requestsPerMinute, burst, whitelist, onLimitExceeded, blockDuration)
      ensures this.store == store && (Active(config) ==> config.budget.Valid())
    {
      config := HttpConfig(enabled, requestsPerMinute, burst, whitelist, onLimitExceeded, blockDuration);
      this.store := store;
    }

    constructor Logins(failedLoginLimit: nat, blockDuration: int, store: RedisLimiterStore)
      requires 1 <= failedLoginLimit <= HOUR
      ensures config == LoginConfig(failedLoginLimit, blockDuration)
      ensures this.store == store && config.budget.Valid()
    {
      config := LoginConfig(failedLoginLimit, blockDuration);
      this.store := store;
    }

    ghost function View(): LimiterState
      reads store.redis, store.fallback
    {
      LimiterState(store.redis.state, store.fallback.visitors, store.fallback.blockList)
    }

    method IsBlocked(ip: string, now: int, up: Up) returns (blocked: bool)
      modifies store
      ensures blocked == BlockedNow(View(), ip, now, up)
    {
      blocked := store.IsBlocked(ip, now, up.query);
    }

    method Allow(ip: string, now: int, up: Up) returns (ok: bool)
      requires config.budget.Valid()
      modifies store, store.redis, store.fallback
      ensures (ok, View()) == SpendIn(old(View()), config.budget, ip, now, up)
    {
      ok := store.Allow(ip, config.budget.limit, config.budget.period, now, up.allow);
    }

    method ApplyLimitAction(ip: string, now: int, up: Up) returns (answer: Option<Answer>)
      modifies store, store.redis, store.fallback
      ensures (answer, View()) == LimitActionIn(old(View()), config, ip, now, up)
    {
      match config.onLimitExceeded {
        case ActionBlock =>
          store.Block(ip, config.blockDuration, now, up.incr, up.pipe);
          answer := Some(Forbidden);
        case ActionThrottle =>
          answer := Some(TooManyRequests);
        case ActionNone =>
          answer := None;
        case ActionOther =>
          answer := Some(TooManyRequests);
      }
    }

    method RateLimit(ip: string, at: Clocks, up: Up, outcome: Outcome) returns (answer: Answer)
      requires Active(config) ==> config.budget.Valid()
      modifies store, store.redis, store.fallback
      ensures (answer, View()) == RateLimitIn(old(View()), config, ip, at, up, outcome)
    {
      if !config.enabled || config.requestsPerMinute <= 0 {
        return FromHandler(outcome);
      }
      if ip in config.whitelist {
        return FromHandler(outcome);
      }
      var blocked := IsBlocked(ip, at.check, up);
      if blocked {
        return Forbidden;
      }
      var ok := Allow(ip, at.spend, up);
      if !ok {
        var handled := ApplyLimitAction(ip, at.block, up);
        if handled.Some? {
          return handled.value;
        }
      }
      answer := FromHandler(outcome);
    }

    /** The handler answers at `later`; a request blocked on arrival never reaches it. */
    method RateLimitFailedLogins(ip: string, now: int, later: int, up: Up, outcome: Outcome)
      returns (ran: bool, answer: Answer)
      requires config.budget.Valid()
      modifies store, store.redis, store.fallback
      ensures ran == !BlockedNow(old(View()), ip, now, up)
      ensures !ran ==> answer == Forbidden && View() == old(View())
      ensures ran ==> (answer, View()) == FinishIn(old(View()), config, ip, later, up, outcome)
    {
      var blocked := IsBlocked(ip, now, up);
      if blocked {
        return false, Forbidden;
      }
      ran := true;
      if outcome.Failed? {
        return ran, FromHandler(outcome);
      }
      if outcome.code != 401 {
        return ran, FromHandler(outcome);
      }
      var ok := Allow(ip, later, up);
      if !ok {
        var handled := ApplyLimitAction(ip, later, up);
        if handled.Some? {
          return ran, handled.value;
        }
      }
      answer := FromHandler(outcome);
    }
  }

  // What the limiters the program builds do with a request.

  /** Switched off, or for a whitelisted address: the handler runs and nothing is recorded. */
  lemma HttpPasses(s: LimiterState, enabled: bool, requestsPerMinute: int, burst: nat, whitelist: seq<string>,
                   action: OnLimitExceeded, blockDuration: int, ip: string, at: Clocks, up: Up, outcome: Outcome)
    requires !enabled || requestsPerMinute <= 0 || ip in whitelist
    ensures RateLimitIn(s, HttpConfig(enabled, requestsPerMinute, burst, whitelist, action, blockDuration), ip, at, up,
                        outcome)
         == (FromHandler(outcome), s)
  {
  }

  /** Otherwise a blocked address is refused, a token lets the request through, and without one the action decides. */
  lemma HttpDecides(s: LimiterState, requestsPerMinute: int, burst: nat, whitelist: seq<string>,
                    action: OnLimitExceeded, blockDuration: int, ip: string, at: Clocks, up: Up, outcome: Outcome)
    requires requestsPerMinute > 0 && ip !in whitelist
    ensures var c := HttpConfig(true, requestsPerMinute, burst, whitelist, action, blockDuration);
            var result := RateLimitIn(s, c, ip, at, up, outcome);
            var (ok, spent) := SpendIn(s, HttpBudget(requestsPerMinute, burst), ip, at.spend, up);
            if BlockedNow(s, ip, at.check, up) then result == (Forbidden, s)
            else if ok then result == (FromHandler(outcome), spent)
            else if action.ActionBlock? then result == (Forbidden, OffendIn(spent, ip, blockDuration, at.block, up))
            else if action.ActionNone? then result == (FromHandler(outcome), spent)
            else result == (TooManyRequests, spent)
  {
  }

  /** A failed login without a token is answered 403 and recorded; any other answer passes and costs nothing. */
  lemma LoginDecides(s: LimiterState, failedLoginLimit: nat, blockDuration: int, ip: string, now: int, up: Up,
                     outcome: Outcome)
    requires 1 <= failedLoginLimit <= HOUR
    ensures var result := FinishIn(s, LoginConfig(failedLoginLimit, blockDuration), ip, now, up, outcome);
            var (ok, spent) := SpendIn(s, LoginBudget(failedLoginLimit), ip, now, up);
            if outcome != Status(401) then result == (FromHandler(outcome), s)
            else if ok then result == (FromHandler(outcome), spent)
            else result == (Forbidden, OffendIn(spent, ip, blockDuration, now, up))
  {
  }

  /**
   An offense that Redis does not fully answer for blocks the client on this replica, while Redis does not answer,
   for the base times two for every offense before it that was not forgotten.
   */
  lemma BlockedWithoutRedis(s: LimiterState, ip: string, base: int, offenses: nat, now: int, later: int, offense: Up,
                            check: Up)
    requires base > 0 && (offense.incr.NoReply? || !offense.pipe.Executed?) && !check.query
    requires offenses == (if ip in s.blocks then s.blocks[ip].offenses + 1 else 1) && Fits(base, offenses)
    ensures BlockedNow(OffendIn(s, ip, base, now, offense), ip, later, check) <==>
              later < now + base * Factor(offenses)
  {
    StoresAgreeWhereItFits(base, offenses);
    if offense.incr.Replied? {
      BlockDurationExactly(base, IncrIn(IncrLostIn(s.redis, ip, now, offense.incr.lost), ip, now).offenses[ip].count);
    }
  }

  /** Both buckets hold the configured number of tokens. */
  lemma BurstsAreConfigured(requestsPerMinute: int, burst: nat, failedLoginLimit: nat)
    requires 1 <= failedLoginLimit <= HOUR
    ensures HttpBudget(requestsPerMinute, burst).limit.burst == burst
    ensures LoginBudget(failedLoginLimit).limit.burst == failedLoginLimit
  {
  }
}
