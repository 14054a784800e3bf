/**
 redisLimiterStore: shared limiter state in Redis, with a per-replica memory store answering every
 call whose Redis command fails. How each command comes out is an input.
 */
module RedisLimiter {
  import opened Wrappers
  import opened Bytes
  import opened Backoff
  import opened TokenBucket
  import opened Gcra
  import opened MemoryLimiter

  const REDIS_ERROR_LOG_INTERVAL := 30 * SECOND

  datatype TatEntry = TatEntry(tat: int, expires: int)

  datatype OffenseEntry = OffenseEntry(count: nat, expires: Option<int>)

  /** The three families of keys one namespace uses. */
  datatype RedisState = RedisState(
    tats: map<string, TatEntry>, blocks: map<string, int>, offenses: map<string, OffenseEntry>)

  const EMPTY := RedisState(map[], map[], map[])

  /**
   A command either replies or not; before that it may have run `lost` times without its reply arriving,
   because the client retries and because a command can time out after taking effect.
   */
  datatype Command = Replied(lost: nat) | NoReply(lost: nat)

  /** The pipeline of SET and EXPIRE; after an error each may have run. */
  datatype Pipeline = Executed | Broken(setRan: bool, expireRan: bool)

  // Buckets.

  /** The stored tat, or the clock when the key is missing or expired. */
  function TatAt(s: RedisState, key: string, now: int): int {
    if key in s.tats && now < s.tats[key].expires then s.tats[key].tat else now
  }

  /** math.ceil(reset_after) in whole seconds. */
  function CeilSeconds(d: int): (c: int)
    requires d > 0
    ensures d <= c < d + SECOND
  {
    (d + SECOND - 1) / SECOND * SECOND
  }

  function RedisAllowIn(s: RedisState, key: string, now: int, period: nat, burst: nat): (bool, RedisState) {
    var (ok, tat) := GcraTake(period, burst, TatAt(s, key, now), now);
    if ok && tat > now then
      (true, s.(tats := s.tats[key := TatEntry(tat, now + CeilSeconds(tat - now))]))
    else
      (ok, s)
  }

  /** Runs of the script whose replies were lost. */
  function AllowLostIn(s: RedisState, key: string, now: int, period: nat, burst: nat, lost: nat): RedisState {
    if lost == 0 then s
    else RedisAllowIn(AllowLostIn(s, key, now, period, burst, lost - 1), key, now, period, burst).1
  }

  lemma {:induction false} AllowLostTouchesTats(s: RedisState, key: string, now: int, period: nat, burst: nat,
                                                lost: nat)
    ensures var next := AllowLostIn(s, key, now, period, burst, lost);
            next.blocks == s.blocks && next.offenses == s.offenses
  {
    if lost > 0 {
      AllowLostTouchesTats(s, key, now, period, burst, lost - 1);
    }
  }

  lemma {:induction false} AllowLostSeesTats(s: RedisState, t: RedisState, key: string, now: int, period: nat,
                                             burst: nat, lost: nat)
    requires s.tats == t.tats
    ensures AllowLostIn(s, key, now, period, burst, lost).tats == AllowLostIn(t, key, now, period, burst, lost).tats
  {
    if lost > 0 {
      AllowLostSeesTats(s, t, key, now, period, burst, lost - 1);
      AllowSeesTats(AllowLostIn(s, key, now, period, burst, lost - 1),
                    AllowLostIn(t, key, now, period, burst, lost - 1), key, now, period, burst);
    }
  }

  lemma AllowSeesTats(s: RedisState, t: RedisState, key: string, now: int, period: nat, burst: nat)
    requires s.tats == t.tats
    ensures RedisAllowIn(s, key, now, period, burst).0 == RedisAllowIn(t, key, now, period, burst).0
    ensures RedisAllowIn(s, key, now, period, burst).1.tats == RedisAllowIn(t, key, now, period, burst).1.tats
  {
    assert TatAt(s, key, now) == TatAt(t, key, now);
  }

  /** What Allow answers and leaves of Redis and of the fallback's buckets. */
  function AllowCallIn(s: RedisState, visitors: Visitors, key: string, limit: Limit, period: nat, now: int,
                       call: Command)
      : (bool, RedisState, Visitors)
  {
    var before := AllowLostIn(s, key, now, period, limit.burst, call.lost);
    match call
    case Replied(_) =>
      var (ok, next) := RedisAllowIn(before, key, now, period, limit.burst);
      (ok, next, visitors)
    case NoReply(_) =>
      var (ok, next) := AllowIn(visitors, key, now, limit);
      (ok, before, next)
  }

  /** Bucket keys outlive their tat. */
  ghost predicate TatsOutlived(s: RedisState) {
    forall key :: key in s.tats ==> s.tats[key].tat <= s.tats[key].expires
  }

  /** Letting Redis expire a bucket key never changes a decision. */
  lemma TatExpiryHarmless(s: RedisState, key: string, now: int, period: nat, burst: nat)
    requires TatsOutlived(s) && key in s.tats
    ensures GcraTake(period, burst, TatAt(s, key, now), now).0 == GcraTake(period, burst, s.tats[key].tat, now).0
    ensures Debt(TatAt(s, key, now), now) == Debt(s.tats[key].tat, now)
    ensures TatsOutlived(RedisAllowIn(s, key, now, period, burst).1)
  {
  }

  // Blocks.

  function IncrIn(s: RedisState, key: string, now: int): (r: RedisState)
    ensures key in r.offenses && r.offenses[key].count >= 1
  {
    var live := key in s.offenses && (s.offenses[key].expires.Some? ==> now < s.offenses[key].expires.value);
    var entry := if live then s.offenses[key] else OffenseEntry(0, None);
    s.(offenses := s.offenses[key := entry.(count := entry.count + 1)])
  }

  function IncrLostIn(s: RedisState, key: string, now: int, lost: nat): RedisState {
    if lost == 0 then s else IncrIn(IncrLostIn(s, key, now, lost - 1), key, now)
  }

  /** SET block PX duration */
  function SetIn(s: RedisState, key: string, duration: int, now: int): RedisState {
    s.(blocks := s.blocks[key := now + duration])
  }

  /** EXPIRE offense duration+cleanupInterval */
  function ExpireIn(s: RedisState, key: string, duration: int, now: int): RedisState
    requires key in s.offenses
  {
    s.(offenses := s.offenses[key := s.offenses[key].(expires := Some(now + duration + CLEANUP_INTERVAL))])
  }

  function PipelineIn(s: RedisState, key: string, duration: int, now: int, pipe: Pipeline): RedisState
    requires key in s.offenses
  {
    var blocked := if pipe.Executed? || pipe.setRan then SetIn(s, key, duration, now) else s;
    if pipe.Executed? || pipe.expireRan then ExpireIn(blocked, key, duration, now) else blocked
  }

  /** What Block leaves of Redis and of the fallback's block list: an error hands the offense to the fallback. */
  function BlockCallIn(s: RedisState, blocks: BlockList, key: string, base: int, now: int,
                       incr: Command, pipe: Pipeline)
      : (RedisState, BlockList)
  {
    var before := IncrLostIn(s, key, now, incr.lost);
    if incr.NoReply? then (before, BlockIn(blocks, key, base, now))
    else
      var counted := IncrIn(before, key, now);
      var duration := BlockDuration(base, counted.offenses[key].count);
      if duration <= 0 then (counted, blocks)
      else
        (PipelineIn(counted, key, duration, now, pipe),
         if pipe.Executed? then blocks else BlockIn(blocks, key, base, now))
  }

  /** Block with Redis up. */
  function RedisBlockIn(s: RedisState, key: string, base: int, now: int): RedisState {
    var counted := IncrIn(s, key, now);
    var duration := BlockDuration(base, counted.offenses[key].count);
    if duration <= 0 then counted else PipelineIn(counted, key, duration, now, Executed)
  }

  predicate RedisBlockedIn(s: RedisState, key: string, now: int) {
    key in s.blocks && now < s.blocks[key]
  }

  /** A block lasts exactly its duration. */
  lemma BlockLastsItsDuration(s: RedisState, key: string, base: int, now: int, later: int)
    requires base > 0 && now <= later
    ensures var next := RedisBlockIn(s, key, base, now);
            (RedisBlockedIn(next, key, later) <==> later < now + BlockDuration(base, next.offenses[key].count))
  {
    BlockDurationExactly(base, IncrIn(s, key, now).offenses[key].count);
  }

  /**
   What an offense Redis has counted leaves there: without a base no block, otherwise one of its duration exactly when
   SET ran, though the reply may have been lost.
   */
  lemma BlockWrittenIff(s: RedisState, blocks: BlockList, key: string, base: int, now: int, incr: Command,
                        pipe: Pipeline)
    requires incr.Replied?
    ensures var (next, local) := BlockCallIn(s, blocks, key, base, now, incr, pipe);
            && key in next.offenses
            && (base <= 0 ==> next.blocks == s.blocks && local == blocks)
            && (base > 0 ==>
                 next.blocks == if pipe == Executed || pipe.setRan
                                then s.blocks[key := now + BlockDuration(base, next.offenses[key].count)]
                                else s.blocks)
  {
    IncrLostExpiry(s, key, now, incr.lost);
    if base > 0 {
      BlockDurationExactly(base, IncrIn(IncrLostIn(s, key, now, incr.lost), key, now).offenses[key].count);
    }
  }

  /** A repeated offense escalates iff it comes within five minutes after the block ended. */
  lemma EscalatesIff(s: RedisState, key: string, base: int, now: int, later: int)
    requires base > 0 && now <= later
    ensures var first := RedisBlockIn(s, key, base, now);
            var count := first.offenses[key].count;
            var second := RedisBlockIn(first, key, base, later);
            second.offenses[key].count ==
              (if later < now + BlockDuration(base, count) + CLEANUP_INTERVAL then count + 1 else 1)
  {
    var counted := IncrIn(s, key, now);
    BlockDurationExactly(base, counted.offenses[key].count);
    var first := RedisBlockIn(s, key, base, now);
    var again := IncrIn(first, key, later);
    BlockDurationExactly(base, again.offenses[key].count);
  }

  /** The count is there and no clock will remove it. */
  predicate NeverExpires(s: RedisState, key: string) {
    key in s.offenses && s.offenses[key].expires.None?
  }

  /** Such a count grows with the next offense however late it comes; any other starts over at some time. */
  lemma NeverExpiresIff(s: RedisState, key: string)
    requires key in s.offenses && s.offenses[key].count >= 1
    ensures NeverExpires(s, key) <==>
              forall later :: IncrIn(s, key, later).offenses[key].count == s.offenses[key].count + 1
    ensures !NeverExpires(s, key) ==>
              forall later :: later >= s.offenses[key].expires.value ==> IncrIn(s, key, later).offenses[key].count == 1
  {
    if !NeverExpires(s, key) {
      var entry := s.offenses[key];
      assert IncrIn(s, key, entry.expires.value).offenses[key].count == 1;
    }
  }

  /**
   When a block leaves a count that never expires: the count was raised on a key without an expiry in force,
   and EXPIRE did not run.
   */
  lemma CountKeptForeverIff(s: RedisState, blocks: BlockList, key: string, base: int, now: int, incr: Command,
                            pipe: Pipeline)
    requires base > 0
    ensures var next := BlockCallIn(s, blocks, key, base, now, incr, pipe).0;
            NeverExpires(next, key) <==>
              if incr.NoReply? && incr.lost == 0 then NeverExpires(s, key)
              else
                && !ExpiryInForce(s, key, now)
                && (incr.NoReply? || !(pipe.Executed? || pipe.expireRan))
  {
    IncrLostExpiry(s, key, now, incr.lost);
    var counted := IncrIn(IncrLostIn(s, key, now, incr.lost), key, now);
    BlockDurationExactly(base, counted.offenses[key].count);
  }

  predicate ExpiryInForce(s: RedisState, key: string, now: int) {
    key in s.offenses && s.offenses[key].expires.Some? && now < s.offenses[key].expires.value
  }

  lemma {:induction false} IncrLostExpiry(s: RedisState, key: string, now: int, lost: nat)
    ensures var next := IncrLostIn(s, key, now, lost);
            && (lost > 0 ==> key in next.offenses && (next.offenses[key].expires.Some? <==> ExpiryInForce(s, key, now)))
            && (ExpiryInForce(next, key, now) <==> ExpiryInForce(s, key, now))
            && next.tats == s.tats && next.blocks == s.blocks
  {
    if lost > 0 {
      IncrLostExpiry(s, key, now, lost - 1);
    }
  }

  // The warning.

  /** degrade's guard, in int64 arithmetic. */
  predicate Due(now: int, last: int) {
    Wrap64(now - last) >= REDIS_ERROR_LOG_INTERVAL
  }

  datatype ErrorLog = ErrorLog(last: int, warnings: nat)

  /** degrade without competing goroutines: one warning per interval. */
  function DegradeIn(log: ErrorLog, now: int): ErrorLog {
    if Due(now, log.last) then ErrorLog(now, log.warnings + 1) else log
  }

  // The store.

  /** The Redis server, shared by every replica's store, behind a client that may run a command several times. */
  class Redis {
    var state: RedisState

    constructor ()
      ensures state == EMPTY
    {
      state := EMPTY;
    }

    /** The allow script; `ok` is None when no reply arrives. */
    method Allow(key: string, period: nat, burst: nat, now: int, call: Command) returns (ok: Option<bool>)
      modifies this
      ensures var before := AllowLostIn(old(state), key, now, period, burst, call.lost);
              if call.Replied? then
                ok.Some? && (ok.value, state) == RedisAllowIn(before, key, now, period, burst)
              else ok.None? && state == before
    {
      for i := 0 to call.lost
        invariant state == AllowLostIn(old(state), key, now, period, burst, i)
      {
        state := RedisAllowIn(state, key, now, period, burst).1;
      }
      if call.NoReply? {
        return None;
      }
      var (allowed, next) := RedisAllowIn(state, key, now, period, burst);
      state := next;
      ok := Some(allowed);
    }

    method Incr(key: string, now: int, call: Command) returns (count: Option<nat>)
      modifies this
      ensures var before := IncrLostIn(old(state), key, now, call.lost);
              if call.Replied? then
                state == IncrIn(before, key, now) && count == Some(state.offenses[key].count)
              else count.None? && state == before
    {
      for i := 0 to call.lost
        invariant state == IncrLostIn(old(state), key, now, i)
      {
        state := IncrIn(state, key, now);
      }
      if call.NoReply? {
        return None;
      }
      state := IncrIn(state, key, now);
      count := Some(state.offenses[key].count);
    }

    method SetAndExpire(key: string, duration: int, now: int, pipe: Pipeline) returns (ok: bool)
      requires key in state.offenses
      modifies this
      ensures state == PipelineIn(old(state), key, duration, now, pipe) && ok == pipe.Executed?
    {
      if pipe.Executed? || pipe.setRan {
        state := SetIn(state, key, duration, now);
      }
      if pipe.Executed? || pipe.expireRan {
        state := ExpireIn(state, key, duration, now);
      }
      ok := pipe.Executed?;
    }
  }

  class RedisLimiterStore {
    const redis: Redis
    const fallback: MemoryLimiterStore
    // Unix-nano time of the last "degraded" warning.
    var lastErrLogNano: int
    // How many such warnings were logged.
    var warnings: nat

    constructor (redis: Redis, fallback: MemoryLimiterStore)
      ensures this.redis == redis && this.fallback == fallback
      ensures lastErrLogNano == 0 && warnings == 0
    {
      this.redis, this.fallback := redis, fallback;
      lastErrLogNano, warnings := 0, 0;
    }

    function Log(): ErrorLog
      reads this
    {
      ErrorLog(lastErrLogNano, warnings)
    }

    method Degrade(now: int)
      modifies this
      ensures Log() == DegradeIn(old(Log()), now)
    {
      var last := lastErrLogNano;
      if Wrap64(now - last) < REDIS_ERROR_LOG_INTERVAL {
        return;
      }
      lastErrLogNano := now;
      warnings := warnings + 1;
    }

    method Allow(key: string, limit: Limit, period: nat, now: int, call: Command) returns (ok: bool)
      requires limit.rate > 0.0
      modifies this, redis, fallback
      ensures (ok, redis.state, fallback.visitors)
           == AllowCallIn(old(redis.state), old(fallback.visitors), key, limit, period, now, call)
      ensures fallback.blockList == old(fallback.blockList)
      ensures Log() == if call.Replied? then old(Log()) else DegradeIn(old(Log()), now)
    {
      var res := redis.Allow(key, period, limit.burst, now, call);
      if res.None? {
        Degrade(now);
        ok := fallback.Allow(key, limit, now);
        return;
      }
      ok := res.value;
    }

    /** Block: INCR, then a pipeline; whichever fails hands the offense to the fallback. */
    method Block(key: string, base: int, now: int, incr: Command, pipe: Pipeline)
      modifies this, redis, fallback
      ensures (redis.state, fallback.blockList)
           == BlockCallIn(old(redis.state), old(fallback.blockList), key, base, now, incr, pipe)
      ensures fallback.visitors == old(fallback.visitors)
      ensures Log() == if incr.Replied? && (pipe.Executed? || base <= 0) then old(Log()) else DegradeIn(old(Log()), now)
    {
      var offenses := redis.Incr(key, now, incr);
      if offenses.None? {
        Degrade(now);
        fallback.Block(key, base, now);
        return;
      }
      var duration := BlockDuration(base, offenses.value);
      if base > 0 {
        BlockDurationExactly(base, offenses.value);
      }
      if duration <= 0 {
        return;
      }
      var ok := redis.SetAndExpire(key, duration, now, pipe);
      if !ok {
        Degrade(now);
        fallback.Block(key, base, now);
      }
    }

    method IsBlocked(key: string, now: int, up: bool) returns (blocked: bool)
      modifies this
      ensures blocked == if up then RedisBlockedIn(redis.state, key, now) else BlockedIn(fallback.blockList, key, now)
      ensures Log() == if up then old(Log()) else DegradeIn(old(Log()), now)
    {
      if !up {
        Degrade(now);
        blocked := fallback.IsBlocked(key, now);
        return;
      }
      blocked := key in redis.state.blocks && now < redis.state.blocks[key];
    }
  }

  // In numbers.

  /** A repeated offense escalates up to 300 seconds after the block ended. */
  lemma EscalatesForFiveMinutes(s: RedisState, key: string, base: int, now: int, later: int)
    requires base > 0 && now <= later
    ensures var first := RedisBlockIn(s, key, base, now);
            key in first.blocks && key in first.offenses
            && RedisBlockIn(first, key, base, later).offenses[key].count
               == if later < first.blocks[key] + 300_000_000_000 then first.offenses[key].count + 1 else 1
  {
    EscalatesIff(s, key, base, now, later);
    BlockDurationExactly(base, IncrIn(s, key, now).offenses[key].count);
  }

  /** A warning is due 30 seconds after the last. */
  lemma DueInNumbers(now: int, last: int)
    requires 0 <= now <= MAX_INT64 && 0 <= last <= MAX_INT64
    ensures Due(now, last) <==> now - last >= 30_000_000_000
  {
  }
}
