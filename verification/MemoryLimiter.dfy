/** memoryLimiterStore: per-key buckets and a block list in maps, pruned by a cleanup loop. */
module MemoryLimiter {
  import opened Bytes
  import opened Backoff
  import opened TokenBucket

  const VISITOR_TTL := 10 * MINUTE
  const CLEANUP_INTERVAL := 5 * MINUTE

  datatype Visitor = Visitor(limit: Limit, bucket: Bucket, lastSeen: int)

  datatype BlockEntry = BlockEntry(until: int, offenses: nat)

  type Visitors = map<string, Visitor>
  type BlockList = map<string, BlockEntry>

  /** The visitor Allow works on: the stored one, or a new one with a full bucket. */
  function VisitorOf(visitors: Visitors, key: string, now: int, limit: Limit): Visitor {
    if key in visitors then visitors[key] else Visitor(limit, Full(limit, now), now)
  }

  function AllowIn(visitors: Visitors, key: string, now: int, limit: Limit): (bool, Visitors) {
    var v := VisitorOf(visitors, key, now, limit);
    var (ok, bucket) := Take(v.limit, v.bucket, now);
    (ok, visitors[key := Visitor(v.limit, bucket, now)])
  }

  predicate Stale(v: Visitor, now: int) {
    now - v.lastSeen > VISITOR_TTL
  }

  function EvictIn(visitors: Visitors, now: int): Visitors {
    map key | key in visitors && !Stale(visitors[key], now) :: visitors[key]
  }

  function BlockIn(list: BlockList, key: string, base: int, now: int): BlockList {
    var offenses := if key in list then list[key].offenses + 1 else 1;
    list[key := BlockEntry(now + MemoryDuration(base, offenses), offenses)]
  }

  predicate BlockedIn(list: BlockList, key: string, now: int) {
    key in list && now < list[key].until
  }

  function PruneIn(list: BlockList, now: int): BlockList {
    map key | key in list && now <= list[key].until :: list[key]
  }

  class MemoryLimiterStore {
    var visitors: Visitors
    var blockList: BlockList

    constructor ()
      ensures visitors == map[] && blockList == map[]
    {
      visitors, blockList := map[], map[];
    }

    method Allow(key: string, limit: Limit, now: int) returns (ok: bool)
      modifies this
      ensures (ok, visitors) == AllowIn(old(visitors), key, now, limit)
      ensures blockList == old(blockList)
    {
      if key !in visitors {
        visitors := visitors[key := Visitor(limit, Full(limit, now), now)];
      }
      var entry := visitors[key];
      visitors := visitors[key := entry.(lastSeen := now)];
      var (allowed, bucket) := Take(entry.limit, entry.bucket, now);
      visitors := visitors[key := visitors[key].(bucket := bucket)];
      ok := allowed;
      assert visitors == AllowIn(old(visitors), key, now, limit).1;
    }

    method Block(key: string, base: int, now: int)
      modifies this
      ensures blockList == BlockIn(old(blockList), key, base, now)
      ensures visitors == old(visitors)
    {
      var entry := if key in blockList then blockList[key] else BlockEntry(0, 0);
      entry := entry.(offenses := entry.offenses + 1);
      var factor := Factor(entry.offenses);
      entry := entry.(until := now + Wrap64(base * factor));
      blockList := blockList[key := entry];
    }

    method IsBlocked(key: string, now: int) returns (blocked: bool)
      ensures blocked == BlockedIn(blockList, key, now)
    {
      if key !in blockList {
        return false;
      }
      return now < blockList[key].until;
    }

    /** Deletes idle buckets and expired blocks, entry by entry. */
    method Cleanup(now: int)
      modifies this
      ensures visitors == EvictIn(old(visitors), now)
      ensures blockList == PruneIn(old(blockList), now)
    {
      var todo := visitors.Keys;
      while todo != {}
        invariant todo <= old(visitors).Keys
        invariant forall k :: k in visitors <==> k in old(visitors) && (k in todo || !Stale(old(visitors)[k], now))
        invariant forall k :: k in visitors ==> visitors[k] == old(visitors)[k]
        invariant blockList == old(blockList)
        decreases todo
      {
        var key :| key in todo;
        todo := todo - {key};
        if now - visitors[key].lastSeen > VISITOR_TTL {
          visitors := visitors - {key};
        }
      }
      assert visitors == EvictIn(old(visitors), now);
      var blocked := blockList.Keys;
      while blocked != {}
        invariant blocked <= old(blockList).Keys
        invariant forall k :: k in blockList
                              <==> k in old(blockList) && (k in blocked || now <= old(blockList)[k].until)
        invariant forall k :: k in blockList ==> blockList[k] == old(blockList)[k]
        invariant visitors == EvictIn(old(visitors), now)
        decreases blocked
      {
        var key :| key in blocked;
        blocked := blocked - {key};
        if now > blockList[key].until {
          blockList := blockList - {key};
        }
      }
      assert blockList == PruneIn(old(blockList), now);
    }
  }

  // Blocks.

  /** Pruning changes no answer at the time it runs or later. */
  lemma PruneKeepsAnswers(list: BlockList, pruned: int, key: string, now: int)
    requires pruned <= now
    ensures BlockedIn(PruneIn(list, pruned), key, now) == BlockedIn(list, key, now)
  {
  }

  /** Stored entries come from Block, which counts from one. */
  ghost predicate Counted(list: BlockList) {
    forall key :: key in list ==> list[key].offenses >= 1
  }

  /**
   Pruning forgets the offense count: the next block of a key is the one it would have been without pruning
   if and only if the key's entry was not pruned away. If it was, not only the count but the expiry differs.
   */
  lemma PruneForgetsIff(list: BlockList, key: string, base: int, pruned: int, at: int)
    requires Counted(list)
    ensures var after, plain := BlockIn(PruneIn(list, pruned), key, base, at)[key], BlockIn(list, key, base, at)[key];
            && (after == plain <==> !(key in list && list[key].until < pruned))
            && (InInt64(base) && base != 0 ==>
                 (after.until == plain.until <==> !(key in list && list[key].until < pruned)))
  {
    if key in list && list[key].until < pruned && InInt64(base) && base != 0 {
      RepeatedDurationDiffers(base, list[key].offenses + 1);
    }
  }

  datatype BlockEvent = Offend(at: int) | Prune(at: int)

  predicate OrderedFrom(events: seq<BlockEvent>, now: int) {
    events == [] || (now <= events[0].at && OrderedFrom(events[1..], events[0].at))
  }

  /** The expiries one key is given over a run. */
  function Expiries(list: BlockList, key: string, base: int, events: seq<BlockEvent>): seq<int>
    decreases events
  {
    if events == [] then []
    else if events[0].Prune? then Expiries(PruneIn(list, events[0].at), key, base, events[1..])
    else
      var next := BlockIn(list, key, base, events[0].at);
      [next[key].until] + Expiries(next, key, base, events[1..])
  }

  predicate NotBefore(expiries: seq<int>, bound: int) {
    expiries == [] || (bound <= expiries[0] && NotBefore(expiries[1..], expiries[0]))
  }

  /** The key's entry was made by Block at some time up to `now`. */
  predicate MadeBy(list: BlockList, key: string, base: int, now: int) {
    key in list ==> list[key].offenses >= 1 && list[key].until <= now + base * Factor(list[key].offenses)
  }

  function Stored(list: BlockList, key: string): nat {
    if key in list then list[key].offenses else 0
  }

  function Offends(events: seq<BlockEvent>): nat {
    if events == [] then 0 else (if events[0].Offend? then 1 else 0) + Offends(events[1..])
  }

  /** No product overflows in the run, even if nothing is pruned. */
  predicate RunFits(list: BlockList, key: string, base: int, events: seq<BlockEvent>) {
    var most := Stored(list, key) + Offends(events);
    most >= 1 ==> Fits(base, most)
  }

  lemma RunFitsNext(list: BlockList, key: string, base: int, events: seq<BlockEvent>)
    requires base > 0 && events != [] && RunFits(list, key, base, events)
    ensures events[0].Prune? ==> RunFits(PruneIn(list, events[0].at), key, base, events[1..])
    ensures events[0].Offend? ==>
              && Fits(base, Stored(list, key) + 1)
              && RunFits(BlockIn(list, key, base, events[0].at), key, base, events[1..])
  {
    var most := Stored(list, key) + Offends(events);
    if events[0].Offend? {
      FitsMonotone(base, Stored(list, key) + 1, most);
    } else {
      var fewer := Stored(PruneIn(list, events[0].at), key) + Offends(events[1..]);
      if fewer >= 1 {
        FitsMonotone(base, fewer, most);
      }
    }
  }

  /**
   As long as no product overflows, every new block of a key ends no earlier than all its blocks before,
   with or without pruning in between.
   */
  lemma {:induction false} ExpiriesMoveLater(list: BlockList, key: string, base: int, events: seq<BlockEvent>,
                                             now: int, bound: int)
    requires base > 0 && RunFits(list, key, base, events) && OrderedFrom(events, now)
    requires MadeBy(list, key, base, now)
    requires if key in list then bound <= list[key].until else bound <= now
    ensures NotBefore(Expiries(list, key, base, events), bound)
    decreases events
  {
    if events != [] {
      var at := events[0].at;
      RunFitsNext(list, key, base, events);
      if events[0].Prune? {
        ExpiriesMoveLater(PruneIn(list, at), key, base, events[1..], at, bound);
      } else {
        var next := BlockIn(list, key, base, at);
        var offenses := next[key].offenses;
        StoresAgreeWhereItFits(base, offenses);
        BlockDurationExactly(base, offenses);
        if key in list {
          FactorMonotone(offenses - 1, offenses);
          ProductMonotone(base, Factor(offenses - 1), Factor(offenses));
        }
        ExpiriesMoveLater(next, key, base, events[1..], at, next[key].until);
      }
    }
  }

  function Repeated(n: nat): (events: seq<BlockEvent>)
    ensures |events| == n
  {
    if n == 0 then [] else [Offend(0)] + Repeated(n - 1)
  }

  /** n offenses at time 0 on top of `stored` earlier ones: the last expiry is the last duration. */
  lemma {:induction false} LastRepeated(list: BlockList, key: string, base: int, n: nat)
    requires n >= 1
    ensures var e := Expiries(list, key, base, Repeated(n));
            |e| == n && e[n - 1] == MemoryDuration(base, Stored(list, key) + n)
    ensures n >= 2 ==> Expiries(list, key, base, Repeated(n))[n - 2] == MemoryDuration(base, Stored(list, key) + n - 1)
    decreases n
  {
    var next := BlockIn(list, key, base, 0);
    assert Repeated(n)[1..] == Repeated(n - 1);
    if n >= 2 {
      LastRepeated(next, key, base, n - 1);
    } else {
      assert Expiries(next, key, base, []) == [];
    }
  }

  lemma {:induction false} NotBeforeAt(expiries: seq<int>, bound: int, i: nat)
    requires NotBefore(expiries, bound) && i < |expiries|
    ensures (if i == 0 then bound else expiries[i - 1]) <= expiries[i]
    decreases i
  {
    if i > 0 {
      NotBeforeAt(expiries[1..], expiries[0], i - 1);
    }
  }

  lemma {:induction false} RepeatedOrdered(n: nat)
    ensures OrderedFrom(Repeated(n), 0)
  {
    if n > 0 {
      RepeatedOrdered(n - 1);
      assert Repeated(n)[1..] == Repeated(n - 1);
    }
  }

  predicate MovesLater(key: string, base: int, events: seq<BlockEvent>) {
    NotBefore(Expiries(map[], key, base, events), 0)
  }

  ghost predicate AlwaysMovesLater(key: string, base: int) {
    forall events :: OrderedFrom(events, 0) ==> MovesLater(key, base, events)
  }

  /** Expiries only move later on all runs if and only if the product fits at the largest factor. */
  lemma ExpiriesMoveLaterIff(key: string, base: int)
    requires 0 < base <= MAX_INT64
    ensures AlwaysMovesLater(key, base) <==> Fits(base, 33)
  {
    if Fits(base, 33) {
      forall events | OrderedFrom(events, 0) ensures MovesLater(key, base, events) {
        if Offends(events) >= 1 {
          FitsEverywhere(base, Offends(events));
        }
        ExpiriesMoveLater(map[], key, base, events, 0, 0);
      }
    } else {
      var k := LastFitting(base, 33);
      FirstOverflowIsNegative(base, k);
      StoresAgreeWhereItFits(base, k);
      BlockDurationExactly(base, k);
      var events := Repeated(k + 1);
      RepeatedOrdered(k + 1);
      LastRepeated(map[], key, base, k + 1);
      if MovesLater(key, base, events) {
        NotBeforeAt(Expiries(map[], key, base, events), 0, k);
      }
    }
  }

  // In numbers.

  /** A first block lasts its base and a second twice that, each counted from its offense. */
  lemma BlockLasts(list: BlockList, key: string, base: int, now: int, later: int)
    requires key !in list && 0 <= 2 * base <= MAX_INT64
    ensures var once := BlockIn(list, key, base, now);
            && (BlockedIn(once, key, later) <==> later < now + base)
            && (BlockedIn(BlockIn(once, key, base, later), key, later) <==> base > 0)
            && BlockIn(once, key, base, later)[key].until == later + 2 * base
            && (forall other :: other != key ==>
                 BlockedIn(once, other, later) == BlockedIn(list, other, later))
  {
    FactorInNumbers(1);
    assert Factor(2) == 2;
  }

  /** A bucket survives cleanups up to ten minutes after its key was last seen, allowed or not, and none later. */
  lemma BucketSurvivesIff(visitors: Visitors, key: string, limit: Limit, now: int, cleanup: int)
    ensures var seen := AllowIn(visitors, key, now, limit).1;
            key in seen && (key in EvictIn(seen, cleanup) <==> cleanup - now <= 600_000_000_000)
  {
  }
}
