/** The contract of redis_rate: GCRA over one "theoretical arrival time" (tat) per key. */
module Gcra {
  import opened Float64
  import opened Backoff
  import opened TokenBucket

  function Max(a: int, b: int): int {
    if a >= b then a else b
  }

  function ExactPeriod(ratePerSec: real): (d: real)
    requires ratePerSec > 0.0
    ensures d > 0.0 && d * ratePerSec == SECOND as real
  {
    SECOND as real / ratePerSec
  }

  /** toRedisRateLimit's period: float64(time.Second) / ratePerSec as a Duration. */
  function RedisPeriod(ratePerSec: real): nat
    requires ratePerSec > 0.0
  {
    Round(ExactPeriod(ratePerSec)).Floor
  }

  method ToRedisRateLimit(ratePerSec: real) returns (period: nat)
    requires ratePerSec > 0.0
    ensures period == RedisPeriod(ratePerSec)
  {
    var quotient := Round(SECOND as real / ratePerSec);
    period := quotient.Floor;
  }

  /** The allow script with cost 1: the request passes if its new tat is within the burst offset. */
  function GcraTake(period: nat, burst: nat, tat: int, now: int): (bool, int) {
    var newTat := Max(tat, now) + period;
    if now - (newTat - period * burst) < 0 then (false, tat) else (true, newTat)
  }

  function BucketAnswers(l: Limit, b: Bucket, times: seq<int>): seq<bool>
    decreases times
  {
    if times == [] then []
    else
      var (ok, next) := Take(l, b, times[0]);
      [ok] + BucketAnswers(l, next, times[1..])
  }

  function GcraAnswers(period: nat, burst: nat, tat: int, times: seq<int>): seq<bool>
    decreases times
  {
    if times == [] then []
    else
      var (ok, next) := GcraTake(period, burst, tat, times[0]);
      [ok] + GcraAnswers(period, burst, next, times[1..])
  }

  predicate OrderedFrom(times: seq<int>, now: int) {
    times == [] || (now <= times[0] && OrderedFrom(times[1..], times[0]))
  }

  /** How far the tat is ahead of the clock. */
  function Debt(tat: int, now: int): (d: int)
    ensures d >= 0
  {
    Max(tat, now) - now
  }

  /** The GCRA state read as a bucket: tokens = burst - debt / period. */
  predicate Simulates(l: Limit, b: Bucket, tat: int, now: int) {
    Sound(l, b, now) && Level(l, b, now) == l.burst as real - l.rate * Debt(tat, now) as real
  }

  lemma RateTimes(rate: real, a: int, b: int)
    ensures rate * (a + b) as real == rate * a as real + rate * b as real
  {
    assert (a + b) as real == a as real + b as real;
  }

  lemma SimulatesLater(l: Limit, b: Bucket, tat: int, now: int, later: int)
    requires Simulates(l, b, tat, now) && now <= later
    ensures Simulates(l, b, tat, later)
  {
    LevelLater(l, b, now, later);
    var gap, debt := later - now, Debt(tat, now);
    RateTimes(l.rate, debt - gap, gap);
    if debt >= gap {
      assert Debt(tat, later) == debt - gap;
      assert l.rate * (debt - gap) as real >= 0.0;
    } else {
      assert Debt(tat, later) == 0;
      assert l.rate * (debt - gap) as real <= 0.0;
    }
  }

  /** When the period is exact, debt in time and missing tokens measure the same thing. */
  lemma DebtAgainstBurst(rate: real, period: nat, burst: nat, debt: int)
    requires rate > 0.0 && rate * period as real == 1.0
    ensures debt + period <= period * burst <==> burst as real - rate * debt as real >= 1.0
  {
    var slack := period * burst - debt - period;
    assert slack as real == period as real * burst as real - debt as real - period as real by {
      assert (period * burst) as real == period as real * burst as real;
    }
    assert rate * slack as real
        == rate * (period as real * burst as real) - rate * debt as real - rate * period as real;
    assert rate * (period as real * burst as real) == (rate * period as real) * burst as real;
    if slack >= 0 {
      assert rate * slack as real >= 0.0;
    } else {
      assert rate * slack as real < 0.0;
    }
  }

  lemma TakeSimulates(l: Limit, b: Bucket, period: nat, tat: int, now: int)
    requires l.rate > 0.0 && l.rate * period as real == 1.0 && Simulates(l, b, tat, now)
    ensures Take(l, b, now).0 == GcraTake(period, l.burst, tat, now).0
    ensures Simulates(l, Take(l, b, now).1, GcraTake(period, l.burst, tat, now).1, now)
  {
    DebtAgainstBurst(l.rate, period, l.burst, Debt(tat, now));
    TakeSound(l, b, now);
    TakeCost(l, b, now);
    RateTimes(l.rate, Debt(tat, now), period);
    if GcraTake(period, l.burst, tat, now).0 {
      assert Debt(GcraTake(period, l.burst, tat, now).1, now) == Debt(tat, now) + period;
    }
  }

  lemma {:induction false} ExactPeriodAgrees(l: Limit, b: Bucket, period: nat, tat: int, times: seq<int>, now: int)
    requires l.rate > 0.0 && l.rate * period as real == 1.0
    requires Simulates(l, b, tat, now) && OrderedFrom(times, now)
    ensures BucketAnswers(l, b, times) == GcraAnswers(period, l.burst, tat, times)
    decreases times
  {
    if times != [] {
      var at := times[0];
      SimulatesLater(l, b, tat, now, at);
      TakeSimulates(l, b, period, tat, at);
      ExactPeriodAgrees(l, Take(l, b, at).1, period, GcraTake(period, l.burst, tat, at).1, times[1..], at);
    }
  }

  // When the stores answer alike.

  /** From these two states on, the timed calls of a key are answered alike. */
  ghost predicate AgreeFrom(l: Limit, b: Bucket, period: nat, tat: int, now: int) {
    forall times :: OrderedFrom(times, now) ==> BucketAnswers(l, b, times) == GcraAnswers(period, l.burst, tat, times)
  }

  /** From a new key on, whenever it is first seen. */
  ghost predicate AgreeAlways(l: Limit, period: nat) {
    forall start :: AgreeFrom(l, Full(l, start), period, start, start)
  }

  lemma AgreeStep(l: Limit, b: Bucket, period: nat, tat: int, now: int, at: int)
    requires AgreeFrom(l, b, period, tat, now) && now <= at
    ensures Take(l, b, at).0 == GcraTake(period, l.burst, tat, at).0
    ensures AgreeFrom(l, Take(l, b, at).1, period, GcraTake(period, l.burst, tat, at).1, at)
  {
    AgreeHead(l, b, period, tat, now, at, []);
    forall times | OrderedFrom(times, at)
      ensures BucketAnswers(l, Take(l, b, at).1, times)
           == GcraAnswers(period, l.burst, GcraTake(period, l.burst, tat, at).1, times)
    {
      AgreeHead(l, b, period, tat, now, at, times);
    }
  }

  lemma AgreeHead(l: Limit, b: Bucket, period: nat, tat: int, now: int, at: int, times: seq<int>)
    requires AgreeFrom(l, b, period, tat, now) && now <= at && OrderedFrom(times, at)
    ensures Take(l, b, at).0 == GcraTake(period, l.burst, tat, at).0
    ensures BucketAnswers(l, Take(l, b, at).1, times)
         == GcraAnswers(period, l.burst, GcraTake(period, l.burst, tat, at).1, times)
  {
    var all := [at] + times;
    assert all[1..] == times;
    var x, y := BucketAnswers(l, b, all), GcraAnswers(period, l.burst, tat, all);
    assert x == y && x[0] == y[0] && x[1..] == y[1..];
  }

  lemma MulStep(period: nat, n: nat)
    requires n > 0
    ensures period * n == period * (n - 1) + period
  {
  }

  lemma MulMonotone(period: nat, a: nat, b: nat)
    requires a <= b
    ensures period * a <= period * b
  {
  }

  /** After a burst at once both are empty. */
  ghost predicate Empty(l: Limit, b: Bucket, period: nat, tat: int, now: int) {
    Sound(l, b, now) && Level(l, b, now) == 0.0 && tat == now + period * l.burst && AgreeFrom(l, b, period, tat, now)
  }

  lemma {:induction false} Drain(l: Limit, b: Bucket, period: nat, tat: int, n: nat) returns (b': Bucket)
    requires n <= l.burst && tat == period * (l.burst - n) && AgreeFrom(l, b, period, tat, 0)
    requires Sound(l, b, 0) && Level(l, b, 0) == n as real
    ensures Empty(l, b', period, period * l.burst, 0)
    decreases n
  {
    if n == 0 {
      b' := b;
    } else {
      AgreeStep(l, b, period, tat, 0, 0);
      TakeSound(l, b, 0);
      TakeCost(l, b, 0);
      MulStep(period, l.burst - n + 1);
      MulMonotone(period, l.burst - n + 1, l.burst);
      MulMonotone(period, 0, l.burst - n);
      b' := Drain(l, Take(l, b, 0).1, period, period * (l.burst - (n - 1)), n - 1);
    }
  }

  lemma DrainFull(l: Limit, period: nat) returns (b: Bucket)
    requires l.rate > 0.0 && AgreeAlways(l, period)
    ensures Empty(l, b, period, period * l.burst, 0)
  {
    assert AgreeFrom(l, Full(l, 0), period, 0, 0);
    assert period * (l.burst - l.burst) == 0;
    b := Drain(l, Full(l, 0), period, 0, l.burst);
  }

  /** What an empty pair answers at `later`: the memory bucket by its rate, GCRA by the period. */
  lemma EmptyAnswers(l: Limit, b: Bucket, period: nat, tat: int, later: nat)
    requires l.rate > 0.0 && l.burst >= 1 && Empty(l, b, period, tat, 0)
    ensures l.rate * later as real >= 1.0 <==> later >= period
  {
    AgreeStep(l, b, period, tat, 0, later);
    LevelLater(l, b, 0, later);
    MulMonotone(period, 1, l.burst);
  }

  /** The first whole nanosecond by which a token is refilled. */
  predicate Ceiling(rate: real, period: nat) {
    1.0 <= rate * period as real < 1.0 + rate
  }

  lemma RateLess(rate: real, period: nat, before: int)
    requires before + 1 == period
    ensures rate * before as real == rate * period as real - rate
  {
    RateTimes(rate, before, 1);
  }

  lemma NotRefilled(l: Limit, b: Bucket, period: nat, tat: int, before: nat)
    requires l.rate > 0.0 && l.burst >= 1 && Empty(l, b, period, tat, 0) && before + 1 == period
    ensures l.rate * period as real < 1.0 + l.rate
  {
    EmptyAnswers(l, b, period, tat, before);
    RateLess(l.rate, period, before);
  }

  lemma NoPeriod(l: Limit, b: Bucket, tat: int)
    requires l.rate > 0.0 && l.burst >= 1
    ensures !Empty(l, b, 0, tat, 0)
  {
    if Empty(l, b, 0, tat, 0) {
      EmptyAnswers(l, b, 0, tat, 0);
    }
  }

  /** So the period must be the first whole nanosecond by which a token is refilled. */
  lemma PeriodIsCeiling(l: Limit, period: nat)
    requires l.rate > 0.0 && l.burst >= 1 && AgreeAlways(l, period)
    ensures Ceiling(l.rate, period)
  {
    var b := DrainFull(l, period);
    NoPeriod(l, b, period * l.burst);
    EmptyAnswers(l, b, period, period * l.burst, period);
    NotRefilled(l, b, period, period * l.burst, period - 1);
  }

  // With a burst of two or more, what the bucket gains in each period adds up to a token early.

  function Min(a: real, b: real): real {
    if a <= b then a else b
  }

  lemma GcraOnTheDot(period: nat, burst: nat, now: int)
    requires burst >= 1
    ensures GcraTake(period, burst, now + period * burst, now + period) == (true, now + period + period * burst)
    ensures period >= 1 ==> !GcraTake(period, burst, now + period * burst, now + period - 1).0
  {
    MulMonotone(period, 1, burst);
  }

  /** Both have taken all they could up to now; the bucket has `extra` beyond that, capped at a token. */
  ghost predicate Gained(l: Limit, b: Bucket, period: nat, extra: real, now: int) {
    && Sound(l, b, now) && AgreeFrom(l, b, period, now + period * l.burst, now)
    && Level(l, b, now) >= Min(extra, 1.0)
  }

  lemma LevelAfter(l: Limit, b: Bucket, now: int, gap: nat, had: real, earned: real)
    requires l.rate > 0.0 && l.burst >= 2 && Sound(l, b, now) && Level(l, b, now) >= had
    requires earned == l.rate * gap as real
    ensures Level(l, b, now + gap) >= Min(had + earned, 2.0)
  {
    LevelLater(l, b, now, now + gap);
    assert Earned(l.rate, now, now + gap) == earned;
  }

  lemma GainStep(l: Limit, b: Bucket, period: nat, gain: real, extra: real, now: int)
    requires l.rate > 0.0 && l.burst >= 2 && gain > 0.0 && l.rate * period as real == 1.0 + gain
    requires Gained(l, b, period, extra, now)
    ensures Gained(l, Take(l, b, now + period).1, period, extra + gain, now + period)
  {
    GcraOnTheDot(period, l.burst, now);
    AgreeStep(l, b, period, now + period * l.burst, now, now + period);
    LevelAfter(l, b, now, period, Min(extra, 1.0), 1.0 + gain);
    SoundLater(l, b, now, now + period);
    TakeSound(l, b, now + period);
    TakeCost(l, b, now + period);
  }

  lemma SoundLater(l: Limit, b: Bucket, now: int, later: int)
    requires Sound(l, b, now) && now <= later
    ensures Sound(l, b, later)
  {
  }

  lemma EarlyToken(extra: real, gain: real, rate: real, level: real)
    requires rate <= 1.0 + gain && Min(Min(extra, 1.0) + (1.0 + gain - rate), 2.0) <= level < 1.0
    ensures extra + gain < rate
  {
  }

  lemma EarlyLevel(l: Limit, b: Bucket, period: nat, gain: real, extra: real, now: int)
    requires l.rate > 0.0 && l.burst >= 2 && l.rate * period as real == 1.0 + gain && period >= 1
    requires Gained(l, b, period, extra, now)
    ensures Level(l, b, now + period - 1) >= Min(Min(extra, 1.0) + (1.0 + gain - l.rate), 2.0)
  {
    RateLess(l.rate, period, period - 1);
    LevelAfter(l, b, now, period - 1, Min(extra, 1.0), 1.0 + gain - l.rate);
  }

  /** One nanosecond before a period is over, GCRA refuses; the bucket must not have gained a nanosecond's worth. */
  lemma NotYetGained(l: Limit, b: Bucket, period: nat, gain: real, extra: real, now: int)
    requires l.rate > 0.0 && l.burst >= 2 && l.rate * period as real == 1.0 + gain && period >= 1
    requires Gained(l, b, period, extra, now)
    ensures extra + gain < l.rate
  {
    GcraOnTheDot(period, l.burst, now);
    AgreeStep(l, b, period, now + period * l.burst, now, now + period - 1);
    RateAtLeast(l.rate, period);
    EarlyLevel(l, b, period, gain, extra, now);
    EarlyToken(extra, gain, l.rate, Level(l, b, now + period - 1));
  }

  lemma RateAtLeast(rate: real, period: nat)
    requires rate > 0.0 && period >= 1
    ensures rate <= rate * period as real
  {
  }

  lemma AtLeastOne(rate: real, period: nat)
    requires Ceiling(rate, period)
    ensures period >= 1
  {
  }

  lemma {:induction false} KeepsGaining(l: Limit, period: nat, gain: real, j: nat) returns (b: Bucket, now: int)
    requires l.rate > 0.0 && l.burst >= 2 && gain > 0.0 && l.rate * period as real == 1.0 + gain
    requires AgreeAlways(l, period)
    ensures Gained(l, b, period, Times(j, gain), now)
    decreases j
  {
    if j == 0 {
      b := DrainFull(l, period);
      now := 0;
    } else {
      b, now := KeepsGaining(l, period, gain, j - 1);
      GainStep(l, b, period, gain, Times(j - 1, gain), now);
      b, now := Take(l, b, now + period).1, now + period;
    }
  }

  /** So with such a burst nothing may be gained at all. */
  lemma PeriodIsExact(l: Limit, period: nat)
    requires l.rate > 0.0 && l.burst >= 2 && AgreeAlways(l, period)
    ensures l.rate * period as real == 1.0
  {
    PeriodIsCeiling(l, period);
    AtLeastOne(l.rate, period);
    var gain := l.rate * period as real - 1.0;
    if gain > 0.0 {
      var k := Archimedes(l.rate, gain);
      var b, now := KeepsGaining(l, period, gain, k);
      TimesIsProduct(k, gain);
      NotYetGained(l, b, period, gain, Times(k, gain), now);
    }
  }

  lemma Archimedes(x: real, step: real) returns (k: nat)
    requires x > 0.0 && step > 0.0
    ensures k as real * step >= x
  {
    var q := x / step;
    assert q * step == x;
    k := q.Floor + 1;
    ScaleUp(q, k as real, step);
  }

  lemma ScaleUp(a: real, b: real, x: real)
    requires a <= b && x > 0.0
    ensures a * x <= b * x
  {
  }

  // With a burst of one there is nothing to gain.

  /** The bucket is full exactly when the tat has passed. */
  ghost predicate OneToken(l: Limit, b: Bucket, tat: int, now: int) {
    Sound(l, b, now) && forall at :: now <= at ==> (Level(l, b, at) >= 1.0 <==> tat <= at)
  }

  lemma RefilledLevel(l: Limit, now: int, at: int)
    requires l.burst == 1 && now <= at
    ensures Level(l, Bucket(0.0, now), at) >= 1.0 <==> l.rate * (at - now) as real >= 1.0
  {
  }

  lemma RefilledIff(l: Limit, period: nat, now: int, at: int)
    requires l.rate > 0.0 && l.burst == 1 && Ceiling(l.rate, period) && now <= at
    ensures Level(l, Bucket(0.0, now), at) >= 1.0 <==> now + period <= at
  {
    RefilledLevel(l, now, at);
    CeilingIff(l.rate, period, at - now);
  }

  lemma CeilingIff(rate: real, period: nat, gap: int)
    requires rate > 0.0 && Ceiling(rate, period)
    ensures rate * gap as real >= 1.0 <==> gap >= period
  {
    if gap >= period {
      RateMonotone(rate, period, gap, rate * period as real, rate * gap as real);
    } else {
      RateLess(rate, period, period - 1);
      RateMonotone(rate, gap, period - 1, rate * gap as real, rate * period as real - rate);
    }
  }

  lemma RateMonotone(rate: real, a: int, b: int, x: real, y: real)
    requires rate > 0.0 && a <= b && x == rate * a as real && y == rate * b as real
    ensures x <= y
  {
    RateTimes(rate, a, b - a);
    assert rate * (b - a) as real >= 0.0;
  }

  lemma {:induction false} OneTokenAgrees(l: Limit, b: Bucket, period: nat, tat: int, times: seq<int>, now: int)
    requires l.rate > 0.0 && l.burst == 1 && Ceiling(l.rate, period)
    requires OneToken(l, b, tat, now) && OrderedFrom(times, now)
    ensures BucketAnswers(l, b, times) == GcraAnswers(period, 1, tat, times)
    decreases times
  {
    if times != [] {
      var at := times[0];
      LevelBounds(l, b, at);
      if tat <= at {
        forall later | at <= later ensures Level(l, Bucket(0.0, at), later) >= 1.0 <==> at + period <= later {
          RefilledIff(l, period, at, later);
        }
        assert Take(l, b, at) == (true, Bucket(0.0, at)) && GcraTake(period, 1, tat, at) == (true, at + period);
        OneTokenAgrees(l, Bucket(0.0, at), period, at + period, times[1..], at);
      } else {
        assert Take(l, b, at) == (false, b) && GcraTake(period, 1, tat, at) == (false, tat);
        OneTokenAgrees(l, b, period, tat, times[1..], at);
      }
    }
  }

  // With no burst at all both refuse everything, unless the period is zero.

  lemma {:induction false} NoBurstAgrees(l: Limit, b: Bucket, period: nat, tat: int, times: seq<int>, now: int)
    requires l.burst == 0 && period >= 1
    ensures BucketAnswers(l, b, times) == GcraAnswers(period, 0, tat, times)
    decreases times
  {
    if times != [] {
      assert !Take(l, b, times[0]).0 && !GcraTake(period, 0, tat, times[0]).0;
      NoBurstAgrees(l, b, period, tat, times[1..], times[0]);
    }
  }

  lemma NoBurstIff(l: Limit, period: nat)
    requires l.rate > 0.0 && l.burst == 0
    ensures AgreeAlways(l, period) <==> period >= 1
  {
    if period >= 1 {
      forall start, times | OrderedFrom(times, start)
        ensures BucketAnswers(l, Full(l, start), times) == GcraAnswers(period, l.burst, start, times)
      {
        NoBurstAgrees(l, Full(l, start), period, start, times, start);
      }
    } else if AgreeAlways(l, period) {
      assert AgreeFrom(l, Full(l, 0), period, 0, 0);
      AgreeStep(l, Full(l, 0), period, 0, 0, 0);
    }
  }

  lemma OneBurstIff(l: Limit, period: nat)
    requires l.rate > 0.0 && l.burst == 1
    ensures AgreeAlways(l, period) <==> Ceiling(l.rate, period)
  {
    if Ceiling(l.rate, period) {
      forall start, times | OrderedFrom(times, start)
        ensures BucketAnswers(l, Full(l, start), times) == GcraAnswers(period, l.burst, start, times)
      {
        FullIsOneToken(l, start);
        OneTokenAgrees(l, Full(l, start), period, start, times, start);
      }
    }
    if AgreeAlways(l, period) {
      PeriodIsCeiling(l, period);
    }
  }

  lemma FullIsOneToken(l: Limit, start: int)
    requires l.rate > 0.0 && l.burst == 1
    ensures OneToken(l, Full(l, start), start, start)
  {
    forall at | start <= at ensures Level(l, Full(l, start), at) >= 1.0 {
      LevelBounds(l, Full(l, start), at);
    }
  }

  /**
   Main result, for every rate, burst and period. The two stores take the same decision on every timed call
   sequence of a key iff the period is exactly the time per token, or is its ceiling and the burst is one,
   or there is no burst and the period is not zero.
   */
  lemma StoresAgreeIff(l: Limit, period: nat)
    requires l.rate > 0.0
    ensures AgreeAlways(l, period) <==>
              if l.burst == 0 then period >= 1
              else if l.burst == 1 then Ceiling(l.rate, period)
              else l.rate * period as real == 1.0
  {
    if l.burst == 0 {
      NoBurstIff(l, period);
    } else if l.burst == 1 {
      OneBurstIff(l, period);
    } else {
      if AgreeAlways(l, period) {
        PeriodIsExact(l, period);
      }
      if l.rate * period as real == 1.0 {
        forall start, times | OrderedFrom(times, start)
          ensures BucketAnswers(l, Full(l, start), times) == GcraAnswers(period, l.burst, start, times)
        {
          ExactPeriodAgrees(l, Full(l, start), period, start, times, start);
        }
      }
    }
  }
}
