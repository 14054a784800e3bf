/** The contract of golang.org/x/time/rate: a bucket refilled at a constant rate up to its burst. */
module TokenBucket {

  /** rate is in tokens per nanosecond. */
  datatype Limit = Limit(rate: real, burst: nat)

  datatype Bucket = Bucket(tokens: real, last: int)

  /** Tokens refilled between two instants in nanoseconds; a clock that stepped back refills nothing. */
  function Earned(rate: real, since: int, now: int): real {
    if now < since then 0.0 else rate * (now - since) as real
  }

  function Capped(tokens: real, burst: nat): real {
    if tokens > burst as real then burst as real else tokens
  }

  /** The tokens in the bucket at `now`. */
  function Level(l: Limit, b: Bucket, now: int): real {
    Capped(b.tokens + Earned(l.rate, b.last, now), l.burst)
  }

  /** Limiter.Allow: takes one token if there is one; a refused call changes nothing. */
  function Take(l: Limit, b: Bucket, now: int): (bool, Bucket) {
    if Level(l, b, now) >= 1.0 then (true, Bucket(Level(l, b, now) - 1.0, now)) else (false, b)
  }

  /** A new limiter starts full. */
  function Full(l: Limit, now: int): Bucket {
    Bucket(l.burst as real, now)
  }

  predicate Sound(l: Limit, b: Bucket, now: int) {
    l.rate >= 0.0 && 0.0 <= b.tokens <= l.burst as real && b.last <= now
  }

  lemma EarnedNonNegative(rate: real, since: int, now: int)
    requires rate >= 0.0
    ensures Earned(rate, since, now) >= 0.0
  {
  }

  lemma EarnedAdds(rate: real, a: int, b: int, c: int)
    requires a <= b <= c
    ensures Earned(rate, a, c) == Earned(rate, a, b) + Earned(rate, b, c)
  {
    assert (c - a) as real == (b - a) as real + (c - b) as real;
  }

  lemma EarnedMonotone(rate: real, since: int, now: int, n: int)
    requires rate >= 0.0 && since <= now && n <= now - since
    ensures rate * n as real <= Earned(rate, since, now)
  {
  }

  lemma LevelBounds(l: Limit, b: Bucket, now: int)
    requires Sound(l, b, now)
    ensures 0.0 <= b.tokens <= Level(l, b, now) <= l.burst as real
  {
    EarnedNonNegative(l.rate, b.last, now);
  }

  lemma TakeSound(l: Limit, b: Bucket, now: int)
    requires Sound(l, b, now)
    ensures Sound(l, Take(l, b, now).1, now)
  {
    LevelBounds(l, b, now);
  }

  /** A call costs exactly one token if it is allowed and nothing if it is refused. */
  lemma TakeCost(l: Limit, b: Bucket, now: int)
    requires Sound(l, b, now)
    ensures Level(l, Take(l, b, now).1, now) == Level(l, b, now) - if Take(l, b, now).0 then 1.0 else 0.0
  {
    LevelBounds(l, b, now);
  }

  /** The level later is the level now plus what is refilled in between, up to the burst. */
  lemma LevelLater(l: Limit, b: Bucket, now: int, later: int)
    requires Sound(l, b, now) && now <= later
    ensures Level(l, b, later) == Capped(Level(l, b, now) + Earned(l.rate, now, later), l.burst)
  {
    EarnedAdds(l.rate, b.last, now, later);
    EarnedNonNegative(l.rate, now, later);
  }

  // Repeated sums.

  /** n * x as a repeated sum, which keeps products out of inductions. */
  function Times(n: nat, x: real): real {
    if n == 0 then 0.0 else Times(n - 1, x) + x
  }

  lemma {:induction false} TimesIsProduct(n: nat, x: real)
    ensures Times(n, x) == n as real * x
  {
    if n > 0 {
      TimesIsProduct(n - 1, x);
      OneMore((n - 1) as real, x);
    }
  }

  lemma OneMore(n: real, x: real)
    ensures (n + 1.0) * x == n * x + x
  {
  }

  lemma {:induction false} TimesAdds(m: nat, n: nat, x: real)
    ensures Times(m + n, x) == Times(m, x) + Times(n, x)
  {
    if m > 0 {
      TimesAdds(m - 1, n, x);
    }
  }

  lemma {:induction false} TimesNonNegative(n: nat, x: real)
    requires x >= 0.0
    ensures Times(n, x) >= 0.0
  {
    if n > 0 {
      TimesNonNegative(n - 1, x);
    }
  }
}
