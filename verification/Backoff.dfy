/** How long a block lasts: the clamped formula of the Redis store and the wrapping one in memory. */
module Backoff {
  import opened Bytes

  const MAX_BACKOFF_FACTOR := 32
  const SECOND := 1_000_000_000
  const MINUTE := 60 * SECOND
  const HOUR := 60 * MINUTE
  const MAX_BLOCK_DURATION := 10 * 365 * 24 * HOUR

  function Pow2(n: nat): (p: nat)
    ensures p >= 1
  {
    if n == 0 then 1 else 2 * Pow2(n - 1)
  }

  /** 1 << min(offenses-1, maxBackoffFactor). */
  function Factor(offenses: nat): (f: nat)
    requires offenses >= 1
    ensures f >= 1
  {
    Pow2(if offenses - 1 < MAX_BACKOFF_FACTOR then offenses - 1 else MAX_BACKOFF_FACTOR)
  }

  /** blockDuration in redislimiterstore.go. */
  function BlockDuration(base: int, offenses: nat): int
    requires offenses >= 1
  {
    if base <= 0 then 0
    else if base > MAX_INT64 / Factor(offenses) then MAX_BLOCK_DURATION
    else Wrap64(base * Factor(offenses))
  }

  /** baseDuration * time.Duration(factor) in limiterstore.go. */
  function MemoryDuration(base: int, offenses: nat): int
    requires offenses >= 1
  {
    Wrap64(base * Factor(offenses))
  }

  /** The unwrapped product fits a time.Duration. */
  predicate Fits(base: int, offenses: nat)
    requires offenses >= 1
  {
    base * Factor(offenses) <= MAX_INT64
  }

  lemma Pow2_32()
    ensures Pow2(32) == 0x1_0000_0000
  {
    assert Pow2(8) == 256;
    assert Pow2(16) == 0x1_0000 by { assert Pow2(12) == 4096; }
    assert Pow2(24) == 0x100_0000 by { assert Pow2(20) == 0x10_0000; }
    assert Pow2(28) == 0x1000_0000;
  }

  lemma {:induction false} Pow2Monotone(m: nat, n: nat)
    requires m <= n
    ensures Pow2(m) <= Pow2(n)
  {
    if m < n {
      Pow2Monotone(m, n - 1);
    }
  }

  lemma FactorMonotone(k: nat, k': nat)
    requires 1 <= k <= k'
    ensures Factor(k) <= Factor(k') <= Factor(33)
  {
    Pow2Monotone(if k - 1 < 32 then k - 1 else 32, if k' - 1 < 32 then k' - 1 else 32);
    Pow2Monotone(if k' - 1 < 32 then k' - 1 else 32, 32);
  }

  lemma ProductMonotone(base: int, a: nat, b: nat)
    requires base > 0 && a <= b
    ensures base * a <= base * b
  {
  }

  lemma FitsMonotone(base: int, k: nat, k': nat)
    requires base > 0 && 1 <= k <= k' && Fits(base, k')
    ensures Fits(base, k)
  {
    FactorMonotone(k, k');
    ProductMonotone(base, Factor(k), Factor(k'));
  }

  lemma FitsEverywhere(base: int, k: nat)
    requires base > 0 && k >= 1 && Fits(base, 33)
    ensures Fits(base, k)
  {
    FactorMonotone(k, k);
    ProductMonotone(base, Factor(k), Factor(33));
  }

  lemma QuotientBounds(a: nat, b: nat)
    requires b >= 1
    ensures b * (a / b) <= a < b * (a / b + 1)
  {
    assert a == b * (a / b) + a % b;
  }

  lemma FitsByDivision(base: int, factor: nat)
    requires base > 0 && factor >= 1
    ensures base > MAX_INT64 / factor <==> base * factor > MAX_INT64
  {
    var q := MAX_INT64 / factor;
    QuotientBounds(MAX_INT64, factor);
    Commute(base, factor);
    if base > q {
      ProductMonotone(factor, q + 1, base);
    } else {
      ProductMonotone(factor, base, q);
    }
  }

  lemma Commute(a: int, b: int)
    ensures a * b == b * a
  {
  }

  lemma Doubling(base: int, a: nat, b: nat)
    requires base > 0 && b <= 2 * a
    ensures base * b <= 2 * (base * a)
  {
    ProductMonotone(base, b, 2 * a);
    assert base * (2 * a) == 2 * (base * a);
  }

  /** Exactly base * 2^min(k-1, 32) while that fits an int64, exactly ten years otherwise; always positive. */
  lemma BlockDurationExactly(base: int, offenses: nat)
    requires base > 0 && offenses >= 1
    ensures BlockDuration(base, offenses)
         == if Fits(base, offenses) then base * Factor(offenses) else MAX_BLOCK_DURATION
    ensures 0 < BlockDuration(base, offenses) <= MAX_INT64
  {
    FitsByDivision(base, Factor(offenses));
    ProductMonotone(base, 1, Factor(offenses));
    var product := base * Factor(offenses);
    assert product >= base;
    assert Fits(base, offenses) ==> Wrap64(product) == product;
  }

  /** Once the product stops fitting it never fits again, so every later block lasts ten years. */
  lemma OverflowIsPermanent(base: int, k: nat, k': nat)
    requires base > 0 && 1 <= k <= k' && !Fits(base, k)
    ensures !Fits(base, k') && BlockDuration(base, k') == MAX_BLOCK_DURATION
  {
    if Fits(base, k') {
      FitsMonotone(base, k, k');
    }
    BlockDurationExactly(base, k');
  }

  /** Where the product fits, both stores block for the same time. */
  lemma StoresAgreeWhereItFits(base: int, offenses: nat)
    requires base > 0 && offenses >= 1 && Fits(base, offenses)
    ensures MemoryDuration(base, offenses) == BlockDuration(base, offenses) == base * Factor(offenses)
  {
    BlockDurationExactly(base, offenses);
  }

  /** The memory store agrees with the Redis store at every offense count iff the largest product fits. */
  lemma StoresAgreeAlwaysIff(base: int)
    requires 0 < base <= MAX_INT64
    ensures (forall k: nat :: k >= 1 ==> MemoryDuration(base, k) == BlockDuration(base, k)) <==> Fits(base, 33)
  {
    if Fits(base, 33) {
      forall k: nat | k >= 1 ensures MemoryDuration(base, k) == BlockDuration(base, k) {
        FitsEverywhere(base, k);
        StoresAgreeWhereItFits(base, k);
      }
    } else {
      StoresDisagreeAtTheCap(base);
    }
  }

  lemma StoresDisagreeAtTheCap(base: int)
    requires base > 0 && !Fits(base, 33)
    ensures MemoryDuration(base, 33) != BlockDuration(base, 33)
  {
    BlockDurationExactly(base, 33);
    Pow2_32();
    WrappedMultiple(base);
  }

  /** A wrapped multiple of 2^32 is a multiple of 2^32; ten years in nanoseconds is not. */
  lemma WrappedMultiple(base: int)
    ensures Wrap64(base * 0x1_0000_0000) % 0x1_0000_0000 == 0
    ensures MAX_BLOCK_DURATION % 0x1_0000_0000 != 0
  {
  }

  /**
   Redis blocks never get shorter with repeated offenses iff the product never overflows: the step that
   first overflows cuts a block of more than 146 years down to ten.
   */
  lemma BackoffMonotoneIff(base: int)
    requires 0 < base <= MAX_INT64
    ensures (forall k: nat :: k >= 1 ==> BlockDuration(base, k) <= BlockDuration(base, k + 1)) <==> Fits(base, 33)
  {
    if Fits(base, 33) {
      forall k: nat | k >= 1 ensures BlockDuration(base, k) <= BlockDuration(base, k + 1) {
        FitsEverywhere(base, k);
        FitsEverywhere(base, k + 1);
        FactorMonotone(k, k + 1);
        ProductMonotone(base, Factor(k), Factor(k + 1));
        BlockDurationExactly(base, k);
        BlockDurationExactly(base, k + 1);
      }
    } else {
      var k := LastFitting(base, 33);
      ShorterAfterOverflow(base, k);
    }
  }

  lemma ShorterAfterOverflow(base: int, k: nat)
    requires base > 0 && k >= 1 && Fits(base, k) && !Fits(base, k + 1)
    ensures BlockDuration(base, k + 1) == MAX_BLOCK_DURATION < 146 * 365 * 24 * HOUR < BlockDuration(base, k)
  {
    BlockDurationExactly(base, k);
    BlockDurationExactly(base, k + 1);
    Doubling(base, Factor(k), Factor(k + 1));
  }

  lemma {:induction false} LastFitting(base: int, n: nat) returns (k: nat)
    requires n >= 1 && Fits(base, 1) && !Fits(base, n)
    ensures 1 <= k < n && Fits(base, k) && !Fits(base, k + 1)
  {
    if Fits(base, n - 1) {
      k := n - 1;
    } else {
      k := LastFitting(base, n - 1);
    }
  }

  /** The first product that overflows wraps to a negative duration. */
  lemma FirstOverflowIsNegative(base: int, k: nat)
    requires base > 0 && k >= 1 && Fits(base, k) && !Fits(base, k + 1)
    ensures MemoryDuration(base, k + 1) < 0
  {
    Doubling(base, Factor(k), Factor(k + 1));
    WrapsNegative(base * Factor(k + 1));
  }

  lemma WrapsNegative(product: int)
    requires MAX_INT64 < product <= 2 * MAX_INT64
    ensures Wrap64(product) < 0
  {
  }

  /** The memory store's duration is positive at every offense count iff the largest product fits. */
  lemma MemoryPositiveIff(base: int)
    requires 0 < base <= MAX_INT64
    ensures (forall k: nat :: k >= 1 ==> MemoryDuration(base, k) > 0) <==> Fits(base, 33)
  {
    if Fits(base, 33) {
      forall k: nat | k >= 1 ensures MemoryDuration(base, k) > 0 {
        FitsEverywhere(base, k);
        StoresAgreeWhereItFits(base, k);
        BlockDurationExactly(base, k);
      }
    } else {
      var k := LastFitting(base, 33);
      FirstOverflowIsNegative(base, k);
    }
  }

  // Two offense counts give one duration in memory only by chance of wrapping, and that never happens.

  lemma OddProduct(x: int, y: int)
    ensures (2 * x + 1) * (2 * y + 1) == 2 * (2 * (x * y) + x + y) + 1
  {
  }

  lemma OddTimesOdd(x: int, y: int) returns (half: int)
    ensures (2 * x + 1) * (2 * y + 1) == 2 * half + 1
  {
    OddProduct(x, y);
    half := 2 * (x * y) + x + y;
  }

  lemma Halves(m: int, b: int)
    requires m % 2 == 1 && m * b % 2 == 0
    ensures b % 2 == 0
  {
    if b % 2 == 1 {
      var half := OddTimesOdd(m / 2, b / 2);
      assert false;
    }
  }

  /** 2^n divides b if it divides an odd multiple of b. */
  lemma {:induction false} OddMultiple(m: int, b: int, n: nat, q: int) returns (r: int)
    requires m % 2 == 1 && m * b == Pow2(n) * q
    ensures b == Pow2(n) * r
    decreases n
  {
    if n == 0 {
      r := b;
    } else {
      EvenProduct(n, q);
      Halves(m, b);
      var half := b / 2;
      HalfProducts(m, half, n, q);
      r := OddMultiple(m, half, n - 1, q);
      assert b == 2 * half;
      TwiceProduct(n, r);
    }
  }

  lemma TwiceProduct(n: nat, q: int)
    requires n >= 1
    ensures Pow2(n) * q == 2 * (Pow2(n - 1) * q)
  {
    assert Pow2(n) == 2 * Pow2(n - 1);
    assert 2 * Pow2(n - 1) * q == 2 * (Pow2(n - 1) * q);
  }

  lemma EvenProduct(n: nat, q: int)
    requires n >= 1
    ensures Pow2(n) * q % 2 == 0
  {
    TwiceProduct(n, q);
  }

  lemma HalfProducts(m: int, half: int, n: nat, q: int)
    requires n >= 1 && m * (2 * half) == Pow2(n) * q
    ensures m * half == Pow2(n - 1) * q
  {
    TwiceProduct(n, q);
    assert m * (2 * half) == 2 * (m * half);
  }

  lemma FactorEven(k: nat) returns (half: nat)
    requires k >= 2
    ensures Factor(k) == 2 * half
  {
    var n := if k - 1 < MAX_BACKOFF_FACTOR then k - 1 else MAX_BACKOFF_FACTOR;
    half := Pow2(n - 1);
  }

  lemma Pow2_64()
    ensures Pow2(64) == 0x1_0000_0000_0000_0000
  {
    Pow2_32();
    Pow2Adds(32, 32);
  }

  lemma {:induction false} Pow2Adds(m: nat, n: nat)
    ensures Pow2(m + n) == Pow2(m) * Pow2(n)
  {
    if m > 0 {
      Pow2Adds(m - 1, n);
      assert 2 * Pow2(m - 1) * Pow2(n) == 2 * (Pow2(m - 1) * Pow2(n));
    }
  }

  lemma WrapDifference(x: int) returns (q: int)
    ensures x == Wrap64(x) + 0x1_0000_0000_0000_0000 * q
  {
    var w := 0x1_0000_0000_0000_0000;
    assert x == x / w * w + x % w;
    q := if x % w <= MAX_INT64 then x / w else x / w + 1;
  }

  lemma OneLess(base: int, f: int)
    ensures (f - 1) * base == base * f - base
  {
  }

  lemma FixedByFactor(base: int, f: int, half: int, q: int)
    requires InInt64(base) && f == 2 * half && base * f - base == 0x1_0000_0000_0000_0000 * q
    ensures base == 0
  {
    OneLess(base, f);
    Pow2_64();
    assert (f - 1) % 2 == 1;
    var r := OddMultiple(f - 1, base, 64, q);
    OnlyZero(base, r);
  }

  /** A repeated offense never lasts as long as a first one: no wrapping brings the first duration back. */
  lemma RepeatedDurationDiffers(base: int, k: nat)
    requires InInt64(base) && base != 0 && k >= 2
    ensures MemoryDuration(base, k) != MemoryDuration(base, 1)
  {
    assert Factor(1) == 1;
    var f := Factor(k);
    var half := FactorEven(k);
    var q := WrapDifference(base * f);
    if Wrap64(base * f) == base {
      FixedByFactor(base, f, half, q);
    }
  }

  lemma OnlyZero(base: int, r: int)
    requires InInt64(base) && base == 0x1_0000_0000_0000_0000 * r
    ensures base == 0
  {
  }

  /**
   With the default 12-hour failed-login block, the nineteenth offense wraps to a negative duration in
   memory while Redis blocks for ten years.
   */
  lemma NineteenthDefaultOffense()
    ensures MemoryDuration(12 * HOUR, 19) < 0 && BlockDuration(12 * HOUR, 19) == MAX_BLOCK_DURATION
  {
    assert Pow2(6) == 64;
    assert Pow2(12) == 4096;
    assert Pow2(18) == 262144;
    BlockDurationExactly(12 * HOUR, 19);
  }

  // In numbers.

  /** The factor doubles with each offense and stays at 2^32 from the 33rd on. */
  lemma FactorInNumbers(k: nat)
    requires k >= 1
    ensures Factor(1) == 1
    ensures k <= 32 ==> Factor(k + 1) == 2 * Factor(k)
    ensures k >= 33 ==> Factor(k) == 0x1_0000_0000
  {
    Pow2_32();
  }

  /** Ten years in nanoseconds. */
  lemma LongestBlock(base: int, k: nat)
    requires k >= 1
    ensures base <= 0 ==> BlockDuration(base, k) == 0
    ensures base > 0 && base * Factor(k) > 9_223_372_036_854_775_807 ==>
              BlockDuration(base, k) == 10 * 365 * 24 * 3600 * 1_000_000_000
  {
    if base > 0 {
      BlockDurationExactly(base, k);
    }
  }
}
