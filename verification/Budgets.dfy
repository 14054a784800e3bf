/**
 The limiters' budgets as their constructors compute them in float64: the rate of the memory buckets and the
 period given to Redis, and when the two are the same limit.
 */
module Budgets {
  import opened Float64
  import opened Backoff
  import opened TokenBucket
  import opened Gcra

  datatype Budget = Budget(limit: Limit, period: nat) {
    predicate Valid() {
      limit.rate > 0.0
    }
  }

  /** A rate per second as both stores are given it. */
  function OfRate(ratePerSec: real, burst: nat): (b: Budget)
    requires ratePerSec > 0.0
    ensures b.Valid()
  {
    Budget(Limit(ratePerSec / SECOND as real, burst), RedisPeriod(ratePerSec))
  }

  // Products. Times(n, r) is n * r.

  lemma Associates(a: real, b: real, c: real)
    ensures (a * b) * c == a * (b * c)
  {
  }

  lemma AtMostScaled(a: real, b: real, z: real)
    requires a <= b && z >= 0.0
    ensures a * z <= b * z
  {
  }

  lemma BelowScaled(a: real, b: real, z: real)
    requires a < b && z > 0.0
    ensures a * z < b * z
  {
  }

  lemma SameFactor(a: real, b: real, z: real)
    requires a * z == b * z && a * z != 0.0
    ensures a == b
  {
  }

  lemma Quotient(a: real, r: real, q: real)
    requires r > 0.0 && r * q == a
    ensures a / r == q
  {
  }

  lemma WholeProduct(n: nat, m: nat)
    ensures (n * m) as real == n as real * m as real
  {
  }

  lemma TimesMonotone(r: real, a: nat, b: nat)
    requires r > 0.0 && a <= b
    ensures Times(a, r) <= Times(b, r)
  {
    TimesAdds(a, b - a, r);
    TimesNonNegative(b - a, r);
  }

  /** More tokens take more time. */
  lemma TimesOrder(r: real, a: nat, b: nat)
    requires r > 0.0 && Times(a, r) < Times(b, r) + r
    ensures a <= b
  {
    if b + 1 <= a {
      TimesMonotone(r, b + 1, a);
    }
  }

  // Division.

  lemma Division(m: nat, a: nat)
    requires a > 0
    ensures a * (m / a) <= m < a * (m / a) + a && (a * (m / a) == m <==> m % a == 0)
  {
  }

  lemma ProductOrder(a: nat, x: nat, y: nat)
    ensures x <= y ==> a * x <= a * y
  {
  }

  lemma Factors(a: nat, q: nat, m: nat)
    requires a * q == m && m > 0
    ensures a <= m && q <= m
  {
  }

  lemma Divides(m: nat, a: nat)
    requires a > 0 && m > 0 && m % a == 0
    ensures a * (m / a) == m && a <= m && m / a <= m
  {
    Division(m, a);
    Factors(a, m / a, m);
  }

  lemma SameQuotient(a: nat, q: nat, p: nat)
    requires a > 0 && a * p <= a * q < a * p + a
    ensures p == q
  {
    MulStep(a, p + 1);
    MulStep(a, q + 1);
    ProductOrder(a, p + 1, q);
    ProductOrder(a, q + 1, p);
  }

  lemma FactorDivides(m: nat, a: nat, q: nat)
    requires a > 0 && a * q == m
    ensures m % a == 0
  {
    Division(m, a);
    SameQuotient(a, q, m / a);
  }

  // One rate, two stores.

  /** Each period refills exactly one token; in billionths, a second's worth. */
  predicate Balanced(ratePerSec: real, period: nat) {
    Times(period, ratePerSec) == SECOND as real
  }

  /** Each period refills a token or more. */
  predicate Covered(ratePerSec: real, period: nat) {
    Times(period, ratePerSec) >= SECOND as real
  }

  lemma PerNano(r: real, period: nat)
    ensures (r / SECOND as real) * period as real == Times(period, r) / SECOND as real
  {
    TimesIsProduct(period, r);
  }

  lemma BalancedPerNano(r: real, period: nat)
    ensures (r / SECOND as real) * period as real == 1.0 <==> Balanced(r, period)
  {
    PerNano(r, period);
  }

  lemma CeilingPerNano(r: real, period: nat)
    ensures Ceiling(r / SECOND as real, period) <==> Covered(r, period) && Times(period, r) < SECOND as real + r
  {
    PerNano(r, period);
  }

  /** Tokens that miss a second's worth by a rounding at most, up to a nanosecond's truncation. */
  predicate Refills(r: real, tokens: real) {
    && TWO_53 as real * (tokens - SECOND as real) <= SECOND as real
    && TWO_53 as real * (SECOND as real - tokens - r) < SECOND as real
  }

  lemma ScaledByRate(r: real, exact: real, period: real)
    requires r > 0.0 && exact * r == SECOND as real
    requires TWO_53 as real * (period - exact) <= exact && TWO_53 as real * (exact - period - 1.0) < exact
    ensures Refills(r, period * r)
  {
    ErrorScaled(period - exact, exact, r);
    Difference(period, exact, r);
    ErrorScaledBelow(exact - period - 1.0, exact, r);
    Difference(exact - period, 1.0, r);
    Difference(exact, period, r);
  }

  lemma ErrorScaledBelow(e: real, bound: real, s: real)
    requires TWO_53 as real * e < bound && s > 0.0
    ensures TWO_53 as real * (e * s) < bound * s
  {
    BelowScaled(TWO_53 as real * e, bound, s);
    Associates(TWO_53 as real, e, s);
  }

  lemma FloorClose(exact: real, rounded: real)
    requires Close(rounded, exact)
    ensures var period := rounded.Floor as real;
            TWO_53 as real * (period - exact) <= exact && TWO_53 as real * (exact - period - 1.0) < exact
  {
  }

  lemma TruncatedTokens(r: real, exact: real, rounded: real, period: nat)
    requires r > 0.0 && exact * r == SECOND as real && Close(rounded, exact) && period == rounded.Floor
    ensures Refills(r, Times(period, r))
  {
    FloorClose(exact, rounded);
    ScaledByRate(r, exact, period as real);
    TimesIsProduct(period, r);
  }

  lemma PeriodTokens(r: real)
    requires r > 0.0
    ensures Refills(r, Times(RedisPeriod(r), r))
  {
    RoundClose(ExactPeriod(r));
    TruncatedTokens(r, ExactPeriod(r), Round(ExactPeriod(r)), RedisPeriod(r));
  }

  /** A rate of at least a token per three hours. */
  predicate Usable(r: real) {
    r > 0.0 && SECOND as real <= 3.0 * (HOUR as real * r)
  }

  /** A period never exceeds the exact one by a whole nanosecond. */
  lemma NoNanosecondMore(r: real, tokens: real)
    requires Usable(r) && Refills(r, tokens)
    ensures tokens < SECOND as real + r
  {
  }

  lemma StoresAgreeInSeconds(r: real, burst: nat, period: nat)
    requires r > 0.0 && Times(period, r) < SECOND as real + r
    ensures AgreeAlways(Limit(r / SECOND as real, burst), period) <==>
              if burst == 0 then period >= 1 else if burst == 1 then Covered(r, period) else Balanced(r, period)
  {
    StoresAgreeIff(Limit(r / SECOND as real, burst), period);
    if burst == 1 {
      CeilingPerNano(r, period);
    } else if burst >= 2 {
      BalancedPerNano(r, period);
    }
  }

  lemma RateStoresAgreeIff(r: real, burst: nat)
    requires Usable(r)
    ensures var b := OfRate(r, burst);
            AgreeAlways(b.limit, b.period) <==>
              if burst == 0 then b.period >= 1
              else if burst == 1 then Covered(r, b.period)
              else Balanced(r, b.period)
  {
    PeriodTokens(r);
    NoNanosecondMore(r, Times(RedisPeriod(r), r));
    StoresAgreeInSeconds(r, burst, RedisPeriod(r));
  }

  lemma BalancedPeriod(r: real, d: nat)
    requires r > 0.0 && d <= HOUR && Balanced(r, d)
    ensures RedisPeriod(r) == d
  {
    TimesIsProduct(d, r);
    Quotient(SECOND as real, r, d as real);
    RoundInt(d);
  }

  /** x is within three roundings' error of y. */
  predicate Within3(x: real, y: real) {
    -3.0 * y <= TWO_53 as real * (x - y) <= 3.0 * y
  }

  /** x is within five roundings' error of y. */
  predicate Within5(x: real, y: real) {
    -5.0 * y <= TWO_53 as real * (x - y) <= 5.0 * y
  }

  // The HTTP limiter.

  /** rate.Limit(requestsPerMinute) / 60.0 */
  function HttpRate(requestsPerMinute: nat): (r: real)
    requires requestsPerMinute > 0
    ensures r > 0.0
  {
    Round(Round(requestsPerMinute as real) / 60.0)
  }

  function HttpBudget(requestsPerMinute: int, burst: nat): (b: Budget)
    ensures requestsPerMinute > 0 ==> b.Valid()
  {
    if requestsPerMinute > 0 then OfRate(HttpRate(requestsPerMinute), burst) else Budget(Limit(0.0, burst), 0)
  }

  /** A rate that is requestsPerMinute over sixty but for rounding. */
  predicate IsHttpRate(requestsPerMinute: nat, r: real) {
    Within3(60.0 * r, requestsPerMinute as real)
  }

  lemma HttpRateWithin(requestsPerMinute: nat)
    requires requestsPerMinute > 0
    ensures IsHttpRate(requestsPerMinute, HttpRate(requestsPerMinute)) && Usable(HttpRate(requestsPerMinute))
  {
    RoundClose(requestsPerMinute as real);
    RoundClose(Round(requestsPerMinute as real) / 60.0);
    TwoRoundings(requestsPerMinute, Round(requestsPerMinute as real), HttpRate(requestsPerMinute));
  }

  lemma TwoRoundings(requestsPerMinute: nat, x: real, r: real)
    requires requestsPerMinute > 0 && r > 0.0 && Close(x, requestsPerMinute as real) && Close(r, x / 60.0)
    ensures IsHttpRate(requestsPerMinute, r) && Usable(r)
  {
  }

  lemma {:induction false} WithinTimes(requestsPerMinute: nat, r: real, n: nat)
    requires IsHttpRate(requestsPerMinute, r)
    ensures Within3(60.0 * Times(n, r), Times(n, requestsPerMinute as real))
  {
    if n > 0 {
      WithinTimes(requestsPerMinute, r, n - 1);
    }
  }

  lemma {:induction false} TimesWhole(n: nat, m: nat)
    ensures Times(n, m as real) == (m * n) as real
  {
    TimesIsProduct(n, m as real);
    WholeProduct(m, n);
  }

  lemma NearMinute(x: nat, tokens: real)
    requires Within3(60.0 * tokens, x as real)
    ensures TWO_53 as real * (tokens - SECOND as real) <= SECOND as real ==> x <= MINUTE
    ensures TWO_53 as real * (SECOND as real - tokens) < SECOND as real ==> x >= MINUTE
  {
  }

  lemma TokensOf(requestsPerMinute: nat, r: real, n: nat)
    requires IsHttpRate(requestsPerMinute, r)
    ensures Within3(60.0 * Times(n, r), (requestsPerMinute * n) as real)
  {
    WithinTimes(requestsPerMinute, r, n);
    TimesWhole(n, requestsPerMinute);
  }

  /** If a period refills one token, it is the whole quotient and the rate was not rounded. */
  lemma BalancedIsWhole(requestsPerMinute: nat, r: real, period: nat)
    requires IsHttpRate(requestsPerMinute, r) && Balanced(r, period)
    ensures requestsPerMinute * period == MINUTE && 60.0 * r == requestsPerMinute as real
  {
    TokensOf(requestsPerMinute, r, period);
    NearMinute(requestsPerMinute * period, Times(period, r));
    TimesIsProduct(period, r);
    WholeProduct(requestsPerMinute, period);
    Associates(60.0, r, period as real);
    SameFactor(60.0 * r, requestsPerMinute as real, period as real);
  }

  /** Doubling a sixtieth any number of times gives an integer only for multiples of 15. */
  lemma {:induction false} DyadicSixtieth(a: int, k: nat, m: int)
    requires Doubled(a as real / 60.0, k) == m as real
    ensures a % 15 == 0
    decreases k
  {
    if k > 0 {
      assert (2 * a) as real / 60.0 == 2.0 * (a as real / 60.0);
      DyadicSixtieth(2 * a, k - 1, m);
      HalfOf15s(a, 2 * a / 15);
    } else {
      assert a == 60 * m;
    }
  }

  lemma HalfOf15s(a: int, q: int)
    requires 2 * a == 15 * q
    ensures a % 15 == 0
  {
    assert a == 15 * (8 * q - a);
  }

  lemma UnroundedOnlyFor15(requestsPerMinute: nat)
    requires requestsPerMinute > 0 && 60.0 * HttpRate(requestsPerMinute) == requestsPerMinute as real
    ensures requestsPerMinute % 15 == 0
  {
    var k, m := RoundIsDyadic(Round(requestsPerMinute as real) / 60.0);
    DyadicSixtieth(requestsPerMinute, k, m);
  }

  lemma RateInQuarters(quarter: nat)
    requires 0 < 15 * quarter <= MINUTE
    ensures HttpRate(15 * quarter) == quarter as real / 4.0
  {
    RoundInt(15 * quarter);
    assert (15 * quarter) as real / 60.0 == quarter as real / 4.0;
    RoundQuarter(quarter);
  }

  lemma QuartersBalanced(quarter: nat, period: nat)
    requires (15 * quarter) * period == MINUTE
    ensures Balanced(quarter as real / 4.0, period)
  {
    assert 15 * (quarter * period) == MINUTE;
    WholeProduct(quarter, period);
    TimesIsProduct(period, quarter as real / 4.0);
    Quarter(quarter as real, period as real);
  }

  lemma Quarter(a: real, b: real)
    ensures b * (a / 4.0) == a * b / 4.0
  {
  }

  lemma WholeIsBalanced(requestsPerMinute: nat)
    requires requestsPerMinute > 0 && requestsPerMinute % 15 == 0 && MINUTE % requestsPerMinute == 0
    ensures Balanced(HttpRate(requestsPerMinute), RedisPeriod(HttpRate(requestsPerMinute)))
  {
    var quarter, period := requestsPerMinute / 15, MINUTE / requestsPerMinute;
    assert requestsPerMinute == 15 * quarter;
    Divides(MINUTE, requestsPerMinute);
    RateInQuarters(quarter);
    QuartersBalanced(quarter, period);
    BalancedPeriod(quarter as real / 4.0, period);
  }

  lemma OnlyWholeIsBalanced(requestsPerMinute: nat)
    requires requestsPerMinute > 0
    requires Balanced(HttpRate(requestsPerMinute), RedisPeriod(HttpRate(requestsPerMinute)))
    ensures requestsPerMinute % 15 == 0 && MINUTE % requestsPerMinute == 0
  {
    HttpRateWithin(requestsPerMinute);
    BalancedIsWhole(requestsPerMinute, HttpRate(requestsPerMinute), RedisPeriod(HttpRate(requestsPerMinute)));
    UnroundedOnlyFor15(requestsPerMinute);
    FactorDivides(MINUTE, requestsPerMinute, RedisPeriod(HttpRate(requestsPerMinute)));
  }

  /**
   The HTTP limiter answers alike from Redis and from memory on every call sequence, for a burst of two or
   more, iff requestsPerMinute is a multiple of 15 that divides a minute into whole nanoseconds. With a burst
   of one it also does where rounding gave the period's ceiling; without any burst, unless the period is zero.
   */
  lemma HttpStoresAgreeIff(requestsPerMinute: nat, burst: nat)
    requires requestsPerMinute > 0
    ensures var b := HttpBudget(requestsPerMinute, burst);
            AgreeAlways(b.limit, b.period) <==>
              if burst == 0 then b.period >= 1
              else if burst == 1 then Covered(HttpRate(requestsPerMinute), b.period)
              else requestsPerMinute % 15 == 0 && MINUTE % requestsPerMinute == 0
  {
    HttpRateWithin(requestsPerMinute);
    RateStoresAgreeIff(HttpRate(requestsPerMinute), burst);
    if requestsPerMinute % 15 == 0 && MINUTE % requestsPerMinute == 0 {
      WholeIsBalanced(requestsPerMinute);
    } else if Balanced(HttpRate(requestsPerMinute), RedisPeriod(HttpRate(requestsPerMinute))) {
      OnlyWholeIsBalanced(requestsPerMinute);
    }
  }

  predicate Between(m: nat, a: nat, p: nat) {
    a * p <= m <= a * (p + 1)
  }

  /** p is the quotient, or one less where nothing is truncated. */
  predicate Truncated(m: nat, a: nat, p: nat)
    requires a > 0
  {
    m / a - 1 <= p <= m / a && (m % a != 0 ==> p == m / a)
  }

  lemma BetweenIsTruncated(m: nat, a: nat, p: nat)
    requires a > 0 && Between(m, a, p)
    ensures Truncated(m, a, p)
  {
    var q := m / a;
    Division(m, a);
    MulStep(a, q + 1);
    MulStep(a, p + 1);
    ProductOrder(a, q + 1, p);
    ProductOrder(a, p + 2, q);
    ProductOrder(a, p + 1, q);
    MulStep(a, p + 2);
    if p + 1 == q {
      assert a * q == m;
    }
  }

  lemma AtMostMinute(requestsPerMinute: nat, r: real, n: nat)
    requires IsHttpRate(requestsPerMinute, r)
    requires TWO_53 as real * (Times(n, r) - SECOND as real) <= SECOND as real
    ensures requestsPerMinute * n <= MINUTE
  {
    TokensOf(requestsPerMinute, r, n);
    NearMinute(requestsPerMinute * n, Times(n, r));
  }

  lemma AtLeastMinute(requestsPerMinute: nat, r: real, n: nat)
    requires IsHttpRate(requestsPerMinute, r)
    requires TWO_53 as real * (SECOND as real - Times(n, r)) < SECOND as real
    ensures requestsPerMinute * n >= MINUTE
  {
    TokensOf(requestsPerMinute, r, n);
    NearMinute(requestsPerMinute * n, Times(n, r));
  }

  lemma MinuteBetween(requestsPerMinute: nat, r: real, period: nat)
    requires IsHttpRate(requestsPerMinute, r) && Refills(r, Times(period, r))
    ensures Between(MINUTE, requestsPerMinute, period)
  {
    AtMostMinute(requestsPerMinute, r, period);
    AtLeastMinute(requestsPerMinute, r, period + 1);
  }

  /** The period given to Redis is the truncated time per request, or a nanosecond less if that time is whole. */
  lemma HttpPeriodNear(requestsPerMinute: nat)
    requires requestsPerMinute > 0
    ensures Truncated(MINUTE, requestsPerMinute, RedisPeriod(HttpRate(requestsPerMinute)))
  {
    HttpRateWithin(requestsPerMinute);
    PeriodTokens(HttpRate(requestsPerMinute));
    MinuteBetween(requestsPerMinute, HttpRate(requestsPerMinute), RedisPeriod(HttpRate(requestsPerMinute)));
    BetweenIsTruncated(MINUTE, requestsPerMinute, RedisPeriod(HttpRate(requestsPerMinute)));
  }

  // The login limiter.

  /** Duration.Seconds */
  function Seconds(d: nat): (s: real)
    ensures d > 0 ==> s > 0.0
  {
    Round((d / SECOND) as real + Round((d % SECOND) as real / SECOND as real))
  }

  /** rate.Every */
  function Every(d: nat): (r: real)
    requires d > 0
    ensures r > 0.0
  {
    Round(Inverted(Seconds(d)))
  }

  function Inverted(s: real): (r: real)
    requires s > 0.0
    ensures r > 0.0 && r * s == 1.0
  {
    1.0 / s
  }

  lemma IntervalBounds(limit: nat)
    requires 1 <= limit <= HOUR
    ensures 1 <= HOUR / limit <= HOUR
  {
    Division(HOUR, limit);
    NonZeroFactor(limit, HOUR / limit);
  }

  lemma NonZeroFactor(a: nat, q: nat)
    requires a > 0
    ensures a * q >= q && (q == 0 ==> a * q == 0)
  {
  }

  /** rate.Every(time.Hour / time.Duration(limit)) */
  function LoginRate(limit: nat): (r: real)
    requires 1 <= limit <= HOUR
    ensures r > 0.0
  {
    IntervalBounds(limit);
    Every(HOUR / limit)
  }

  function LoginBudget(limit: nat): (b: Budget)
    requires 1 <= limit <= HOUR
    ensures b.Valid()
  {
    OfRate(LoginRate(limit), limit)
  }

  lemma SecondsWithin(d: nat)
    requires d > 0
    ensures Within3(SECOND as real * Seconds(d), d as real)
  {
    var fraction := (d % SECOND) as real / SECOND as real;
    RoundClose(fraction);
    RoundClose((d / SECOND) as real + Round(fraction));
    assert d == SECOND * (d / SECOND) + d % SECOND;
  }

  lemma ErrorScaled(e: real, bound: real, s: real)
    requires TWO_53 as real * e <= bound && s > 0.0
    ensures TWO_53 as real * (e * s) <= bound * s
  {
    AtMostScaled(TWO_53 as real * e, bound, s);
    Associates(TWO_53 as real, e, s);
  }

  lemma ErrorBothWays(e: real, bound: real, s: real)
    requires -bound <= TWO_53 as real * e <= bound && s > 0.0
    ensures -(bound * s) <= TWO_53 as real * (e * s) <= bound * s
  {
    ErrorScaled(e, bound, s);
    ErrorScaled(-e, bound, s);
  }

  lemma InverseClose(r: real, exact: real, s: real)
    requires s > 0.0 && exact * s == 1.0 && Close(r, exact)
    ensures -1.0 <= TWO_53 as real * (r * s - 1.0) <= 1.0
  {
    ErrorBothWays(r - exact, exact, s);
    var off := (r - exact) * s;
    assert -1.0 <= TWO_53 as real * off <= 1.0;
    Difference(r, exact, s);
  }

  lemma Difference(a: real, b: real, s: real)
    ensures (a - b) * s == a * s - b * s
  {
  }

  lemma ProductNear(product: real, w: real)
    requires -1.0 <= TWO_53 as real * (product - 1.0) <= 1.0
    requires -(3.0 * w) <= TWO_53 as real * (SECOND as real * product - w) <= 3.0 * w
    ensures Within5(SECOND as real, w)
  {
  }

  lemma OffTimes(off: real, s: real, d: real, r: real)
    requires off == SECOND as real * s - d
    ensures off * r == SECOND as real * (s * r) - d * r
  {
    Difference(SECOND as real * s, d, r);
    Associates(SECOND as real, s, r);
  }

  lemma RateTimesInterval(r: real, s: real, d: real) returns (tokens: real)
    requires r > 0.0 && Within3(SECOND as real * s, d)
    requires -1.0 <= TWO_53 as real * (r * s - 1.0) <= 1.0
    ensures tokens == d * r && Within5(SECOND as real, tokens)
  {
    tokens := d * r;
    var off := SECOND as real * s - d;
    OffTimes(off, s, d, r);
    ErrorBothWays(off, 3.0 * d, r);
    Associates(3.0, d, r);
    ProductNear(s * r, tokens);
  }

  /** A rate of one token in d nanoseconds but for rounding. */
  predicate IsRateOf(d: nat, r: real) {
    r > 0.0 && 0 < d <= HOUR && Within5(SECOND as real, Times(d, r)) && Times(d, r) <= HOUR as real * r
  }

  lemma EveryWithin(d: nat)
    requires 0 < d <= HOUR
    ensures IsRateOf(d, Every(d))
  {
    SecondsWithin(d);
    RateFromSeconds(d, Seconds(d));
  }

  lemma RateFromSeconds(d: nat, s: real)
    requires 0 < d <= HOUR && s > 0.0 && Within3(SECOND as real * s, d as real)
    ensures IsRateOf(d, Round(Inverted(s)))
  {
    RoundedRate(d, s, Inverted(s));
  }

  lemma RoundedRate(d: nat, s: real, exact: real)
    requires 0 < d <= HOUR && s > 0.0 && exact > 0.0
    requires Within3(SECOND as real * s, d as real) && exact * s == 1.0
    ensures IsRateOf(d, Round(exact))
  {
    RoundClose(exact);
    RateFromInverse(d, s, exact, Round(exact));
  }

  lemma RateFromInverse(d: nat, s: real, exact: real, r: real)
    requires 0 < d <= HOUR && s > 0.0 && r > 0.0
    requires Within3(SECOND as real * s, d as real) && exact * s == 1.0 && Close(r, exact)
    ensures IsRateOf(d, r)
  {
    InverseClose(r, exact, s);
    var tokens := RateTimesInterval(r, s, d as real);
    HoursScaled(d, r, tokens);
    AsTimes(d, r, tokens);
  }

  lemma HoursScaled(d: nat, r: real, tokens: real)
    requires r > 0.0 && d <= HOUR && tokens == d as real * r
    ensures tokens <= HOUR as real * r
  {
    AtMostScaled(d as real, HOUR as real, r);
  }

  lemma AsTimes(d: nat, r: real, tokens: real)
    requires r > 0.0 && 0 < d <= HOUR && tokens == d as real * r
    requires Within5(SECOND as real, tokens) && tokens <= HOUR as real * r
    ensures IsRateOf(d, r)
  {
    TimesIsProduct(d, r);
    assert Times(d, r) == tokens;
  }

  lemma RateIsUsable(d: nat, r: real)
    requires IsRateOf(d, r)
    ensures Usable(r)
  {
  }

  lemma TokensNear(r: real, w: real, t: real)
    requires r > 0.0 && 0.0 <= w <= HOUR as real * r && Within5(SECOND as real, w) && Refills(r, t)
    ensures w - 2.0 * r < t < w + r
  {
  }

  lemma TokensEqual(r: real, w: real)
    requires r > 0.0 && 0.0 <= w <= HOUR as real * r && Within5(SECOND as real, w)
    ensures w - r < SECOND as real < w + r
  {
  }

  lemma PeriodNear(r: real, d: nat, period: nat)
    requires IsRateOf(d, r) && Refills(r, Times(period, r))
    ensures d - 1 <= period <= d
  {
    TimesNonNegative(d, r);
    TokensNear(r, Times(d, r), Times(period, r));
    TimesOrder(r, period, d);
    TimesOrder(r, d, period + 1);
  }

  /** The period given to Redis is the interval, or a nanosecond less. */
  lemma LoginPeriodNear(limit: nat)
    requires 1 <= limit <= HOUR
    ensures HOUR / limit - 1 <= LoginBudget(limit).period <= HOUR / limit
  {
    IntervalBounds(limit);
    EveryWithin(HOUR / limit);
    PeriodTokens(LoginRate(limit));
    PeriodNear(LoginRate(limit), HOUR / limit, LoginBudget(limit).period);
  }

  lemma BalancedIsInterval(r: real, d: nat, period: nat)
    requires IsRateOf(d, r) && Balanced(r, period)
    ensures period == d
  {
    TimesNonNegative(d, r);
    TokensEqual(r, Times(d, r));
    TimesOrder(r, period, d);
    TimesOrder(r, d, period);
  }

  lemma BalancedPeriodIff(d: nat, r: real)
    requires IsRateOf(d, r)
    ensures Balanced(r, RedisPeriod(r)) <==> Balanced(r, d)
  {
    if Balanced(r, d) {
      BalancedPeriod(r, d);
    } else if Balanced(r, RedisPeriod(r)) {
      BalancedIsInterval(r, d, RedisPeriod(r));
    }
  }

  /**
   The login limiter's stores answer alike iff float64 holds the interval's rate exactly; a limit of one
   login also where rounding gave the period's ceiling.
   */
  lemma LoginStoresAgreeIff(limit: nat)
    requires 1 <= limit <= HOUR
    ensures var b := LoginBudget(limit);
            AgreeAlways(b.limit, b.period) <==>
              if limit == 1 then Covered(LoginRate(limit), b.period) else Balanced(LoginRate(limit), HOUR / limit)
  {
    IntervalBounds(limit);
    EveryWithin(HOUR / limit);
    RateIsUsable(HOUR / limit, LoginRate(limit));
    RateStoresAgreeIff(LoginRate(limit), limit);
    BalancedPeriodIff(HOUR / limit, LoginRate(limit));
  }

  // Which rates float64 holds exactly.

  lemma {:induction false} DoubledPow2(x: real, k: nat)
    ensures Doubled(x, k) == Pow2(k) as real * x
    decreases k
  {
    if k > 0 {
      DoubledPow2(2.0 * x, k - 1);
      assert Pow2(k) as real == 2.0 * Pow2(k - 1) as real;
      Associates(Pow2(k - 1) as real, 2.0, x);
    }
  }

  /** d divides c times some power of two, so it divides c times the least power of two above it. */
  lemma {:induction false} LeastPower(d: nat, m: int, c: nat, k: nat, b: nat) returns (q: int)
    requires 0 < d < Pow2(b) && d * m == c * Pow2(k)
    ensures d * q == c * Pow2(b)
    decreases k
  {
    if k == 0 {
      q := m * Pow2(b);
      assert d * (m * Pow2(b)) == (d * m) * Pow2(b);
    } else if d % 2 == 1 {
      EvenFactor(d, m, c * Pow2(k - 1));
      TwiceProduct(c, Pow2(k - 1));
      q := LeastPower(d, m / 2, c, k - 1, b);
    } else {
      TwiceProduct(c, Pow2(k - 1));
      HalfProduct(d, m, c * Pow2(k - 1));
      var half := LeastPower(d / 2, m, c, k - 1, b - 1);
      TwiceProduct(c, Pow2(b - 1));
      HalfProduct(d, half, c * Pow2(b - 1));
      q := half;
    }
  }

  lemma TwiceProduct(c: nat, p: nat)
    ensures c * (2 * p) == 2 * (c * p)
  {
  }

  lemma HalfProduct(d: nat, m: int, x: int)
    requires d % 2 == 0
    ensures d * m == 2 * x <==> d / 2 * m == x
  {
    var h := d / 2;
    assert d == 2 * h;
    assert (2 * h) * m == 2 * (h * m);
  }

  lemma EvenFactor(d: nat, m: int, x: int)
    requires d % 2 == 1 && d * m == 2 * x
    ensures m % 2 == 0 && d * (m / 2) == x
  {
    var h := d / 2;
    assert d == 2 * h + 1;
    assert (2 * h + 1) * m == 2 * (h * m) + m;
    assert m == 2 * (x - h * m);
    assert d * m == d * (2 * (m / 2)) == 2 * (d * (m / 2));
  }

  lemma DyadicTokens(d: nat, r: real, k: nat, m: int)
    requires d as real * r == SECOND as real && Pow2(k) as real * r == m as real
    ensures d * m == SECOND * Pow2(k)
  {
    var p := Pow2(k) as real;
    assert d as real * (p * r) == p * (d as real * r) by { Reordered(d as real, p, r); }
    assert (d * m) as real == d as real * m as real;
    assert (SECOND * Pow2(k)) as real == SECOND as real * p;
  }

  lemma Reordered(a: real, b: real, c: real)
    ensures a * (b * c) == b * (a * c)
  {
  }

  const TWO_42 := 0x400_0000_0000

  lemma Pow2_42()
    ensures Pow2(42) == TWO_42
  {
    Pow2_32();
    assert Pow2(36) == 0x10_0000_0000;
    assert Pow2(40) == 0x100_0000_0000;
  }

  /** So a limit of two or more logins is the same in both stores only if its interval divides 2^42 seconds. */
  lemma ExactIntervalDivides(limit: nat)
    requires 1 <= limit <= HOUR && Balanced(LoginRate(limit), HOUR / limit)
    ensures 1 <= HOUR / limit && (SECOND * TWO_42) % (HOUR / limit) == 0
  {
    IntervalBounds(limit);
    var d := HOUR / limit;
    var k, m := RoundIsDyadic(Inverted(Seconds(d)));
    ExactRateDivides(d, Every(d), k, m);
  }

  lemma ExactRateDivides(d: nat, r: real, k: nat, m: int)
    requires 0 < d <= HOUR && Balanced(r, d) && Doubled(r, k) == m as real
    ensures (SECOND * TWO_42) % d == 0
  {
    TimesIsProduct(d, r);
    DoubledPow2(r, k);
    DyadicTokens(d, r, k, m);
    Pow2_42();
    var q := LeastPower(d, m, SECOND, k, 42);
    PositiveFactor(d, q);
    FactorDivides(SECOND * TWO_42, d, q);
  }

  lemma PositiveFactor(d: nat, q: int)
    requires d * q > 0
    ensures q > 0
  {
  }

  /** Otherwise some call sequence tells them apart. */
  lemma LoginStoresDiffer(limit: nat)
    requires 2 <= limit <= HOUR && HOUR / limit > 0 && (SECOND * TWO_42) % (HOUR / limit) != 0
    ensures !AgreeAlways(LoginBudget(limit).limit, LoginBudget(limit).period)
  {
    LoginStoresAgreeIff(limit);
    if Balanced(LoginRate(limit), HOUR / limit) {
      ExactIntervalDivides(limit);
    }
  }

  /** So with the default of five failed logins an hour, and with 19. */
  lemma DefaultLoginsDiffer(limit: nat)
    requires limit == 5 || limit == 19
    ensures !AgreeAlways(LoginBudget(limit).limit, LoginBudget(limit).period)
  {
    assert HOUR / 5 == 720_000_000_000 && HOUR / 19 == 189_473_684_210;
    LoginStoresDiffer(limit);
  }

  // The shortest interval, one nanosecond.

  lemma RoundedAt(x: real, k: nat, n: int)
    requires x >= 0.0 && TWO_52 as real <= Doubled(x, k) < TWO_53 as real && -0.5 < Doubled(x, k) - n as real < 0.5
    ensures Doubled(Round(x), k) == n as real
  {
    RoundDoubled(x, k);
    NearestIs(Doubled(x, k), n);
  }

  lemma NearestIs(y: real, n: int)
    requires TWO_52 as real <= y < TWO_53 as real && -0.5 < y - n as real < 0.5
    ensures Round(y) == n as real
  {
    SameInt(Nearest(y), n, y);
  }

  lemma SameInt(m: int, n: int, y: real)
    requires -0.5 <= m as real - y <= 0.5 && -0.5 < y - n as real < 0.5
    ensures m == n
  {
  }

  lemma RoundAtLeastOne(x: real)
    requires 1.0 <= x < 2.0
    ensures Round(x) >= 1.0
  {
    RoundDoubled(x, 52);
    DoubledPow2(x, 52);
    DoubledPow2(Round(x), 52);
    SomePowers();
    TiesToEven(Doubled(x, 52));
  }

  const TWO_82 := 0x400_0000 * 0x100_0000_0000_0000

  lemma SomePowers()
    ensures Pow2(52) == TWO_52 && Pow2(23) == 0x80_0000 && Pow2(82) == TWO_82
  {
    Pow2_32();
    assert Pow2(16) == 0x1_0000 by { assert Pow2(12) == 4096; }
    assert Pow2(20) == 0x10_0000;
    Pow2_42();
    assert Pow2(46) == 0x4000_0000_0000;
    assert Pow2(50) == 0x4_0000_0000_0000;
    assert Pow2(54) == 0x40_0000_0000_0000;
    assert Pow2(58) == 0x400_0000_0000_0000;
    assert Pow2(62) == 0x4000_0000_0000_0000;
    assert Pow2(66) == 0x4_0000_0000_0000_0000;
    assert Pow2(70) == 0x40_0000_0000_0000_0000;
    assert Pow2(74) == 0x400_0000_0000_0000_0000;
    assert Pow2(78) == 0x4000_0000_0000_0000_0000;
  }

  const NANO_SECONDS := 4_835_703_278_458_517
  const NANO_RATE := 8_388_607_999_999_999

  lemma NanosecondRounded(x: real)
    requires x == 1.0 / SECOND as real
    ensures TWO_82 as real * Round(x) == NANO_SECONDS as real
  {
    SomePowers();
    DoubledPow2(x, 82);
    RoundedAt(x, 82, NANO_SECONDS);
    DoubledPow2(Round(x), 82);
  }

  lemma NanosecondInSeconds(d: nat)
    requires d == 1
    ensures TWO_82 as real * Seconds(d) == NANO_SECONDS as real
  {
    var x := 1.0 / SECOND as real;
    RoundIdempotent(x);
    assert Seconds(d) == Round(Round(x));
    NanosecondRounded(x);
  }

  lemma InverseOf(inverse: real, s: real, a: real, n: real)
    requires inverse * s == 1.0 && a * s == n
    ensures inverse * n == a
  {
    assert inverse * (a * s) == a * (inverse * s);
  }

  lemma InverseRounded(inverse: real)
    requires inverse * NANO_SECONDS as real == TWO_82 as real
    ensures inverse >= 0.0 && 0x80_0000 as real * Round(inverse) == NANO_RATE as real
  {
    SomePowers();
    DoubledPow2(inverse, 23);
    RoundedAt(inverse, 23, NANO_RATE);
    DoubledPow2(Round(inverse), 23);
  }

  lemma RateFrom(s: real)
    requires s > 0.0 && TWO_82 as real * s == NANO_SECONDS as real
    ensures 0x80_0000 as real * Round(Inverted(s)) == NANO_RATE as real
  {
    InverseOf(Inverted(s), s, TWO_82 as real, NANO_SECONDS as real);
    InverseRounded(Inverted(s));
  }

  lemma PeriodFrom(s: real)
    requires s > 0.0 && TWO_82 as real * s == NANO_SECONDS as real
    ensures RedisPeriod(Round(Inverted(s))) >= 1
  {
    RateFrom(s);
    PeriodPositive(Round(Inverted(s)));
  }

  lemma NanosecondPeriod(d: nat)
    requires d == 1
    ensures RedisPeriod(Every(d)) >= 1
  {
    NanosecondInSeconds(d);
    PeriodFrom(Seconds(d));
  }

  lemma PeriodPositive(r: real)
    requires r > 0.0 && 0x80_0000 as real * r == NANO_RATE as real
    ensures RedisPeriod(r) >= 1
  {
    RateAlmostExact(r, ExactPeriod(r));
    RoundAtLeastOne(ExactPeriod(r));
  }

  lemma RateAlmostExact(r: real, exact: real)
    requires 0x80_0000 as real * r == NANO_RATE as real && exact * r == SECOND as real
    ensures 1.0 <= exact < 2.0
  {
  }

  /** Every failed-login limit gives Redis a period of a nanosecond or more. */
  lemma LoginPeriodPositive(limit: nat)
    requires 1 <= limit <= HOUR
    ensures LoginBudget(limit).period >= 1
  {
    IntervalBounds(limit);
    LoginPeriodNear(limit);
    if HOUR / limit == 1 {
      NanosecondPeriod(HOUR / limit);
    }
  }
}
