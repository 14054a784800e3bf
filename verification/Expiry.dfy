/** Expiration times: the size-dependent maximum, the expires field, and what uploads and expire calls store. */
module Expiry {
  import opened Wrappers
  import opened Bytes
  import opened Decimal
  import opened Backoff
  import ServerCheck

  const MILLISECOND := 1_000_000
  const DAY_MILLIS := 24 * 3600 * 1000

  /** The configured ages in milliseconds and the size they are scaled to. */
  datatype Ages = Ages(minAge: int, maxAge: int, maxSize: int) {
    predicate Valid() {
      maxSize > 0 && minAge <= maxAge
    }
  }

  datatype Config = Config(maxFileSizeMB: int, minAgeDays: int, maxAgeDays: int)

  /** The products MaxExpirationTime forms from the configuration, in int64. */
  function AgesOf(c: Config): Ages {
    Ages(Wrap64(c.minAgeDays * DAY_MILLIS), Wrap64(c.maxAgeDays * DAY_MILLIS), Wrap64(c.maxFileSizeMB * 1024 * 1024))
  }

  function Pow3(x: int): int {
    x * x * x
  }

  /** The age in milliseconds, (size/maxSize - 1)^3 taken as an exact fraction and truncated. */
  function Age(a: Ages, size: int): int
    requires a.Valid()
  {
    Pow3Positive(a.maxSize);
    a.minAge + TruncDiv((a.minAge - a.maxAge) * Pow3(size - a.maxSize), Pow3(a.maxSize))
  }

  /** MaxExpirationTime at clock reading `now`; instants are nanoseconds. */
  function MaxExpiration(a: Ages, size: int, now: int): int
    requires a.Valid()
  {
    now + Wrap64(Age(a, size) * MILLISECOND)
  }

  // The age formula.

  lemma Pow3Positive(x: int)
    requires x > 0
    ensures Pow3(x) > 0
  {
    SquareThenThird(x, x * x);
  }

  lemma SquareThenThird(x: int, square: int)
    requires x > 0 && square > 0
    ensures square * x > 0
  {
  }

  lemma Product(a: int, b: int, c: int, d: int)
    requires 0 <= a <= c && 0 <= b <= d
    ensures 0 <= a * b <= c * d
  {
    assert c * d - a * b == (c - a) * d + a * (d - b);
  }

  lemma Pow3MonotonePositive(x: int, y: int)
    requires 0 <= x <= y
    ensures 0 <= Pow3(x) <= Pow3(y)
  {
    Product(x, x, y, y);
    Product(x * x, x, y * y, y);
  }

  lemma Pow3Negates(x: int)
    ensures Pow3(-x) == -Pow3(x)
  {
    assert (-x) * (-x) == x * x;
  }

  lemma Pow3Monotone(x: int, y: int)
    requires x <= y
    ensures Pow3(x) <= Pow3(y)
  {
    Pow3Negates(x);
    Pow3Negates(y);
    if 0 <= x {
      Pow3MonotonePositive(x, y);
    } else if y <= 0 {
      Pow3MonotonePositive(-y, -x);
    } else {
      Pow3MonotonePositive(0, y);
      Pow3MonotonePositive(0, -x);
    }
  }

  lemma DivMonotone(a: nat, b: nat, m: nat)
    requires m > 0 && a <= b
    ensures a / m <= b / m
  {
    QuotientBounds(a, m);
    QuotientBounds(b, m);
    if a / m > b / m {
      ProductMonotone(m, b / m + 1, a / m);
    }
  }

  lemma TruncDivMonotone(a: int, b: int, m: int)
    requires m > 0 && a <= b
    ensures TruncDiv(a, m) <= TruncDiv(b, m)
  {
    if 0 <= a {
      DivMonotone(a, b, m);
    } else if b <= 0 {
      DivMonotone(-b, -a, m);
    } else {
      DivMonotone(0, b, m);
      DivMonotone(0, -a, m);
    }
  }

  lemma TruncDivMultiple(q: int, m: int)
    requires m > 0 && q >= 0
    ensures TruncDiv(q * m, m) == q
  {
    Product(0, 0, q, m);
    QuotientBounds(q * m, m);
    var r := q * m / m;
    if r < q {
      ProductMonotone(m, r + 1, q);
    } else if r > q {
      ProductMonotone(m, q + 1, r);
    }
  }

  lemma NegativeFactor(d: int, x: int, y: int)
    requires d >= 0 && x <= y
    ensures -d * y <= -d * x
  {
    Product(d, y - x, d, y - x);
    assert -d * x - -d * y == d * (y - x);
  }

  /** The age never grows with the size. */
  lemma AgeNonincreasing(a: Ages, size: int, larger: int)
    requires a.Valid() && size <= larger
    ensures Age(a, larger) <= Age(a, size)
  {
    var d, m := a.maxAge - a.minAge, a.maxSize;
    Pow3Monotone(size - m, larger - m);
    NegativeFactor(d, Pow3(size - m), Pow3(larger - m));
    Pow3Positive(m);
    TruncDivMonotone(-d * Pow3(larger - m), -d * Pow3(size - m), Pow3(m));
  }

  /** An empty file gets the maximum age, a file of the maximum size the minimum. */
  lemma AgeEndpoints(a: Ages)
    requires a.Valid()
    ensures Age(a, 0) == a.maxAge && Age(a, a.maxSize) == a.minAge
  {
    var d, m := a.maxAge - a.minAge, a.maxSize;
    Pow3Positive(m);
    Pow3Negates(m);
    assert -d * -Pow3(m) == d * Pow3(m);
    TruncDivMultiple(d, Pow3(m));
    assert Pow3(0) == 0 && -d * 0 == 0;
  }

  /** Every size that may be uploaded gets an age between the two configured ones. */
  lemma AgeBounds(a: Ages, size: int)
    requires a.Valid() && 0 <= size <= a.maxSize
    ensures a.minAge <= Age(a, size) <= a.maxAge
  {
    AgeEndpoints(a);
    AgeNonincreasing(a, 0, size);
    AgeNonincreasing(a, size, a.maxSize);
  }

  lemma TruncatesToZero(x: int, m: int)
    requires m > 0 && x >= 0
    ensures TruncDiv(-x, m) >= 0 <==> x < m
  {
    QuotientBounds(x, m);
    var q := x / m;
    if x < m && q >= 1 {
      ProductMonotone(m, 1, q);
    }
  }

  /** Beyond the maximum size the age stays at the minimum exactly while the cubic term is below a millisecond. */
  lemma AgeKeepsMinimumIff(a: Ages, size: int)
    requires a.Valid()
    ensures Age(a, size) >= a.minAge <==>
              || size <= a.maxSize
              || (a.maxAge - a.minAge) * Pow3(size - a.maxSize) < Pow3(a.maxSize)
  {
    var d, m := a.maxAge - a.minAge, a.maxSize;
    if size <= m {
      AgeNonincreasing(a, size, m);
      AgeEndpoints(a);
    } else {
      Pow3Positive(m);
      Pow3Positive(size - m);
      Product(0, 0, d, Pow3(size - m));
      assert -d * Pow3(size - m) == -(d * Pow3(size - m));
      TruncatesToZero(d * Pow3(size - m), Pow3(m));
    }
  }

  /**
   Such files exist: with the default ages and both limits at one MiB, the largest browser container the
   server admits is kept for less than the minimum age.
   */
  lemma LargestContainerBelowMinimum()
    ensures var a := AgesOf(Config(1, 30, 365));
            a.Valid() && ServerCheck.CiphertextLimit(1) > a.maxSize
            && Age(a, ServerCheck.CiphertextLimit(1)) < a.minAge
  {
    var a := AgesOf(Config(1, 30, 365));
    var over := ServerCheck.CiphertextLimit(1) - a.maxSize;
    assert a.maxSize == 0x10_0000;
    assert Pow3(0x10_0000) == 0x1000_0000_0000_0000;
    Pow3MonotonePositive(4000, over);
    assert Pow3(4000) == 64_000_000_000;
    Product(a.maxAge - a.minAge, Pow3(4000), a.maxAge - a.minAge, Pow3(over));
    AgeKeepsMinimumIff(a, ServerCheck.CiphertextLimit(1));
  }

  // The expires field.

  /** ParseExpiresForm: hours from now below a million, a Unix time in milliseconds otherwise. */
  function ParseExpires(text: string, now: int): Option<int> {
    match ParseInt(text)
    case None => None
    case Some(expires) =>
      if expires < 1_000_000 then
        Some(now + Wrap64(Wrap64(Wrap64(expires * 3600) * 1000) * MILLISECOND))
      else
        Some(expires * MILLISECOND)
  }

  /** Hours are taken at face value exactly down to -2562047, about 292 years ago; below that they wrap. */
  lemma HoursExactIff(hours: int, now: int)
    requires InInt64(hours) && hours < 1_000_000
    ensures ParseExpires(FormatInt(hours), now) == Some(now + hours * HOUR) <==> hours >= -2_562_047
  {
    IntRoundTrip(hours);
    if hours >= -2_562_047 {
      assert Wrap64(hours * 3600) == hours * 3600;
      assert Wrap64(hours * 3600 * 1000) == hours * 3600 * 1000;
    } else {
      assert !InInt64(hours * HOUR);
    }
  }

  /** A large negative number of hours wraps into the future. */
  lemma NegativeHoursWrapForward()
    ensures ParseExpires("-5000000", 0) == Some(446_744_073_709_551_616) && 446_744_073_709_551_616 > 5000 * HOUR
  {
    assert "-5000000"[1..] == "5000000";
    assert FormatNat(5_000_000) == "5000000" by {
      assert FormatNat(5) == "5";
      assert FormatNat(50) == "50";
      assert FormatNat(500) == "500";
      assert FormatNat(5_000) == "5000";
      assert FormatNat(50_000) == "50000";
      assert FormatNat(500_000) == "500000";
    }
    IntRoundTrip(-5_000_000);
  }

  /** CalculateExpirationTime; the two clock readings come in this order. */
  function UploadExpiration(a: Ages, size: int, form: string, now: int, later: int): int
    requires a.Valid()
  {
    var default := MaxExpiration(a, size, now);
    if form == "" then default
    else
      match ParseExpires(form, later)
      case Some(t) => if t < default then t else default
      case None => default
  }

  // What is stored.

  /** setAt is the clock reading when the expiration was last set (history only). */
  datatype Row = Row(size: int, expiration: int, setAt: int)

  type Rows = map<string, Row>

  datatype ExpireReply = ExpiresAt(time: int) | BadRequest | NotFound | Unprocessable | ServerError

  /** applyExpire on a parsed body; parsing reads the clock first. `getFails` and `setFails` are database errors. */
  function ExpireIn(a: Ages, rows: Rows, id: string, expires: string, now: int, later: int,
                    getFails: bool, setFails: bool): (ExpireReply, Rows)
    requires a.Valid()
  {
    if expires == "" || ParseExpires(expires, now).None? then (BadRequest, rows)
    else if getFails then (ServerError, rows)
    else if id !in rows then (NotFound, rows)
    else
      var t := ParseExpires(expires, now).value;
      if t > MaxExpiration(a, rows[id].size, later) then (Unprocessable, rows)
      else if setFails then (ServerError, rows)
      else (ExpiresAt(t), rows[id := rows[id].(expiration := t, setAt := later)])
  }

  class FileTable {
    const ages: Ages
    var rows: Rows

    constructor (ages: Ages)
      ensures this.ages == ages && rows == map[]
    {
      this.ages := ages;
      rows := map[];
    }

    /** The insert at the end of an upload. */
    method Upload(id: string, size: int, form: string, now: int, later: int)
      requires ages.Valid()
      modifies this
      ensures rows == old(rows)[id := Row(size, UploadExpiration(ages, size, form, now, later), now)]
    {
      var expiration := MaxExpiration(ages, size, now);
      if form != "" {
        var requested := ParseExpires(form, later);
        if requested.Some? && requested.value < expiration {
          expiration := requested.value;
        }
      }
      rows := rows[id := Row(size, expiration, now)];
    }

    method ApplyExpire(id: string, expires: string, now: int, later: int, getFails: bool, setFails: bool)
      returns (reply: ExpireReply)
      requires ages.Valid()
      modifies this
      ensures (reply, rows) == ExpireIn(ages, old(rows), id, expires, now, later, getFails, setFails)
    {
      if expires == "" {
        return BadRequest;
      }
      var newExpiry := ParseExpires(expires, now);
      if newExpiry.None? {
        return BadRequest;
      }
      if getFails {
        return ServerError;
      }
      if id !in rows {
        return NotFound;
      }
      var maxExpiry := MaxExpiration(ages, rows[id].size, later);
      if newExpiry.value > maxExpiry {
        return Unprocessable;
      }
      if setFails {
        return ServerError;
      }
      rows := rows[id := rows[id].(expiration := newExpiry.value, setAt := later)];
      reply := ExpiresAt(newExpiry.value);
    }
  }

  datatype Request =
    | Upload(id: string, size: int, form: string, now: int, later: int)
    | Expire(id: string, expires: string, now: int, later: int, getFails: bool, setFails: bool)
    | Delete(id: string)

  function Step(a: Ages, rows: Rows, r: Request): Rows
    requires a.Valid()
  {
    match r
    case Upload(id, size, form, now, later) => rows[id := Row(size, UploadExpiration(a, size, form, now, later), now)]
    case Expire(id, expires, now, later, getFails, setFails) =>
      ExpireIn(a, rows, id, expires, now, later, getFails, setFails).1
    case Delete(id) => rows - {id}
  }

  function Run(a: Ages, rows: Rows, requests: seq<Request>): Rows
    requires a.Valid()
    decreases requests
  {
    if requests == [] then rows else Run(a, Step(a, rows, requests[0]), requests[1..])
  }

  ghost predicate Within(a: Ages, rows: Rows)
    requires a.Valid()
  {
    forall id :: id in rows ==> rows[id].expiration <= MaxExpiration(a, rows[id].size, rows[id].setAt)
  }

  lemma {:induction false} RunWithin(a: Ages, rows: Rows, requests: seq<Request>)
    requires a.Valid() && Within(a, rows)
    ensures Within(a, Run(a, rows, requests))
    decreases requests
  {
    if requests != [] {
      RunWithin(a, Step(a, rows, requests[0]), requests[1..]);
    }
  }

  /** Ages whose nanoseconds fit a Duration, as all up to 292 years do. */
  predicate Representable(a: Ages) {
    a.Valid() && InInt64(a.minAge * MILLISECOND) && InInt64(a.maxAge * MILLISECOND)
  }

  /** The age of this size, which can lie far below the minimum for huge sizes, fits a Duration too. */
  predicate AgeFits(a: Ages, size: int)
    requires a.Valid()
  {
    Age(a, size) * MILLISECOND >= MIN_INT64
  }

  lemma AgeAtMostMaximum(a: Ages, size: int)
    requires a.Valid() && size >= 0
    ensures Age(a, size) <= a.maxAge
  {
    AgeEndpoints(a);
    AgeNonincreasing(a, 0, size);
  }

  /** The maximum expiration is the clock plus the age exactly where the age fits; elsewhere it wraps. */
  lemma MaxExpirationExactIff(a: Ages, size: int, now: int)
    requires Representable(a) && size >= 0
    ensures MaxExpiration(a, size, now) == now + Age(a, size) * MILLISECOND <==> AgeFits(a, size)
  {
    AgeAtMostMaximum(a, size);
  }

  lemma TwiceTheMaximum(a: Ages)
    requires a.Valid()
    ensures Age(a, 2 * a.maxSize) == a.minAge - (a.maxAge - a.minAge)
  {
    var d, m := a.maxAge - a.minAge, Pow3(a.maxSize);
    Pow3Positive(a.maxSize);
    Product(0, 0, d, m);
    assert (a.minAge - a.maxAge) * m == -(d * m);
    TruncDivMultiple(d, m);
    NegatedQuotient(d * m, m);
  }

  lemma NegatedQuotient(x: int, m: int)
    requires m > 0 && x >= 0
    ensures TruncDiv(-x, m) == -TruncDiv(x, m)
  {
  }

  /** It fits for every size up to twice the maximum, far beyond what can be uploaded. */
  lemma AgeFitsUpToTwice(a: Ages, size: int)
    requires Representable(a) && a.minAge >= 0 && size <= 2 * a.maxSize
    ensures AgeFits(a, size)
  {
    TwiceTheMaximum(a);
    AgeNonincreasing(a, size, 2 * a.maxSize);
  }

  /**
   Whatever uploads and expire calls ask for, every stored expiration lies at most the age of the file's
   size, and so at most the maximum age, after the moment it was set.
   */
  lemma ExpirationsBounded(a: Ages, requests: seq<Request>, id: string)
    requires Representable(a)
    ensures var rows := Run(a, map[], requests);
            id in rows && rows[id].size >= 0 && AgeFits(a, rows[id].size) ==>
              && rows[id].expiration <= rows[id].setAt + Age(a, rows[id].size) * MILLISECOND
              && rows[id].expiration <= rows[id].setAt + a.maxAge * MILLISECOND
  {
    RunWithin(a, map[], requests);
    var rows := Run(a, map[], requests);
    if id in rows && rows[id].size >= 0 && AgeFits(a, rows[id].size) {
      AgeAtMostMaximum(a, rows[id].size);
      MaxExpirationExactIff(a, rows[id].size, rows[id].setAt);
    }
  }

  /** An upload gets the hours it asks for exactly when they end before the maximum, which it gets otherwise. */
  lemma UploadGetsTheSooner(a: Ages, size: int, hours: nat, now: int, later: int)
    requires Representable(a) && size >= 0 && AgeFits(a, size) && hours < 1_000_000
    ensures var maximum, asked := now + Age(a, size) * 1_000_000, later + hours * 3_600_000_000_000;
            UploadExpiration(a, size, FormatInt(hours), now, later) == if asked < maximum then asked else maximum
  {
    HoursExactIff(hours, later);
    MaxExpirationExactIff(a, size, now);
  }

  /**
   A call for some hours is accepted exactly when they end within the age: they are counted from the clock at
   parsing, the age from the clock after the file was found.
   */
  lemma ExpireAcceptsIff(a: Ages, rows: Rows, id: string, hours: nat, now: int, later: int)
    requires Representable(a) && id in rows && rows[id].size >= 0 && AgeFits(a, rows[id].size)
    requires hours < 1_000_000
    ensures var (reply, next) := ExpireIn(a, rows, id, FormatInt(hours), now, later, false, false);
            if now + hours * 3_600_000_000_000 <= later + Age(a, rows[id].size) * 1_000_000 then
              reply == ExpiresAt(now + hours * 3_600_000_000_000)
              && next == rows[id := Row(rows[id].size, now + hours * 3_600_000_000_000, later)]
            else reply == Unprocessable && next == rows
  {
    HoursExactIff(hours, now);
    assert FormatInt(hours) != "";
    MaxExpirationExactIff(a, rows[id].size, later);
  }

  /** A number from a million on is a Unix time in milliseconds: an upload gets that or the maximum, the sooner. */
  lemma UploadGetsTheInstant(a: Ages, size: int, ms: int, now: int, later: int)
    requires Representable(a) && size >= 0 && AgeFits(a, size) && 1_000_000 <= ms <= MAX_INT64
    ensures var maximum, asked := now + Age(a, size) * 1_000_000, ms * 1_000_000;
            UploadExpiration(a, size, FormatInt(ms), now, later) == if asked < maximum then asked else maximum
  {
    IntRoundTrip(ms);
    assert FormatInt(ms) != "";
    MaxExpirationExactIff(a, size, now);
  }

  /** And an expire call for it is accepted exactly up to the maximum, whatever the clock was at parsing. */
  lemma ExpireAcceptsInstantIff(a: Ages, rows: Rows, id: string, ms: int, now: int, later: int)
    requires Representable(a) && id in rows && rows[id].size >= 0 && AgeFits(a, rows[id].size)
    requires 1_000_000 <= ms <= MAX_INT64
    ensures ExpireIn(a, rows, id, FormatInt(ms), now, later, false, false)
         == if ms * 1_000_000 <= later + Age(a, rows[id].size) * 1_000_000 then
              (ExpiresAt(ms * 1_000_000), rows[id := Row(rows[id].size, ms * 1_000_000, later)])
            else (Unprocessable, rows)
  {
    IntRoundTrip(ms);
    assert FormatInt(ms) != "";
    MaxExpirationExactIff(a, rows[id].size, later);
  }

  /** What is no number is ignored by an upload and refused by an expire call, before the file is looked up. */
  lemma OtherTextsRefused(a: Ages, rows: Rows, id: string, text: string, size: int, now: int, later: int,
                          getFails: bool, setFails: bool)
    requires a.Valid() && (text == "" || ParseInt(text).None?)
    ensures UploadExpiration(a, size, text, now, later) == UploadExpiration(a, size, "", now, later)
    ensures ExpireIn(a, rows, id, text, now, later, getFails, setFails) == (BadRequest, rows)
  {
  }

  /** The other refusals of an expire call, in this order; none changes a row. */
  lemma ExpireRefusals(a: Ages, rows: Rows, id: string, text: string, now: int, later: int,
                       getFails: bool, setFails: bool)
    requires a.Valid() && text != "" && ParseInt(text).Some?
    ensures var (reply, next) := ExpireIn(a, rows, id, text, now, later, getFails, setFails);
            && (getFails ==> reply == ServerError)
            && (!getFails ==> (reply == NotFound <==> id !in rows))
            && (!getFails && id in rows && reply != Unprocessable && setFails ==> reply == ServerError)
            && (!getFails && id in rows && reply != Unprocessable && !setFails ==> reply.ExpiresAt?)
            && (!reply.ExpiresAt? ==> next == rows)
            && (forall other :: other in rows && other != id ==> other in next && next[other] == rows[other])
  {
  }

  /** Without a request, an empty file is kept for the configured maximum of days and a largest one for the minimum. */
  lemma DefaultExpirations(maxFileSizeMB: int, minAgeDays: int, maxAgeDays: int, now: int, later: int)
    requires 1 <= maxFileSizeMB && maxFileSizeMB * 1_048_576 <= MAX_INT64
    requires 0 <= minAgeDays <= maxAgeDays <= 106_751
    ensures var a := AgesOf(Config(maxFileSizeMB, minAgeDays, maxAgeDays));
            && a.Valid()
            && UploadExpiration(a, 0, "", now, later) == now + maxAgeDays * 86_400_000_000_000
            && UploadExpiration(a, maxFileSizeMB * 1_048_576, "", now, later) == now + minAgeDays * 86_400_000_000_000
  {
    var a := AgesOf(Config(maxFileSizeMB, minAgeDays, maxAgeDays));
    assert a.maxSize == maxFileSizeMB * 1_048_576;
    AgeEndpoints(a);
  }

  /** The integer part, toward zero. */
  function Truncated(x: real): int {
    if x >= 0.0 then x.Floor else -(-x).Floor
  }

  /** The documented formula, over the reals: minAge + k * x^3 with k = minAge - maxAge and x = size/maxSize - 1. */
  lemma AgeIsTheFormula(a: Ages, size: int, k: int, x: real)
    requires a.Valid() && k == a.minAge - a.maxAge && x * a.maxSize as real == (size - a.maxSize) as real
    ensures Age(a, size) == a.minAge + Truncated(k as real * (x * x * x))
  {
    CubicTerm(x, a.maxSize, size - a.maxSize, k);
  }

  lemma CubicTerm(x: real, m: int, s: int, k: int)
    requires m > 0 && x * m as real == s as real
    ensures Pow3(m) > 0 && Truncated(k as real * (x * x * x)) == TruncDiv(k * Pow3(s), Pow3(m))
  {
    Pow3Positive(m);
    CubeScales(x, m as real, s as real);
    CubeAsReal(m);
    CubeAsReal(s);
    Scaled(k as real, x * x * x, Pow3(m) as real, Pow3(s) as real);
    ProductAsReal(k, Pow3(s));
    TruncatedQuotient(k as real * (x * x * x), k * Pow3(s), Pow3(m));
  }

  lemma ProductAsReal(x: int, y: int)
    ensures (x * y) as real == x as real * y as real
  {
  }

  lemma CubeScales(x: real, m: real, s: real)
    requires x * m == s
    ensures (x * x * x) * (m * m * m) == s * s * s
  {
    assert (x * x) * (m * m) == (x * m) * (x * m);
    assert (x * x * x) * (m * m * m) == ((x * x) * (m * m)) * (x * m);
  }

  lemma CubeAsReal(x: int)
    ensures Pow3(x) as real == x as real * x as real * x as real
  {
    assert (x * x) as real == x as real * x as real;
    assert (x * x * x) as real == (x * x) as real * x as real;
  }

  lemma Scaled(k: real, cube: real, m: real, s: real)
    requires cube * m == s
    ensures k * cube * m == k * s
  {
  }

  lemma TruncatedQuotient(y: real, n: int, d: int)
    requires d > 0 && y * d as real == n as real
    ensures Truncated(y) == TruncDiv(n, d)
  {
    if n >= 0 {
      FloorOfQuotient(y, n, d);
    } else {
      assert -y * d as real == (-n) as real;
      FloorOfQuotient(-y, -n, d);
    }
  }

  lemma FloorOfQuotient(y: real, n: nat, d: int)
    requires d > 0 && y * d as real == n as real
    ensures y >= 0.0 && y.Floor == n / d && (n > 0 ==> y > 0.0)
  {
    QuotientBounds(n, d);
    var q := n / d;
    assert (d * q) as real == d as real * q as real;
    assert (d * (q + 1)) as real == d as real * (q + 1) as real;
    Between(y, d as real, q as real, n as real);
  }

  lemma Between(y: real, d: real, q: real, n: real)
    requires d >= 1.0 && y * d == n && n >= 0.0 && d * q <= n < d * (q + 1.0)
    ensures q <= y < q + 1.0 && y >= 0.0 && (n > 0.0 ==> y > 0.0)
  {
    SignOfFactor(d, y - q);
    SignOfFactor(d, q + 1.0 - y);
    SignOfFactor(d, y);
  }

  lemma SignOfFactor(d: real, z: real)
    requires d >= 1.0
    ensures (d * z >= 0.0 ==> z >= 0.0) && (d * z > 0.0 ==> z > 0.0)
  {
    if z <= 0.0 {
      assert d * -z >= 0.0;
      assert z < 0.0 ==> d * -z > 0.0;
    }
  }

  /** n calls for one file, each made at the very moment the file would expire. */
  function Extensions(id: string, hours: nat, from: int, n: nat): seq<Request>
    decreases n
  {
    if n == 0 then []
    else [Expire(id, FormatInt(hours), from, from, false, false)] + Extensions(id, hours, from + hours * HOUR, n - 1)
  }

  /** At none of the expire calls has the file's expiration passed. */
  predicate StaysAlive(a: Ages, rows: Rows, requests: seq<Request>, id: string)
    requires a.Valid()
    decreases requests
  {
    requests != [] ==>
      && (requests[0].Expire? ==> id in rows && requests[0].later <= rows[id].expiration)
      && StaysAlive(a, Step(a, rows, requests[0]), requests[1..], id)
  }

  /** The requests run without ever meeting an expired file, and end with the given expiration. */
  predicate Reaches(a: Ages, rows: Rows, requests: seq<Request>, id: string, expiration: int)
    requires a.Valid()
  {
    && StaysAlive(a, rows, requests, id)
    && id in Run(a, rows, requests) && Run(a, rows, requests)[id].expiration == expiration
  }

  lemma ReachesFirst(a: Ages, rows: Rows, r: Request, rest: seq<Request>, id: string, expiration: int)
    requires a.Valid() && r.Expire? && id in rows && r.later <= rows[id].expiration
    requires Reaches(a, Step(a, rows, r), rest, id, expiration)
    ensures Reaches(a, rows, [r] + rest, id, expiration)
  {
    assert ([r] + rest)[1..] == rest;
  }

  lemma {:induction false} ExtensionsExtend(a: Ages, rows: Rows, id: string, hours: nat, n: nat)
    requires Representable(a) && id in rows && rows[id].size >= 0 && AgeFits(a, rows[id].size)
    requires hours < 1_000_000 && hours * HOUR <= Age(a, rows[id].size) * MILLISECOND
    ensures Reaches(a, rows, Extensions(id, hours, rows[id].expiration, n), id,
                    rows[id].expiration + n * (hours * HOUR))
    decreases n
  {
    if n > 0 {
      var from := rows[id].expiration;
      var call := Expire(id, FormatInt(hours), from, from, false, false);
      ExpireAcceptsIff(a, rows, id, hours, from, from);
      var next := rows[id := Row(rows[id].size, from + hours * HOUR, from)];
      assert Step(a, rows, call) == next;
      ExtensionsExtend(a, next, id, hours, n - 1);
      OneMore(n, hours * HOUR);
      ReachesFirst(a, rows, call, Extensions(id, hours, from + hours * HOUR, n - 1), id, from + n * (hours * HOUR));
    }
  }

  lemma OneMore(n: nat, x: int)
    requires n > 0
    ensures x + (n - 1) * x == n * x
  {
  }

  /** A file whose age allows an hour can be kept alive beyond any horizon. */
  lemma ExpireCanAlwaysExtend(a: Ages, rows: Rows, id: string, horizon: int) returns (requests: seq<Request>)
    requires Representable(a) && id in rows && rows[id].size >= 0 && AgeFits(a, rows[id].size)
    requires HOUR <= Age(a, rows[id].size) * MILLISECOND
    ensures StaysAlive(a, rows, requests, id)
    ensures id in Run(a, rows, requests) && Run(a, rows, requests)[id].expiration >= horizon
  {
    var n := if horizon > rows[id].expiration then horizon - rows[id].expiration else 0;
    requests := Extensions(id, 1, rows[id].expiration, n);
    ExtensionsExtend(a, rows, id, 1, n);
  }
}
