/**
 HTTP byte ranges: storage.ByteRange with its header printer, the parser of the Range header, the
 Content-Range text, and an independent reading of RFC 9110, section 14.1.2.
 */
module ByteRanges {
  import opened Wrappers
  import opened Bytes
  import opened Decimal
  import opened Strings

  /** Three int64 fields; which form is meant is decided by Suffix and the sign of End. */
  datatype ByteRange = ByteRange(start: int, end: int, suffix: int)

  /** What the parser can produce: last N bytes, from N on, or a closed interval. */
  predicate WellFormed(r: ByteRange) {
    || (0 < r.suffix <= MAX_INT64 && r.start == 0 && r.end == 0)
    || (r.suffix == 0 && 0 <= r.start <= MAX_INT64 && r.end == -1)
    || (r.suffix == 0 && 0 <= r.start <= r.end <= MAX_INT64)
  }

  const PREFIX := "bytes="

  function Header(r: ByteRange): string {
    PREFIX + Spec(r)
  }

  function Spec(r: ByteRange): string {
    if r.suffix > 0 then "-" + FormatInt(r.suffix)
    else if r.end < 0 then FormatInt(r.start) + "-"
    else FormatInt(r.start) + "-" + FormatInt(r.end)
  }

  // The parser.

  /** parseRangeHeader; None serves the whole object. */
  function ParseRange(header: string): Option<ByteRange> {
    if !(PREFIX <= header) then None
    else
      var spec := header[|PREFIX|..];
      if ',' in spec then None
      else
        var dash := IndexOf(spec, '-');
        if dash == |spec| then None
        else ParseEnds(TrimSpace(spec[..dash]), TrimSpace(spec[dash + 1..]))
  }

  function ParseEnds(startStr: string, endStr: string): Option<ByteRange> {
    if startStr == "" then
      match ParseInt(endStr)
      case Some(n) => if n <= 0 then None else Some(ByteRange(0, 0, n))
      case None => None
    else
      match ParseInt(startStr)
      case None => None
      case Some(start) =>
        if start < 0 then None
        else if endStr == "" then Some(ByteRange(start, -1, 0))
        else
          match ParseInt(endStr)
          case None => None
          case Some(end) => if end < start then None else Some(ByteRange(start, end, 0))
  }

  // Printing and parsing.

  lemma DigitsAreTrimmed(s: string)
    requires AllDigits(s)
    ensures TrimSpace(s) == s
  {
    if s != "" {
      assert IsDigit(s[0]) && IsDigit(s[|s| - 1]);
    }
  }

  lemma DashAfterDigits(digits: string, rest: string)
    requires AllDigits(digits)
    ensures IndexOf(digits + "-" + rest, '-') == |digits|
  {
    assert '-' !in digits;
    IndexOfSeparator(digits, '-', rest);
  }

  lemma NoCommaBetween(first: string, last: string)
    requires AllDigits(first) && AllDigits(last)
    ensures ',' !in first + "-" + last
  {
    var spec := first + "-" + last;
    assert forall k :: 0 <= k < |spec| ==> spec[k] == '-' || IsDigit(spec[k]);
  }

  lemma SplitsAtDash(first: string, last: string)
    ensures (first + "-" + last)[..|first|] == first && (first + "-" + last)[|first| + 1..] == last
    ensures (PREFIX + (first + "-" + last))[|PREFIX|..] == first + "-" + last
  {
  }

  lemma ParsesAsEnds(first: string, last: string)
    requires AllDigits(first) && AllDigits(last)
    ensures ParseRange(PREFIX + (first + "-" + last)) == ParseEnds(first, last)
  {
    SplitsAtDash(first, last);
    NoCommaBetween(first, last);
    DashAfterDigits(first, last);
    DigitsAreTrimmed(first);
    DigitsAreTrimmed(last);
  }

  lemma PrintedNumber(n: int)
    requires 0 <= n <= MAX_INT64
    ensures AllDigits(FormatInt(n)) && FormatInt(n) != "" && ParseInt(FormatInt(n)) == Some(n)
  {
    NatRoundTrip(n);
    IntRoundTrip(n);
  }

  lemma SuffixRoundTrip(n: int)
    requires 0 < n <= MAX_INT64
    ensures ParseRange(PREFIX + ("-" + FormatInt(n))) == Some(ByteRange(0, 0, n))
  {
    PrintedNumber(n);
    ParsesAsEnds("", FormatInt(n));
    assert "" + "-" + FormatInt(n) == "-" + FormatInt(n);
  }

  lemma FromRoundTrip(start: int)
    requires 0 <= start <= MAX_INT64
    ensures ParseRange(PREFIX + (FormatInt(start) + "-")) == Some(ByteRange(start, -1, 0))
  {
    PrintedNumber(start);
    ParsesAsEnds(FormatInt(start), "");
    assert FormatInt(start) + "-" + "" == FormatInt(start) + "-";
  }

  lemma FromToRoundTrip(start: int, end: int)
    requires 0 <= start <= end <= MAX_INT64
    ensures ParseRange(PREFIX + (FormatInt(start) + "-" + FormatInt(end))) == Some(ByteRange(start, end, 0))
  {
    PrintedNumber(start);
    PrintedNumber(end);
    ParsesAsEnds(FormatInt(start), FormatInt(end));
  }

  /** Every well-formed range survives printing and parsing. */
  lemma HeaderRoundTrip(r: ByteRange)
    requires WellFormed(r)
    ensures ParseRange(Header(r)) == Some(r)
  {
    if r.suffix > 0 {
      SuffixRoundTrip(r.suffix);
    } else if r.end < 0 {
      FromRoundTrip(r.start);
    } else {
      FromToRoundTrip(r.start, r.end);
    }
  }

  /** Whatever the parser accepts is well-formed, so printing it again and parsing that is stable. */
  lemma ParsedIsWellFormed(header: string)
    ensures ParseRange(header).Some? ==>
              && WellFormed(ParseRange(header).value)
              && ParseRange(Header(ParseRange(header).value)) == ParseRange(header)
  {
    if ParseRange(header).Some? {
      ParsedNumber(header);
      HeaderRoundTrip(ParseRange(header).value);
    }
  }

  lemma ParsedNumber(header: string)
    requires ParseRange(header).Some?
    ensures WellFormed(ParseRange(header).value)
  {
    var spec := header[|PREFIX|..];
    var dash := IndexOf(spec, '-');
    EndsWellFormed(TrimSpace(spec[..dash]), TrimSpace(spec[dash + 1..]));
  }

  lemma EndsWellFormed(startStr: string, endStr: string)
    requires ParseEnds(startStr, endStr).Some?
    ensures WellFormed(ParseEnds(startStr, endStr).value)
  {
  }

  // The standard's own reading of a single range.

  datatype RfcRange = From(first: nat) | FromTo(first: nat, last: nat) | Suffix(length: nat)

  /** "bytes=" first-pos "-" [last-pos] or "bytes=" "-" suffix-length; numbers are unbounded digit strings. */
  function ParseRfc(header: string): Option<RfcRange> {
    if !(PREFIX <= header) then None
    else
      var spec := header[|PREFIX|..];
      var dash := IndexOf(spec, '-');
      if dash == |spec| then None else RfcEnds(spec[..dash], spec[dash + 1..])
  }

  function RfcEnds(first: string, last: string): Option<RfcRange> {
    if !AllDigits(first) || !AllDigits(last) || (first == "" && last == "") then None
    else if first == "" then Some(Suffix(NatOf(last)))
    else if last == "" then Some(From(NatOf(first)))
    else if NatOf(last) < NatOf(first) then None
    else Some(FromTo(NatOf(first), NatOf(last)))
  }

  /** Position p of an object of `size` bytes is asked for. */
  predicate Asks(r: RfcRange, size: nat, p: nat) {
    p < size &&
    match r
    case From(first) => first <= p
    case FromTo(first, last) => first <= p <= last
    case Suffix(n) => p >= size - n
  }

  /** The standard's range in the program's form. */
  function ToByteRange(r: RfcRange): ByteRange {
    match r
    case From(first) => ByteRange(first, -1, 0)
    case FromTo(first, last) => ByteRange(first, last, 0)
    case Suffix(n) => ByteRange(0, 0, n)
  }

  /** Its numbers fit an int64 and it is not the suffix of length zero. */
  predicate Supported(r: RfcRange) {
    match r
    case From(first) => first <= MAX_INT64
    case FromTo(first, last) => last <= MAX_INT64
    case Suffix(n) => 0 < n <= MAX_INT64
  }

  /** A range valid under the standard is understood, or ignored when a number does not fit or asks for no byte. */
  lemma ParserMeetsRfc(header: string)
    requires ParseRfc(header).Some?
    ensures var r := ParseRfc(header).value;
            ParseRange(header) == if Supported(r) then Some(ToByteRange(r)) else None
  {
    var spec := header[|PREFIX|..];
    var dash := IndexOf(spec, '-');
    var first, last := spec[..dash], spec[dash + 1..];
    IndexOfIs(spec, '-');
    assert spec == first + "-" + last;
    assert header == PREFIX + spec;
    ParsesAsEnds(first, last);
    if first != "" {
      DigitsParse(first);
    }
    if last != "" {
      DigitsParse(last);
    }
  }

  /** The texts around the first dash of the header's range. */
  function Ends(header: string): (string, string)
    requires ParseRange(header).Some?
  {
    var spec := header[|PREFIX|..];
    var dash := IndexOf(spec, '-');
    (spec[..dash], spec[dash + 1..])
  }

  /**
   What the parser takes beyond the standard, exactly: an accepted header is valid under RFC 9110 if and only if
   the texts around its first dash are digits throughout, with no sign and no blank.
   */
  lemma AcceptedIsStandardIff(header: string)
    requires ParseRange(header).Some?
    ensures ParseRfc(header).Some? <==> AllDigits(Ends(header).0) && AllDigits(Ends(header).1)
  {
    var (first, last) := Ends(header);
    DigitsAreTrimmedIfDigits(first);
    DigitsAreTrimmedIfDigits(last);
    if AllDigits(first) && AllDigits(last) {
      EndsAreRfc(first, last);
    }
  }

  lemma DigitsAreTrimmedIfDigits(s: string)
    ensures AllDigits(s) ==> TrimSpace(s) == s
  {
    if AllDigits(s) {
      DigitsAreTrimmed(s);
    }
  }

  lemma EndsAreRfc(first: string, last: string)
    requires AllDigits(first) && AllDigits(last) && ParseEnds(first, last).Some?
    ensures RfcEnds(first, last).Some?
  {
    if first != "" {
      DigitsParse(first);
    }
    if last != "" {
      DigitsParse(last);
    }
  }

  /** Such headers exist: a plus sign before any number, as in "bytes=+5-", is accepted. */
  lemma SignedIsAccepted(n: nat)
    requires n <= MAX_INT64
    ensures var header := PREFIX + ("+" + FormatNat(n) + "-");
            ParseRfc(header).None? && ParseRange(header) == Some(ByteRange(n, -1, 0))
  {
    var first := "+" + FormatNat(n);
    NatRoundTrip(n);
    assert first[1..] == FormatNat(n) && first[0] == '+';
    assert ParseInt(first) == Some(n);
    SplitsAtDash(first, "");
    assert first + "-" + "" == first + "-";
    IndexOfSeparator(first, '-', "");
    SignedIsTrimmed(first);
    assert !IsDigit(first[0]);
  }

  /** Likewise blanks around the numbers. */
  lemma SpacedIsAccepted(n: nat, m: nat)
    requires n <= m <= MAX_INT64
    ensures var header := PREFIX + (" " + FormatNat(n) + " - " + FormatNat(m) + " ");
            ParseRfc(header).None? && ParseRange(header) == Some(ByteRange(n, m, 0))
  {
    var first, last := " " + FormatNat(n) + " ", " " + FormatNat(m) + " ";
    NatRoundTrip(n);
    NatRoundTrip(m);
    BlanksAreTrimmed(FormatNat(n));
    BlanksAreTrimmed(FormatNat(m));
    assert " " + FormatNat(n) + " - " + FormatNat(m) + " " == first + "-" + last;
    TrimmedEnds(first, last);
    SpacedEnds(first, last, FormatNat(n), FormatNat(m), n, m);
  }

  lemma TrimmedEnds(first: string, last: string)
    requires '-' !in first && ',' !in first && ',' !in last
    ensures ParseRange(PREFIX + (first + "-" + last)) == ParseEnds(TrimSpace(first), TrimSpace(last))
    ensures ParseRfc(PREFIX + (first + "-" + last)) == RfcEnds(first, last)
  {
    SplitsAtDash(first, last);
    IndexOfSeparator(first, '-', last);
    assert first + ['-'] + last == first + "-" + last;
  }

  lemma SpacedEnds(first: string, last: string, a: string, b: string, n: nat, m: nat)
    requires n <= m <= MAX_INT64 && AllDigits(a) && AllDigits(b) && a != "" && b != ""
    requires NatOf(a) == n && NatOf(b) == m && first != "" && first[0] == ' '
    ensures RfcEnds(first, last).None? && ParseEnds(a, b) == Some(ByteRange(n, m, 0))
  {
    assert IsDigit(a[0]) && IsDigit(b[0]) && !IsDigit(first[0]);
  }

  lemma BlanksAreTrimmed(digits: string)
    requires digits != "" && AllDigits(digits)
    ensures var s := " " + digits + " "; TrimSpace(s) == digits && ',' !in s && '-' !in s && '/' !in s
  {
    var s := " " + digits + " ";
    assert s[1..] == digits + " " && IsDigit(digits[0]) && TrimLeft(s) == digits + " ";
    TrimmedRight(digits);
    assert forall k :: 0 <= k < |digits| ==> IsDigit(digits[k]);
  }

  lemma TrimmedRight(digits: string)
    requires digits != "" && AllDigits(digits)
    ensures TrimRight(digits + " ") == digits
  {
    assert (digits + " ")[..|digits|] == digits && IsDigit(digits[|digits| - 1]);
    assert TrimRight(digits) == digits;
  }

  lemma SignedIsTrimmed(s: string)
    requires s != "" && s[0] == '+' && AllDigits(s[1..])
    ensures TrimSpace(s) == s && ',' !in s
  {
    assert forall k :: 1 <= k < |s| ==> s[k] == s[1..][k - 1];
  }

  // Content-Range, section 14.4 of RFC 9110.

  function ContentRange(start: int, end: int, size: int): string {
    "bytes " + FormatInt(start) + "-" + FormatInt(end) + "/" + FormatInt(size)
  }

  /** parseContentRangeTotal. */
  function ParseTotal(contentRange: string, fallback: int): int {
    var slash := LastIndexOf(contentRange, '/');
    if slash < 0 then fallback
    else
      match ParseInt(TrimSpace(contentRange[slash + 1..]))
      case None => fallback
      case Some(total) => total
  }

  lemma LastSlash(front: string, total: string)
    requires '/' !in total
    ensures LastIndexOf(front + "/" + total, '/') == |front|
  {
    var text := front + "/" + total;
    LastIndexOfIs(text, '/');
    assert text[|front|] == '/';
    assert forall k :: |front| < k < |text| ==> text[k] == total[k - |front| - 1];
  }

  /** The total size is recovered from every printed Content-Range. */
  lemma TotalRoundTrip(start: int, end: int, size: nat, fallback: int)
    requires size <= MAX_INT64
    ensures ParseTotal(ContentRange(start, end, size), fallback) == size
  {
    var front := "bytes " + FormatInt(start) + "-" + FormatInt(end);
    var total := FormatInt(size);
    var s := ContentRange(start, end, size);
    PrintedNumber(size);
    assert s == front + "/" + total && s[|front| + 1..] == total;
    LastSlash(front, total);
    DigitsAreTrimmed(total);
  }

  /** Blanks around it do no harm. */
  lemma SpacedTotal(front: string, size: nat, fallback: int)
    requires size <= MAX_INT64
    ensures ParseTotal(front + "/ " + FormatNat(size) + " ", fallback) == size
  {
    var total := " " + FormatNat(size) + " ";
    var text := front + "/" + total;
    NatRoundTrip(size);
    BlanksAreTrimmed(FormatNat(size));
    LastSlash(front, total);
    assert text == front + "/ " + FormatNat(size) + " " && text[|front| + 1..] == total;
    assert IsDigit(FormatNat(size)[0]);
  }

  /** An unknown total falls back. */
  lemma UnknownTotal(front: string, fallback: int)
    ensures ParseTotal(front + "/*", fallback) == fallback
  {
    var s := front + "/*";
    LastIndexOfIs(s, '/');
    assert s[|front|] == '/' && s[|front| + 1] == '*';
    assert s[|front| + 1..] == "*";
    assert TrimSpace("*") == "*";
    assert !IsDigit("*"[0]);
  }

  /** The three numbers around a dash and a slash. */
  function NumbersAround(rest: string, dash: nat, slash: nat): Option<(nat, nat, nat)> {
    if !(0 < dash < slash - 1 && slash < |rest| - 1) then None
    else
      var first, last, size := rest[..dash], rest[dash + 1..slash], rest[slash + 1..];
      if AllDigits(first) && AllDigits(last) && AllDigits(size) then Some((NatOf(first), NatOf(last), NatOf(size)))
      else None
  }

  /** An independent reading of "first-last/size". */
  function ReadBounds(rest: string): Option<(nat, nat, nat)> {
    NumbersAround(rest, IndexOf(rest, '-'), IndexOf(rest, '/'))
  }

  function ReadContentRange(text: string): Option<(nat, nat, nat)> {
    if "bytes " <= text then ReadBounds(text[6..]) else None
  }

  lemma ThreeTexts(first: string, last: string, total: string)
    ensures var rest := first + "-" + last + "/" + total;
            && rest == first + ['-'] + (last + "/" + total) && rest == (first + "-" + last) + ['/'] + total
            && rest[..|first|] == first && rest[|first| + 1..|first| + 1 + |last|] == last
            && rest[|first| + 1 + |last| + 1..] == total && |rest| == |first| + |last| + |total| + 2
  {
  }

  lemma DigitsHaveNoSigns(first: string, last: string)
    requires AllDigits(first) && AllDigits(last)
    ensures '-' !in first && '/' !in first + "-" + last
  {
  }

  lemma NumbersOf(rest: string, dash: nat, slash: nat, first: string, last: string, total: string)
    requires 0 < dash < slash - 1 && slash < |rest| - 1
    requires AllDigits(first) && AllDigits(last) && AllDigits(total)
    requires rest[..dash] == first && rest[dash + 1..slash] == last && rest[slash + 1..] == total
    ensures NumbersAround(rest, dash, slash) == Some((NatOf(first), NatOf(last), NatOf(total)))
  {
  }

  lemma DashIn(rest: string, first: string, back: string)
    requires AllDigits(first) && rest == first + ['-'] + back
    ensures IndexOf(rest, '-') == |first|
  {
    assert '-' !in first;
    IndexOfSeparator(first, '-', back);
  }

  lemma SlashIn(rest: string, front: string, total: string)
    requires '/' !in front && rest == front + ['/'] + total
    ensures IndexOf(rest, '/') == |front|
  {
    IndexOfSeparator(front, '/', total);
  }

  lemma BoundsOf(rest: string, dash: nat, slash: nat, first: string, last: string, total: string)
    requires IndexOf(rest, '-') == dash && IndexOf(rest, '/') == slash
    requires 0 < dash < slash - 1 && slash < |rest| - 1
    requires AllDigits(first) && AllDigits(last) && AllDigits(total)
    requires rest[..dash] == first && rest[dash + 1..slash] == last && rest[slash + 1..] == total
    ensures ReadBounds(rest) == Some((NatOf(first), NatOf(last), NatOf(total)))
  {
    NumbersOf(rest, dash, slash, first, last, total);
  }

  /** Where the three texts lie. */
  lemma TextsAt(rest: string, first: string, last: string, total: string) returns (dash: nat, slash: nat)
    requires first != "" && last != "" && total != "" && AllDigits(first) && AllDigits(last)
    requires rest == first + "-" + last + "/" + total
    ensures IndexOf(rest, '-') == dash && IndexOf(rest, '/') == slash
    ensures 0 < dash < slash - 1 && slash < |rest| - 1
    ensures rest[..dash] == first && rest[dash + 1..slash] == last && rest[slash + 1..] == total
  {
    ThreeTexts(first, last, total);
    DigitsHaveNoSigns(first, last);
    DashIn(rest, first, last + "/" + total);
    SlashIn(rest, first + "-" + last, total);
    dash, slash := |first|, |first| + 1 + |last|;
  }

  lemma ReadsTexts(rest: string, first: string, last: string, total: string)
    requires first != "" && last != "" && total != "" && AllDigits(first) && AllDigits(last) && AllDigits(total)
    requires rest == first + "-" + last + "/" + total
    ensures ReadBounds(rest) == Some((NatOf(first), NatOf(last), NatOf(total)))
  {
    var dash, slash := TextsAt(rest, first, last, total);
    BoundsOf(rest, dash, slash, first, last, total);
  }

  lemma UnitDropped(rest: string)
    ensures ReadContentRange("bytes " + rest) == ReadBounds(rest)
  {
    assert ("bytes " + rest)[6..] == rest;
  }

  lemma PrintedBounds(start: nat, end: nat, size: nat)
    ensures ContentRange(start, end, size)
         == "bytes " + (FormatNat(start) + "-" + FormatNat(end) + "/" + FormatNat(size))
  {
  }

  /** What is printed reads as the bounds and the size, in this order. */
  lemma ContentRangeReads(start: nat, end: nat, size: nat)
    ensures ReadContentRange(ContentRange(start, end, size)) == Some((start, end, size))
  {
    NatRoundTrip(start);
    NatRoundTrip(end);
    NatRoundTrip(size);
    PrintedBounds(start, end, size);
    var rest := FormatNat(start) + "-" + FormatNat(end) + "/" + FormatNat(size);
    ReadsTexts(rest, FormatNat(start), FormatNat(end), FormatNat(size));
    UnitDropped(rest);
  }
}
