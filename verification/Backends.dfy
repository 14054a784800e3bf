/** Opening a byte range on the three storage backends. */
module Backends {
  import opened Wrappers
  import opened Bytes
  import opened Decimal
  import opened Strings
  import opened ByteRanges

  datatype Object = Object(body: Data, size: int, length: int, partial: bool, contentRange: string)

  datatype OpenError = ObjectNotFound | InvalidRange

  // Local files.

  /** resolveRange: inclusive bounds within an object of `size` bytes. */
  function ResolveRange(r: ByteRange, size: nat): Option<(int, int)> {
    if size == 0 then None
    else if r.suffix > 0 then
      var n := if r.suffix < size then r.suffix else size;
      Some((size - n, size - 1))
    else if r.start < 0 || r.start >= size then None
    else
      var end := if r.end < 0 || r.end >= size then size - 1 else r.end;
      if end < r.start then None else Some((r.start, end))
  }

  lemma ResolvedBounds(r: ByteRange, size: nat)
    ensures var b := ResolveRange(r, size); b.Some? ==> 0 <= b.value.0 <= b.value.1 < size
  {
  }

  function Slice(data: Data, start: int, end: int): Object
    requires 0 <= start <= end < |data|
  {
    Object(data[start..end + 1], |data|, end - start + 1, true, ContentRange(start, end, |data|))
  }

  function Whole(data: Data): Object {
    Object(data, |data|, |data|, false, "")
  }

  function LocalOpen(data: Data, range: Option<ByteRange>): Result<Object, OpenError>
  {
    if range.None? then Ok(Whole(data))
    else
      ResolvedBounds(range.value, |data|);
      match ResolveRange(range.value, |data|)
      case None => Err(InvalidRange)
      case Some(b) => Ok(Slice(data, b.0, b.1))
  }

  // Google Cloud Storage.

  /** gcsRange: the end bound is inclusive, and the length is computed in int64. */
  function GcsRange(range: Option<ByteRange>): (int, int) {
    match range
    case None => (0, -1)
    case Some(r) =>
      if r.suffix > 0 then (-r.suffix, -1)
      else if r.end < 0 then (r.start, -1)
      else (r.start, Wrap64(Wrap64(r.end - r.start) + 1))
  }

  datatype Reader = Reader(startOffset: nat, remain: nat)

  /** The contract of NewRangeReader: a negative offset counts from the end, a negative length reads to the end. */
  function RangeReader(size: nat, offset: int, length: int): Option<Reader> {
    if offset < 0 then
      var n := if -offset < size then -offset else size;
      Some(Reader(size - n, n))
    else if offset >= size && !(offset == 0 && length < 0) then None
    else
      var left := size - offset;
      Some(Reader(offset, if length < 0 || length >= left then left else length))
  }

  lemma ReaderBounds(size: nat, offset: int, length: int)
    ensures var r := RangeReader(size, offset, length); r.Some? ==> r.value.startOffset + r.value.remain <= size
  {
  }

  function GcsOpen(data: Data, range: Option<ByteRange>): Result<Object, OpenError> {
    var (offset, length) := GcsRange(range);
    ReaderBounds(|data|, offset, length);
    match RangeReader(|data|, offset, length)
    case None => Err(InvalidRange)
    case Some(r) =>
      var body := data[r.startOffset..r.startOffset + r.remain];
      if range.None? then Ok(Object(body, |data|, r.remain, false, ""))
      else Ok(Object(body, |data|, r.remain, true, ContentRange(r.startOffset, r.startOffset + r.remain - 1, |data|)))
  }

  // S3, which reads the forwarded header itself.

  /** The inclusive bounds a range selects under the standard. */
  function RfcBounds(r: RfcRange, size: nat): Option<(int, int)> {
    match r
    case From(first) => if first < size then Some((first, size - 1)) else None
    case FromTo(first, last) =>
      if first <= last && first < size then Some((first, if last < size then last else size - 1)) else None
    case Suffix(n) => if n == 0 || size == 0 then None else Some((if n < size then size - n else 0, size - 1))
  }

  /** They are what the standard asks for, and missing exactly when it asks for no byte. */
  lemma RfcBoundsSelect(r: RfcRange, size: nat, p: nat)
    ensures Asks(r, size, p) <==>
              RfcBounds(r, size).Some? && RfcBounds(r, size).value.0 <= p <= RfcBounds(r, size).value.1
    ensures RfcBounds(r, size).Some? ==> Asks(r, size, RfcBounds(r, size).value.0)
  {
  }

  /** GetObject: the response, or InvalidRange. An unreadable Range header would be ignored. */
  datatype Response = Response(body: Data, contentLength: int, contentRange: Option<string>)

  function Selected(data: Data, start: int, end: int): Response
    requires 0 <= start <= end < |data|
  {
    Response(data[start..end + 1], end - start + 1, Some(ContentRange(start, end, |data|)))
  }

  function Select(data: Data, q: RfcRange): Option<Response> {
    match RfcBounds(q, |data|)
    case None => None
    case Some(b) => Some(Selected(data, b.0, b.1))
  }

  /**
   A suffix of an empty object: satisfiable under the standard, yet without a byte a Content-Range could name.
   What S3 answers then is an input, `atEmpty`.
   */
  predicate EmptySuffix(data: Data, q: RfcRange) {
    data == [] && q.Suffix? && q.length > 0
  }

  function GetObject(data: Data, header: Option<string>, atEmpty: Option<Response>): Option<Response> {
    if header.None? then Some(Response(data, |data|, None))
    else
      match ParseRfc(header.value)
      case None => Some(Response(data, |data|, None))
      case Some(q) => if EmptySuffix(data, q) then atEmpty else Select(data, q)
  }

  function FromResponse(r: Option<Response>): Result<Object, OpenError> {
    match r
    case None => Err(InvalidRange)
    case Some(o) =>
      match o.contentRange
      case Some(text) => Ok(Object(o.body, ParseTotal(text, o.contentLength), o.contentLength, true, text))
      case None => Ok(Object(o.body, o.contentLength, o.contentLength, false, ""))
  }

  function S3Open(data: Data, range: Option<ByteRange>, atEmpty: Option<Response>): Result<Object, OpenError> {
    FromResponse(GetObject(data, if range.Some? then Some(Header(range.value)) else None, atEmpty))
  }

  // All three give the same object.

  /** A well-formed range as the standard writes it. */
  function AsRfc(r: ByteRange): (q: RfcRange)
    requires WellFormed(r)
    ensures Supported(q) && ToByteRange(q) == r
  {
    if r.suffix > 0 then Suffix(r.suffix) else if r.end < 0 then From(r.start) else FromTo(r.start, r.end)
  }

  lemma DigitsOf(n: int)
    requires n >= 0
    ensures AllDigits(FormatInt(n)) && FormatInt(n) != "" && NatOf(FormatInt(n)) == n
  {
    NatRoundTrip(n);
  }

  lemma RfcReads(first: string, last: string)
    requires AllDigits(first) && AllDigits(last)
    ensures ParseRfc(PREFIX + (first + "-" + last)) == RfcEnds(first, last)
  {
    SplitsAtDash(first, last);
    DashAfterDigits(first, last);
  }

  lemma NothingBeforeDash(last: string)
    ensures "" + "-" + last == "-" + last
  {
  }

  lemma NothingAfterDash(first: string)
    ensures first + "-" + "" == first + "-"
  {
  }

  lemma SuffixReads(digits: string)
    requires AllDigits(digits) && digits != ""
    ensures ParseRfc(PREFIX + ("-" + digits)) == Some(Suffix(NatOf(digits)))
  {
    NothingBeforeDash(digits);
    RfcReads("", digits);
  }

  lemma FromReads(digits: string)
    requires AllDigits(digits) && digits != ""
    ensures ParseRfc(PREFIX + (digits + "-")) == Some(From(NatOf(digits)))
  {
    NothingAfterDash(digits);
    RfcReads(digits, "");
  }

  lemma SuffixIsRfc(n: int)
    requires n > 0
    ensures ParseRfc(PREFIX + ("-" + FormatInt(n))) == Some(Suffix(n))
  {
    DigitsOf(n);
    SuffixReads(FormatInt(n));
  }

  lemma FromIsRfc(start: int)
    requires start >= 0
    ensures ParseRfc(PREFIX + (FormatInt(start) + "-")) == Some(From(start))
  {
    DigitsOf(start);
    FromReads(FormatInt(start));
  }

  lemma FromToIsRfc(start: int, end: int)
    requires 0 <= start <= end
    ensures ParseRfc(PREFIX + (FormatInt(start) + "-" + FormatInt(end))) == Some(FromTo(start, end))
  {
    DigitsOf(start);
    DigitsOf(end);
    RfcReads(FormatInt(start), FormatInt(end));
  }

  /** The printed header means the same range under the standard. */
  lemma HeaderIsRfc(r: ByteRange)
    requires WellFormed(r)
    ensures ParseRfc(Header(r)) == Some(AsRfc(r))
  {
    if r.suffix > 0 {
      SuffixIsRfc(r.suffix);
    } else if r.end < 0 {
      FromIsRfc(r.start);
    } else {
      FromToIsRfc(r.start, r.end);
    }
  }

  lemma ResolveIsRfc(r: ByteRange, size: nat)
    requires WellFormed(r)
    ensures ResolveRange(r, size) == RfcBounds(AsRfc(r), size)
  {
  }

  /** End-Start+1 overflows only for the whole int64 range, and then it reads to the end like any long range. */
  lemma GcsLength(r: ByteRange, size: nat)
    requires WellFormed(r) && 0 < size <= MAX_INT64
    ensures var (offset, length) := GcsRange(Some(r));
            RangeReader(size, offset, length)
            == (match ResolveRange(r, size)
                case None => None
                case Some(b) => Some(Reader(b.0, b.1 - b.0 + 1)))
  {
    if r.suffix == 0 && r.end >= 0 {
      assert Wrap64(r.end - r.start) == r.end - r.start;
      assert r.end - r.start == MAX_INT64 ==> Wrap64(MAX_INT64 + 1) == MIN_INT64;
    }
  }

  lemma ResponseObject(body: Data, size: int, length: int, text: string)
    requires ParseTotal(text, length) == size
    ensures FromResponse(Some(Response(body, length, Some(text)))) == Ok(Object(body, size, length, true, text))
  {
  }

  lemma SelectedSlice(data: Data, start: int, end: int)
    requires |data| <= MAX_INT64 && 0 <= start <= end < |data|
    ensures FromResponse(Some(Selected(data, start, end))) == Ok(Slice(data, start, end))
  {
    TotalRoundTrip(start, end, |data|, end - start + 1);
    ResponseObject(data[start..end + 1], |data|, end - start + 1, ContentRange(start, end, |data|));
  }

  lemma LocalOpensSlice(data: Data, r: ByteRange, b: (int, int))
    requires ResolveRange(r, |data|) == Some(b)
    ensures 0 <= b.0 <= b.1 < |data| && LocalOpen(data, Some(r)) == Ok(Slice(data, b.0, b.1))
  {
  }

  lemma SelectsBounds(data: Data, q: RfcRange, b: (int, int))
    requires RfcBounds(q, |data|) == Some(b) && 0 <= b.0 <= b.1 < |data|
    ensures Select(data, q) == Some(Selected(data, b.0, b.1))
  {
  }

  lemma RefusedIsLocal(data: Data, r: ByteRange)
    requires WellFormed(r) && ResolveRange(r, |data|).None?
    ensures FromResponse(Select(data, AsRfc(r))) == Err(InvalidRange) == LocalOpen(data, Some(r))
  {
    ResolveIsRfc(r, |data|);
    assert Select(data, AsRfc(r)) == None;
  }

  lemma SliceIsLocal(data: Data, r: ByteRange, start: int, end: int)
    requires |data| <= MAX_INT64 && WellFormed(r) && ResolveRange(r, |data|) == Some((start, end))
    ensures 0 <= start <= end < |data|
    ensures LocalOpen(data, Some(r)) == Ok(Slice(data, start, end))
    ensures Select(data, AsRfc(r)) == Some(Selected(data, start, end))
  {
    ResolveIsRfc(r, |data|);
    ResolvedBounds(r, |data|);
    LocalOpensSlice(data, r, (start, end));
    SelectsBounds(data, AsRfc(r), (start, end));
  }

  lemma S3Selects(data: Data, r: ByteRange, atEmpty: Option<Response>)
    requires WellFormed(r)
    ensures S3Open(data, Some(r), atEmpty)
         == FromResponse(if EmptySuffix(data, AsRfc(r)) then atEmpty else Select(data, AsRfc(r)))
  {
    HeaderIsRfc(r);
  }

  lemma S3OpensLocally(data: Data, r: ByteRange, atEmpty: Option<Response>)
    requires 0 < |data| <= MAX_INT64 && WellFormed(r)
    ensures S3Open(data, Some(r), atEmpty) == LocalOpen(data, Some(r))
  {
    S3Selects(data, r, atEmpty);
    match ResolveRange(r, |data|)
    case None => RefusedIsLocal(data, r);
    case Some(b) =>
      SliceIsLocal(data, r, b.0, b.1);
      SelectedSlice(data, b.0, b.1);
  }

  lemma GcsOpensLocally(data: Data, r: ByteRange)
    requires 0 < |data| <= MAX_INT64 && WellFormed(r)
    ensures GcsOpen(data, Some(r)) == LocalOpen(data, Some(r))
  {
    GcsLength(r, |data|);
    ResolvedBounds(r, |data|);
  }

  /** Main result: the same bytes, sizes and Content-Range, or the same refusal, on every backend. */
  lemma BackendsAgree(data: Data, range: Option<ByteRange>, atEmpty: Option<Response>)
    requires 0 < |data| <= MAX_INT64 && (range.Some? ==> WellFormed(range.value))
    ensures LocalOpen(data, range) == S3Open(data, range, atEmpty) == GcsOpen(data, range)
  {
    match range
    case Some(r) =>
      S3OpensLocally(data, r, atEmpty);
      GcsOpensLocally(data, r);
    case None =>
      assert data[0..|data|] == data;
  }

  /** The ranges GCS serves even on an empty object: suffixes, and everything from the start on. */
  predicate ReadsEmpty(r: ByteRange) {
    r.suffix > 0 || (r.start == 0 && (r.end == -1 || r.end == MAX_INT64))
  }

  lemma EmptyOnGcs(r: ByteRange)
    requires WellFormed(r)
    ensures GcsOpen([], Some(r)) == Err(InvalidRange) <==> !ReadsEmpty(r)
  {
    var (offset, length) := GcsRange(Some(r));
    assert RangeReader(0, offset, length).None? <==> !ReadsEmpty(r);
  }

  /**
   On an empty object a local disk refuses every range, GCS serves exactly these, and S3 refuses all but
   suffixes.
   */
  lemma EmptyObjects(r: ByteRange, atEmpty: Option<Response>)
    requires WellFormed(r)
    ensures LocalOpen([], Some(r)) == Err(InvalidRange)
    ensures S3Open([], Some(r), atEmpty) == if r.suffix > 0 then FromResponse(atEmpty) else Err(InvalidRange)
    ensures GcsOpen([], Some(r)) == Err(InvalidRange) <==> !ReadsEmpty(r)
  {
    RefusedIsLocal([], r);
    S3Selects([], r, atEmpty);
    EmptyOnGcs(r);
  }

  /**
   At all sizes, and whatever S3 does with suffixes of an empty object: the backends agree if and only if the
   object has a byte or the range is not one of these.
   */
  lemma BackendsAgreeIff(data: Data, range: Option<ByteRange>, atEmpty: Option<Response>)
    requires |data| <= MAX_INT64 && (range.Some? ==> WellFormed(range.value))
    ensures LocalOpen(data, range) == S3Open(data, range, atEmpty) == GcsOpen(data, range)
       <==> data != [] || range.None? || !ReadsEmpty(range.value)
  {
    if data != [] {
      BackendsAgree(data, range, atEmpty);
    } else if range.Some? {
      EmptyObjects(range.value, atEmpty);
    } else {
      assert data[0..|data|] == data;
    }
  }

  // What a client sees.

  /** The answer of serveStream. */
  datatype Served =
    | Full(body: Data, length: int)
    | PartialContent(body: Data, length: int, contentRange: string)
    | NotSatisfiable
    | NotFound

  function ServedAs(r: Result<Object, OpenError>): Served {
    match r
    case Ok(o) => if o.partial then PartialContent(o.body, o.length, o.contentRange) else Full(o.body, o.length)
    case Err(ObjectNotFound) => NotFound
    case Err(InvalidRange) => NotSatisfiable
  }

  lemma ParsedOpens(header: string)
    ensures ParseRange(header).Some? ==> WellFormed(ParseRange(header).value)
  {
    ParsedIsWellFormed(header);
  }

  /** serveStream over an existing object of the local backend. */
  function ServeRange(data: Data, header: string): Served {
    ParsedOpens(header);
    ServedAs(LocalOpen(data, ParseRange(header)))
  }

  /** The bytes the standard asks for with their bounds, 416 if it asks for none, or an ignored range. */
  predicate AsAsked(data: Data, q: RfcRange, served: Served) {
    if !Supported(q) then served == Full(data, |data|)
    else
      match RfcBounds(q, |data|)
      case None => served == NotSatisfiable
      case Some(b) =>
        0 <= b.0 <= b.1 < |data|
        && served == PartialContent(data[b.0..b.1 + 1], b.1 - b.0 + 1, ContentRange(b.0, b.1, |data|))
  }

  /**
   For a single range valid under RFC 9110 with numbers that fit an int64, the client gets exactly the bytes
   the standard asks for with their true bounds, or 416 exactly when it asks for none. Any other such range
   is ignored, which the standard permits.
   */
  lemma ServesWhatRfcAsks(data: Data, header: string)
    requires ParseRfc(header).Some?
    ensures AsAsked(data, ParseRfc(header).value, ServeRange(data, header))
  {
    ParserMeetsRfc(header);
    RfcOrdered(header);
    ServesAsked(data, header, ParseRfc(header).value);
  }

  lemma RfcOrdered(header: string)
    requires ParseRfc(header).Some?
    ensures var q := ParseRfc(header).value; q.FromTo? ==> q.first <= q.last
  {
  }

  lemma ServesAsked(data: Data, header: string, q: RfcRange)
    requires ParseRange(header) == (if Supported(q) then Some(ToByteRange(q)) else None)
    requires q.FromTo? ==> q.first <= q.last
    ensures AsAsked(data, q, ServeRange(data, header))
  {
    if Supported(q) {
      var r := ToByteRange(q);
      assert AsRfc(r) == q;
      ResolveIsRfc(r, |data|);
      var bounds := ResolveRange(r, |data|);
      if bounds.Some? {
        LocalOpensSlice(data, r, bounds.value);
      }
    }
  }

  // Resuming a download.

  predicate Rising(cuts: seq<int>, at: int, size: nat) {
    if cuts == [] then at < size else at < cuts[0] && Rising(cuts[1..], cuts[0], size)
  }

  /** Adjacent ranges that start at `at` and are cut at `cuts`. */
  function Pieces(cuts: seq<int>, at: int): seq<ByteRange> {
    if cuts == [] then [ByteRange(at, -1, 0)]
    else [ByteRange(at, cuts[0] - 1, 0)] + Pieces(cuts[1..], cuts[0])
  }

  function BodyOf(r: Result<Object, OpenError>): Data {
    if r.Ok? then r.value.body else []
  }

  /** The bodies opened for the ranges, one after the other. */
  function Fetched(data: Data, ranges: seq<ByteRange>): Data {
    if ranges == [] then [] else BodyOf(LocalOpen(data, Some(ranges[0]))) + Fetched(data, ranges[1..])
  }

  lemma PieceOpened(data: Data, at: nat, end: int)
    requires at < |data| && (end == -1 || at <= end < |data|)
    ensures BodyOf(LocalOpen(data, Some(ByteRange(at, end, 0)))) == data[at..if end == -1 then |data| else end + 1]
  {
  }

  lemma {:induction false} RisingInside(cuts: seq<int>, at: int, size: nat)
    requires Rising(cuts, at, size)
    ensures at < size
    decreases cuts
  {
    if cuts != [] {
      RisingInside(cuts[1..], cuts[0], size);
    }
  }

  lemma Joins(data: Data, at: nat, cut: nat)
    requires at <= cut <= |data|
    ensures data[at..cut] + data[cut..] == data[at..]
  {
  }

  lemma FetchedHead(data: Data, r: ByteRange, ranges: seq<ByteRange>)
    ensures Fetched(data, [r] + ranges) == BodyOf(LocalOpen(data, Some(r))) + Fetched(data, ranges)
  {
    assert ([r] + ranges)[1..] == ranges;
  }

  /** Fetching adjacent ranges that cover the object reassembles it. */
  lemma {:induction false} PiecesReassemble(data: Data, cuts: seq<int>, at: nat)
    requires Rising(cuts, at, |data|)
    ensures at <= |data| && Fetched(data, Pieces(cuts, at)) == data[at..]
    decreases cuts
  {
    RisingInside(cuts, at, |data|);
    if cuts == [] {
      PieceOpened(data, at, -1);
      FetchedHead(data, ByteRange(at, -1, 0), []);
      assert [ByteRange(at, -1, 0)] + [] == [ByteRange(at, -1, 0)];
    } else {
      RisingInside(cuts[1..], cuts[0], |data|);
      PieceOpened(data, at, cuts[0] - 1);
      FetchedHead(data, ByteRange(at, cuts[0] - 1, 0), Pieces(cuts[1..], cuts[0]));
      PiecesReassemble(data, cuts[1..], cuts[0]);
      Joins(data, at, cuts[0]);
    }
  }

  /** A printed range is served as the backend opens it. */
  lemma ServesPrinted(data: Data, r: ByteRange)
    requires WellFormed(r)
    ensures ServeRange(data, Header(r)) == ServedAs(LocalOpen(data, Some(r)))
  {
    HeaderRoundTrip(r);
  }

  /** The body a client gets for one header. */
  function Sent(data: Data, header: string): Data {
    var served := ServeRange(data, header);
    if served.Full? || served.PartialContent? then served.body else []
  }

  lemma SendsWhatIsOpened(data: Data, r: ByteRange)
    requires WellFormed(r)
    ensures Sent(data, Header(r)) == BodyOf(LocalOpen(data, Some(r)))
  {
    ServesPrinted(data, r);
  }

  /** The bodies a client gets for the printed ranges, one after the other. */
  function SentAll(data: Data, ranges: seq<ByteRange>): Data {
    if ranges == [] then [] else Sent(data, Header(ranges[0])) + SentAll(data, ranges[1..])
  }

  lemma {:induction false} SentIsFetched(data: Data, ranges: seq<ByteRange>)
    requires forall r :: r in ranges ==> WellFormed(r)
    ensures SentAll(data, ranges) == Fetched(data, ranges)
  {
    if ranges != [] {
      SendsWhatIsOpened(data, ranges[0]);
      SentIsFetched(data, ranges[1..]);
    }
  }

  lemma {:induction false} PiecesWellFormed(cuts: seq<int>, at: nat, size: nat)
    requires Rising(cuts, at, size) && size <= MAX_INT64
    ensures forall r :: r in Pieces(cuts, at) ==> WellFormed(r)
    decreases cuts
  {
    RisingInside(cuts, at, size);
    if cuts != [] {
      RisingInside(cuts[1..], cuts[0], size);
      PiecesWellFormed(cuts[1..], cuts[0], size);
    }
  }

  /** A client that asks for adjacent ranges by their headers gets the object, wherever it is cut. */
  lemma HeadersReassemble(data: Data, cuts: seq<int>)
    requires |data| <= MAX_INT64 && Rising(cuts, 0, |data|)
    ensures SentAll(data, Pieces(cuts, 0)) == data
  {
    PiecesWellFormed(cuts, 0, |data|);
    SentIsFetched(data, Pieces(cuts, 0));
    PiecesReassemble(data, cuts, 0);
  }
}
