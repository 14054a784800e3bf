/** The pieces of the v1 E2EE container: header, metadata record, nonces, additional data, sizes. */
module ContainerFormat {
  import opened Wrappers
  import opened Bytes
  import opened KeyToken

  // "ISRV-E2E"
  const MAGIC: seq<byte> := [73, 83, 82, 86, 45, 69, 50, 69]
  const SALT_LENGTH := 16
  const NONCE_PREFIX_LENGTH := 8
  const KEY_COMMITMENT_LENGTH := 32
  const NONCE_LENGTH := 12
  const TAG_LENGTH := 16
  const METADATA_PLAINTEXT_LENGTH := 4096
  const METADATA_CIPHERTEXT_LENGTH := METADATA_PLAINTEXT_LENGTH + TAG_LENGTH
  const CHUNK_SIZE := 1024 * 1024

  const VERSION_OFFSET := 8
  const FLAGS_OFFSET := VERSION_OFFSET + 1
  const CHUNK_SIZE_OFFSET := FLAGS_OFFSET + 1
  const SALT_OFFSET := CHUNK_SIZE_OFFSET + 4
  const NONCE_PREFIX_OFFSET := SALT_OFFSET + SALT_LENGTH
  const KEY_COMMITMENT_OFFSET := NONCE_PREFIX_OFFSET + NONCE_PREFIX_LENGTH
  const HEADER_LENGTH := KEY_COMMITMENT_OFFSET + KEY_COMMITMENT_LENGTH
  const METADATA_END := HEADER_LENGTH + METADATA_CIPHERTEXT_LENGTH

  const RECORD_TYPE_METADATA: byte := 1
  const RECORD_TYPE_CONTENT: byte := 2
  const METADATA_INFO := "isrv-e2ee-v1/metadata"
  const CONTENT_INFO := "isrv-e2ee-v1/content"
  const COMMIT_INFO := "isrv-e2ee-v1/commit"

  const MAX_SAFE_INTEGER := 0x1F_FFFF_FFFF_FFFF
  const MAX_COUNTER := 0xFFFF_FFFF

  datatype Metadata = Metadata(name: string, mime: string, size: int)

  /** What JSON.parse can return, as far as validateMetadata can tell values apart. */
  datatype Json =
    | Null
    | Bool(truth: bool)
    | Number(value: real)
    | Text(text: string)
    | Array(items: seq<Json>)
    | Object(fields: map<string, Json>)

  /**
   The primitives the module calls: AES-256-GCM, HKDF-SHA-256 and JSON over UTF-8.
   Nothing is assumed about them except Lawful.
   */
  datatype Crypto = Crypto(
    seal: (seq<byte>, seq<byte>, seq<byte>, seq<byte>) -> seq<byte>,
    unseal: (seq<byte>, seq<byte>, seq<byte>, seq<byte>) -> Option<seq<byte>>,
    derive: (seq<byte>, seq<byte>, string) -> seq<byte>,
    stringify: Metadata -> seq<byte>,
    parse: seq<byte> -> Option<Json>)
  {
    /** A ciphertext is 16 bytes longer than its plaintext and opens under the same key, nonce and data. */
    predicate SealLaw(k: seq<byte>, n: seq<byte>, a: seq<byte>, p: seq<byte>) {
      |seal(k, n, a, p)| == |p| + TAG_LENGTH && unseal(k, n, a, seal(k, n, a, p)) == Some(p)
    }

    /** Only the ciphertext of a plaintext opens to it. */
    predicate UnsealLaw(k: seq<byte>, n: seq<byte>, a: seq<byte>, x: seq<byte>) {
      unseal(k, n, a, x).Some? ==> seal(k, n, a, unseal(k, n, a, x).value) == x
    }

    predicate DeriveLaw(rootKey: seq<byte>, salt: seq<byte>, info: string) {
      |derive(rootKey, salt, info)| == 32
    }

    predicate JsonLaw(m: Metadata) {
      SafeSize(m.size) ==> parse(stringify(m)) == Some(JsonOf(m))
    }

    ghost predicate SealLaws() {
      && (forall k, n, a, p :: SealLaw(k, n, a, p))
      && (forall k, n, a, x :: UnsealLaw(k, n, a, x))
    }

    ghost predicate Lawful() {
      && SealLaws()
      && (forall r, s, i :: DeriveLaw(r, s, i))
      && (forall m :: JsonLaw(m))
    }
  }

  predicate SafeSize(size: int) {
    0 <= size <= MAX_SAFE_INTEGER
  }

  function JsonOf(m: Metadata): Json {
    Object(map["name" := Text(m.name), "type" := Text(m.mime), "size" := Number(m.size as real)])
  }

  // Sizes.

  /** contentRecordCount: one record per started chunk, limited by the 32-bit counter. */
  function ContentRecordCount(size: nat): Result<nat, E2eeError> {
    var count := (size + CHUNK_SIZE - 1) / CHUNK_SIZE;
    if count > MAX_COUNTER then Err(FormatError) else Ok(count)
  }

  /** assertSupportedSize does not throw. */
  predicate SupportedSize(size: int) {
    SafeSize(size) && ContentRecordCount(size).Ok?
  }

  function Records(size: int): (n: nat)
    requires SupportedSize(size)
    ensures n <= MAX_COUNTER
    ensures size <= n * CHUNK_SIZE < size + CHUNK_SIZE
  {
    ContentRecordCount(size).value
  }

  function MaxEncryptedContainerSize(maxPlaintextSize: int): Result<nat, E2eeError> {
    if !SupportedSize(maxPlaintextSize) then Err(FormatError)
    else Ok(HEADER_LENGTH + METADATA_CIPHERTEXT_LENGTH + maxPlaintextSize + Records(maxPlaintextSize) * TAG_LENGTH)
  }

  // Header.

  datatype ParsedHeader =
    ParsedHeader(version: byte, salt: seq<byte>, noncePrefix: seq<byte>, keyCommitment: seq<byte>)

  function Header(salt: seq<byte>, noncePrefix: seq<byte>, keyCommitment: seq<byte>): seq<byte> {
    MAGIC + [E2EE_VERSION] + [0] + EncodeU32(CHUNK_SIZE) + salt + noncePrefix + keyCommitment
  }

  function ParseHeader(header: seq<byte>): Result<ParsedHeader, E2eeError> {
    if |header| != HEADER_LENGTH then Err(FormatError)
    else if header[..VERSION_OFFSET] != MAGIC then Err(FormatError)
    else if header[VERSION_OFFSET] != E2EE_VERSION then Err(FormatError)
    else if header[FLAGS_OFFSET] != 0 then Err(FormatError)
    else if DecodeU32(header[CHUNK_SIZE_OFFSET..SALT_OFFSET]) != CHUNK_SIZE then Err(FormatError)
    else Ok(ParsedHeader(
      header[VERSION_OFFSET],
      header[SALT_OFFSET..NONCE_PREFIX_OFFSET],
      header[NONCE_PREFIX_OFFSET..KEY_COMMITMENT_OFFSET],
      header[KEY_COMMITMENT_OFFSET..HEADER_LENGTH]))
  }

  /** Building a header and parsing it returns the three fields. */
  lemma HeaderRoundTrip(salt: seq<byte>, noncePrefix: seq<byte>, keyCommitment: seq<byte>)
    requires |salt| == SALT_LENGTH && |noncePrefix| == NONCE_PREFIX_LENGTH
    requires |keyCommitment| == KEY_COMMITMENT_LENGTH
    ensures |Header(salt, noncePrefix, keyCommitment)| == HEADER_LENGTH
    ensures ParseHeader(Header(salt, noncePrefix, keyCommitment))
         == Ok(ParsedHeader(E2EE_VERSION, salt, noncePrefix, keyCommitment))
  {
    var h := Header(salt, noncePrefix, keyCommitment);
    assert h[..VERSION_OFFSET] == MAGIC;
    assert h[CHUNK_SIZE_OFFSET..SALT_OFFSET] == EncodeU32(CHUNK_SIZE);
    U32RoundTrip(CHUNK_SIZE);
    assert h[SALT_OFFSET..NONCE_PREFIX_OFFSET] == salt;
    assert h[NONCE_PREFIX_OFFSET..KEY_COMMITMENT_OFFSET] == noncePrefix;
    assert h[KEY_COMMITMENT_OFFSET..HEADER_LENGTH] == keyCommitment;
  }

  /** Every header the parser accepts is the one the builder prints for the parsed fields. */
  lemma HeaderCanonical(header: seq<byte>)
    requires ParseHeader(header).Ok?
    ensures var p := ParseHeader(header).value;
            header == Header(p.salt, p.noncePrefix, p.keyCommitment)
            && p.version == E2EE_VERSION
            && |p.salt| == SALT_LENGTH && |p.noncePrefix| == NONCE_PREFIX_LENGTH
            && |p.keyCommitment| == KEY_COMMITMENT_LENGTH
  {
    U32Canonical(header[CHUNK_SIZE_OFFSET..SALT_OFFSET]);
    assert header == header[..VERSION_OFFSET] + [header[VERSION_OFFSET]] + [header[FLAGS_OFFSET]]
      + header[CHUNK_SIZE_OFFSET..SALT_OFFSET] + header[SALT_OFFSET..NONCE_PREFIX_OFFSET]
      + header[NONCE_PREFIX_OFFSET..KEY_COMMITMENT_OFFSET] + header[KEY_COMMITMENT_OFFSET..HEADER_LENGTH];
  }

  // Typed-array writes.

  /** dst.set(src, offset). */
  method SetBytes(dst: array<byte>, src: seq<byte>, offset: nat)
    requires offset + |src| <= dst.Length
    modifies dst
    ensures dst[..] == old(dst[..offset]) + src + old(dst[offset + |src|..])
  {
    for i := 0 to |src|
      invariant dst[..offset] == old(dst[..offset])
      invariant dst[offset..offset + i] == src[..i]
      invariant dst[offset + |src|..] == old(dst[offset + |src|..])
    {
      dst[offset + i] := src[i];
    }
  }

  /** buildHeader, which fills a zeroed 70-byte buffer field by field. */
  method BuildHeader(salt: seq<byte>, noncePrefix: seq<byte>, keyCommitment: seq<byte>)
    returns (header: array<byte>)
    requires |salt| == SALT_LENGTH && |noncePrefix| == NONCE_PREFIX_LENGTH
    requires |keyCommitment| == KEY_COMMITMENT_LENGTH
    ensures fresh(header) && header[..] == Header(salt, noncePrefix, keyCommitment)
  {
    header := new byte[HEADER_LENGTH](_ => 0);
    SetBytes(header, MAGIC, 0);
    header[VERSION_OFFSET] := E2EE_VERSION;
    header[FLAGS_OFFSET] := 0;
    SetBytes(header, EncodeU32(CHUNK_SIZE), CHUNK_SIZE_OFFSET);
    assert header[..SALT_OFFSET] == MAGIC + [E2EE_VERSION] + [0] + EncodeU32(CHUNK_SIZE);
    SetBytes(header, salt, SALT_OFFSET);
    SetBytes(header, noncePrefix, NONCE_PREFIX_OFFSET);
    SetBytes(header, keyCommitment, KEY_COMMITMENT_OFFSET);
  }

  // Nonces and additional data.

  function Nonce(noncePrefix: seq<byte>, counter: nat): seq<byte> {
    noncePrefix + EncodeU32(counter)
  }

  function AdditionalData(header: seq<byte>, recordType: byte, counter: nat, plaintextLength: nat): seq<byte> {
    header + [recordType] + EncodeU32(counter) + EncodeU32(plaintextLength)
  }

  datatype AesGcmParams = AesGcmParams(nonce: seq<byte>, additionalData: seq<byte>)

  /** aesGCMParams, including the two checks makeNonce throws on. */
  function AesGcm(header: seq<byte>, noncePrefix: seq<byte>, recordType: byte, counter: nat, plaintextLength: nat)
    : Result<AesGcmParams, E2eeError>
  {
    if |noncePrefix| != NONCE_PREFIX_LENGTH || counter > MAX_COUNTER then Err(FormatError)
    else Ok(AesGcmParams(Nonce(noncePrefix, counter), AdditionalData(header, recordType, counter, plaintextLength)))
  }

  /** makeNonce, filling a 12-byte buffer. */
  method MakeNonce(noncePrefix: seq<byte>, counter: nat) returns (r: Result<array<byte>, E2eeError>)
    ensures r.Ok? <==> |noncePrefix| == NONCE_PREFIX_LENGTH && counter <= MAX_COUNTER
    ensures r.Err? ==> r.error == FormatError
    ensures r.Ok? ==> fresh(r.value) && r.value.Length == NONCE_LENGTH && r.value[..] == Nonce(noncePrefix, counter)
  {
    if |noncePrefix| != NONCE_PREFIX_LENGTH || counter > MAX_COUNTER {
      return Err(FormatError);
    }
    var nonce := new byte[NONCE_LENGTH](_ => 0);
    SetBytes(nonce, noncePrefix, 0);
    SetBytes(nonce, EncodeU32(counter), NONCE_PREFIX_LENGTH);
    return Ok(nonce);
  }

  /** makeAdditionalData, filling a buffer nine bytes longer than the header. */
  method MakeAdditionalData(header: seq<byte>, recordType: byte, counter: nat, plaintextLength: nat)
    returns (additionalData: array<byte>)
    ensures fresh(additionalData)
    ensures additionalData[..] == AdditionalData(header, recordType, counter, plaintextLength)
  {
    additionalData := new byte[|header| + 1 + 4 + 4](_ => 0);
    SetBytes(additionalData, header, 0);
    additionalData[|header|] := recordType;
    SetBytes(additionalData, EncodeU32(counter), |header| + 1);
    assert additionalData[..|header| + 5] == header + [recordType] + EncodeU32(counter);
    SetBytes(additionalData, EncodeU32(plaintextLength), |header| + 5);
  }

  /** The additional data determines header, record type, counter and plaintext length. */
  lemma AdditionalDataInjective(
      header: seq<byte>, recordType: byte, counter: nat, length: nat,
      header': seq<byte>, recordType': byte, counter': nat, length': nat)
    requires counter <= MAX_COUNTER && counter' <= MAX_COUNTER
    requires length <= MAX_COUNTER && length' <= MAX_COUNTER
    requires AdditionalData(header, recordType, counter, length)
          == AdditionalData(header', recordType', counter', length')
    ensures header == header' && recordType == recordType' && counter == counter' && length == length'
  {
    var a := AdditionalData(header, recordType, counter, length);
    assert |header| == |header'|;
    assert a[..|header|] == header && a[..|header|] == header';
    assert a[|header|] == recordType && a[|header|] == recordType';
    assert a[|header| + 1..|header| + 5] == EncodeU32(counter) && a[|header| + 1..|header| + 5] == EncodeU32(counter');
    assert a[|header| + 5..] == EncodeU32(length) && a[|header| + 5..] == EncodeU32(length');
    U32RoundTrip(counter);
    U32RoundTrip(counter');
    U32RoundTrip(length);
    U32RoundTrip(length');
  }

  /** Under one prefix, different counters give different nonces. */
  lemma NonceInjective(noncePrefix: seq<byte>, counter: nat, counter': nat)
    requires counter <= MAX_COUNTER && counter' <= MAX_COUNTER
    requires Nonce(noncePrefix, counter) == Nonce(noncePrefix, counter')
    ensures counter == counter'
  {
    var n := |noncePrefix|;
    assert Nonce(noncePrefix, counter)[n..] == EncodeU32(counter);
    assert Nonce(noncePrefix, counter')[n..] == EncodeU32(counter');
    U32RoundTrip(counter);
    U32RoundTrip(counter');
  }

  // Metadata.

  /** validateMetadata, returning the value it narrows. */
  function ValidateMetadata(value: Json): Result<Metadata, E2eeError> {
    if !value.Object? then Err(FormatError)
    else
      var f := value.fields;
      if !("name" in f && f["name"].Text? && "type" in f && f["type"].Text?) then Err(FormatError)
      else if !("size" in f && f["size"].Number?) then Err(FormatError)
      else
        var size := f["size"].value;
        if size.Floor as real != size || !SafeSize(size.Floor) then Err(FormatError)
        else Ok(Metadata(f["name"].text, f["type"].text, size.Floor))
  }

  /** encodeMetadata over the random buffer `padding`. */
  function EncodeMetadata(c: Crypto, m: Metadata, padding: seq<byte>): Result<seq<byte>, E2eeError>
    requires |padding| == METADATA_PLAINTEXT_LENGTH
  {
    if !SafeSize(m.size) then Err(FormatError)
    else
      var json := c.stringify(m);
      if |json| > METADATA_PLAINTEXT_LENGTH - 4 then Err(FormatError)
      else Ok(EncodeU32(|json|) + json + padding[4 + |json|..])
  }

  function DecodeMetadata(c: Crypto, padded: seq<byte>): Result<Metadata, E2eeError> {
    if |padded| != METADATA_PLAINTEXT_LENGTH then Err(FormatError)
    else
      var jsonLength := DecodeU32(padded[..4]);
      if jsonLength > METADATA_PLAINTEXT_LENGTH - 4 then Err(FormatError)
      else
        match c.parse(padded[4..4 + jsonLength])
        case None => Err(FormatError)
        case Some(value) => ValidateMetadata(value)
  }

  lemma ValidateJsonOf(m: Metadata)
    requires SafeSize(m.size)
    ensures ValidateMetadata(JsonOf(m)) == Ok(m)
  {
    var f := JsonOf(m).fields;
    assert f["name"] == Text(m.name) && f["type"] == Text(m.mime) && f["size"] == Number(m.size as real);
  }

  /** Whatever the padding, a metadata record that could be encoded decodes to the same metadata. */
  lemma MetadataRoundTrip(c: Crypto, m: Metadata, padding: seq<byte>)
    requires c.Lawful() && |padding| == METADATA_PLAINTEXT_LENGTH
    requires EncodeMetadata(c, m, padding).Ok?
    ensures |EncodeMetadata(c, m, padding).value| == METADATA_PLAINTEXT_LENGTH
    ensures DecodeMetadata(c, EncodeMetadata(c, m, padding).value) == Ok(m)
  {
    var json := c.stringify(m);
    var padded := EncodeMetadata(c, m, padding).value;
    assert padded[..4] == EncodeU32(|json|);
    U32RoundTrip(|json|);
    assert padded[4..4 + |json|] == json;
    assert c.JsonLaw(m);
    ValidateJsonOf(m);
  }

  // The layout in numbers.

  /** "ISRV-E2E", version 1, no flags, chunks of 2^20 bytes, salt, nonce prefix, key commitment. */
  lemma HeaderBytes(salt: seq<byte>, noncePrefix: seq<byte>, keyCommitment: seq<byte>)
    requires |salt| == 16 && |noncePrefix| == 8 && |keyCommitment| == 32
    ensures var h := Header(salt, noncePrefix, keyCommitment);
            && |h| == 70 && h[..8] == [73, 83, 82, 86, 45, 69, 50, 69] && h[8] == 1 && h[9] == 0
            && h[10..14] == [0, 16, 0, 0]
            && h[14..30] == salt && h[30..38] == noncePrefix && h[38..70] == keyCommitment
  {
    U32BigEndian(1_048_576);
    HeaderRoundTrip(salt, noncePrefix, keyCommitment);
    var h := Header(salt, noncePrefix, keyCommitment);
    assert h[10..14] == EncodeU32(CHUNK_SIZE);
  }

  /** Only such a header parses, and every refusal is a FormatError. */
  lemma HeaderParsesIff(header: seq<byte>)
    ensures ParseHeader(header)
         == if |header| == 70 && header[..8] == [73, 83, 82, 86, 45, 69, 50, 69] && header[8] == 1 && header[9] == 0
               && header[10..14] == [0, 16, 0, 0]
            then Ok(ParsedHeader(1, header[14..30], header[30..38], header[38..70]))
            else Err(FormatError)
  {
    if |header| == 70 {
      U32BigEndian(1_048_576);
      U32Canonical(header[10..14]);
      U32RoundTrip(1_048_576);
    }
  }

  /** The counter follows the prefix. */
  lemma NonceBytes(noncePrefix: seq<byte>, n: nat)
    requires n < 0x1_0000_0000
    ensures Nonce(noncePrefix, n)
         == noncePrefix + [n / 16_777_216, n / 65_536 % 256, n / 256 % 256, n % 256]
  {
    U32BigEndian(n);
  }

  /** Header, record type, counter and plaintext length, in this order. */
  lemma AdditionalDataBytes(header: seq<byte>, recordType: byte, n: nat, m: nat)
    requires n < 0x1_0000_0000 && m < 0x1_0000_0000
    ensures AdditionalData(header, recordType, n, m)
         == header + [recordType]
          + [n / 16_777_216, n / 65_536 % 256, n / 256 % 256, n % 256]
          + [m / 16_777_216, m / 65_536 % 256, m / 256 % 256, m % 256]
  {
    U32BigEndian(n);
    U32BigEndian(m);
  }

  /** The metadata record is 4096 bytes: the length of the JSON text, the text, and random bytes. */
  lemma MetadataBytes(c: Crypto, m: Metadata, padding: seq<byte>)
    requires |padding| == 4096
    ensures var json := c.stringify(m);
            if 0 <= m.size <= 9_007_199_254_740_991 && |json| <= 4092 then
              EncodeMetadata(c, m, padding)
              == Ok([0, 0, |json| / 256, |json| % 256] + json + padding[4 + |json|..])
            else EncodeMetadata(c, m, padding) == Err(FormatError)
  {
    if |c.stringify(m)| <= 4092 {
      U32BigEndian(|c.stringify(m)|);
    }
  }

  /** The value has three members of the right types, the size a whole number JavaScript holds exactly. */
  predicate IsMetadata(value: Json, m: Metadata) {
    && value.Object? && "name" in value.fields && "type" in value.fields && "size" in value.fields
    && value.fields["name"] == Text(m.name) && value.fields["type"] == Text(m.mime)
    && value.fields["size"] == Number(m.size as real) && 0 <= m.size <= 9_007_199_254_740_991
  }

  /** A record decodes to m exactly when it holds the JSON of m; every refusal is a FormatError. */
  lemma MetadataDecodesIff(c: Crypto, padded: seq<byte>, m: Metadata)
    ensures DecodeMetadata(c, padded) == Ok(m) <==>
              && |padded| == 4096 && padded[0] == 0 && padded[1] == 0
              && padded[2] as int * 256 + padded[3] as int <= 4092
              && (var json := c.parse(padded[4..4 + (padded[2] as int * 256 + padded[3] as int)]);
                  json.Some? && IsMetadata(json.value, m))
    ensures DecodeMetadata(c, padded).Err? ==> DecodeMetadata(c, padded) == Err(FormatError)
  {
    if |padded| == 4096 {
      var length := padded[2] as int * 256 + padded[3] as int;
      assert DecodeU32(padded[..4]) == (padded[0] as int * 65_536 + padded[1] as int * 256) * 256 + length;
    }
  }

  /** Sizes in numbers: 70 bytes of header, 4112 of metadata, and 16 more for every started 2^20 bytes. */
  lemma SizeInNumbers(size: int)
    ensures MaxEncryptedContainerSize(size)
         == if 0 <= size <= 4_294_967_295 * 1_048_576
            then Ok(4_182 + size + 16 * ((size + 1_048_575) / 1_048_576))
            else Err(FormatError)
  {
  }
}
