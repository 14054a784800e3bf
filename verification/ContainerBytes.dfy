/** The v1 container byte by byte: what encryptFile writes where, under which keys, and what becomes of damage. */
module ContainerBytes {
  import opened Wrappers
  import opened Bytes
  import opened KeyToken
  import opened ContainerFormat
  import opened ContainerCodec
  import opened ContainerTheorems

  /** A number below 2^32, most significant byte first. */
  function Big(n: nat): seq<byte>
    requires n < 0x1_0000_0000
  {
    [n / 16_777_216, n / 65_536 % 256, n / 256 % 256, n % 256]
  }

  /** Chunk i of a file, of 2^20 bytes but for the last. */
  function ChunkOf(content: seq<byte>, i: nat): seq<byte>
    requires i * 1_048_576 <= |content|
  {
    content[i * 1_048_576..if (i + 1) * 1_048_576 <= |content| then (i + 1) * 1_048_576 else |content|]
  }

  /** One call per record: the metadata first, then the chunks in order. */
  predicate InOrder(calls: seq<SealCall>, padded: seq<byte>, content: seq<byte>) {
    && |calls| == 1 + (|content| + 1_048_575) / 1_048_576 && |calls| <= 0x1_0000_0000
    && calls[0].plaintext == padded
    && forall i :: 1 <= i < |calls| ==> calls[i].plaintext == ChunkOf(content, i - 1)
  }

  /** Call i under the key of its record type, with counter i and its header, type, counter and length. */
  predicate Numbered(call: SealCall, i: nat, metadataKey: seq<byte>, contentKey: seq<byte>, header: seq<byte>,
                     noncePrefix: seq<byte>)
  {
    && i < 0x1_0000_0000 && |call.plaintext| < 0x1_0000_0000
    && call.key == (if i == 0 then metadataKey else contentKey)
    && call.nonce == noncePrefix + Big(i)
    && call.additionalData == header + [if i == 0 then 1 else 2] + Big(i) + Big(|call.plaintext|)
  }

  lemma {:induction false} CallIs(keys: Keys, header: seq<byte>, noncePrefix: seq<byte>, padded: seq<byte>,
                                  content: seq<byte>, n: nat, i: nat)
    requires n * CHUNK_SIZE < |content| + CHUNK_SIZE && i <= n
    ensures i == 0 || (i - 1) * CHUNK_SIZE <= |content|
    ensures Calls(keys, header, noncePrefix, padded, content, n)[i]
         == if i == 0 then MetadataCall(keys, header, noncePrefix, padded)
            else ContentCall(keys, header, noncePrefix, content, i - 1)
  {
    if i < n {
      CallIs(keys, header, noncePrefix, padded, content, n - 1, i);
    }
  }

  lemma ChunkIs(content: seq<byte>, i: nat)
    requires i * CHUNK_SIZE <= |content|
    ensures i * 1_048_576 <= |content| && Chunk(content, i) == ChunkOf(content, i)
  {
  }

  lemma CallPlaintext(keys: Keys, header: seq<byte>, noncePrefix: seq<byte>, padded: seq<byte>,
                      content: seq<byte>, n: nat, i: nat)
    requires n * CHUNK_SIZE < |content| + CHUNK_SIZE && i <= n
    ensures i == 0 || (i - 1) * 1_048_576 <= |content|
    ensures Calls(keys, header, noncePrefix, padded, content, n)[i].plaintext
         == if i == 0 then padded else ChunkOf(content, i - 1)
  {
    CallIs(keys, header, noncePrefix, padded, content, n, i);
    if i > 0 {
      ChunkIs(content, i - 1);
    }
  }

  lemma CallIsNumbered(keys: Keys, header: seq<byte>, noncePrefix: seq<byte>, padded: seq<byte>, content: seq<byte>,
                       n: nat, i: nat)
    requires n * CHUNK_SIZE < |content| + CHUNK_SIZE && |padded| == 4096 && i <= n <= MAX_COUNTER
    ensures Numbered(Calls(keys, header, noncePrefix, padded, content, n)[i], i, keys.metadata, keys.content, header,
                     noncePrefix)
  {
    CallNumber(keys, header, noncePrefix, padded, content, n, i);
    NonceBytes(noncePrefix, i);
    var call := Calls(keys, header, noncePrefix, padded, content, n)[i];
    AdditionalDataBytes(header, if i == 0 then 1 else 2, i, |call.plaintext|);
  }

  /** "ISRV-E2E", version 1, no flags, chunks of 2^20 bytes, then the salt, the nonce prefix and the commitment. */
  predicate Headed(x: seq<byte>, salt: seq<byte>, noncePrefix: seq<byte>, commitment: seq<byte>) {
    && |x| >= 70
    && x[..8] == [73, 83, 82, 86, 45, 69, 50, 69] && x[8] == 1 && x[9] == 0 && x[10..14] == [0, 16, 0, 0]
    && x[14..30] == salt && x[30..38] == noncePrefix && x[38..70] == commitment
  }

  /** The length of the JSON text, the text, and random bytes up to 4096. */
  predicate IsRecord(padded: seq<byte>, json: seq<byte>, padding: seq<byte>) {
    |json| <= 4_092 && |padding| == 4_096 && padded == [0, 0, |json| / 256, |json| % 256] + json + padding[4 + |json|..]
  }

  /** What encryptFile writes: the header's fields, then the seals of these calls and nothing else. */
  predicate Written(c: Crypto, file: File, r: Randomness, container: seq<byte>, calls: seq<SealCall>) {
    && Headed(container, r.salt, r.noncePrefix, c.derive(r.rootKey, r.salt, "isrv-e2ee-v1/commit"))
    && container[70..] == SealEach(c, calls)
    && |calls| > 0
    && IsRecord(calls[0].plaintext, c.stringify(Metadata(file.name, file.mime, |file.content|)), r.padding)
    && InOrder(calls, calls[0].plaintext, file.content)
    && (forall i :: 0 <= i < |calls| ==>
         Numbered(calls[i], i, c.derive(r.rootKey, r.salt, "isrv-e2ee-v1/metadata"),
                  c.derive(r.rootKey, r.salt, "isrv-e2ee-v1/content"), container[..70], r.noncePrefix))
  }

  lemma HeaderFields(salt: seq<byte>, noncePrefix: seq<byte>, commitment: seq<byte>, rest: seq<byte>)
    requires |salt| == 16 && |noncePrefix| == 8 && |commitment| == 32
    ensures var header := Header(salt, noncePrefix, commitment);
            var x := header + rest;
            x[..70] == header && x[70..] == rest && Headed(x, salt, noncePrefix, commitment)
  {
    HeaderBytes(salt, noncePrefix, commitment);
    var header := Header(salt, noncePrefix, commitment);
    var x := header + rest;
    assert x[..8] == header[..8] && x[10..14] == header[10..14] && x[14..30] == header[14..30];
    assert x[30..38] == header[30..38] && x[38..70] == header[38..70];
  }

  lemma AllInOrder(keys: Keys, header: seq<byte>, noncePrefix: seq<byte>, padded: seq<byte>, content: seq<byte>)
    requires SupportedSize(|content|) && |padded| == 4096
    ensures var calls := Calls(keys, header, noncePrefix, padded, content, Records(|content|));
            && InOrder(calls, padded, content)
            && forall i :: 0 <= i < |calls| ==>
                 Numbered(calls[i], i, keys.metadata, keys.content, header, noncePrefix)
  {
    var n := Records(|content|);
    var calls := Calls(keys, header, noncePrefix, padded, content, n);
    forall i | 0 <= i <= n
      ensures Numbered(calls[i], i, keys.metadata, keys.content, header, noncePrefix)
      ensures i == 0 || (i - 1) * 1_048_576 <= |content|
      ensures calls[i].plaintext == if i == 0 then padded else ChunkOf(content, i - 1)
    {
      CallIsNumbered(keys, header, noncePrefix, padded, content, n, i);
      CallPlaintext(keys, header, noncePrefix, padded, content, n, i);
    }
  }

  /** Main result: the container of a file, byte by byte. */
  lemma ContainerSpelledOut(c: Crypto, file: File, r: Randomness) returns (calls: seq<SealCall>)
    requires c.Lawful() && r.Sized() && Encrypt(c, file, r).Ok?
    ensures Written(c, file, r, Encrypt(c, file, r).value.ciphertext, calls)
  {
    var m := FileMetadata(file);
    MetadataBytes(c, m, r.padding);
    var padded := EncodeMetadata(c, m, r.padding).value;
    var keys := DeriveKeys(c, r.rootKey, r.salt);
    var header := Header(r.salt, r.noncePrefix, keys.commitment);
    calls := Calls(keys, header, r.noncePrefix, padded, file.content, Records(|file.content|));
    AllInOrder(keys, header, r.noncePrefix, padded, file.content);
    assert c.DeriveLaw(r.rootKey, r.salt, COMMIT_INFO);
    HeaderFields(r.salt, r.noncePrefix, keys.commitment, SealEach(c, calls));
    WholeContainer(c, r.rootKey, r.salt, r.noncePrefix, padded, file.content);
  }

  lemma WholeContainer(c: Crypto, rootKey: seq<byte>, salt: seq<byte>, noncePrefix: seq<byte>, padded: seq<byte>,
                       content: seq<byte>)
    requires SupportedSize(|content|)
    ensures var keys := DeriveKeys(c, rootKey, salt);
            var header := Header(salt, noncePrefix, keys.commitment);
            Container(c, rootKey, salt, noncePrefix, padded, content)
            == header + SealEach(c, Calls(keys, header, noncePrefix, padded, content, Records(|content|)))
  {
    var keys := DeriveKeys(c, rootKey, salt);
    var header := Header(salt, noncePrefix, keys.commitment);
    var n := Records(|content|);
    ContainerIsItsCalls(c, keys, header, noncePrefix, padded, content, n);
    Parts(header, Seal(c, MetadataCall(keys, header, noncePrefix, padded)),
          SealedContent(c, keys, header, noncePrefix, content, n));
  }

  lemma Parts(a: seq<byte>, b: seq<byte>, rest: seq<byte>)
    ensures a + b + rest == a + (b + rest)
  {
  }

  /** Different labels give different keys. */
  ghost predicate LabelsApart(c: Crypto, rootKey: seq<byte>, salt: seq<byte>) {
    forall a, b :: a != b ==> c.derive(rootKey, salt, a) != c.derive(rootKey, salt, b)
  }

  /**
   So no record is sealed under the bytes the header shows, and metadata and content never share a key, if
   the key derivation keeps its labels apart.
   */
  lemma KeysStaySecret(c: Crypto, file: File, r: Randomness) returns (calls: seq<SealCall>)
    requires c.Lawful() && r.Sized() && Encrypt(c, file, r).Ok? && LabelsApart(c, r.rootKey, r.salt)
    ensures var container := Encrypt(c, file, r).value.ciphertext;
            && Written(c, file, r, container, calls)
            && (forall i :: 0 <= i < |calls| ==> calls[i].key != container[38..70])
            && (forall i :: 1 <= i < |calls| ==> calls[i].key != calls[0].key)
  {
    calls := ContainerSpelledOut(c, file, r);
    LabelsDiffer();
    forall i | 0 <= i < |calls|
      ensures calls[i].key != Encrypt(c, file, r).value.ciphertext[38..70]
      ensures i >= 1 ==> calls[i].key != calls[0].key
    {
      assert Numbered(calls[i], i, c.derive(r.rootKey, r.salt, "isrv-e2ee-v1/metadata"),
                      c.derive(r.rootKey, r.salt, "isrv-e2ee-v1/content"),
                      Encrypt(c, file, r).value.ciphertext[..70], r.noncePrefix);
    }
  }

  lemma LabelsDiffer()
    ensures "isrv-e2ee-v1/metadata" != "isrv-e2ee-v1/content" && "isrv-e2ee-v1/content" != "isrv-e2ee-v1/commit"
    ensures "isrv-e2ee-v1/metadata" != "isrv-e2ee-v1/commit"
  {
    assert |"isrv-e2ee-v1/metadata"| == 21 && |"isrv-e2ee-v1/content"| == 20 && |"isrv-e2ee-v1/commit"| == 19;
  }

  // What decryptContainer says of damaged input.

  /** Too few bytes for a header and a metadata record, whatever the token. */
  lemma ShortIsRefused(c: Crypto, container: seq<byte>, token: string)
    ensures |container| < 4_182 ==> Decrypt(c, container, token) == Err(FormatError)
  {
  }

  /** A text that is no token is a KeyError. */
  lemma NoTokenIsRefused(c: Crypto, container: seq<byte>, token: string)
    requires |container| >= 4_182 && forall rootKey :: EncodeKeyToken(rootKey) != Ok(token)
    ensures Decrypt(c, container, token) == Err(KeyError)
  {
    OtherTokensRefused(token);
    if DecodeKeyToken(token).Ok? {
      var (version, rootKey) := DecodeKeyToken(token).value;
      DecodeIsImageOfEncode(token, version, rootKey);
    }
  }

  lemma Slices(x: seq<byte>, n: nat, i: nat, j: nat)
    requires i <= j <= n <= |x|
    ensures x[..n][i..j] == x[i..j]
  {
  }

  lemma HeaderOf(x: seq<byte>)
    requires |x| >= 70
    ensures ParseHeader(x[..70])
         == if Headed(x, x[14..30], x[30..38], x[38..70]) then Ok(ParsedHeader(1, x[14..30], x[30..38], x[38..70]))
            else Err(FormatError)
  {
    HeaderParsesIff(x[..70]);
    Slices(x, 70, 0, 8);
    Slices(x, 70, 10, 14);
    Slices(x, 70, 14, 30);
    Slices(x, 70, 30, 38);
    Slices(x, 70, 38, 70);
  }

  /** What is refused before any record is opened. */
  lemma RefusedEarly(c: Crypto, x: seq<byte>, token: string, rootKey: seq<byte>)
    requires |x| >= METADATA_END && DecodeKeyToken(token) == Ok((E2EE_VERSION, rootKey))
    ensures var parsed := ParseHeader(x[..HEADER_LENGTH]);
            && (parsed == Err(FormatError) ==> Decrypt(c, x, token) == Err(FormatError))
            && (parsed.Ok? && parsed.value.version == E2EE_VERSION
                && DeriveKeys(c, rootKey, parsed.value.salt).commitment != parsed.value.keyCommitment ==>
                  Decrypt(c, x, token) == Err(AuthenticationError))
  {
  }

  /** With a token, a start that is no header is a FormatError. */
  lemma NoHeaderIsRefused(c: Crypto, container: seq<byte>, token: string, rootKey: seq<byte>)
    requires |container| >= 4_182 && EncodeKeyToken(rootKey) == Ok(token)
    requires !Headed(container, container[14..30], container[30..38], container[38..70])
    ensures Decrypt(c, container, token) == Err(FormatError)
  {
    DecodeIsImageOfEncode(token, E2EE_VERSION, rootKey);
    HeaderOf(container);
    RefusedEarly(c, container, token, rootKey);
  }

  /** A token of another key is refused by the commitment, before any record is opened. */
  lemma OtherKeyIsRefused(c: Crypto, container: seq<byte>, token: string, rootKey: seq<byte>)
    requires |container| >= 4_182 && EncodeKeyToken(rootKey) == Ok(token)
    requires Headed(container, container[14..30], container[30..38], container[38..70])
    requires c.derive(rootKey, container[14..30], "isrv-e2ee-v1/commit") != container[38..70]
    ensures Decrypt(c, container, token) == Err(AuthenticationError)
  {
    DecodeIsImageOfEncode(token, E2EE_VERSION, rootKey);
    HeaderOf(container);
    RefusedEarly(c, container, token, rootKey);
  }

  /** Cut off or extended behind the metadata record: the length no longer fits the size. */
  lemma ResizedIsRefused(c: Crypto, x: seq<byte>, y: seq<byte>, token: string, d: Decrypted)
    requires Decrypt(c, x, token) == Ok(d) && |y| != |x|
    requires |y| >= 4_182 ==> y[..4_182] == x[..4_182]
    ensures Decrypt(c, y, token) == Err(FormatError)
  {
    if |y| >= 4_182 {
      SameStart(c, x, y, token, d);
    }
  }

  /** Once the metadata record has opened, only the length and the content records are left to check. */
  lemma AfterMetadata(c: Crypto, y: seq<byte>, token: string, rootKey: seq<byte>, salt: seq<byte>,
                      noncePrefix: seq<byte>, m: Metadata)
    requires |y| >= METADATA_END && DecodeKeyToken(token) == Ok((E2EE_VERSION, rootKey)) && SupportedSize(m.size)
    requires ParseHeader(y[..HEADER_LENGTH])
          == Ok(ParsedHeader(E2EE_VERSION, salt, noncePrefix, DeriveKeys(c, rootKey, salt).commitment))
    requires OpenMetadata(c, DeriveKeys(c, rootKey, salt), y[..HEADER_LENGTH], noncePrefix, y) == Ok(m)
    ensures |y| != ExpectedSize(m.size) ==> Decrypt(c, y, token) == Err(FormatError)
    ensures |y| == ExpectedSize(m.size) ==>
              var found := OpenRecords(c, DeriveKeys(c, rootKey, salt), y[..HEADER_LENGTH], noncePrefix, y, m.size,
                                        Records(m.size));
              if found.Ok? then Decrypt(c, y, token).Ok? else Decrypt(c, y, token) == Err(found.error)
  {
  }

  lemma SameStart(c: Crypto, x: seq<byte>, y: seq<byte>, token: string, d: Decrypted)
    requires Decrypt(c, x, token) == Ok(d) && |y| >= 4_182 && y[..4_182] == x[..4_182]
    ensures |y| != |x| ==> Decrypt(c, y, token) == Err(FormatError)
    ensures |y| == |x| ==> Decrypt(c, y, token).Ok? || Decrypt(c, y, token) == Err(AuthenticationError)
  {
    SamePrefix(x, y);
    var rootKey, salt, noncePrefix := DecryptChecks(c, x, token, d);
    AfterMetadata(c, y, token, rootKey, salt, noncePrefix, d.metadata);
    if |y| == |x| {
      OpeningFailsAs(c, DeriveKeys(c, rootKey, salt), y[..HEADER_LENGTH], noncePrefix, y, d.metadata.size,
                     Records(d.metadata.size));
    }
  }

  lemma {:induction false} OpeningFailsAs(c: Crypto, keys: Keys, header: seq<byte>, noncePrefix: seq<byte>,
                                          container: seq<byte>, size: int, n: nat)
    requires SupportedSize(size) && n <= Records(size) && |container| == ExpectedSize(size)
    ensures var r := OpenRecords(c, keys, header, noncePrefix, container, size, n);
            r.Ok? || r == Err(AuthenticationError)
  {
    if n > 0 {
      OpeningFailsAs(c, keys, header, noncePrefix, container, size, n - 1);
    }
  }

  /** Content records altered in place: refused as not authentic, or opened to another plaintext. */
  lemma AlteredIsRefused(c: Crypto, x: seq<byte>, y: seq<byte>, token: string, d: Decrypted)
    requires c.Lawful() && Decrypt(c, x, token) == Ok(d) && |y| == |x| && |x| >= 4_182
    requires y[..4_182] == x[..4_182] && y != x
    ensures Decrypt(c, y, token) == Err(AuthenticationError)
         || (Decrypt(c, y, token).Ok? && Decrypt(c, y, token).value.plaintext != d.plaintext)
  {
    SameStart(c, x, y, token, d);
    if Decrypt(c, y, token).Ok? {
      SameMetadataSameShape(c, x, y, token, d, Decrypt(c, y, token).value);
    }
  }

  /** A metadata record that does not open under its key, counter 0 and this header is not authentic. */
  lemma AlteredMetadataIsRefused(c: Crypto, x: seq<byte>, token: string, rootKey: seq<byte>)
    requires |x| >= 4_182 && EncodeKeyToken(rootKey) == Ok(token)
    requires Headed(x, x[14..30], x[30..38], c.derive(rootKey, x[14..30], "isrv-e2ee-v1/commit"))
    requires c.unseal(c.derive(rootKey, x[14..30], "isrv-e2ee-v1/metadata"), x[30..38] + [0, 0, 0, 0],
                      x[..70] + [1] + [0, 0, 0, 0] + [0, 0, 16, 0], x[70..4_182]).None?
    ensures Decrypt(c, x, token) == Err(AuthenticationError)
  {
    HeaderChecked(c, x, token, rootKey);
    NoMetadata(c, DeriveKeys(c, rootKey, x[14..30]), x[..70], x[30..38], x);
    UnopenedMetadata(c, x, token, rootKey, x[14..30], x[30..38], AuthenticationError);
  }

  /** One that opens to something else than metadata, or to a size the container has not, is a FormatError. */
  lemma OtherMetadataIsRefused(c: Crypto, x: seq<byte>, token: string, rootKey: seq<byte>, padded: seq<byte>,
                               m: Metadata)
    requires |x| >= 4_182 && EncodeKeyToken(rootKey) == Ok(token)
    requires Headed(x, x[14..30], x[30..38], c.derive(rootKey, x[14..30], "isrv-e2ee-v1/commit"))
    requires c.unseal(c.derive(rootKey, x[14..30], "isrv-e2ee-v1/metadata"), x[30..38] + [0, 0, 0, 0],
                      x[..70] + [1] + [0, 0, 0, 0] + [0, 0, 16, 0], x[70..4_182])
          == Some(padded)
    ensures DecodeMetadata(c, padded).Err? ==> Decrypt(c, x, token) == Err(FormatError)
    ensures DecodeMetadata(c, padded) == Ok(m)
            && (m.size > 4_294_967_295 * 1_048_576
                || |x| != 4_182 + m.size + 16 * ((m.size + 1_048_575) / 1_048_576)) ==>
              Decrypt(c, x, token) == Err(FormatError)
  {
    HeaderChecked(c, x, token, rootKey);
    OpenedMetadata(c, DeriveKeys(c, rootKey, x[14..30]), x[..70], x[30..38], x, padded);
    MetadataDecodesIff(c, padded, m);
    if DecodeMetadata(c, padded).Err? {
      UnopenedMetadata(c, x, token, rootKey, x[14..30], x[30..38], FormatError);
    } else if DecodeMetadata(c, padded) == Ok(m) {
      FittingSize(m.size);
      UnfitMetadata(c, x, token, rootKey, x[14..30], x[30..38], m);
    }
  }

  lemma FittingSize(size: int)
    ensures SupportedSize(size) <==> 0 <= size <= 4_294_967_295 * 1_048_576
    ensures SupportedSize(size) ==> ExpectedSize(size) == 4_182 + size + 16 * ((size + 1_048_575) / 1_048_576)
  {
    SizeInNumbers(size);
  }

  lemma HeaderChecked(c: Crypto, x: seq<byte>, token: string, rootKey: seq<byte>)
    requires |x| >= 4_182 && EncodeKeyToken(rootKey) == Ok(token)
    requires Headed(x, x[14..30], x[30..38], c.derive(rootKey, x[14..30], "isrv-e2ee-v1/commit"))
    ensures DecodeKeyToken(token) == Ok((E2EE_VERSION, rootKey))
    ensures ParseHeader(x[..70])
         == Ok(ParsedHeader(E2EE_VERSION, x[14..30], x[30..38], DeriveKeys(c, rootKey, x[14..30]).commitment))
  {
    DecodeIsImageOfEncode(token, E2EE_VERSION, rootKey);
    HeaderOf(x);
  }

  lemma OpenedMetadata(c: Crypto, keys: Keys, header: seq<byte>, noncePrefix: seq<byte>, x: seq<byte>,
                       padded: seq<byte>)
    requires |x| >= 4_182 && |noncePrefix| == 8
    requires c.unseal(keys.metadata, noncePrefix + [0, 0, 0, 0], header + [1] + [0, 0, 0, 0] + [0, 0, 16, 0],
                      x[70..4_182])
          == Some(padded)
    ensures OpenMetadata(c, keys, header, noncePrefix, x) == DecodeMetadata(c, padded)
  {
    NonceBytes(noncePrefix, 0);
    AdditionalDataBytes(header, 1, 0, 4096);
  }

  lemma UnfitMetadata(c: Crypto, x: seq<byte>, token: string, rootKey: seq<byte>, salt: seq<byte>,
                      noncePrefix: seq<byte>, m: Metadata)
    requires |x| >= METADATA_END && DecodeKeyToken(token) == Ok((E2EE_VERSION, rootKey))
    requires ParseHeader(x[..HEADER_LENGTH])
          == Ok(ParsedHeader(E2EE_VERSION, salt, noncePrefix, DeriveKeys(c, rootKey, salt).commitment))
    requires OpenMetadata(c, DeriveKeys(c, rootKey, salt), x[..HEADER_LENGTH], noncePrefix, x) == Ok(m)
    ensures !SupportedSize(m.size) || |x| != ExpectedSize(m.size) ==> Decrypt(c, x, token) == Err(FormatError)
  {
  }

  lemma NoMetadata(c: Crypto, keys: Keys, header: seq<byte>, noncePrefix: seq<byte>, x: seq<byte>)
    requires |x| >= 4_182 && |noncePrefix| == 8
    requires c.unseal(keys.metadata, noncePrefix + [0, 0, 0, 0], header + [1] + [0, 0, 0, 0] + [0, 0, 16, 0],
                      x[70..4_182]).None?
    ensures OpenMetadata(c, keys, header, noncePrefix, x) == Err(AuthenticationError)
  {
    NonceBytes(noncePrefix, 0);
    AdditionalDataBytes(header, 1, 0, 4096);
  }

  lemma UnopenedMetadata(c: Crypto, x: seq<byte>, token: string, rootKey: seq<byte>, salt: seq<byte>,
                         noncePrefix: seq<byte>, e: E2eeError)
    requires |x| >= METADATA_END && DecodeKeyToken(token) == Ok((E2EE_VERSION, rootKey))
    requires ParseHeader(x[..HEADER_LENGTH])
          == Ok(ParsedHeader(E2EE_VERSION, salt, noncePrefix, DeriveKeys(c, rootKey, salt).commitment))
    requires OpenMetadata(c, DeriveKeys(c, rootKey, salt), x[..HEADER_LENGTH], noncePrefix, x) == Err(e)
    ensures Decrypt(c, x, token) == Err(e)
  {
  }
}
