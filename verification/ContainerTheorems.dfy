/** What encryptFile and decryptContainer promise each other. */
module ContainerTheorems {
  import opened Wrappers
  import opened Bytes
  import opened KeyToken
  import opened ContainerFormat
  import opened ContainerCodec

  lemma SealFacts(c: Crypto, call: SealCall)
    requires c.SealLaws()
    ensures |Seal(c, call)| == |call.plaintext| + TAG_LENGTH
    ensures c.unseal(call.key, call.nonce, call.additionalData, Seal(c, call)) == Some(call.plaintext)
  {
    assert c.SealLaw(call.key, call.nonce, call.additionalData, call.plaintext);
  }

  // Sizes.

  /** The supported sizes are exactly those whose chunks can be numbered with 32 bits. */
  lemma SupportedSizeExactly(size: int)
    ensures SupportedSize(size) <==> 0 <= size <= MAX_COUNTER * CHUNK_SIZE
  {
  }

  function Min(a: nat, b: nat): nat {
    if a <= b then a else b
  }

  lemma ChunkLength(content: seq<byte>, index: nat)
    requires index * CHUNK_SIZE <= |content|
    ensures |Chunk(content, index)| == Min((index + 1) * CHUNK_SIZE, |content|) - index * CHUNK_SIZE
    ensures |Chunk(content, index)| == RecordLength(|content|, index) <= CHUNK_SIZE
  {
  }

  lemma {:induction false} SealedLength(c: Crypto, keys: Keys, header: seq<byte>, noncePrefix: seq<byte>,
                                        content: seq<byte>, n: nat)
    requires c.SealLaws() && n * CHUNK_SIZE < |content| + CHUNK_SIZE
    ensures |SealedContent(c, keys, header, noncePrefix, content, n)|
         == Min(n * CHUNK_SIZE, |content|) + n * TAG_LENGTH
  {
    if n > 0 {
      SealedLength(c, keys, header, noncePrefix, content, n - 1);
      ChunkLength(content, n - 1);
      var last := ContentCall(keys, header, noncePrefix, content, n - 1);
      SealFacts(c, last);
      assert |last.plaintext| == Min(n * CHUNK_SIZE, |content|) - (n - 1) * CHUNK_SIZE;
      assert Min((n - 1) * CHUNK_SIZE, |content|) == (n - 1) * CHUNK_SIZE;
    }
  }

  lemma SizeFormulas(size: int)
    requires SupportedSize(size)
    ensures MaxEncryptedContainerSize(size) == Ok(ExpectedSize(size))
  {
  }

  /** A container is exactly as long as maxEncryptedContainerSize of its plaintext. */
  lemma ContainerLength(c: Crypto, rootKey: seq<byte>, salt: seq<byte>, noncePrefix: seq<byte>,
                        padded: seq<byte>, content: seq<byte>)
    requires c.Lawful() && SupportedSize(|content|)
    requires |salt| == SALT_LENGTH && |noncePrefix| == NONCE_PREFIX_LENGTH && |padded| == METADATA_PLAINTEXT_LENGTH
    ensures MaxEncryptedContainerSize(|content|)
         == Ok(|Container(c, rootKey, salt, noncePrefix, padded, content)|)
    ensures |Container(c, rootKey, salt, noncePrefix, padded, content)| == ExpectedSize(|content|)
  {
    var keys := DeriveKeys(c, rootKey, salt);
    assert c.DeriveLaw(rootKey, salt, COMMIT_INFO);
    var header := Header(salt, noncePrefix, keys.commitment);
    HeaderRoundTrip(salt, noncePrefix, keys.commitment);
    SealedLength(c, keys, header, noncePrefix, content, Records(|content|));
    SealFacts(c, MetadataCall(keys, header, noncePrefix, padded));
  }

  lemma SizeStrictlyIncreasing(size: int, size': int)
    requires SupportedSize(size) && SupportedSize(size') && size < size'
    ensures MaxEncryptedContainerSize(size).value < MaxEncryptedContainerSize(size').value
  {
    assert Records(size) <= Records(size');
  }

  /** Every size and offset either loop computes is a safe JavaScript integer. */
  lemma OffsetsAreSafeIntegers(size: int, index: nat)
    requires SupportedSize(size)
    ensures ExpectedSize(size) <= MAX_SAFE_INTEGER
    ensures index < Records(size) ==>
              && index * CHUNK_SIZE + CHUNK_SIZE <= MAX_SAFE_INTEGER
              && RecordOffset(index) + RecordLength(size, index) + TAG_LENGTH <= ExpectedSize(size)
              && index + 1 <= MAX_COUNTER
    ensures index + 1 == Records(size) ==>
              RecordOffset(index) + RecordLength(size, index) + TAG_LENGTH == ExpectedSize(size)
  {
  }

  // Nonces.

  /** Every AES-GCM call of one encryption, in order. */
  function Calls(keys: Keys, header: seq<byte>, noncePrefix: seq<byte>, padded: seq<byte>, content: seq<byte>, n: nat)
    : (calls: seq<SealCall>)
    requires n * CHUNK_SIZE < |content| + CHUNK_SIZE
    ensures |calls| == n + 1
  {
    if n == 0 then [MetadataCall(keys, header, noncePrefix, padded)]
    else
      Calls(keys, header, noncePrefix, padded, content, n - 1)
      + [ContentCall(keys, header, noncePrefix, content, n - 1)]
  }

  function SealEach(c: Crypto, calls: seq<SealCall>): seq<byte> {
    if calls == [] then [] else SealEach(c, calls[..|calls| - 1]) + Seal(c, calls[|calls| - 1])
  }

  /** A container is its header followed by the outputs of exactly these calls. */
  lemma {:induction false} ContainerIsItsCalls(c: Crypto, keys: Keys, header: seq<byte>, noncePrefix: seq<byte>,
                                               padded: seq<byte>, content: seq<byte>, n: nat)
    requires n * CHUNK_SIZE < |content| + CHUNK_SIZE
    ensures SealEach(c, Calls(keys, header, noncePrefix, padded, content, n))
         == Seal(c, MetadataCall(keys, header, noncePrefix, padded))
          + SealedContent(c, keys, header, noncePrefix, content, n)
  {
    var calls := Calls(keys, header, noncePrefix, padded, content, n);
    if n == 0 {
      assert calls[..0] == [];
      assert SealEach(c, calls) == SealEach(c, []) + Seal(c, calls[0]);
    } else {
      ContainerIsItsCalls(c, keys, header, noncePrefix, padded, content, n - 1);
      assert calls[..n] == Calls(keys, header, noncePrefix, padded, content, n - 1);
    }
  }

  function RecordType(number: nat): byte {
    if number == 0 then RECORD_TYPE_METADATA else RECORD_TYPE_CONTENT
  }

  function RecordKey(keys: Keys, number: nat): seq<byte> {
    if number == 0 then keys.metadata else keys.content
  }

  /** Call number i of an encryption carries counter i and the key of its record type. */
  lemma {:induction false} CallNumber(keys: Keys, header: seq<byte>, noncePrefix: seq<byte>, padded: seq<byte>,
                                      content: seq<byte>, n: nat, i: nat)
    requires n * CHUNK_SIZE < |content| + CHUNK_SIZE && |padded| <= MAX_COUNTER && i <= n
    ensures var call := Calls(keys, header, noncePrefix, padded, content, n)[i];
            && |call.plaintext| <= MAX_COUNTER
            && call.key == RecordKey(keys, i)
            && call.nonce == Nonce(noncePrefix, i)
            && call.additionalData == AdditionalData(header, RecordType(i), i, |call.plaintext|)
  {
    if i < n {
      CallNumber(keys, header, noncePrefix, padded, content, n - 1, i);
    } else if n > 0 {
      assert |Chunk(content, n - 1)| <= CHUNK_SIZE;
    }
  }

  /**
   In one encryption no two AES-GCM calls share a nonce, whatever the keys, and no two share
   additional data.
   */
  lemma NoNonceReuse(keys: Keys, header: seq<byte>, noncePrefix: seq<byte>, padded: seq<byte>, content: seq<byte>,
                     i: nat, j: nat)
    requires SupportedSize(|content|) && |padded| <= MAX_COUNTER
    requires i < j <= Records(|content|)
    ensures var calls := Calls(keys, header, noncePrefix, padded, content, Records(|content|));
            calls[i].nonce != calls[j].nonce && calls[i].additionalData != calls[j].additionalData
  {
    var n := Records(|content|);
    var calls := Calls(keys, header, noncePrefix, padded, content, n);
    CallNumber(keys, header, noncePrefix, padded, content, n, i);
    CallNumber(keys, header, noncePrefix, padded, content, n, j);
    if calls[i].nonce == calls[j].nonce {
      NonceInjective(noncePrefix, i, j);
    }
    if calls[i].additionalData == calls[j].additionalData {
      AdditionalDataInjective(header, RecordType(i), i, |calls[i].plaintext|,
                              header, RecordType(j), j, |calls[j].plaintext|);
    }
  }

  // Opening what was sealed.

  lemma SliceOfLeft(whole: seq<byte>, a: seq<byte>, b: seq<byte>, start: nat, end: nat, piece: seq<byte>)
    requires whole == a + b && start <= end <= |a| && a[start..end] == piece
    ensures end <= |whole| && whole[start..end] == piece
  {
  }

  lemma SliceOfSuffix(x: seq<byte>, a: nat, start: nat, end: nat)
    requires a <= start <= end <= |x|
    ensures x[a..][start - a..end - a] == x[start..end]
  {
  }

  lemma SliceOfRight(whole: seq<byte>, a: seq<byte>, b: seq<byte>)
    requires whole == a + b
    ensures whole[|a|..|a| + |b|] == b
  {
  }

  /** The newest record sits right after the full records before it. */
  lemma LastInPlace(c: Crypto, keys: Keys, header: seq<byte>, noncePrefix: seq<byte>, content: seq<byte>, index: nat)
    requires c.SealLaws() && index * CHUNK_SIZE < |content|
    ensures var before := SealedContent(c, keys, header, noncePrefix, content, index);
            var last := Seal(c, ContentCall(keys, header, noncePrefix, content, index));
            && SealedContent(c, keys, header, noncePrefix, content, index + 1) == before + last
            && |before| == index * (CHUNK_SIZE + TAG_LENGTH)
            && |last| == RecordLength(|content|, index) + TAG_LENGTH
  {
    SealedLength(c, keys, header, noncePrefix, content, index);
    SealFacts(c, ContentCall(keys, header, noncePrefix, content, index));
    ChunkLength(content, index);
  }

  lemma StillInPlace(c: Crypto, keys: Keys, header: seq<byte>, noncePrefix: seq<byte>, content: seq<byte>,
                     n: nat, start: nat, end: nat, piece: seq<byte>)
    requires n > 0 && (n - 1) * CHUNK_SIZE < |content|
    requires start <= end <= |SealedContent(c, keys, header, noncePrefix, content, n - 1)|
    requires SealedContent(c, keys, header, noncePrefix, content, n - 1)[start..end] == piece
    ensures end <= |SealedContent(c, keys, header, noncePrefix, content, n)|
    ensures SealedContent(c, keys, header, noncePrefix, content, n)[start..end] == piece
  {
    SliceOfLeft(SealedContent(c, keys, header, noncePrefix, content, n),
                SealedContent(c, keys, header, noncePrefix, content, n - 1),
                Seal(c, ContentCall(keys, header, noncePrefix, content, n - 1)), start, end, piece);
  }

  /** Record `index` of the sealed content sits where its offset says. */
  lemma {:induction false} RecordInPlace(c: Crypto, keys: Keys, header: seq<byte>, noncePrefix: seq<byte>,
                                         content: seq<byte>, n: nat, index: nat)
    requires c.SealLaws() && n * CHUNK_SIZE < |content| + CHUNK_SIZE && index < n
    ensures var start := index * (CHUNK_SIZE + TAG_LENGTH);
            var end := start + RecordLength(|content|, index) + TAG_LENGTH;
            var sealed := SealedContent(c, keys, header, noncePrefix, content, n);
            end <= |sealed| && sealed[start..end] == Seal(c, ContentCall(keys, header, noncePrefix, content, index))
  {
    if index < n - 1 {
      RecordInPlace(c, keys, header, noncePrefix, content, n - 1, index);
      var start := index * (CHUNK_SIZE + TAG_LENGTH);
      StillInPlace(c, keys, header, noncePrefix, content, n, start,
                   start + RecordLength(|content|, index) + TAG_LENGTH,
                   Seal(c, ContentCall(keys, header, noncePrefix, content, index)));
    } else {
      LastInPlace(c, keys, header, noncePrefix, content, index);
      SliceOfRight(SealedContent(c, keys, header, noncePrefix, content, n),
                   SealedContent(c, keys, header, noncePrefix, content, index),
                   Seal(c, ContentCall(keys, header, noncePrefix, content, index)));
    }
  }

  lemma RecordFound(c: Crypto, keys: Keys, header: seq<byte>, noncePrefix: seq<byte>,
                    container: seq<byte>, content: seq<byte>, index: nat)
    requires c.SealLaws() && SupportedSize(|content|) && index < Records(|content|)
    requires |container| == ExpectedSize(|content|)
    requires container[METADATA_END..]
          == SealedContent(c, keys, header, noncePrefix, content, Records(|content|))
    ensures var end := RecordOffset(index) + RecordLength(|content|, index) + TAG_LENGTH;
            && end <= |container|
            && container[RecordOffset(index)..end] == Seal(c, ContentCall(keys, header, noncePrefix, content, index))
  {
    RecordInPlace(c, keys, header, noncePrefix, content, Records(|content|), index);
    var start := RecordOffset(index);
    SliceOfSuffix(container, METADATA_END, start, start + RecordLength(|content|, index) + TAG_LENGTH);
  }

  /** A record found in place opens to its chunk. */
  lemma SealedRecordOpens(c: Crypto, keys: Keys, header: seq<byte>, noncePrefix: seq<byte>,
                          container: seq<byte>, content: seq<byte>, index: nat)
    requires c.SealLaws() && SupportedSize(|content|) && index < Records(|content|)
    requires |noncePrefix| == NONCE_PREFIX_LENGTH && |container| == ExpectedSize(|content|)
    requires RecordOffset(index) + RecordLength(|content|, index) + TAG_LENGTH <= |container|
    requires container[RecordOffset(index)..RecordOffset(index) + RecordLength(|content|, index) + TAG_LENGTH]
          == Seal(c, ContentCall(keys, header, noncePrefix, content, index))
    ensures OpenRecord(c, keys, header, noncePrefix, container, |content|, index) == Ok(Chunk(content, index))
  {
    ChunkLength(content, index);
    SealFacts(c, ContentCall(keys, header, noncePrefix, content, index));
  }

  /** The first n chunks. */
  function Taken(content: seq<byte>, n: nat): seq<byte> {
    content[..Min(n * CHUNK_SIZE, |content|)]
  }

  lemma TakenNext(content: seq<byte>, n: nat)
    requires n > 0 && (n - 1) * CHUNK_SIZE < |content|
    ensures Taken(content, n) == Taken(content, n - 1) + Chunk(content, n - 1)
  {
  }

  lemma OpenNext(c: Crypto, keys: Keys, header: seq<byte>, noncePrefix: seq<byte>, container: seq<byte>,
                 content: seq<byte>, n: nat)
    requires SupportedSize(|content|) && n < Records(|content|) && |container| == ExpectedSize(|content|)
    requires OpenRecords(c, keys, header, noncePrefix, container, |content|, n) == Ok(Taken(content, n))
    requires OpenRecord(c, keys, header, noncePrefix, container, |content|, n) == Ok(Chunk(content, n))
    ensures OpenRecords(c, keys, header, noncePrefix, container, |content|, n + 1) == Ok(Taken(content, n + 1))
  {
    TakenNext(content, n + 1);
  }

  lemma {:induction false} ChunksOpen(c: Crypto, keys: Keys, header: seq<byte>, noncePrefix: seq<byte>,
                                      container: seq<byte>, content: seq<byte>, n: nat)
    requires SupportedSize(|content|) && n <= Records(|content|) && |container| == ExpectedSize(|content|)
    requires forall i :: 0 <= i < n ==>
               OpenRecord(c, keys, header, noncePrefix, container, |content|, i) == Ok(Chunk(content, i))
    ensures OpenRecords(c, keys, header, noncePrefix, container, |content|, n) == Ok(Taken(content, n))
  {
    if n > 0 {
      ChunksOpen(c, keys, header, noncePrefix, container, content, n - 1);
      OpenNext(c, keys, header, noncePrefix, container, content, n - 1);
    }
  }

  lemma EachRecordOpens(c: Crypto, keys: Keys, header: seq<byte>, noncePrefix: seq<byte>,
                        container: seq<byte>, content: seq<byte>, index: nat)
    requires c.SealLaws() && SupportedSize(|content|) && index < Records(|content|)
    requires |noncePrefix| == NONCE_PREFIX_LENGTH && |container| == ExpectedSize(|content|)
    requires container[METADATA_END..]
          == SealedContent(c, keys, header, noncePrefix, content, Records(|content|))
    ensures OpenRecord(c, keys, header, noncePrefix, container, |content|, index) == Ok(Chunk(content, index))
  {
    RecordFound(c, keys, header, noncePrefix, container, content, index);
    SealedRecordOpens(c, keys, header, noncePrefix, container, content, index);
  }

  lemma AllTaken(content: seq<byte>)
    requires SupportedSize(|content|)
    ensures Taken(content, Records(|content|)) == content
  {
  }

  lemma AllChunksOpen(c: Crypto, keys: Keys, header: seq<byte>, noncePrefix: seq<byte>,
                      container: seq<byte>, content: seq<byte>)
    requires SupportedSize(|content|) && |container| == ExpectedSize(|content|)
    requires forall i :: 0 <= i < Records(|content|) ==>
               OpenRecord(c, keys, header, noncePrefix, container, |content|, i) == Ok(Chunk(content, i))
    ensures OpenRecords(c, keys, header, noncePrefix, container, |content|, Records(|content|)) == Ok(content)
  {
    ChunksOpen(c, keys, header, noncePrefix, container, content, Records(|content|));
    AllTaken(content);
  }

  /** The records of a container open to the content. */
  lemma SealedRecordsOpen(c: Crypto, keys: Keys, header: seq<byte>, noncePrefix: seq<byte>,
                          container: seq<byte>, content: seq<byte>)
    requires c.SealLaws() && SupportedSize(|content|)
    requires |noncePrefix| == NONCE_PREFIX_LENGTH && |container| == ExpectedSize(|content|)
    requires container[METADATA_END..]
          == SealedContent(c, keys, header, noncePrefix, content, Records(|content|))
    ensures OpenRecords(c, keys, header, noncePrefix, container, |content|, Records(|content|)) == Ok(content)
  {
    forall i | 0 <= i < Records(|content|)
      ensures OpenRecord(c, keys, header, noncePrefix, container, |content|, i) == Ok(Chunk(content, i))
    {
      EachRecordOpens(c, keys, header, noncePrefix, container, content, i);
    }
    AllChunksOpen(c, keys, header, noncePrefix, container, content);
  }

  // Sealing what was opened.

  lemma OpenedRecord(c: Crypto, keys: Keys, header: seq<byte>, noncePrefix: seq<byte>,
                     container: seq<byte>, size: int, index: nat)
    requires c.SealLaws() && SupportedSize(size) && index < Records(size)
    requires |noncePrefix| == NONCE_PREFIX_LENGTH && |container| == ExpectedSize(size)
    requires OpenRecord(c, keys, header, noncePrefix, container, size, index).Ok?
    ensures var r := OpenRecord(c, keys, header, noncePrefix, container, size, index).value;
            && |r| == RecordLength(size, index)
            && RecordOffset(index) + |r| + TAG_LENGTH <= |container|
            && container[RecordOffset(index)..RecordOffset(index) + |r| + TAG_LENGTH]
               == c.seal(keys.content, Nonce(noncePrefix, index + 1),
                         AdditionalData(header, RECORD_TYPE_CONTENT, index + 1, |r|), r)
  {
    var r := OpenRecord(c, keys, header, noncePrefix, container, size, index).value;
    var length := RecordLength(size, index);
    var p := AesGcm(header, noncePrefix, RECORD_TYPE_CONTENT, index + 1, length).value;
    var record := container[RecordOffset(index)..RecordOffset(index) + length + TAG_LENGTH];
    assert c.UnsealLaw(keys.content, p.nonce, p.additionalData, record);
    assert c.SealLaw(keys.content, p.nonce, p.additionalData, r);
  }

  lemma {:induction false} SealedContentOfPrefix(c: Crypto, keys: Keys, header: seq<byte>, noncePrefix: seq<byte>,
                                                 q: seq<byte>, r: seq<byte>, n: nat)
    requires n * CHUNK_SIZE <= |q|
    ensures SealedContent(c, keys, header, noncePrefix, q + r, n) == SealedContent(c, keys, header, noncePrefix, q, n)
  {
    if n > 0 {
      SealedContentOfPrefix(c, keys, header, noncePrefix, q, r, n - 1);
      assert Chunk(q + r, n - 1) == Chunk(q, n - 1);
    }
  }

  /** Appending a chunk to full chunks appends its seal. */
  lemma SealedContentExtend(c: Crypto, keys: Keys, header: seq<byte>, noncePrefix: seq<byte>,
                            q: seq<byte>, r: seq<byte>, n: nat)
    requires |q| == n * CHUNK_SIZE && 0 < |r| <= CHUNK_SIZE
    ensures SealedContent(c, keys, header, noncePrefix, q + r, n + 1)
         == SealedContent(c, keys, header, noncePrefix, q, n)
          + c.seal(keys.content, Nonce(noncePrefix, n + 1),
                   AdditionalData(header, RECORD_TYPE_CONTENT, n + 1, |r|), r)
  {
    SealedContentOfPrefix(c, keys, header, noncePrefix, q, r, n);
    assert Chunk(q + r, n) == r;
  }

  lemma SplitSlice(x: seq<byte>, a: nat, b: nat, e: nat)
    requires a <= b <= e <= |x|
    ensures x[a..e] == x[a..b] + x[b..e]
  {
  }

  lemma LastRecordArithmetic(size: int, n: nat)
    requires SupportedSize(size) && 0 < n <= Records(size)
    ensures Min((n - 1) * CHUNK_SIZE, size) == (n - 1) * CHUNK_SIZE
    ensures Min(n * CHUNK_SIZE, size) == (n - 1) * CHUNK_SIZE + RecordLength(size, n - 1)
    ensures 0 < RecordLength(size, n - 1) <= CHUNK_SIZE
    ensures RecordOffset(n - 1) == METADATA_END + (n - 1) * CHUNK_SIZE + (n - 1) * TAG_LENGTH
  {
  }

  /** p is a plaintext whose n seals fill the container from the metadata record on. */
  predicate FillsRecords(c: Crypto, keys: Keys, header: seq<byte>, noncePrefix: seq<byte>,
                         container: seq<byte>, size: int, p: seq<byte>, n: nat)
    requires SupportedSize(size) && n <= Records(size)
  {
    && |p| == Min(n * CHUNK_SIZE, size)
    && METADATA_END + |p| + n * TAG_LENGTH <= |container|
    && container[METADATA_END..METADATA_END + |p| + n * TAG_LENGTH]
       == SealedContent(c, keys, header, noncePrefix, p, n)
  }

  /** Records that open are the seals of the chunks they opened to. */
  lemma {:induction false} OpenedRecordsAreSeals(c: Crypto, keys: Keys, header: seq<byte>, noncePrefix: seq<byte>,
                                                 container: seq<byte>, size: int, n: nat)
    requires c.SealLaws() && SupportedSize(size) && n <= Records(size)
    requires |noncePrefix| == NONCE_PREFIX_LENGTH && |container| == ExpectedSize(size)
    requires OpenRecords(c, keys, header, noncePrefix, container, size, n).Ok?
    ensures FillsRecords(c, keys, header, noncePrefix, container, size,
                         OpenRecords(c, keys, header, noncePrefix, container, size, n).value, n)
  {
    if n > 0 {
      OpenRecordsAppends(c, keys, header, noncePrefix, container, size, n);
      OpenedRecordsAreSeals(c, keys, header, noncePrefix, container, size, n - 1);
      FillNext(c, keys, header, noncePrefix, container, size,
               OpenRecords(c, keys, header, noncePrefix, container, size, n - 1).value, n - 1);
    }
  }

  lemma OpenRecordsAppends(c: Crypto, keys: Keys, header: seq<byte>, noncePrefix: seq<byte>,
                           container: seq<byte>, size: int, n: nat)
    requires SupportedSize(size) && 0 < n <= Records(size) && |noncePrefix| == NONCE_PREFIX_LENGTH
    requires |container| == ExpectedSize(size)
    requires OpenRecords(c, keys, header, noncePrefix, container, size, n).Ok?
    ensures OpenRecords(c, keys, header, noncePrefix, container, size, n - 1).Ok?
    ensures OpenRecord(c, keys, header, noncePrefix, container, size, n - 1).Ok?
    ensures OpenRecords(c, keys, header, noncePrefix, container, size, n).value
         == OpenRecords(c, keys, header, noncePrefix, container, size, n - 1).value
          + OpenRecord(c, keys, header, noncePrefix, container, size, n - 1).value
  {
  }

  lemma FillNext(c: Crypto, keys: Keys, header: seq<byte>, noncePrefix: seq<byte>,
                 container: seq<byte>, size: int, q: seq<byte>, n: nat)
    requires c.SealLaws() && SupportedSize(size) && n < Records(size)
    requires |noncePrefix| == NONCE_PREFIX_LENGTH && |container| == ExpectedSize(size)
    requires FillsRecords(c, keys, header, noncePrefix, container, size, q, n)
    requires OpenRecord(c, keys, header, noncePrefix, container, size, n).Ok?
    ensures FillsRecords(c, keys, header, noncePrefix, container, size,
                         q + OpenRecord(c, keys, header, noncePrefix, container, size, n).value, n + 1)
  {
    var r := OpenRecord(c, keys, header, noncePrefix, container, size, n).value;
    LastRecordArithmetic(size, n + 1);
    OpenedRecord(c, keys, header, noncePrefix, container, size, n);
    JoinOpened(c, keys, header, noncePrefix, container, q, r, n);
  }

  lemma JoinOpened(c: Crypto, keys: Keys, header: seq<byte>, noncePrefix: seq<byte>,
                   container: seq<byte>, q: seq<byte>, r: seq<byte>, n: nat)
    requires |q| == n * CHUNK_SIZE && 0 < |r| <= CHUNK_SIZE
    requires RecordOffset(n) + |r| + TAG_LENGTH <= |container|
    requires container[METADATA_END..RecordOffset(n)] == SealedContent(c, keys, header, noncePrefix, q, n)
    requires container[RecordOffset(n)..RecordOffset(n) + |r| + TAG_LENGTH]
          == c.seal(keys.content, Nonce(noncePrefix, n + 1), AdditionalData(header, RECORD_TYPE_CONTENT, n + 1, |r|), r)
    ensures RecordOffset(n) + |r| + TAG_LENGTH == METADATA_END + |q + r| + (n + 1) * TAG_LENGTH
    ensures container[METADATA_END..METADATA_END + |q + r| + (n + 1) * TAG_LENGTH]
         == SealedContent(c, keys, header, noncePrefix, q + r, n + 1)
  {
    JoinedEnd(|q|, |r|, n);
    SealedContentExtend(c, keys, header, noncePrefix, q, r, n);
    SplitSlice(container, METADATA_END, RecordOffset(n), RecordOffset(n) + |r| + TAG_LENGTH);
  }

  lemma JoinedEnd(q: nat, r: nat, n: nat)
    requires q == n * CHUNK_SIZE
    ensures METADATA_END <= RecordOffset(n)
    ensures RecordOffset(n) + r + TAG_LENGTH == METADATA_END + (q + r) + (n + 1) * TAG_LENGTH
  {
  }

  // The main results.

  /** container is the v1 container of d under this token, key, salt, nonce prefix and metadata record. */
  predicate Seals(c: Crypto, container: seq<byte>, keyToken: string, d: Decrypted,
                  rootKey: seq<byte>, salt: seq<byte>, noncePrefix: seq<byte>, padded: seq<byte>)
  {
    && EncodeKeyToken(rootKey) == Ok(keyToken)
    && |salt| == SALT_LENGTH && |noncePrefix| == NONCE_PREFIX_LENGTH
    && DecodeMetadata(c, padded) == Ok(d.metadata)
    && d.blobType == (if d.metadata.mime == "" then "application/octet-stream" else d.metadata.mime)
    && |d.plaintext| == d.metadata.size && SupportedSize(d.metadata.size)
    && container == Container(c, rootKey, salt, noncePrefix, padded, d.plaintext)
  }

  lemma MetadataOpens(c: Crypto, keys: Keys, header: seq<byte>, noncePrefix: seq<byte>, container: seq<byte>,
                      padded: seq<byte>)
    requires c.SealLaws() && |noncePrefix| == NONCE_PREFIX_LENGTH && |padded| == METADATA_PLAINTEXT_LENGTH
    requires |container| >= METADATA_END
    requires container[HEADER_LENGTH..METADATA_END] == Seal(c, MetadataCall(keys, header, noncePrefix, padded))
    ensures OpenMetadata(c, keys, header, noncePrefix, container) == DecodeMetadata(c, padded)
  {
    SealFacts(c, MetadataCall(keys, header, noncePrefix, padded));
  }

  lemma OpenedMetadata(c: Crypto, keys: Keys, header: seq<byte>, noncePrefix: seq<byte>, container: seq<byte>)
    returns (padded: seq<byte>)
    requires c.SealLaws() && |noncePrefix| == NONCE_PREFIX_LENGTH && |container| >= METADATA_END
    requires OpenMetadata(c, keys, header, noncePrefix, container).Ok?
    ensures DecodeMetadata(c, padded) == OpenMetadata(c, keys, header, noncePrefix, container)
    ensures container[HEADER_LENGTH..METADATA_END] == Seal(c, MetadataCall(keys, header, noncePrefix, padded))
  {
    var p := AesGcm(header, noncePrefix, RECORD_TYPE_METADATA, 0, METADATA_PLAINTEXT_LENGTH).value;
    var record := container[HEADER_LENGTH..METADATA_END];
    assert c.UnsealLaw(keys.metadata, p.nonce, p.additionalData, record);
    padded := c.unseal(keys.metadata, p.nonce, p.additionalData, record).value;
  }

  /** The conditions Decrypt checks, in one conjunction. */
  predicate Checks(c: Crypto, container: seq<byte>, keyToken: string, d: Decrypted,
                   rootKey: seq<byte>, salt: seq<byte>, noncePrefix: seq<byte>)
  {
    var keys := DeriveKeys(c, rootKey, salt);
    && DecodeKeyToken(keyToken) == Ok((E2EE_VERSION, rootKey))
    && |container| >= METADATA_END
    && ParseHeader(container[..HEADER_LENGTH])
       == Ok(ParsedHeader(E2EE_VERSION, salt, noncePrefix, keys.commitment))
    && OpenMetadata(c, keys, container[..HEADER_LENGTH], noncePrefix, container) == Ok(d.metadata)
    && SupportedSize(d.metadata.size) && |container| == ExpectedSize(d.metadata.size)
    && OpenRecords(c, keys, container[..HEADER_LENGTH], noncePrefix, container, d.metadata.size,
                   Records(d.metadata.size)) == Ok(d.plaintext)
    && d.blobType == BlobType(d.metadata)
  }

  lemma DecryptChecks(c: Crypto, container: seq<byte>, keyToken: string, d: Decrypted)
    returns (rootKey: seq<byte>, salt: seq<byte>, noncePrefix: seq<byte>)
    requires Decrypt(c, container, keyToken) == Ok(d)
    ensures Checks(c, container, keyToken, d, rootKey, salt, noncePrefix)
  {
    DecodeIsImageOfEncode(keyToken, DecodeKeyToken(keyToken).value.0, DecodeKeyToken(keyToken).value.1);
    rootKey := DecodeKeyToken(keyToken).value.1;
    HeaderCanonical(container[..HEADER_LENGTH]);
    var parsed := ParseHeader(container[..HEADER_LENGTH]).value;
    salt, noncePrefix := parsed.salt, parsed.noncePrefix;
  }

  lemma SealedIsAccepted(c: Crypto, container: seq<byte>, keyToken: string, d: Decrypted,
                         rootKey: seq<byte>, salt: seq<byte>, noncePrefix: seq<byte>, padded: seq<byte>)
    requires c.Lawful() && Seals(c, container, keyToken, d, rootKey, salt, noncePrefix, padded)
    ensures Checks(c, container, keyToken, d, rootKey, salt, noncePrefix)
    ensures Decrypt(c, container, keyToken) == Ok(d)
  {
    var keys := DeriveKeys(c, rootKey, salt);
    var header := Header(salt, noncePrefix, keys.commitment);
    var metadataRecord := Seal(c, MetadataCall(keys, header, noncePrefix, padded));
    var n := Records(d.metadata.size);
    var content := SealedContent(c, keys, header, noncePrefix, d.plaintext, n);
    ContainerLength(c, rootKey, salt, noncePrefix, padded, d.plaintext);
    assert c.DeriveLaw(rootKey, salt, COMMIT_INFO);
    HeaderRoundTrip(salt, noncePrefix, keys.commitment);
    SealFacts(c, MetadataCall(keys, header, noncePrefix, padded));
    DecodeIsImageOfEncode(keyToken, E2EE_VERSION, rootKey);
    CutInThree(header, metadataRecord, content, container);
    MetadataOpens(c, keys, header, noncePrefix, container, padded);
    SealedRecordsOpen(c, keys, header, noncePrefix, container, d.plaintext);
  }

  lemma CutInThree(header: seq<byte>, record: seq<byte>, content: seq<byte>, container: seq<byte>)
    requires container == header + record + content
    requires |header| == HEADER_LENGTH && |header| + |record| == METADATA_END
    ensures container[..HEADER_LENGTH] == header
    ensures container[HEADER_LENGTH..METADATA_END] == record
    ensures container[METADATA_END..] == content
  {
  }

  lemma ThreeParts(container: seq<byte>)
    requires |container| >= METADATA_END
    ensures container == container[..HEADER_LENGTH] + container[HEADER_LENGTH..METADATA_END] + container[METADATA_END..]
  {
  }

  lemma AllRecordsAreSeals(c: Crypto, keys: Keys, header: seq<byte>, noncePrefix: seq<byte>, container: seq<byte>,
                           d: Decrypted)
    requires c.SealLaws() && |noncePrefix| == NONCE_PREFIX_LENGTH
    requires SupportedSize(d.metadata.size) && |container| == ExpectedSize(d.metadata.size)
    requires OpenRecords(c, keys, header, noncePrefix, container, d.metadata.size, Records(d.metadata.size))
          == Ok(d.plaintext)
    ensures |d.plaintext| == d.metadata.size
    ensures container[METADATA_END..]
         == SealedContent(c, keys, header, noncePrefix, d.plaintext, Records(d.metadata.size))
  {
    var n := Records(d.metadata.size);
    OpenedRecordsAreSeals(c, keys, header, noncePrefix, container, d.metadata.size, n);
    assert container[METADATA_END..METADATA_END + |d.plaintext| + n * TAG_LENGTH] == container[METADATA_END..];
  }

  lemma AcceptedIsSealed(c: Crypto, container: seq<byte>, keyToken: string, d: Decrypted,
                         rootKey: seq<byte>, salt: seq<byte>, noncePrefix: seq<byte>) returns (padded: seq<byte>)
    requires c.Lawful() && Checks(c, container, keyToken, d, rootKey, salt, noncePrefix)
    ensures Seals(c, container, keyToken, d, rootKey, salt, noncePrefix, padded)
  {
    DecodeIsImageOfEncode(keyToken, E2EE_VERSION, rootKey);
    var keys := DeriveKeys(c, rootKey, salt);
    var header := container[..HEADER_LENGTH];
    HeaderCanonical(header);
    padded := OpenedMetadata(c, keys, header, noncePrefix, container);
    AllRecordsAreSeals(c, keys, header, noncePrefix, container, d);
    ThreeParts(container);
    assert container == Container(c, rootKey, salt, noncePrefix, padded, d.plaintext);
  }

  /**
   decryptContainer accepts exactly the containers: it returns d for a byte string and a token if and
   only if the bytes are the header, sealed metadata and sealed full-size chunks of d under that token.
   */
  lemma AcceptsExactlyContainers(c: Crypto, container: seq<byte>, keyToken: string, d: Decrypted)
    requires c.Lawful()
    ensures Decrypt(c, container, keyToken) == Ok(d)
       <==> exists rootKey, salt, noncePrefix, padded ::
              Seals(c, container, keyToken, d, rootKey, salt, noncePrefix, padded)
  {
    if Decrypt(c, container, keyToken) == Ok(d) {
      var rootKey, salt, noncePrefix := DecryptChecks(c, container, keyToken, d);
      var padded := AcceptedIsSealed(c, container, keyToken, d, rootKey, salt, noncePrefix);
    }
    if exists rootKey, salt, noncePrefix, padded ::
         Seals(c, container, keyToken, d, rootKey, salt, noncePrefix, padded) {
      var rootKey, salt, noncePrefix, padded :|
        Seals(c, container, keyToken, d, rootKey, salt, noncePrefix, padded);
      SealedIsAccepted(c, container, keyToken, d, rootKey, salt, noncePrefix, padded);
    }
  }

  /** encryptFile succeeds exactly on supported sizes whose metadata fits its record. */
  lemma EncryptSucceedsExactly(c: Crypto, file: File, r: Randomness)
    requires r.Sized()
    ensures Encrypt(c, file, r).Ok?
       <==> |file.content| <= 4_294_967_295 * 1_048_576
            && |c.stringify(Metadata(file.name, file.mime, |file.content|))| <= 4_092
    ensures Encrypt(c, file, r).Err? ==> Encrypt(c, file, r) == Err(FormatError)
  {
    SupportedSizeExactly(|file.content|);
  }

  /** Decrypting what encryptFile produced returns the file's bytes, name, type and size. */
  lemma EncryptDecryptRoundTrip(c: Crypto, file: File, r: Randomness)
    requires c.Lawful() && r.Sized() && Encrypt(c, file, r).Ok?
    ensures Decrypt(c, Encrypt(c, file, r).value.ciphertext, Encrypt(c, file, r).value.keyToken)
         == Ok(Decrypted(file.content, if file.mime == "" then "application/octet-stream" else file.mime,
                         Metadata(file.name, file.mime, |file.content|)))
  {
    var e := Encrypt(c, file, r).value;
    var m := FileMetadata(file);
    MetadataRoundTrip(c, m, r.padding);
    KeyTokenRoundTrip(r.rootKey);
    SealedIsAccepted(c, e.ciphertext, e.keyToken, Decrypted(file.content, BlobType(m), m),
                     r.rootKey, r.salt, r.noncePrefix, EncodeMetadata(c, m, r.padding).value);
  }

  /** The only accepted length is the one maxEncryptedContainerSize gives for the plaintext. */
  lemma AcceptedLength(c: Crypto, container: seq<byte>, keyToken: string, d: Decrypted)
    requires c.Lawful() && Decrypt(c, container, keyToken) == Ok(d)
    ensures MaxEncryptedContainerSize(|d.plaintext|) == Ok(|container|)
  {
    var rootKey, salt, noncePrefix := DecryptChecks(c, container, keyToken, d);
    HeaderCanonical(container[..HEADER_LENGTH]);
    AllRecordsAreSeals(c, DeriveKeys(c, rootKey, salt), container[..HEADER_LENGTH], noncePrefix, container, d);
    SizeFormulas(d.metadata.size);
  }

  /**
   Two accepted containers that agree up to the content records have the same length and metadata, so
   no record was dropped or added, and they differ only if the plaintexts differ.
   */
  lemma SameMetadataSameShape(c: Crypto, x: seq<byte>, y: seq<byte>, keyToken: string, d: Decrypted, e: Decrypted)
    requires c.Lawful() && Decrypt(c, x, keyToken) == Ok(d) && Decrypt(c, y, keyToken) == Ok(e)
    requires x[..METADATA_END] == y[..METADATA_END]
    ensures |x| == |y| && d.metadata == e.metadata
    ensures d.plaintext == e.plaintext <==> x == y
  {
    var rootKey, salt, noncePrefix := DecryptChecks(c, x, keyToken, d);
    var rootKey', salt', noncePrefix' := DecryptChecks(c, y, keyToken, e);
    SamePrefix(x, y);
    var keys := DeriveKeys(c, rootKey, salt);
    assert noncePrefix' == noncePrefix && rootKey' == rootKey && salt' == salt;
    AllRecordsAreSeals(c, keys, x[..HEADER_LENGTH], noncePrefix, x, d);
    AllRecordsAreSeals(c, keys, y[..HEADER_LENGTH], noncePrefix, y, e);
    SameHalves(x, y);
  }

  lemma SamePrefix(x: seq<byte>, y: seq<byte>)
    requires |x| >= METADATA_END && |y| >= METADATA_END && x[..METADATA_END] == y[..METADATA_END]
    ensures x[..HEADER_LENGTH] == y[..HEADER_LENGTH]
    ensures x[HEADER_LENGTH..METADATA_END] == y[HEADER_LENGTH..METADATA_END]
  {
    assert x[..HEADER_LENGTH] == x[..METADATA_END][..HEADER_LENGTH];
    assert y[..HEADER_LENGTH] == y[..METADATA_END][..HEADER_LENGTH];
    assert x[HEADER_LENGTH..METADATA_END] == x[..METADATA_END][HEADER_LENGTH..];
    assert y[HEADER_LENGTH..METADATA_END] == y[..METADATA_END][HEADER_LENGTH..];
  }

  lemma SameHalves(x: seq<byte>, y: seq<byte>)
    requires |x| >= METADATA_END && |y| >= METADATA_END && x[..METADATA_END] == y[..METADATA_END]
    ensures x[METADATA_END..] == y[METADATA_END..] <==> x == y
  {
    assert x == x[..METADATA_END] + x[METADATA_END..];
    assert y == y[..METADATA_END] + y[METADATA_END..];
  }

  /** The bytes of content record `index` in the container of a plaintext of `size` bytes. */
  function RecordAt(container: seq<byte>, size: int, index: nat): seq<byte>
    requires SupportedSize(size) && index < Records(size) && |container| == ExpectedSize(size)
  {
    container[RecordOffset(index)..RecordOffset(index) + RecordLength(size, index) + TAG_LENGTH]
  }

  lemma RecordIsSeal(c: Crypto, keys: Keys, header: seq<byte>, noncePrefix: seq<byte>, container: seq<byte>,
                     d: Decrypted, index: nat)
    requires c.SealLaws() && |noncePrefix| == NONCE_PREFIX_LENGTH
    requires SupportedSize(d.metadata.size) && |container| == ExpectedSize(d.metadata.size)
    requires OpenRecords(c, keys, header, noncePrefix, container, d.metadata.size, Records(d.metadata.size))
          == Ok(d.plaintext)
    requires index < Records(d.metadata.size)
    ensures |d.plaintext| == d.metadata.size
    ensures RecordAt(container, d.metadata.size, index)
         == Seal(c, ContentCall(keys, header, noncePrefix, d.plaintext, index))
  {
    AllRecordsAreSeals(c, keys, header, noncePrefix, container, d);
    RecordFound(c, keys, header, noncePrefix, container, d.plaintext, index);
  }

  lemma CallsDiffer(keys: Keys, header: seq<byte>, noncePrefix: seq<byte>, p: seq<byte>, q: seq<byte>, i: nat, j: nat)
    requires SupportedSize(|p|) && SupportedSize(|q|) && i < Records(|p|) && j < Records(|q|) && i != j
    ensures var call := ContentCall(keys, header, noncePrefix, p, i);
            var call' := ContentCall(keys, header, noncePrefix, q, j);
            call.nonce != call'.nonce && call.additionalData != call'.additionalData
  {
    var call, call' := ContentCall(keys, header, noncePrefix, p, i), ContentCall(keys, header, noncePrefix, q, j);
    if call.nonce == call'.nonce {
      NonceInjective(noncePrefix, i + 1, j + 1);
    }
    if call.additionalData == call'.additionalData {
      AdditionalDataInjective(header, RECORD_TYPE_CONTENT, i + 1, |call.plaintext|,
                              header, RECORD_TYPE_CONTENT, j + 1, |call'.plaintext|);
    }
  }

  lemma PrefixLength(header: seq<byte>)
    requires ParseHeader(header).Ok?
    ensures |ParseHeader(header).value.noncePrefix| == NONCE_PREFIX_LENGTH
  {
    HeaderCanonical(header);
  }

  lemma CheckedRecords(c: Crypto, container: seq<byte>, keyToken: string, d: Decrypted,
                       rootKey: seq<byte>, salt: seq<byte>, noncePrefix: seq<byte>, keys: Keys, header: seq<byte>)
    requires Checks(c, container, keyToken, d, rootKey, salt, noncePrefix)
    requires keys == DeriveKeys(c, rootKey, salt) && header == container[..HEADER_LENGTH]
    ensures |noncePrefix| == NONCE_PREFIX_LENGTH
    ensures SupportedSize(d.metadata.size) && |container| == ExpectedSize(d.metadata.size)
    ensures OpenRecords(c, keys, header, noncePrefix, container, d.metadata.size, Records(d.metadata.size))
         == Ok(d.plaintext)
  {
    PrefixLength(header);
  }

  /**
   If an accepted container carries at record j the bytes that an accepted container with the same header
   carries at another record i, then the seals of these two chunks, made with the containers' own content
   key under different nonces and different additional data, are the same ciphertext.
   */
  lemma MovedRecordNeedsCollision(c: Crypto, x: seq<byte>, y: seq<byte>, keyToken: string,
                                  d: Decrypted, e: Decrypted, i: nat, j: nat)
    returns (keys: Keys, header: seq<byte>, noncePrefix: seq<byte>)
    requires c.Lawful() && Decrypt(c, x, keyToken) == Ok(d) && Decrypt(c, y, keyToken) == Ok(e)
    requires x[..HEADER_LENGTH] == y[..HEADER_LENGTH] && i != j
    requires SupportedSize(d.metadata.size) && i < Records(d.metadata.size) && |x| == ExpectedSize(d.metadata.size)
    requires SupportedSize(e.metadata.size) && j < Records(e.metadata.size) && |y| == ExpectedSize(e.metadata.size)
    requires RecordAt(x, d.metadata.size, i) == RecordAt(y, e.metadata.size, j)
    ensures header == x[..HEADER_LENGTH] && ParseHeader(header).Ok? && DecodeKeyToken(keyToken).Ok?
    ensures noncePrefix == ParseHeader(header).value.noncePrefix
    ensures keys == DeriveKeys(c, DecodeKeyToken(keyToken).value.1, ParseHeader(header).value.salt)
    ensures |d.plaintext| == d.metadata.size && |e.plaintext| == e.metadata.size
    ensures var call := ContentCall(keys, header, noncePrefix, d.plaintext, i);
            var call' := ContentCall(keys, header, noncePrefix, e.plaintext, j);
            && Seal(c, call) == Seal(c, call')
            && call.nonce != call'.nonce && call.additionalData != call'.additionalData
  {
    var rootKey, salt, prefix := DecryptChecks(c, x, keyToken, d);
    var rootKey', salt', prefix' := DecryptChecks(c, y, keyToken, e);
    keys, header, noncePrefix := DeriveKeys(c, rootKey, salt), x[..HEADER_LENGTH], prefix;
    assert rootKey' == rootKey && salt' == salt && prefix' == prefix;
    CheckedRecords(c, x, keyToken, d, rootKey, salt, prefix, keys, header);
    CheckedRecords(c, y, keyToken, e, rootKey, salt, prefix, keys, header);
    RecordIsSeal(c, keys, header, prefix, x, d, i);
    RecordIsSeal(c, keys, header, prefix, y, e, j);
    CallsDiffer(keys, header, noncePrefix, d.plaintext, e.plaintext, i, j);
  }

  /**
   The key commitment. A container that opens under two different tokens holds one commitment to two root
   keys: a collision of the key derivation, whatever AES-GCM does.
   */
  lemma TwoTokensNeedCollision(c: Crypto, container: seq<byte>, token: string, other: string,
                               d: Decrypted, e: Decrypted)
    returns (rootKey: seq<byte>, rootKey': seq<byte>, salt: seq<byte>)
    requires Decrypt(c, container, token) == Ok(d) && Decrypt(c, container, other) == Ok(e) && token != other
    ensures EncodeKeyToken(rootKey) == Ok(token) && EncodeKeyToken(rootKey') == Ok(other)
    ensures ParseHeader(container[..HEADER_LENGTH]).Ok? && salt == ParseHeader(container[..HEADER_LENGTH]).value.salt
    ensures rootKey != rootKey' && c.derive(rootKey, salt, COMMIT_INFO) == c.derive(rootKey', salt, COMMIT_INFO)
  {
    var prefix, salt', prefix';
    rootKey, salt, prefix := DecryptChecks(c, container, token, d);
    rootKey', salt', prefix' := DecryptChecks(c, container, other, e);
    DecodeIsImageOfEncode(token, E2EE_VERSION, rootKey);
    DecodeIsImageOfEncode(other, E2EE_VERSION, rootKey');
  }
}
