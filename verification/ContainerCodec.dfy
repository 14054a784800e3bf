/** encryptFile and decryptContainer: the specification and the loops that meet it. */
module ContainerCodec {
  import opened Wrappers
  import opened Bytes
  import opened KeyToken
  import opened ContainerFormat

  datatype File = File(name: string, mime: string, content: seq<byte>)

  datatype Keys = Keys(metadata: seq<byte>, content: seq<byte>, commitment: seq<byte>)

  datatype Encrypted = Encrypted(ciphertext: seq<byte>, keyToken: string)

  datatype Decrypted = Decrypted(plaintext: seq<byte>, blobType: string, metadata: Metadata)

  /** The random bytes one encryption draws. */
  datatype Randomness =
    Randomness(rootKey: seq<byte>, salt: seq<byte>, noncePrefix: seq<byte>, padding: seq<byte>)
  {
    predicate Sized() {
      && |rootKey| == ROOT_KEY_LENGTH
      && |salt| == SALT_LENGTH
      && |noncePrefix| == NONCE_PREFIX_LENGTH
      && |padding| == METADATA_PLAINTEXT_LENGTH
    }
  }

  function DeriveKeys(c: Crypto, rootKey: seq<byte>, salt: seq<byte>): Keys {
    Keys(c.derive(rootKey, salt, METADATA_INFO), c.derive(rootKey, salt, CONTENT_INFO),
         c.derive(rootKey, salt, COMMIT_INFO))
  }

  /** One use of AES-GCM. */
  datatype SealCall = SealCall(key: seq<byte>, nonce: seq<byte>, additionalData: seq<byte>, plaintext: seq<byte>)

  function Seal(c: Crypto, call: SealCall): seq<byte> {
    c.seal(call.key, call.nonce, call.additionalData, call.plaintext)
  }

  /** file.slice(index * CHUNK_SIZE, ...): chunk `index` of the plaintext. */
  function Chunk(content: seq<byte>, index: nat): seq<byte>
    requires index * CHUNK_SIZE <= |content|
  {
    var end := index * CHUNK_SIZE + CHUNK_SIZE;
    content[index * CHUNK_SIZE..if end <= |content| then end else |content|]
  }

  function MetadataCall(keys: Keys, header: seq<byte>, noncePrefix: seq<byte>, padded: seq<byte>): SealCall {
    SealCall(keys.metadata, Nonce(noncePrefix, 0),
             AdditionalData(header, RECORD_TYPE_METADATA, 0, |padded|), padded)
  }

  function ContentCall(keys: Keys, header: seq<byte>, noncePrefix: seq<byte>, content: seq<byte>, index: nat)
    : SealCall
    requires index * CHUNK_SIZE <= |content|
  {
    var chunk := Chunk(content, index);
    SealCall(keys.content, Nonce(noncePrefix, index + 1),
             AdditionalData(header, RECORD_TYPE_CONTENT, index + 1, |chunk|), chunk)
  }

  /** The first n sealed content records. */
  function SealedContent(c: Crypto, keys: Keys, header: seq<byte>, noncePrefix: seq<byte>, content: seq<byte>, n: nat)
    : seq<byte>
    requires n * CHUNK_SIZE < |content| + CHUNK_SIZE
  {
    if n == 0 then []
    else
      SealedContent(c, keys, header, noncePrefix, content, n - 1)
      + Seal(c, ContentCall(keys, header, noncePrefix, content, n - 1))
  }

  /** The v1 container for given randomness and metadata record. */
  function Container(c: Crypto, rootKey: seq<byte>, salt: seq<byte>, noncePrefix: seq<byte>,
                     padded: seq<byte>, content: seq<byte>): seq<byte>
    requires SupportedSize(|content|)
  {
    var keys := DeriveKeys(c, rootKey, salt);
    var header := Header(salt, noncePrefix, keys.commitment);
    header + Seal(c, MetadataCall(keys, header, noncePrefix, padded))
    + SealedContent(c, keys, header, noncePrefix, content, Records(|content|))
  }

  function FileMetadata(file: File): Metadata {
    Metadata(file.name, file.mime, |file.content|)
  }

  /** encryptFile as a function of the file and the random bytes drawn. */
  function Encrypt(c: Crypto, file: File, r: Randomness): Result<Encrypted, E2eeError>
    requires r.Sized()
  {
    if !SupportedSize(|file.content|) then Err(FormatError)
    else
      match EncodeMetadata(c, FileMetadata(file), r.padding)
      case Err(e) => Err(e)
      case Ok(padded) =>
        Ok(Encrypted(Container(c, r.rootKey, r.salt, r.noncePrefix, padded, file.content),
                     EncodeKeyToken(r.rootKey).value))
  }

  /** new Blob(parts). */
  function Blob(parts: seq<seq<byte>>): seq<byte> {
    if parts == [] then [] else Blob(parts[..|parts| - 1]) + parts[|parts| - 1]
  }

  lemma BlobPush(parts: seq<seq<byte>>, part: seq<byte>)
    ensures Blob(parts + [part]) == Blob(parts) + part
  {
    assert (parts + [part])[..|parts|] == parts;
  }

  /** One turn of the content loop of encryptFile. */
  method SealRecord(c: Crypto, keys: Keys, header: seq<byte>, noncePrefix: seq<byte>, content: seq<byte>, index: nat)
    returns (ciphertext: seq<byte>)
    requires |noncePrefix| == NONCE_PREFIX_LENGTH
    requires index * CHUNK_SIZE <= |content| && index < MAX_COUNTER
    ensures ciphertext == Seal(c, ContentCall(keys, header, noncePrefix, content, index))
  {
    var start := index * CHUNK_SIZE;
    var end := if start + CHUNK_SIZE <= |content| then start + CHUNK_SIZE else |content|;
    var plaintext := content[start..end];
    var params := AesGcm(header, noncePrefix, RECORD_TYPE_CONTENT, index + 1, |plaintext|);
    ciphertext := c.seal(keys.content, params.value.nonce, params.value.additionalData, plaintext);
  }

  /** The content loop of encryptFile: one sealed record per chunk is pushed onto the parts. */
  method SealContent(c: Crypto, keys: Keys, header: seq<byte>, noncePrefix: seq<byte>, content: seq<byte>,
                     before: seq<seq<byte>>) returns (parts: seq<seq<byte>>)
    requires SupportedSize(|content|) && |noncePrefix| == NONCE_PREFIX_LENGTH
    ensures Blob(parts) == Blob(before)
         + SealedContent(c, keys, header, noncePrefix, content, Records(|content|))
  {
    var records := Records(|content|);
    parts := before;
    for index := 0 to records
      invariant Blob(parts) == Blob(before) + SealedContent(c, keys, header, noncePrefix, content, index)
    {
      var ciphertext := SealRecord(c, keys, header, noncePrefix, content, index);
      BlobPush(parts, ciphertext);
      parts := parts + [ciphertext];
    }
  }

  /** encryptFile: header, sealed metadata, then the sealed chunks, joined into one blob. */
  method EncryptFile(c: Crypto, file: File, r: Randomness) returns (result: Result<Encrypted, E2eeError>)
    requires r.Sized() && |c.derive(r.rootKey, r.salt, COMMIT_INFO)| == KEY_COMMITMENT_LENGTH
    ensures result == Encrypt(c, file, r)
  {
    if !SupportedSize(|file.content|) {
      return Err(FormatError);
    }
    var keys := DeriveKeys(c, r.rootKey, r.salt);
    var headerBuffer := BuildHeader(r.salt, r.noncePrefix, keys.commitment);
    var header := headerBuffer[..];
    var encoded := EncodeMetadata(c, FileMetadata(file), r.padding);
    if encoded.Err? {
      return Err(encoded.error);
    }
    var metadata := encoded.value;
    var params := AesGcm(header, r.noncePrefix, RECORD_TYPE_METADATA, 0, |metadata|);
    var encryptedMetadata := c.seal(keys.metadata, params.value.nonce, params.value.additionalData, metadata);
    var parts := [header, encryptedMetadata];
    assert Blob(parts) == header + encryptedMetadata by {
      BlobPush([], header);
      BlobPush([header], encryptedMetadata);
    }
    parts := SealContent(c, keys, header, r.noncePrefix, file.content, parts);
    return Ok(Encrypted(Blob(parts), EncodeKeyToken(r.rootKey).value));
  }

  // Decryption.

  function RecordLength(size: nat, index: nat): nat
    requires index * CHUNK_SIZE <= size
  {
    if CHUNK_SIZE <= size - index * CHUNK_SIZE then CHUNK_SIZE else size - index * CHUNK_SIZE
  }

  /** Where content record `index` starts. */
  function RecordOffset(index: nat): nat {
    METADATA_END + index * (CHUNK_SIZE + TAG_LENGTH)
  }

  function ExpectedSize(size: int): nat
    requires SupportedSize(size)
  {
    METADATA_END + size + Records(size) * TAG_LENGTH
  }

  /** Opens content record `index` where the size places it. */
  function OpenRecord(c: Crypto, keys: Keys, header: seq<byte>, noncePrefix: seq<byte>,
                      container: seq<byte>, size: int, index: nat): Result<seq<byte>, E2eeError>
    requires SupportedSize(size) && index < Records(size) && |container| == ExpectedSize(size)
  {
    var length := RecordLength(size, index);
    match AesGcm(header, noncePrefix, RECORD_TYPE_CONTENT, index + 1, length)
    case Err(_) => Err(AuthenticationError)
    case Ok(p) =>
      var record := container[RecordOffset(index)..RecordOffset(index) + length + TAG_LENGTH];
      match c.unseal(keys.content, p.nonce, p.additionalData, record)
      case None => Err(AuthenticationError)
      case Some(plaintext) => Ok(plaintext)
  }

  /** The plaintext of the first n records, or the first failure. */
  function OpenRecords(c: Crypto, keys: Keys, header: seq<byte>, noncePrefix: seq<byte>,
                       container: seq<byte>, size: int, n: nat): Result<seq<byte>, E2eeError>
    requires SupportedSize(size) && n <= Records(size) && |container| == ExpectedSize(size)
  {
    if n == 0 then Ok([])
    else
      match OpenRecords(c, keys, header, noncePrefix, container, size, n - 1)
      case Err(e) => Err(e)
      case Ok(plaintext) =>
        match OpenRecord(c, keys, header, noncePrefix, container, size, n - 1)
        case Err(e) => Err(e)
        case Ok(record) => Ok(plaintext + record)
  }

  /** The metadata record, opened and decoded. */
  function OpenMetadata(c: Crypto, keys: Keys, header: seq<byte>, noncePrefix: seq<byte>, container: seq<byte>)
    : Result<Metadata, E2eeError>
    requires |container| >= METADATA_END
  {
    match AesGcm(header, noncePrefix, RECORD_TYPE_METADATA, 0, METADATA_PLAINTEXT_LENGTH)
    case Err(_) => Err(AuthenticationError)
    case Ok(p) =>
      match c.unseal(keys.metadata, p.nonce, p.additionalData, container[HEADER_LENGTH..METADATA_END])
      case None => Err(AuthenticationError)
      case Some(padded) => DecodeMetadata(c, padded)
  }

  function BlobType(metadata: Metadata): string {
    if metadata.mime == "" then "application/octet-stream" else metadata.mime
  }

  function Decrypt(c: Crypto, container: seq<byte>, keyToken: string): Result<Decrypted, E2eeError> {
    if |container| < METADATA_END then Err(FormatError)
    else
      match DecodeKeyToken(keyToken)
      case Err(e) => Err(e)
      case Ok((version, rootKey)) =>
        var header := container[..HEADER_LENGTH];
        match ParseHeader(header)
        case Err(e) => Err(e)
        case Ok(parsed) =>
          var keys := DeriveKeys(c, rootKey, parsed.salt);
          if version != parsed.version then Err(KeyError)
          else if keys.commitment != parsed.keyCommitment then Err(AuthenticationError)
          else
            match OpenMetadata(c, keys, header, parsed.noncePrefix, container)
            case Err(e) => Err(e)
            case Ok(metadata) =>
              if !SupportedSize(metadata.size) then Err(FormatError)
              else if |container| != ExpectedSize(metadata.size) then Err(FormatError)
              else
                match OpenRecords(c, keys, header, parsed.noncePrefix, container, metadata.size, Records(metadata.size))
                case Err(e) => Err(e)
                case Ok(plaintext) => Ok(Decrypted(plaintext, BlobType(metadata), metadata))
  }

  /** Once a record fails, so does every longer prefix. */
  lemma {:induction false} FailureSticks(c: Crypto, keys: Keys, header: seq<byte>, noncePrefix: seq<byte>,
                                         container: seq<byte>, size: int, n: nat, m: nat)
    requires SupportedSize(size) && n <= m <= Records(size) && |container| == ExpectedSize(size)
    requires OpenRecords(c, keys, header, noncePrefix, container, size, n).Err?
    ensures OpenRecords(c, keys, header, noncePrefix, container, size, m)
         == OpenRecords(c, keys, header, noncePrefix, container, size, n)
  {
    if n < m {
      FailureSticks(c, keys, header, noncePrefix, container, size, n, m - 1);
    }
  }

  /** One turn of the content loop of decryptContainer, reading at the running offset. */
  method OpenAt(c: Crypto, keys: Keys, header: seq<byte>, noncePrefix: seq<byte>,
                container: seq<byte>, size: int, index: nat, offset: nat)
    returns (record: Result<seq<byte>, E2eeError>, next: nat)
    requires SupportedSize(size) && index < Records(size) && |container| == ExpectedSize(size)
    requires offset == RecordOffset(index)
    ensures record == OpenRecord(c, keys, header, noncePrefix, container, size, index)
    ensures index + 1 < Records(size) ==> next == RecordOffset(index + 1)
  {
    var plaintextLength := RecordLength(size, index);
    var ciphertextLength := plaintextLength + TAG_LENGTH;
    next := offset + ciphertextLength;
    var encryptedRecord := container[offset..next];
    var params := AesGcm(header, noncePrefix, RECORD_TYPE_CONTENT, index + 1, plaintextLength);
    if params.Err? {
      return Err(AuthenticationError), next;
    }
    var plaintext := c.unseal(keys.content, params.value.nonce, params.value.additionalData, encryptedRecord);
    record := if plaintext.None? then Err(AuthenticationError) else Ok(plaintext.value);
  }

  /** The content loop of decryptContainer: `offset` advances by the length of each opened record. */
  method OpenContent(c: Crypto, keys: Keys, header: seq<byte>, noncePrefix: seq<byte>,
                     container: seq<byte>, size: int) returns (result: Result<seq<byte>, E2eeError>)
    requires SupportedSize(size) && |container| == ExpectedSize(size)
    ensures result == OpenRecords(c, keys, header, noncePrefix, container, size, Records(size))
  {
    var records := Records(size);
    var parts: seq<seq<byte>> := [];
    var offset := METADATA_END;
    for index := 0 to records
      invariant index < records ==> offset == RecordOffset(index)
      invariant OpenRecords(c, keys, header, noncePrefix, container, size, index) == Ok(Blob(parts))
    {
      var record, next := OpenAt(c, keys, header, noncePrefix, container, size, index, offset);
      if record.Err? {
        FailureSticks(c, keys, header, noncePrefix, container, size, index + 1, records);
        return Err(record.error);
      }
      BlobPush(parts, record.value);
      parts := parts + [record.value];
      offset := next;
    }
    return Ok(Blob(parts));
  }

  method DecryptContainer(c: Crypto, container: seq<byte>, keyToken: string)
    returns (result: Result<Decrypted, E2eeError>)
    ensures result == Decrypt(c, container, keyToken)
  {
    if |container| < HEADER_LENGTH + METADATA_CIPHERTEXT_LENGTH {
      return Err(FormatError);
    }
    var token := DecodeKeyToken(keyToken);
    if token.Err? {
      return Err(token.error);
    }
    var header := container[..HEADER_LENGTH];
    var parsedHeader := ParseHeader(header);
    if parsedHeader.Err? {
      return Err(parsedHeader.error);
    }
    var parsed := parsedHeader.value;
    if token.value.0 != parsed.version {
      return Err(KeyError);
    }
    var keys := DeriveKeys(c, token.value.1, parsed.salt);
    if keys.commitment != parsed.keyCommitment {
      return Err(AuthenticationError);
    }
    var metadata := OpenMetadata(c, keys, header, parsed.noncePrefix, container);
    if metadata.Err? {
      return Err(metadata.error);
    }
    if !SupportedSize(metadata.value.size) || |container| != ExpectedSize(metadata.value.size) {
      return Err(FormatError);
    }
    var plaintext := OpenContent(c, keys, header, parsed.noncePrefix, container, metadata.value.size);
    if plaintext.Err? {
      return Err(plaintext.error);
    }
    return Ok(Decrypted(plaintext.value, BlobType(metadata.value), metadata.value));
  }
}
