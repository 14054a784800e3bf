/** The server's view of a client-encrypted upload: size limit, form field and header check. */
module ServerCheck {
  import opened Wrappers
  import opened Bytes
  import opened Decimal
  import opened KeyToken
  import opened ContainerFormat
  import opened ContainerCodec
  import opened ContainerTheorems

  const VERSION_V1 := 1
  // The header length the server assumes; it leaves out the 32-byte key commitment.
  const SERVER_HEADER_SIZE := 8 + 1 + 1 + 4 + 16 + 8
  const MINIMUM_V1_CIPHERTEXT_SIZE := SERVER_HEADER_SIZE + 4096 + 16

  datatype HeaderError = TooShort | ReadFailed | BadMagic | BadVersion | BadFlags | BadChunkSize

  /** clientencryption.MaxCiphertextSize, in int64 arithmetic. */
  function MaxCiphertextSize(maxPlaintextSize: int): int {
    var records := TruncDiv(Wrap64(maxPlaintextSize + CHUNK_SIZE - 1), CHUNK_SIZE);
    Wrap64(Wrap64(maxPlaintextSize + MINIMUM_V1_CIPHERTEXT_SIZE) + Wrap64(records * 16))
  }

  /** The limit Upload computes from e2ee.max_file_size_mb. */
  function CiphertextLimit(maxFileSizeMB: int): int {
    MaxCiphertextSize(Wrap64(Wrap64(maxFileSizeMB * 1024) * 1024))
  }

  /** validateFileSize does not return an error. */
  predicate WithinLimit(size: int, maxSizeBytes: int) {
    size <= maxSizeBytes
  }

  datatype VersionError = UnsupportedVersion | E2eeDisabled

  /** parseClientEncryptionVersion. */
  function ClientEncryptionVersion(value: string, e2eeEnabled: bool): Result<int, VersionError> {
    if value == "" || value == "0" then Ok(0)
    else if ParseInt(value) != Some(VERSION_V1) then Err(UnsupportedVersion)
    else if !e2eeEnabled then Err(E2eeDisabled)
    else Ok(VERSION_V1)
  }

  /** What ValidateV1Header answers for `unread`, the bytes from the reader's position on. */
  function V1Verdict(unread: seq<byte>, size: int): Result<(), HeaderError> {
    if size < MINIMUM_V1_CIPHERTEXT_SIZE then Err(TooShort)
    else if |unread| < SERVER_HEADER_SIZE then Err(ReadFailed)
    else if unread[..VERSION_OFFSET] != MAGIC then Err(BadMagic)
    else if unread[VERSION_OFFSET] != VERSION_V1 then Err(BadVersion)
    else if unread[FLAGS_OFFSET] != 0 then Err(BadFlags)
    else if DecodeU32(unread[CHUNK_SIZE_OFFSET..SALT_OFFSET]) != CHUNK_SIZE then Err(BadChunkSize)
    else Ok(())
  }

  /** A seekable upload: multipart.File. */
  class ReadSeeker {
    const content: seq<byte>
    var position: nat

    constructor (content: seq<byte>)
      ensures this.content == content && position == 0
    {
      this.content := content;
      position := 0;
    }

    ghost predicate Valid()
      reads this
    {
      position <= |content|
    }

    /** io.ReadFull into a buffer of n bytes. */
    method ReadFull(n: nat) returns (bytes: Option<seq<byte>>)
      requires Valid()
      modifies this
      ensures Valid()
      ensures old(position) + n <= |content| ==>
                bytes == Some(content[old(position)..old(position) + n]) && position == old(position) + n
      ensures old(position) + n > |content| ==> bytes == None && position == |content|
    {
      if position + n > |content| {
        position := |content|;
        return None;
      }
      bytes := Some(content[position..position + n]);
      position := position + n;
    }

    method SeekStart()
      modifies this
      ensures Valid() && position == 0
    {
      position := 0;
    }
  }

  method ValidateV1Header(reader: ReadSeeker, size: int) returns (verdict: Result<(), HeaderError>)
    requires reader.Valid()
    modifies reader
    ensures reader.Valid()
    ensures verdict == V1Verdict(old(reader.content[reader.position..]), size)
    ensures verdict.Ok? ==> reader.position == 0
  {
    if size < MINIMUM_V1_CIPHERTEXT_SIZE {
      return Err(TooShort);
    }
    ghost var unread := reader.content[reader.position..];
    var header := reader.ReadFull(SERVER_HEADER_SIZE);
    if header.None? {
      return Err(ReadFailed);
    }
    reader.SeekStart();
    var bytes := header.value;
    assert bytes == unread[..SERVER_HEADER_SIZE];
    if bytes[..VERSION_OFFSET] != MAGIC {
      return Err(BadMagic);
    }
    if bytes[VERSION_OFFSET] != VERSION_V1 {
      return Err(BadVersion);
    }
    if bytes[FLAGS_OFFSET] != 0 {
      return Err(BadFlags);
    }
    assert bytes[CHUNK_SIZE_OFFSET..SALT_OFFSET] == unread[CHUNK_SIZE_OFFSET..SALT_OFFSET];
    if DecodeU32(bytes[CHUNK_SIZE_OFFSET..SALT_OFFSET]) != CHUNK_SIZE {
      return Err(BadChunkSize);
    }
    return Ok(());
  }

  /** On anything long enough to be a container, the server's check and the browser's parser agree. */
  lemma ServerAgreesWithParser(container: seq<byte>)
    requires |container| >= METADATA_END
    ensures V1Verdict(container, |container|).Ok? <==> ParseHeader(container[..HEADER_LENGTH]).Ok?
  {
    var header := container[..HEADER_LENGTH];
    assert header[..VERSION_OFFSET] == container[..VERSION_OFFSET];
    assert header[CHUNK_SIZE_OFFSET..SALT_OFFSET] == container[CHUNK_SIZE_OFFSET..SALT_OFFSET];
  }

  /** Every container decryptContainer accepts, and so every one encryptFile makes, passes the header check. */
  lemma ServerAcceptsBrowserContainers(c: Crypto, container: seq<byte>, keyToken: string)
    requires Decrypt(c, container, keyToken).Ok?
    ensures V1Verdict(container, |container|) == Ok(())
  {
    ServerAgreesWithParser(container);
  }

  /** In the range where nothing overflows, the server's formula is 32 bytes short of the browser's. */
  lemma ServerFormulaIs32Short(size: int)
    requires SupportedSize(size)
    ensures MaxEncryptedContainerSize(size) == Ok(MaxCiphertextSize(size) + 32)
  {
  }

  lemma LimitInBytes(maxFileSizeMB: int)
    requires 1 <= maxFileSizeMB
    requires maxFileSizeMB * CHUNK_SIZE + MINIMUM_V1_CIPHERTEXT_SIZE + maxFileSizeMB * 16 <= MAX_INT64
    ensures CiphertextLimit(maxFileSizeMB)
         == maxFileSizeMB * CHUNK_SIZE + MINIMUM_V1_CIPHERTEXT_SIZE + maxFileSizeMB * 16
  {
    var limit := maxFileSizeMB * CHUNK_SIZE;
    assert Wrap64(Wrap64(maxFileSizeMB * 1024) * 1024) == limit;
    assert TruncDiv(limit + CHUNK_SIZE - 1, CHUNK_SIZE) == maxFileSizeMB;
  }

  /**
   For a limit of L whole MiB the size check admits the container of a supported file exactly when the
   file is at least 32 bytes smaller than L.
   */
  lemma ServerAdmitsExactly(maxFileSizeMB: int, size: int)
    requires 1 <= maxFileSizeMB
    requires maxFileSizeMB * CHUNK_SIZE + MINIMUM_V1_CIPHERTEXT_SIZE + maxFileSizeMB * 16 <= MAX_INT64
    requires SupportedSize(size)
    ensures WithinLimit(MaxEncryptedContainerSize(size).value, CiphertextLimit(maxFileSizeMB))
       <==> size <= maxFileSizeMB * 1_048_576 - 32
  {
    var limit := maxFileSizeMB * CHUNK_SIZE;
    LimitInBytes(maxFileSizeMB);
    SizeFormulas(size);
    RecordsAgainstLimit(maxFileSizeMB, size);
    assert MaxEncryptedContainerSize(size).value == METADATA_END + size + Records(size) * 16;
  }

  lemma RecordsAgainstLimit(maxFileSizeMB: int, size: int)
    requires SupportedSize(size)
    ensures size <= maxFileSizeMB * CHUNK_SIZE ==> Records(size) <= maxFileSizeMB
    ensures size > maxFileSizeMB * CHUNK_SIZE - 32 ==> Records(size) >= maxFileSizeMB
  {
  }

  /** The documented limit itself is refused: a file of exactly L MiB does not fit the server's bound. */
  lemma FileAtTheLimitIsRefused(maxFileSizeMB: int)
    requires 1 <= maxFileSizeMB <= MAX_COUNTER
    ensures !WithinLimit(MaxEncryptedContainerSize(maxFileSizeMB * CHUNK_SIZE).value, CiphertextLimit(maxFileSizeMB))
  {
    ServerAdmitsExactly(maxFileSizeMB, maxFileSizeMB * CHUNK_SIZE);
  }

  /** The server's check in numbers: a long enough upload that starts with the format's first 14 bytes. */
  lemma V1AcceptsIff(unread: seq<byte>, size: int)
    ensures V1Verdict(unread, size) == Ok(()) <==>
              && size >= 4_150 && |unread| >= 38
              && unread[..8] == [73, 83, 82, 86, 45, 69, 50, 69] && unread[8] == 1 && unread[9] == 0
              && unread[10..14] == [0, 16, 0, 0]
  {
    if |unread| >= 38 {
      U32BigEndian(1_048_576);
      U32Canonical(unread[10..14]);
      U32RoundTrip(1_048_576);
    }
  }

  /** The version an accepted field denotes: none for an empty text or "0", the first otherwise. */
  lemma VersionOfField(value: string, enabled: bool)
    requires ClientEncryptionVersion(value, enabled).Ok?
    ensures ClientEncryptionVersion(value, enabled) == Ok(if value == "" || value == "0" then 0 else 1)
  {
  }
}
