/** The Upload handler from form to stores, and a file's whole way from one browser to another. */
module UploadHandler {
  import opened Wrappers
  import opened Bytes
  import opened Decimal
  import opened KeyToken
  import opened ContainerFormat
  import opened ContainerCodec
  import opened ContainerTheorems
  import opened ServerCheck
  import opened FileStores
  import opened Lifecycle
  import Download
  import Expiry

  // The clientEncryptionVersion field.

  predicate ZerosThenOne(s: string) {
    s != "" && (s == "1" || (s[0] == '0' && ZerosThenOne(s[1..])))
  }

  lemma {:induction false} OneIsZerosThenOne(s: string)
    requires AllDigits(s)
    ensures ZerosThenOne(s) <==> NatOf(s) == 1
    decreases s
  {
    if |s| == 1 {
      assert s[..0] == "";
      assert s == [s[0]];
    } else if |s| > 1 {
      OneIsZerosThenOne(s[1..]);
      LeadingDigit(s);
      if s[0] != '0' {
        assert DigitValue(s[0]) >= 1;
      }
    }
  }

  function Pow10(n: nat): (p: nat)
    ensures p >= 1 && (n > 0 ==> p >= 10)
  {
    if n == 0 then 1 else 10 * Pow10(n - 1)
  }

  lemma TimesTen(d: nat, p: nat)
    ensures d * (10 * p) == d * p * 10
  {
  }

  lemma {:induction false} LeadingDigit(s: string)
    requires s != "" && AllDigits(s)
    ensures NatOf(s) == DigitValue(s[0]) * Pow10(|s| - 1) + NatOf(s[1..])
    ensures DigitValue(s[0]) == 0 || DigitValue(s[0]) * Pow10(|s| - 1) >= Pow10(|s| - 1)
    decreases s
  {
    var front := s[..|s| - 1];
    if |s| == 1 {
      assert front == "" && s[1..] == "";
    } else {
      LeadingDigit(front);
      assert s[1..][..|s| - 2] == front[1..];
      TimesTen(DigitValue(s[0]), Pow10(|s| - 2));
    }
  }

  /** Accepted are exactly the empty value, 0, and (with the feature on) any signless or plus-signed spelling of 1. */
  lemma ClientVersionAccepted(value: string, enabled: bool)
    ensures ClientEncryptionVersion(value, enabled).Ok? <==>
              || value == "" || value == "0"
              || (enabled && (ZerosThenOne(value) || (value != "" && value[0] == '+' && ZerosThenOne(value[1..]))))
  {
    if value != "" {
      ZerosThenOneDigits(value);
      ZerosThenOneDigits(value[1..]);
      if AllDigits(value) {
        OneIsZerosThenOne(value);
      }
      if AllDigits(value[1..]) {
        OneIsZerosThenOne(value[1..]);
      }
    }
  }

  lemma {:induction false} ZerosThenOneDigits(s: string)
    ensures ZerosThenOne(s) ==> AllDigits(s)
    decreases s
  {
    if s != "" && s != "1" {
      ZerosThenOneDigits(s[1..]);
      assert forall i :: 1 <= i < |s| ==> s[i] == s[1..][i - 1];
    }
  }

  // The handler.

  datatype Form = Form(file: Option<Data>, version: string, expires: string)

  datatype Setup = Setup(
    maxFileSizeMB: int, ages: Expiry.Ages, e2eeEnabled: bool, e2eeMaxFileSizeMB: int,
    encrypts: bool, enc: Option<Age>)

  datatype Reply = BadRequest | TooLarge | InternalError | Uploaded(id: Id)

  /** The limit a file of this client-encryption version is held to. */
  function SizeLimit(setup: Setup, version: int): int {
    if version > 0 then CiphertextLimit(setup.e2eeMaxFileSizeMB)
    else Wrap64(Wrap64(setup.maxFileSizeMB * 1024) * 1024)
  }

  /** The checks before anything is stored: the client-encryption version, or the refusal. */
  function Admission(setup: Setup, form: Form): Result<int, Reply> {
    if form.file.None? then Err(BadRequest)
    else
      match ClientEncryptionVersion(form.version, setup.e2eeEnabled)
      case Err(_) => Err(BadRequest)
      case Ok(version) =>
        if !WithinLimit(|form.file.value|, SizeLimit(setup, version)) then Err(TooLarge)
        else if version == VERSION_V1 && V1Verdict(form.file.value, |form.file.value|).Err? then Err(BadRequest)
        else Ok(version)
  }

  /** One call's surroundings: the fresh ID, the clock at two readings, the age file key, the store outcomes. */
  datatype Circumstances = Circumstances(id: Id, now: int, later: int, salt: nat, outcomes: Outcomes)

  /** What an admitted form asks processUpload to store: the whole file, at its own size. */
  function AdmittedUpload(setup: Setup, form: Form, version: int, at: Circumstances): Upload
    requires form.file.Some? && setup.ages.Valid()
  {
    Upload(form.file.value, version,
           Expiry.UploadExpiration(setup.ages, |form.file.value|, form.expires, at.now, at.later),
           setup.encrypts, at.salt)
  }

  /** What the handler answers and leaves in both stores. */
  function HandleIn(blobs: Blobs, rows: Rows, setup: Setup, form: Form, at: Circumstances): (Reply, Blobs, Rows)
    requires setup.ages.Valid()
  {
    match Admission(setup, form)
    case Err(refusal) => (refusal, blobs, rows)
    case Ok(version) =>
      var u := AdmittedUpload(setup, form, version, at);
      var (r, blobs', rows') := UploadIn(blobs, rows, setup.enc, at.id, u, at.outcomes);
      (if r.Ok? then Uploaded(at.id) else InternalError, blobs', rows')
  }

  method HandleUpload(s: Stores, setup: Setup, form: Form, at: Circumstances) returns (reply: Reply)
    requires setup.ages.Valid()
    modifies s
    ensures (reply, s.blobs, s.rows) == HandleIn(old(s.blobs), old(s.rows), setup, form, at)
  {
    if form.file.None? {
      return BadRequest;
    }
    var size := |form.file.value|;
    var version := ClientEncryptionVersion(form.version, setup.e2eeEnabled);
    if version.Err? {
      return BadRequest;
    }
    var maxSizeBytes := Wrap64(Wrap64(setup.maxFileSizeMB * 1024) * 1024);
    if version.value > 0 {
      maxSizeBytes := MaxCiphertextSize(Wrap64(Wrap64(setup.e2eeMaxFileSizeMB * 1024) * 1024));
    }
    if size > maxSizeBytes {
      return TooLarge;
    }
    var file := new ReadSeeker(form.file.value);
    assert file.content[0..] == file.content;
    if version.value == VERSION_V1 {
      var verdict := ValidateV1Header(file, size);
      if verdict.Err? {
        return BadRequest;
      }
    }
    var expiration := Expiry.UploadExpiration(setup.ages, size, form.expires, at.now, at.later);
    var rest := file.content[file.position..];
    var upload := Upload(rest, version.value, expiration, setup.encrypts, at.salt);
    var r := ProcessUpload(s, setup.enc, at.id, upload, at.outcomes);
    reply := if r.Ok? then Uploaded(at.id) else InternalError;
  }

  /**
   Every size the handler admits, also of a container above the maximum file size, has an age that fits, so
   its expiration is bounded (Expiry.ExpirationsBounded).
   */
  lemma AdmittedAgeFits(setup: Setup, form: Form)
    requires Admission(setup, form).Ok?
    requires Expiry.Representable(setup.ages) && setup.ages.minAge >= 0
    requires setup.maxFileSizeMB >= 1 && setup.ages.maxSize == setup.maxFileSizeMB * CHUNK_SIZE
    requires setup.e2eeEnabled ==> 1 <= setup.e2eeMaxFileSizeMB <= setup.maxFileSizeMB
    requires setup.maxFileSizeMB * (CHUNK_SIZE + 16) + MINIMUM_V1_CIPHERTEXT_SIZE <= MAX_INT64
    ensures Expiry.AgeFits(setup.ages, |form.file.value|)
  {
    var version := Admission(setup, form).value;
    if version > 0 {
      ContainerWithinTwice(setup.e2eeMaxFileSizeMB, setup.maxFileSizeMB, |form.file.value|);
    } else {
      MegabytesFit(setup.maxFileSizeMB);
    }
    Expiry.AgeFitsUpToTwice(setup.ages, |form.file.value|);
  }

  lemma MegabytesFit(mb: int)
    requires 0 <= mb && mb * CHUNK_SIZE <= MAX_INT64
    ensures Wrap64(Wrap64(mb * 1024) * 1024) == mb * CHUNK_SIZE
  {
  }

  lemma ContainerWithinTwice(e2eeMB: int, maxMB: int, size: int)
    requires 1 <= e2eeMB <= maxMB && maxMB * (CHUNK_SIZE + 16) + MINIMUM_V1_CIPHERTEXT_SIZE <= MAX_INT64
    requires WithinLimit(size, CiphertextLimit(e2eeMB))
    ensures size <= 2 * (maxMB * CHUNK_SIZE)
  {
    SmallerLimit(e2eeMB, maxMB);
    LimitInBytes(e2eeMB);
    TwiceIsEnough(e2eeMB, maxMB, CiphertextLimit(e2eeMB));
  }

  lemma SmallerLimit(e2eeMB: int, maxMB: int)
    requires 1 <= e2eeMB <= maxMB && maxMB * (CHUNK_SIZE + 16) + MINIMUM_V1_CIPHERTEXT_SIZE <= MAX_INT64
    ensures e2eeMB * CHUNK_SIZE + MINIMUM_V1_CIPHERTEXT_SIZE + e2eeMB * 16 <= MAX_INT64
  {
  }

  lemma TwiceIsEnough(e2eeMB: int, maxMB: int, limit: int)
    requires 1 <= e2eeMB <= maxMB && limit == e2eeMB * CHUNK_SIZE + MINIMUM_V1_CIPHERTEXT_SIZE + e2eeMB * 16
    ensures limit <= 2 * (maxMB * CHUNK_SIZE)
  {
  }

  // What is admitted and what is stored, spelled out.

  lemma ZeroVersions(value: string, enabled: bool)
    requires value == "" || value == "0"
    ensures ClientEncryptionVersion(value, enabled) == Ok(0)
  {
  }

  /** An ordinary upload is admitted up to the configured number of 2^20 bytes and too large beyond. */
  lemma PlainAdmission(setup: Setup, file: Data, version: string, expires: string)
    requires version == "" || version == "0"
    requires 1 <= setup.maxFileSizeMB && setup.maxFileSizeMB * 1_048_576 <= MAX_INT64
    ensures Admission(setup, Form(Some(file), version, expires))
         == if |file| <= setup.maxFileSizeMB * 1_048_576 then Ok(0) else Err(TooLarge)
  {
    ZeroVersions(version, setup.e2eeEnabled);
    MegabytesFit(setup.maxFileSizeMB);
  }

  /** An encrypted one up to the formula of the header check, and only if it starts like a container. */
  lemma ContainerAdmission(setup: Setup, file: Data, version: string, expires: string)
    requires setup.e2eeEnabled && ZerosThenOne(version) && 1 <= setup.e2eeMaxFileSizeMB <= MAX_COUNTER
    ensures Admission(setup, Form(Some(file), version, expires))
         == if |file| > setup.e2eeMaxFileSizeMB * 1_048_576 + 4_150 + setup.e2eeMaxFileSizeMB * 16 then Err(TooLarge)
            else if |file| >= 4_150 && file[..8] == [73, 83, 82, 86, 45, 69, 50, 69] && file[8] == 1 && file[9] == 0
                    && file[10..14] == [0, 16, 0, 0]
            then Ok(1) else Err(BadRequest)
  {
    ZerosThenOneDigits(version);
    OneIsZerosThenOne(version);
    DigitsParse(version);
    assert ClientEncryptionVersion(version, true) == Ok(1);
    LimitInBytes(setup.e2eeMaxFileSizeMB);
    V1AcceptsIff(file, |file|);
  }

  /** No file, or a version the server does not know or has switched off. */
  lemma OtherFormsRefused(setup: Setup, form: Form)
    ensures form.file.None? ==> Admission(setup, form) == Err(BadRequest)
    ensures !(form.version == "" || form.version == "0"
              || (setup.e2eeEnabled
                  && (ZerosThenOne(form.version)
                      || (form.version != "" && form.version[0] == '+' && ZerosThenOne(form.version[1..])))))
            ==> Admission(setup, form) == Err(BadRequest)
  {
    ClientVersionAccepted(form.version, setup.e2eeEnabled);
  }

  /** A refused form changes nothing; an admitted one is answered with its ID exactly when every call succeeded. */
  lemma Replies(blobs: Blobs, rows: Rows, setup: Setup, form: Form, at: Circumstances)
    requires setup.ages.Valid()
    ensures var (reply, blobs', rows') := HandleIn(blobs, rows, setup, form, at);
            && (Admission(setup, form).Err? ==>
                 reply == Admission(setup, form).error && blobs' == blobs && rows' == rows)
            && (Admission(setup, form).Ok? ==>
                 reply == if (setup.encrypts ==> setup.enc.Some?) && at.outcomes.save == Saved
                             && at.outcomes.insert == Done
                          then Uploaded(at.id) else InternalError)
  {
  }

  /** An ordinary upload whose store calls succeed leaves the posted bytes and a row of their length. */
  lemma PlainUploadStored(blobs: Blobs, rows: Rows, setup: Setup, file: Data, version: string, expires: string,
                          at: Circumstances)
    requires setup.ages.Valid() && (version == "" || version == "0")
    requires 1 <= setup.maxFileSizeMB && setup.maxFileSizeMB * 1_048_576 <= MAX_INT64
    requires |file| <= setup.maxFileSizeMB * 1_048_576
    requires at.outcomes.save == Saved && at.outcomes.insert == Done && (setup.encrypts ==> setup.enc.Some?)
    ensures var (reply, blobs', rows') := HandleIn(blobs, rows, setup, Form(Some(file), version, expires), at);
            && reply == Uploaded(at.id)
            && blobs' == blobs[at.id := if setup.encrypts then setup.enc.value.wrap(file, at.salt) else file]
            && rows'.Keys == rows.Keys + {at.id} && (forall id :: id in rows && id != at.id ==> rows'[id] == rows[id])
            && rows'[at.id].size == |file| && rows'[at.id].clientVersion == 0
            && rows'[at.id].encVersion == (if setup.encrypts then 1 else 0)
            && rows'[at.id].expiration == Expiry.UploadExpiration(setup.ages, |file|, expires, at.now, at.later)
  {
    PlainAdmission(setup, file, version, expires);
    UploadStores(blobs, rows, setup.enc, at.id,
                 AdmittedUpload(setup, Form(Some(file), version, expires), 0, at), at.outcomes);
  }

  // From browser to browser.

  lemma OneIsAccepted()
    ensures ClientEncryptionVersion("1", true) == Ok(1)
  {
    assert "1"[..0] == "";
    assert NatOf("1") == 1;
    DigitsParse("1");
  }

  lemma SizedAdmitted(setup: Setup, container: Data, size: int, expires: string)
    requires setup.e2eeEnabled && V1Verdict(container, |container|) == Ok(())
    requires 1 <= setup.e2eeMaxFileSizeMB <= MAX_COUNTER
    requires SupportedSize(size) && MaxEncryptedContainerSize(size) == Ok(|container|)
    ensures Admission(setup, Form(Some(container), "1", expires)) == Ok(1)
       <==> size <= setup.e2eeMaxFileSizeMB * CHUNK_SIZE - 32
  {
    OneIsAccepted();
    ServerAdmitsExactly(setup.e2eeMaxFileSizeMB, size);
  }

  lemma EncryptedForServer(c: Crypto, file: File, r: Randomness)
    requires c.Lawful() && r.Sized() && Encrypt(c, file, r).Ok?
    ensures var container := Encrypt(c, file, r).value.ciphertext;
            && V1Verdict(container, |container|) == Ok(())
            && SupportedSize(|file.content|) && MaxEncryptedContainerSize(|file.content|) == Ok(|container|)
  {
    var e := Encrypt(c, file, r).value;
    EncryptDecryptRoundTrip(c, file, r);
    AcceptedLength(c, e.ciphertext, e.keyToken, Decrypt(c, e.ciphertext, e.keyToken).value);
    ServerAcceptsBrowserContainers(c, e.ciphertext, e.keyToken);
  }

  /** The server admits what encryptFile produced exactly when the file is 32 bytes below the limit. */
  lemma ContainerAdmittedIff(c: Crypto, file: File, r: Randomness, setup: Setup, expires: string)
    requires c.Lawful() && r.Sized() && Encrypt(c, file, r).Ok? && setup.e2eeEnabled
    requires 1 <= setup.e2eeMaxFileSizeMB <= MAX_COUNTER
    ensures Admission(setup, Form(Some(Encrypt(c, file, r).value.ciphertext), "1", expires)) == Ok(1)
       <==> |file.content| <= setup.e2eeMaxFileSizeMB * 1_048_576 - 32
  {
    EncryptedForServer(c, file, r);
    SizedAdmitted(setup, Encrypt(c, file, r).value.ciphertext, |file.content|, expires);
  }

  lemma FirstOfRun(age: Age, s: System, e: Event, rest: seq<Event>)
    requires Kept(age, s) && Started(s) && Legal(age, s, [e] + rest)
    ensures Enabled(s, e) && Onward(Step(age, s, e), Run(age, s, [e] + rest))
  {
    LegalRest(age, s, e, rest);
    RunOnward(age, Step(age, s, e), rest);
  }

  /** An object is missing only after a delete of the file was begun or it had expired at a cycle's start. */
  lemma MissingHasReason(age: Age, s: System, id: Id)
    requires Kept(age, s) && id in s.log.acked
    ensures id in s.blobs || id in s.log.begun
         || exists k :: 0 <= k < |s.log.starts| && id in s.log.starts[k].rows
                        && s.log.starts[k].rows[id].expiration < s.log.starts[k].now
  {
    assert FileKept(age, s, id) && Accounted(s, id);
    if HadExpired(s.log.starts, id) {
      var k :| 0 <= k < |s.log.starts| && id in s.log.starts[k].rows
               && ExpiredAt(s.log.starts[k].rows[id], s.log.starts[k].now);
      assert s.log.starts[k].rows[id].expiration < s.log.starts[k].now;
    }
  }

  /**
   The whole way. A file encrypted in the browser is posted and admitted; its upload runs among whatever
   else the replicas do until its row can be read, and the content is fetched at any later time. If the
   object is there, the content endpoint returns the container with its exact length, and the key token
   opens it to the original bytes, name, type and size. If it is not, the upload was never acknowledged, or
   the file was deleted or had expired.
   */
  lemma BrowserToBrowser(c: Crypto, file: File, r: Randomness, age: Age, setup: Setup, form: Form, at: Circumstances,
                         start: System, before: seq<Event>, after: seq<Event>)
    requires c.Lawful() && r.Sized() && Encrypt(c, file, r).Ok? && age.Lawful() && setup.ages.Valid()
    requires form.file == Some(Encrypt(c, file, r).value.ciphertext) && Admission(setup, form) == Ok(1)
    requires Kept(age, start) && Started(start)
    requires Legal(age, start, [Begin(at.id, AdmittedUpload(setup, form, 1, at))] + before)
    requires var s := Run(age, start, [Begin(at.id, AdmittedUpload(setup, form, 1, at))] + before);
             at.id in s.rows && Legal(age, s, after)
    ensures var e := Encrypt(c, file, r).value;
            var s := Run(age, start, [Begin(at.id, AdmittedUpload(setup, form, 1, at))] + before);
            var t := Run(age, s, after);
            var reply := Download.ContentReply(Some(age), t.blobs, at.id, Some(s.rows[at.id]), false);
            if at.id !in t.blobs then
              && reply == Download.MISSING
              && (at.id in t.log.acked ==>
                   at.id in t.log.begun
                   || exists k :: 0 <= k < |t.log.starts| && at.id in t.log.starts[k].rows
                                  && t.log.starts[k].rows[at.id].expiration < t.log.starts[k].now)
            else
              && reply == Download.Body(e.ciphertext, |e.ciphertext|)
              && Decrypt(c, reply.served.body, e.keyToken)
                 == Ok(Decrypted(file.content, if file.mime == "" then "application/octet-stream" else file.mime,
                                 Metadata(file.name, file.mime, |file.content|)))
  {
    var begin := Begin(at.id, AdmittedUpload(setup, form, 1, at));
    var s := Run(age, start, [begin] + before);
    FirstOfRun(age, start, begin, before);
    assert s.log.uploads[at.id] == begin.upload;
    Fetched(c, file, r, age, s, after, at.id);
    if at.id in Run(age, s, after).log.acked {
      MissingHasReason(age, Run(age, s, after), at.id);
    }
  }

  lemma Fetched(c: Crypto, file: File, r: Randomness, age: Age, s: System, events: seq<Event>, id: Id)
    requires c.Lawful() && r.Sized() && Encrypt(c, file, r).Ok? && age.Lawful()
    requires Kept(age, s) && Started(s) && Legal(age, s, events) && id in s.rows && id in s.log.uploads
    requires s.log.uploads[id].inner == Encrypt(c, file, r).value.ciphertext && s.log.uploads[id].clientVersion == 1
    ensures var e := Encrypt(c, file, r).value;
            var blobs := Run(age, s, events).blobs;
            var reply := Download.ContentReply(Some(age), blobs, id, Some(s.rows[id]), false);
            if id !in blobs then reply == Download.MISSING
            else
              && reply == Download.Body(e.ciphertext, |e.ciphertext|)
              && Decrypt(c, reply.served.body, e.keyToken)
                 == Ok(Decrypted(file.content, if file.mime == "" then "application/octet-stream" else file.mime,
                                 Metadata(file.name, file.mime, |file.content|)))
  {
    EncryptDecryptRoundTrip(c, file, r);
    Download.ReadBack(age, s, events, Download.LocalFiles, id, "", false);
  }
}
