/** Serving stored files: which bytes each path of download.go sends, and what Content-Length it claims. */
module Download {
  import opened Wrappers
  import opened Bytes
  import opened ByteRanges
  import opened Backends
  import Storage
  import opened FileStores
  import opened Lifecycle

  datatype Reply = Streamed(served: Served) | ServerError | DownloadPage | Redirect

  /** 200 with the whole body. */
  function Body(bytes: Data, length: int): Reply {
    Streamed(Full(bytes, length))
  }

  const MISSING := Streamed(Served.NotFound)

  predicate HasBody(r: Reply) {
    r.Streamed? && (r.served.Full? || r.served.PartialContent?)
  }

  /** S3 with its answer to a suffix of an empty object. */
  datatype Backend = LocalFiles | S3(atEmpty: Option<Response>) | Gcs

  function OpenOn(backend: Backend, blobs: Blobs, id: Id, range: Option<ByteRange>): Result<Object, OpenError> {
    match backend
    case LocalFiles => Storage.OpenIn(blobs, id, range, LocalOpen)
    case S3(atEmpty) => Storage.OpenIn(blobs, id, range, Storage.S3Opener(atEmpty))
    case Gcs => Storage.OpenIn(blobs, id, range, GcsOpen)
  }

  lemma OpensWhole(backend: Backend, blobs: Blobs, id: Id)
    ensures OpenOn(backend, blobs, id, None) == if id in blobs then Ok(Whole(blobs[id])) else Err(ObjectNotFound)
  {
    if id in blobs {
      assert blobs[id][0..|blobs[id]|] == blobs[id];
    }
  }

  /** An opened storage object. */
  class StorageBody {
    const found: Object
    var closed: bool

    constructor (found: Object)
      ensures this.found == found && !closed
    {
      this.found := found;
      closed := false;
    }

    method Close()
      modifies this
      ensures closed
    {
      closed := true;
    }
  }

  /** Storage.Open's errors; the last stands for any other. */
  datatype Failure = Refused(error: OpenError) | Unavailable

  method Open(s: Stores, backend: Backend, id: Id, range: Option<ByteRange>, fails: bool)
    returns (r: Result<StorageBody, Failure>)
    ensures var found := OpenOn(backend, s.blobs, id, range);
            if fails then r == Err(Unavailable)
            else if found.Err? then r == Err(Refused(found.error))
            else r.Ok? && fresh(r.value) && r.value.found == found.value && !r.value.closed
  {
    if fails {
      return Err(Unavailable);
    }
    var found := OpenOn(backend, s.blobs, id, range);
    if found.Err? {
      return Err(Refused(found.error));
    }
    var body := new StorageBody(found.value);
    r := Ok(body);
  }

  function FailureReply(e: Failure): Reply {
    match e
    case Refused(ObjectNotFound) => MISSING
    case Refused(InvalidRange) => Streamed(NotSatisfiable)
    case Unavailable => ServerError
  }

  // What each path answers.

  /** 206 with the Content-Range for part of an object, 200 for the whole. */
  function StreamReply(blobs: Blobs, backend: Backend, id: Id, header: string, fails: bool): Reply {
    if fails then ServerError else Streamed(ServedAs(OpenOn(backend, blobs, id, ParseRange(header))))
  }

  /** Content-Length is the row's size, not the stored length. */
  function UnwrapReply(enc: Age, blob: Data, row: Row): Reply {
    match enc.unwrap(blob)
    case None => ServerError
    case Some(plain) => Body(plain, row.size)
  }

  function EncryptedReply(enc: Option<Age>, blobs: Blobs, id: Id, row: Row, fails: bool): Reply {
    if enc.None? || fails then ServerError
    else if id !in blobs then MISSING
    else UnwrapReply(enc.value, blobs[id], row)
  }

  function ClientEncryptedReply(enc: Option<Age>, blobs: Blobs, id: Id, row: Row, fails: bool): Reply {
    if fails then ServerError
    else if id !in blobs then MISSING
    else if row.encVersion <= 0 then Body(blobs[id], row.size)
    else if enc.None? then ServerError
    else UnwrapReply(enc.value, blobs[id], row)
  }

  /** GET /d/:id; `header` is the Range header, empty if there is none. */
  function DownloadReply(enc: Option<Age>, blobs: Blobs, backend: Backend, id: Id, found: Option<Row>, header: string,
                         presigned: bool, fails: bool): Reply
  {
    if found.None? then MISSING
    else if found.value.clientVersion > 0 then DownloadPage
    else if found.value.encVersion > 0 then EncryptedReply(enc, blobs, id, found.value, fails)
    else if presigned then Redirect
    else StreamReply(blobs, backend, id, header, fails)
  }

  /** GET of the inner container for decryption in the browser. */
  function ContentReply(enc: Option<Age>, blobs: Blobs, id: Id, found: Option<Row>, fails: bool): Reply {
    if found.None? || found.value.clientVersion != 1 then MISSING
    else ClientEncryptedReply(enc, blobs, id, found.value, fails)
  }

  // The handlers: a body that is not streamed is closed.

  method ServeStream(s: Stores, backend: Backend, id: Id, header: string, fails: bool)
    returns (reply: Reply, body: StorageBody?)
    ensures reply == StreamReply(s.blobs, backend, id, header, fails)
    ensures body != null <==> HasBody(reply)
    ensures body != null ==> fresh(body) && !body.closed
  {
    var range := ParseRange(header);
    var r := Open(s, backend, id, range, fails);
    if r.Err? {
      return FailureReply(r.error), null;
    }
    body := r.value;
    var found := body.found;
    if found.partial {
      reply := Streamed(PartialContent(found.body, found.length, found.contentRange));
    } else {
      reply := Body(found.body, found.length);
    }
  }

  /** The Range header is ignored here. */
  method ServeEncrypted(s: Stores, backend: Backend, enc: Option<Age>, id: Id, row: Row, fails: bool)
    returns (reply: Reply, body: StorageBody?)
    ensures reply == EncryptedReply(enc, s.blobs, id, row, fails)
    ensures HasBody(reply) ==> body != null
    ensures body != null ==> fresh(body) && (body.closed <==> !HasBody(reply))
  {
    if enc.None? {
      return ServerError, null;
    }
    OpensWhole(backend, s.blobs, id);
    var r := Open(s, backend, id, None, fails);
    if r.Err? {
      return FailureReply(r.error), null;
    }
    body := r.value;
    var plain := enc.value.unwrap(body.found.body);
    if plain.None? {
      body.Close();
      return ServerError, body;
    }
    reply := Body(plain.value, row.size);
  }

  method ServeClientEncrypted(s: Stores, backend: Backend, enc: Option<Age>, id: Id, row: Row, fails: bool)
    returns (reply: Reply, body: StorageBody?)
    ensures reply == ClientEncryptedReply(enc, s.blobs, id, row, fails)
    ensures HasBody(reply) ==> body != null
    ensures body != null ==> fresh(body) && (body.closed <==> !HasBody(reply))
  {
    OpensWhole(backend, s.blobs, id);
    var r := Open(s, backend, id, None, fails);
    if r.Err? {
      return FailureReply(r.error), null;
    }
    body := r.value;
    var bytes := body.found.body;
    if row.encVersion > 0 {
      if enc.None? {
        body.Close();
        return ServerError, body;
      }
      var plain := enc.value.unwrap(body.found.body);
      if plain.None? {
        body.Close();
        return ServerError, body;
      }
      bytes := plain.value;
    }
    reply := Body(bytes, row.size);
  }

  // Reading back what was uploaded.

  lemma UnwrapsToInner(age: Age, u: Upload)
    requires age.Lawful()
    ensures u.encrypts ==> age.unwrap(Stored(age, u)) == Some(u.inner)
  {
    assert age.Law(u.inner, u.salt);
  }

  /**
   Main result. A row was read in one state; the object is opened in a later one, after any further
   uploads, deletes, cleanups, faults, crashes and changes of the at-rest setting. Each path then sends
   exactly the uploaded bytes with their length (the streaming path, the part of them its backend opens for
   the Range header), or reports a missing object.
   */
  lemma ReadBack(age: Age, s: System, events: seq<Event>, backend: Backend, id: Id, header: string, presigned: bool)
    requires age.Lawful() && Kept(age, s) && Started(s) && Legal(age, s, events) && id in s.rows
    ensures id in s.log.uploads
    ensures var u := s.log.uploads[id];
            var blobs := Run(age, s, events).blobs;
            var whole := if id in blobs then Body(u.inner, |u.inner|) else MISSING;
            && ContentReply(Some(age), blobs, id, Some(s.rows[id]), false)
               == (if u.clientVersion == 1 then whole else MISSING)
            && DownloadReply(Some(age), blobs, backend, id, Some(s.rows[id]), header, presigned, false)
               == (if u.clientVersion > 0 then DownloadPage
                   else if u.encrypts then whole
                   else if presigned then Redirect
                   else StreamReply(if id in blobs then map[id := u.inner] else map[], backend, id, header, false))
  {
    assert FileKept(age, s, id);
    var t := Run(age, s, events);
    RunOnward(age, s, events);
    assert FileKept(age, t, id);
    assert id in t.log.recorded;
    UnwrapsToInner(age, s.log.uploads[id]);
  }

  /** Without a range the program accepts, an object is streamed whole. */
  lemma StreamsWhole(backend: Backend, blobs: Blobs, id: Id, header: string)
    requires ParseRange(header).None? && id in blobs
    ensures StreamReply(blobs, backend, id, header, false) == Body(blobs[id], |blobs[id]|)
  {
    OpensWhole(backend, blobs, id);
  }

  /** Where the backend opens a range as a local disk does: everywhere but for some ranges of empty objects. */
  predicate OpensAsLocal(backend: Backend, data: Data, range: Option<ByteRange>) {
    data != [] || range.None? ||
    match backend
    case LocalFiles => true
    case S3(atEmpty) => range.value.suffix <= 0 || atEmpty.None?
    case Gcs => !ReadsEmpty(range.value)
  }

  /**
   A range valid under RFC 9110 is answered with the bytes the standard asks for and their bounds, or 416 if
   it asks for none, on every backend, but for those ranges of empty objects that S3 or GCS serve.
   */
  lemma StreamsWhatRfcAsks(backend: Backend, blobs: Blobs, id: Id, header: string)
    requires ParseRfc(header).Some? && id in blobs && |blobs[id]| <= MAX_INT64
    ensures AsAsked(blobs[id], ParseRfc(header).value, ServeRange(blobs[id], header))
    ensures StreamReply(blobs, backend, id, header, false) == Streamed(ServeRange(blobs[id], header))
       <==> OpensAsLocal(backend, blobs[id], ParseRange(header))
  {
    ServesWhatRfcAsks(blobs[id], header);
    ParsedOpens(header);
    SameOnBackends(backend, blobs, id, ParseRange(header));
  }

  lemma SameOnBackends(backend: Backend, blobs: Blobs, id: Id, range: Option<ByteRange>)
    requires id in blobs && |blobs[id]| <= MAX_INT64 && (range.Some? ==> WellFormed(range.value))
    ensures ServedAs(OpenOn(backend, blobs, id, range)) == ServedAs(LocalOpen(blobs[id], range))
       <==> OpensAsLocal(backend, blobs[id], range)
  {
    var atEmpty := if backend.S3? then backend.atEmpty else None;
    if blobs[id] != [] {
      BackendsAgree(blobs[id], range, atEmpty);
    } else if range.Some? {
      EmptyObjects(range.value, atEmpty);
    } else {
      OpensWhole(backend, blobs, id);
    }
  }

  /** A missing object is reported only for a file whose storage delete was attempted. */
  lemma MissingOnlyAfterDelete(age: Age, s: System, events: seq<Event>, id: Id)
    requires Kept(age, s) && Started(s) && Legal(age, s, events) && id in s.rows
    ensures var t := Run(age, s, events); id !in t.blobs ==> id in t.log.tried
  {
    assert FileKept(age, s, id);
    RunOnward(age, s, events);
    assert FileKept(age, Run(age, s, events), id);
  }

  // The refusals, spelled out.

  /** A file the table does not know is 404 on both paths. */
  lemma UnknownFile(enc: Option<Age>, blobs: Blobs, backend: Backend, id: Id, header: string, presigned: bool,
                    fails: bool)
    ensures DownloadReply(enc, blobs, backend, id, None, header, presigned, fails) == Streamed(Served.NotFound)
    ensures ContentReply(enc, blobs, id, None, fails) == Streamed(Served.NotFound)
  {
  }

  /** GET /d/:id by kind of file: the browser page, a proxied decryption, a redirect or a stream. */
  lemma DownloadDecides(enc: Option<Age>, blobs: Blobs, backend: Backend, id: Id, row: Row, header: string,
                        presigned: bool, fails: bool)
    ensures var reply := DownloadReply(enc, blobs, backend, id, Some(row), header, presigned, fails);
            && (reply == DownloadPage <==> row.clientVersion > 0)
            && (reply == Redirect <==> row.clientVersion <= 0 && row.encVersion <= 0 && presigned)
    ensures row.clientVersion <= 0 && row.encVersion > 0 ==>
              var reply := DownloadReply(enc, blobs, backend, id, Some(row), header, presigned, fails);
              if enc.None? || fails then reply == ServerError
              else if id !in blobs then reply == Streamed(Served.NotFound)
              else
                match enc.value.unwrap(blobs[id])
                case None => reply == ServerError
                case Some(plain) => reply == Streamed(Full(plain, row.size))
    ensures row.clientVersion <= 0 && row.encVersion <= 0 && !presigned ==>
              var reply := DownloadReply(enc, blobs, backend, id, Some(row), header, presigned, fails);
              && (fails ==> reply == ServerError)
              && (!fails && id !in blobs ==> reply == Streamed(Served.NotFound))
  {
  }

  /** The container endpoint serves files of client version 1 only. */
  lemma ContentDecides(enc: Option<Age>, blobs: Blobs, id: Id, row: Row, fails: bool)
    ensures var reply := ContentReply(enc, blobs, id, Some(row), fails);
            if row.clientVersion != 1 then reply == Streamed(Served.NotFound)
            else if fails then reply == ServerError
            else if id !in blobs then reply == Streamed(Served.NotFound)
            else if row.encVersion <= 0 then reply == Streamed(Full(blobs[id], row.size))
            else if enc.None? then reply == ServerError
            else
              match enc.value.unwrap(blobs[id])
              case None => reply == ServerError
              case Some(plain) => reply == Streamed(Full(plain, row.size))
  {
  }
}
