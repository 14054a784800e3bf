/** The three storage backends as the program drives them: a directory, an S3 bucket and a GCS bucket. */
module Storage {
  import opened Wrappers
  import opened Bytes
  import opened ByteRanges
  import opened Backends
  import FileStores

  /** What Open answers for a store that maps names to contents. */
  function OpenIn(objects: map<string, Data>, name: string, range: Option<ByteRange>,
                  open: (Data, Option<ByteRange>) -> Result<Object, OpenError>): Result<Object, OpenError>
  {
    if name !in objects then Err(ObjectNotFound) else open(objects[name], range)
  }

  /** An open file: a position in fixed contents. */
  class File {
    const data: Data
    var pos: nat
    var closed: bool

    constructor (data: Data)
      ensures this.data == data && pos == 0 && !closed
    {
      this.data := data;
      pos, closed := 0, false;
    }

    method Seek(to: nat)
      modifies this`pos
      ensures pos == to
    {
      pos := to;
    }

    method Close()
      modifies this`closed
      ensures closed
    {
      closed := true;
    }

    /** What io.LimitReader(file, limit) yields: at most `limit` bytes from the position on. */
    function Limited(limit: int): Data
      reads this
      requires pos <= |data|
    {
      if limit <= 0 then [] else if limit < |data| - pos then data[pos..pos + limit] else data[pos..]
    }
  }

  class LocalStorage {
    var files: map<string, Data>

    constructor ()
      ensures files == map[]
    {
      files := map[];
    }

    /**
     Save: create the file, copy the reader into it, and check the declared size, if one was given. A copy
     that fails or comes up short leaves what was written. `stops` is where the copy fails, if it does.
     */
    method Save(id: string, source: Data, declared: int, created: bool, stops: Option<nat>) returns (ok: bool)
      modifies this
      ensures ok <==> created && stops.None? && (declared < 0 || |source| == declared)
      ensures files == FileStores.SaveIn(old(files), id, source,
                         if ok then FileStores.Saved
                         else if !created then FileStores.SaveFailed(None)
                         else FileStores.SaveFailed(Some(
                           if stops.Some? && stops.value < |source| then source[..stops.value] else source)))
    {
      if !created {
        return false;
      }
      files := files[id := []];
      var written := if stops.Some? && stops.value < |source| then stops.value else |source|;
      files := files[id := source[..written]];
      assert source[..|source|] == source;
      if stops.Some? {
        return false;
      }
      if declared >= 0 && written != declared {
        return false;
      }
      ok := true;
    }

    /** DeleteFile: a missing file counts as deleted. */
    method DeleteFile(id: string, fails: bool) returns (ok: bool)
      modifies this
      ensures ok <==> id !in old(files) || !fails
      ensures files == FileStores.DeleteIn(old(files), id, if ok then FileStores.Done else FileStores.Failed(false))
    {
      if id !in files {
        assert files - {id} == files;
        return true;
      }
      if fails {
        return false;
      }
      files := files - {id};
      ok := true;
    }

    /** Open: the file is closed again exactly when the range cannot be satisfied. */
    method Open(id: string, range: Option<ByteRange>) returns (r: Result<Object, OpenError>, file: File?)
      ensures r == OpenIn(files, id, range, LocalOpen)
      ensures file != null <==> id in files
      ensures file != null ==> fresh(file) && (file.closed <==> r.Err?)
    {
      if id !in files {
        return Err(ObjectNotFound), null;
      }
      file := new File(files[id]);
      var size := |file.data|;
      if range.None? {
        return Ok(Object(file.data, size, size, false, "")), file;
      }
      var bounds := ResolveRange(range.value, size);
      if bounds.None? {
        file.Close();
        return Err(InvalidRange), file;
      }
      ResolvedBounds(range.value, size);
      var start, end := bounds.value.0, bounds.value.1;
      file.Seek(start);
      var length := end - start + 1;
      assert file.Limited(length) == file.data[start..end + 1];
      r := Ok(Object(file.Limited(length), size, length, true, ContentRange(start, end, size)));
    }
  }

  function S3Opener(atEmpty: Option<Response>): (Data, Option<ByteRange>) -> Result<Object, OpenError> {
    (data, range) => S3Open(data, range, atEmpty)
  }

  class S3Storage {
    var objects: map<string, Data>
    // What the service answers to a suffix of an empty object.
    const atEmpty: Option<Response>

    /** Open: forward the range, then fill in the result from the response headers. */
    method Open(id: string, range: Option<ByteRange>) returns (r: Result<Object, OpenError>)
      ensures r == OpenIn(objects, id, range, S3Opener(atEmpty))
    {
      if id !in objects {
        return Err(ObjectNotFound);
      }
      var header: Option<string> := None;
      if range.Some? {
        header := Some(Header(range.value));
      }
      var response := GetObject(objects[id], header, atEmpty);
      if response.None? {
        return Err(InvalidRange);
      }
      var found := response.value;
      var result := Object(found.body, 0, 0, false, "");
      result := result.(length := found.contentLength);
      if found.contentRange.Some? {
        result := result.(partial := true, contentRange := found.contentRange.value);
        result := result.(size := ParseTotal(found.contentRange.value, result.length));
      } else {
        result := result.(size := result.length);
      }
      r := Ok(result);
    }
  }

  class GcsStorage {
    var objects: map<string, Data>

    method Open(id: string, range: Option<ByteRange>) returns (r: Result<Object, OpenError>)
      ensures r == OpenIn(objects, id, range, GcsOpen)
    {
      if id !in objects {
        return Err(ObjectNotFound);
      }
      var data := objects[id];
      var (offset, length) := GcsRange(range);
      var reader := RangeReader(|data|, offset, length);
      if reader.None? {
        return Err(InvalidRange);
      }
      ReaderBounds(|data|, offset, length);
      var found := reader.value;
      var result := Object(data[found.startOffset..found.startOffset + found.remain], |data|, found.remain, false, "");
      if range.Some? {
        result := result.(partial := true);
        result := result.(contentRange :=
          ContentRange(found.startOffset, found.startOffset + found.remain - 1, |data|));
      }
      r := Ok(result);
    }
  }

  /** Whichever backend holds the objects, Open answers the same, but for some ranges of an empty object on GCS. */
  lemma OpenIsBackendIndependent(objects: map<string, Data>, name: string, range: Option<ByteRange>,
                                 atEmpty: Option<Response>)
    requires name in objects ==> |objects[name]| <= MAX_INT64
    requires range.Some? ==> WellFormed(range.value)
    ensures OpenIn(objects, name, range, LocalOpen) == OpenIn(objects, name, range, S3Opener(atEmpty))
         == OpenIn(objects, name, range, GcsOpen)
       <==> name !in objects || objects[name] != [] || range.None? || !ReadsEmpty(range.value)
  {
    if name in objects {
      BackendsAgreeIff(objects[name], range, atEmpty);
    }
  }
}
