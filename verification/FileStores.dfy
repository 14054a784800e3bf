/**
 The two stores behind every file, the object store and the files table, and the handlers that change
 them call by call. Each call's outcome is an input, including an error whose effect took place anyway.
 */
module FileStores {
  import opened Wrappers
  import opened Bytes

  type Id = string

  /** A files row; name, type and counters do not matter here. */
  datatype Row = Row(size: int, encVersion: int, clientVersion: int, expiration: int)

  type Blobs = map<Id, Data>

  type Rows = map<Id, Row>

  /** age encryption to the server's identity; wrapping draws a fresh file key. */
  datatype Age = Age(wrap: (Data, nat) -> Data, unwrap: Data -> Option<Data>) {
    ghost predicate Law(x: Data, r: nat) {
      unwrap(wrap(x, r)) == Some(x)
    }

    ghost predicate Lawful() {
      forall x, r :: Law(x, r)
    }
  }

  /** Success, or an error that came after (took) or instead of the effect. */
  datatype Call = Done | Failed(took: bool)

  /** A failed Save can leave any bytes behind, or none. */
  datatype SaveCall = Saved | SaveFailed(left: Option<Data>)

  function SaveIn(blobs: Blobs, id: Id, data: Data, r: SaveCall): Blobs {
    match r
    case Saved => blobs[id := data]
    case SaveFailed(Some(partial)) => blobs[id := partial]
    case SaveFailed(None) => blobs
  }

  function InsertIn(rows: Rows, id: Id, row: Row, r: Call): Rows {
    if r.Done? || r.took then rows[id := row] else rows
  }

  /** DeleteFile and DELETE FROM files alike; deleting what is missing changes nothing. */
  function DeleteIn<T>(m: map<Id, T>, id: Id, r: Call): map<Id, T> {
    if r.Done? || r.took then m - {id} else m
  }

  /** Storage.DeleteFile is idempotent, OnFileDelete reports a missing row as an error. */
  predicate RowDeleteOk(rows: Rows, id: Id, r: Call) {
    r.Done? && id in rows
  }

  class Stores {
    var blobs: Blobs
    var rows: Rows

    constructor ()
      ensures blobs == map[] && rows == map[]
    {
      blobs, rows := map[], map[];
    }

    method Save(id: Id, data: Data, r: SaveCall) returns (ok: bool)
      modifies this`blobs
      ensures blobs == SaveIn(old(blobs), id, data, r) && ok == r.Saved?
    {
      match r {
        case Saved => blobs := blobs[id := data];
        case SaveFailed(Some(partial)) => blobs := blobs[id := partial];
        case SaveFailed(None) =>
      }
      ok := r.Saved?;
    }

    method DeleteBlob(id: Id, r: Call) returns (ok: bool)
      modifies this`blobs
      ensures blobs == DeleteIn(old(blobs), id, r) && ok == r.Done?
    {
      if r.Done? || r.took {
        blobs := blobs - {id};
      }
      ok := r.Done?;
    }

    method OnFileUpload(id: Id, row: Row, r: Call) returns (ok: bool)
      modifies this`rows
      ensures rows == InsertIn(old(rows), id, row, r) && ok == r.Done?
    {
      if r.Done? || r.took {
        rows := rows[id := row];
      }
      ok := r.Done?;
    }

    method OnFileDelete(id: Id, r: Call) returns (ok: bool)
      modifies this`rows
      ensures rows == DeleteIn(old(rows), id, r) && ok == RowDeleteOk(old(rows), id, r)
    {
      var affected := id in rows;
      if r.Done? || r.took {
        rows := rows - {id};
      }
      ok := r.Done? && affected;
    }
  }

  // Uploads.

  /** What is asked of processUpload; `encrypts` is the server's at-rest setting. */
  datatype Upload = Upload(inner: Data, clientVersion: int, expiration: int, encrypts: bool, salt: nat)

  function Stored(age: Age, u: Upload): Data {
    if u.encrypts then age.wrap(u.inner, u.salt) else u.inner
  }

  /** File.Size counts the bytes inside the at-rest layer. */
  function RowOf(u: Upload): Row {
    Row(|u.inner|, if u.encrypts then 1 else 0, u.clientVersion, u.expiration)
  }

  datatype UploadError = NoManager | SaveError | InsertError

  datatype Outcomes = Outcomes(save: SaveCall, insert: Call, rollBack: Call)

  /** What processUpload answers and leaves in both stores. */
  function UploadIn(blobs: Blobs, rows: Rows, enc: Option<Age>, id: Id, u: Upload, o: Outcomes)
      : (Result<Id, UploadError>, Blobs, Rows)
  {
    if u.encrypts && enc.None? then (Err(NoManager), blobs, rows)
    else
      var data := if u.encrypts then Stored(enc.value, u) else u.inner;
      var saved := SaveIn(blobs, id, data, o.save);
      var inserted := InsertIn(rows, id, RowOf(u), o.insert);
      if !o.save.Saved? then (Err(SaveError), saved, rows)
      else if !o.insert.Done? then (Err(InsertError), DeleteIn(saved, id, o.rollBack), inserted)
      else (Ok(id), saved, inserted)
  }

  /** processUpload: save, insert, and take the blob back if the insert failed. */
  method ProcessUpload(s: Stores, enc: Option<Age>, id: Id, u: Upload, o: Outcomes) returns (r: Result<Id, UploadError>)
    modifies s
    ensures (r, s.blobs, s.rows) == UploadIn(old(s.blobs), old(s.rows), enc, id, u, o)
  {
    var data, version := u.inner, 0;
    if u.encrypts {
      if enc.None? {
        return Err(NoManager);
      }
      data := enc.value.wrap(u.inner, u.salt);
      version := 1;
    }
    var saved := s.Save(id, data, o.save);
    if !saved {
      return Err(SaveError);
    }
    var inserted := s.OnFileUpload(id, Row(|u.inner|, version, u.clientVersion, u.expiration), o.insert);
    if !inserted {
      var _ := s.DeleteBlob(id, o.rollBack);
      return Err(InsertError);
    }
    r := Ok(id);
  }

  // Deletes.

  datatype DeleteResult = Deleted | StorageStage | DatabaseStage

  /** What deleteFile reports and leaves in both stores. */
  function DeleteFileIn(blobs: Blobs, rows: Rows, id: Id, storage: Call, database: Call): (DeleteResult, Blobs, Rows) {
    var left := DeleteIn(blobs, id, storage);
    if !storage.Done? then (StorageStage, left, rows)
    else (if RowDeleteOk(rows, id, database) then Deleted else DatabaseStage, left, DeleteIn(rows, id, database))
  }

  /** deleteFile: a failed storage delete stops it, leaving the row. */
  method DeleteFile(s: Stores, id: Id, storage: Call, database: Call) returns (r: DeleteResult)
    modifies s
    ensures (r, s.blobs, s.rows) == DeleteFileIn(old(s.blobs), old(s.rows), id, storage, database)
  {
    var ok := s.DeleteBlob(id, storage);
    if !ok {
      return StorageStage;
    }
    ok := s.OnFileDelete(id, database);
    r := if ok then Deleted else DatabaseStage;
  }

  /** cleanupFile: the row delete is attempted whatever happened to the blob. */
  method CleanupFile(s: Stores, id: Id, storage: Call, database: Call) returns (ok: bool)
    modifies s
    ensures s.blobs == DeleteIn(old(s.blobs), id, storage)
    ensures s.rows == DeleteIn(old(s.rows), id, database)
    ensures ok == (storage.Done? && RowDeleteOk(old(s.rows), id, database))
  {
    var storageOk := s.DeleteBlob(id, storage);
    var databaseOk := s.OnFileDelete(id, database);
    if !databaseOk && storageOk {
      return false;
    }
    if !storageOk {
      return false;
    }
    ok := true;
  }

  // A whole cleanup cycle.

  /** What a cycle leaves behind and how it counts, file by file. */
  datatype Cycle = Cycle(blobs: Blobs, rows: Rows, success: nat, failure: nat)

  /** The outcome of the i-th file's two calls. */
  datatype Faults = Faults(storage: Call, database: Call)

  function CycleIn(blobs: Blobs, rows: Rows, ids: seq<Id>, faults: seq<Faults>): (c: Cycle)
    requires |faults| == |ids|
    decreases ids
  {
    if ids == [] then Cycle(blobs, rows, 0, 0)
    else
      var last := |ids| - 1;
      var c := CycleIn(blobs, rows, ids[..last], faults[..last]);
      var f := faults[last];
      var ok := f.storage.Done? && RowDeleteOk(c.rows, ids[last], f.database);
      Cycle(DeleteIn(c.blobs, ids[last], f.storage), DeleteIn(c.rows, ids[last], f.database),
            c.success + (if ok then 1 else 0), c.failure + (if ok then 0 else 1))
  }

  predicate ExpiredAt(row: Row, now: int) {
    row.expiration < now
  }

  predicate NoDuplicates(ids: seq<Id>) {
    forall i, j :: 0 <= i < j < |ids| ==> ids[i] != ids[j]
  }

  /** GetExpiredFiles lists the expired rows, each once, in some order. */
  ghost predicate Snapshot(rows: Rows, now: int, ids: seq<Id>) {
    && NoDuplicates(ids)
    && (forall id :: id in ids <==> id in rows && ExpiredAt(rows[id], now))
  }

  /** performCleanup over the IDs GetExpiredFiles returned. */
  method PerformCleanup(s: Stores, now: int, expired: seq<Id>, faults: seq<Faults>) returns (success: nat, failure: nat)
    requires Snapshot(s.rows, now, expired) && |faults| == |expired|
    modifies s
    ensures Cycle(s.blobs, s.rows, success, failure) == CycleIn(old(s.blobs), old(s.rows), expired, faults)
  {
    success, failure := 0, 0;
    for i := 0 to |expired|
      invariant Cycle(s.blobs, s.rows, success, failure)
             == CycleIn(old(s.blobs), old(s.rows), expired[..i], faults[..i])
    {
      assert expired[..i + 1][..i] == expired[..i] && faults[..i + 1][..i] == faults[..i];
      var ok := CleanupFile(s, expired[i], faults[i].storage, faults[i].database);
      if !ok {
        failure := failure + 1;
      } else {
        success := success + 1;
      }
    }
    assert expired[..|expired|] == expired && faults[..|expired|] == faults;
  }

  /** Every file of the snapshot is counted exactly once. */
  lemma {:induction false} CycleCounts(blobs: Blobs, rows: Rows, ids: seq<Id>, faults: seq<Faults>)
    requires |faults| == |ids|
    ensures var c := CycleIn(blobs, rows, ids, faults); c.success + c.failure == |ids|
    decreases ids
  {
    if ids != [] {
      CycleCounts(blobs, rows, ids[..|ids| - 1], faults[..|ids| - 1]);
    }
  }

  /** A cycle only removes, and only IDs of its snapshot. */
  lemma {:induction false} CycleTouchesOnlySnapshot(blobs: Blobs, rows: Rows, ids: seq<Id>, faults: seq<Faults>, id: Id)
    requires |faults| == |ids|
    ensures var c := CycleIn(blobs, rows, ids, faults);
            && (id in c.blobs ==> id in blobs && c.blobs[id] == blobs[id])
            && (id in c.rows ==> id in rows && c.rows[id] == rows[id])
            && (id !in ids ==> (id in blobs ==> id in c.blobs) && (id in rows ==> id in c.rows))
    decreases ids
  {
    if ids != [] {
      CycleTouchesOnlySnapshot(blobs, rows, ids[..|ids| - 1], faults[..|ids| - 1], id);
    }
  }

  /** A cycle that reports no failure leaves none of its files in either store. */
  lemma {:induction false} FailureFreeCycleRemovesAll(blobs: Blobs, rows: Rows, ids: seq<Id>, faults: seq<Faults>)
    requires |faults| == |ids| && CycleIn(blobs, rows, ids, faults).failure == 0
    ensures var c := CycleIn(blobs, rows, ids, faults);
            forall id :: id in ids ==> id !in c.blobs && id !in c.rows
    decreases ids
  {
    if ids != [] {
      FailureFreeCycleRemovesAll(blobs, rows, ids[..|ids| - 1], faults[..|ids| - 1]);
    }
  }

  /** With no other writer, a cycle fails on nothing exactly when none of its calls does. */
  lemma {:induction false} FailureFreeIff(blobs: Blobs, rows: Rows, ids: seq<Id>, faults: seq<Faults>)
    requires |faults| == |ids| && NoDuplicates(ids) && forall id :: id in ids ==> id in rows
    ensures CycleIn(blobs, rows, ids, faults).failure == 0
       <==> forall i :: 0 <= i < |faults| ==> faults[i] == Faults(Done, Done)
    decreases ids
  {
    if ids != [] {
      var last := |ids| - 1;
      assert forall id :: id in ids[..last] ==> id in ids;
      FailureFreeIff(blobs, rows, ids[..last], faults[..last]);
      CycleTouchesOnlySnapshot(blobs, rows, ids[..last], faults[..last], ids[last]);
      assert ids[last] in ids;
      assert faults == faults[..last] + [faults[last]];
    }
  }

  lemma {:induction false} DoneCycleRemoves(blobs: Blobs, rows: Rows, ids: seq<Id>, faults: seq<Faults>)
    requires |faults| == |ids| && forall i :: 0 <= i < |faults| ==> faults[i] == Faults(Done, Done)
    ensures var c := CycleIn(blobs, rows, ids, faults);
            c.rows == map id | id in rows && id !in ids :: rows[id]
    ensures var c := CycleIn(blobs, rows, ids, faults);
            c.blobs == map id | id in blobs && id !in ids :: blobs[id]
    decreases ids
  {
    if ids != [] {
      DoneCycleRemoves(blobs, rows, ids[..|ids| - 1], faults[..|ids| - 1]);
      assert ids == ids[..|ids| - 1] + [ids[|ids| - 1]];
    }
  }

  /** A cycle at `now` in which no call fails keeps exactly the rows that expire at `now` or later, as they were. */
  lemma CycleCollectsExpired(blobs: Blobs, rows: Rows, now: int, expired: seq<Id>, faults: seq<Faults>)
    requires Snapshot(rows, now, expired) && |faults| == |expired|
    requires forall i :: 0 <= i < |faults| ==> faults[i] == Faults(Done, Done)
    ensures CycleIn(blobs, rows, expired, faults).rows == map id | id in rows && rows[id].expiration >= now :: rows[id]
    ensures forall id :: id in blobs && !(id in rows && rows[id].expiration < now) ==>
              id in CycleIn(blobs, rows, expired, faults).blobs
  {
    DoneCycleRemoves(blobs, rows, expired, faults);
  }

  /** Deleting a file twice: the second time the row is missing, which is reported and changes nothing. */
  lemma SecondDeleteFails(blobs: Blobs, rows: Rows, id: Id)
    requires id in rows
    ensures var (r1, blobs1, rows1) := DeleteFileIn(blobs, rows, id, Done, Done);
            && r1 == Deleted && id !in blobs1 && id !in rows1
            && DeleteFileIn(blobs1, rows1, id, Done, Done) == (DatabaseStage, blobs1, rows1)
  {
    assert blobs - {id} - {id} == blobs - {id} && rows - {id} - {id} == rows - {id};
  }

  /** The storage stage comes first: if it fails the row is left and named. */
  lemma FailedStageNamed(blobs: Blobs, rows: Rows, id: Id, storage: Call, database: Call)
    ensures var (r, _, left) := DeleteFileIn(blobs, rows, id, storage, database);
            && (r == StorageStage <==> storage != Done) && (storage != Done ==> left == rows)
            && (r == Deleted <==> storage == Done && database == Done && id in rows)
  {
  }

  /** What an upload leaves when every call succeeds: the bytes stored, and the row that describes them. */
  lemma UploadStores(blobs: Blobs, rows: Rows, enc: Option<Age>, id: Id, u: Upload, o: Outcomes)
    requires o.save == Saved && o.insert == Done && (u.encrypts ==> enc.Some?)
    ensures UploadIn(blobs, rows, enc, id, u, o)
         == (Ok(id),
             blobs[id := if u.encrypts then enc.value.wrap(u.inner, u.salt) else u.inner],
             rows[id := Row(|u.inner|, if u.encrypts then 1 else 0, u.clientVersion, u.expiration)])
  {
  }

  /** When one does not, the caller learns which, and no row is left unless the insert took effect after all. */
  lemma FailedUpload(blobs: Blobs, rows: Rows, enc: Option<Age>, id: Id, u: Upload, o: Outcomes)
    requires id !in rows
    ensures var (r, _, left) := UploadIn(blobs, rows, enc, id, u, o);
            && (r == Err(NoManager) <==> u.encrypts && enc.None?)
            && (r == Err(SaveError) <==> !(u.encrypts && enc.None?) && o.save != Saved)
            && (r == Err(InsertError) <==> !(u.encrypts && enc.None?) && o.save == Saved && o.insert != Done)
            && (r.Err? && id in left ==> o.save == Saved && o.insert == Failed(true))
  {
  }
}
