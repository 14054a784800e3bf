/**
 Uploads, deletes and cleanup cycles of any number of replicas interleaved call by call over the two
 stores, with every call able to fail and every request able to crash between or inside calls.
 */
module Lifecycle {
  import opened Wrappers
  import opened Bytes
  import opened FileStores

  datatype UploadPc = Saving | Inserting | RollingBack

  datatype DeletePc = AtBlob(target: Id) | AtRow(target: Id)

  /** A cycle works on snapshot[next]; blobOk is what its storage delete returned. */
  datatype CyclePc = CyclePc(
    start: nat, snapshot: seq<Id>, next: nat, row: bool, blobOk: bool, success: nat, failure: nat)

  /** The clock and the rows when a cycle began. */
  datatype Start = Start(now: int, rows: Rows)

  /** What has happened so far; no handler reads it. */
  datatype History = History(
    uploads: map<Id, Upload>, saved: set<Id>, recorded: set<Id>, tried: set<Id>,
    acked: set<Id>, gone: set<Id>, crashed: set<Id>, faulted: set<Id>, crashes: nat, errors: nat,
    begun: set<Id>, starts: seq<Start>, changed: map<Id, int>)

  datatype System = System(
    blobs: Blobs, rows: Rows, uploading: map<Id, UploadPc>, deleting: map<nat, DeletePc>,
    cycles: map<nat, CyclePc>, log: History)

  datatype Event =
    | Begin(id: Id, upload: Upload)
    | Save(id: Id, save: SaveCall)
    | Insert(id: Id, call: Call)
    | RollBack(id: Id, call: Call)
    | CrashUpload(id: Id, left: Option<Data>, took: bool)
    | BeginDelete(req: nat, id: Id)
    | DeleteBlob(req: nat, call: Call)
    | DeleteRow(req: nat, call: Call)
    | CrashDelete(req: nat, took: bool)
    | BeginCycle(replica: nat, now: int, expired: seq<Id>)
    | CleanBlob(replica: nat, call: Call)
    | CleanRow(replica: nat, call: Call)
    | CrashCycle(replica: nat, took: bool)
    | Expire(id: Id, expiration: int)

  const EMPTY_LOG := History(map[], {}, {}, {}, {}, {}, {}, {}, 0, 0, {}, [], map[])
  const START := System(map[], map[], map[], map[], map[], EMPTY_LOG)

  /** Which steps the program counters allow. Fresh IDs; a delete starts only where a row was found. */
  ghost predicate Enabled(s: System, e: Event) {
    match e
    case Begin(id, u) => id !in s.log.uploads
    case Save(id, _) => id in s.uploading && s.uploading[id].Saving?
    case Insert(id, _) => id in s.uploading && s.uploading[id].Inserting?
    case RollBack(id, _) => id in s.uploading && s.uploading[id].RollingBack?
    case CrashUpload(id, _, _) => id in s.uploading
    case BeginDelete(req, id) => req !in s.deleting && id in s.rows
    case DeleteBlob(req, _) => req in s.deleting && s.deleting[req].AtBlob?
    case DeleteRow(req, _) => req in s.deleting && s.deleting[req].AtRow?
    case CrashDelete(req, _) => req in s.deleting
    case BeginCycle(i, now, expired) => !Busy(s, i) && Snapshot(s.rows, now, expired)
    case CleanBlob(i, _) => Busy(s, i) && !s.cycles[i].row
    case CleanRow(i, _) => Busy(s, i) && s.cycles[i].row
    case CrashCycle(i, _) => i in s.cycles
    case Expire(id, _) => id in s.rows
  }

  predicate Busy(s: System, i: nat) {
    i in s.cycles && s.cycles[i].next < |s.cycles[i].snapshot|
  }

  /** A storage call that returned an error. */
  function Fault(log: History, id: Id): History {
    log.(faulted := log.faulted + {id}, errors := log.errors + 1)
  }

  // Upload steps.

  function SaveStep(age: Age, s: System, id: Id, r: SaveCall): System
    requires id in s.log.uploads
  {
    var next := s.(blobs := SaveIn(s.blobs, id, Stored(age, s.log.uploads[id]), r));
    if r.Saved? then
      next.(uploading := s.uploading[id := Inserting], log := s.log.(saved := s.log.saved + {id}))
    else
      next.(uploading := s.uploading - {id}, log := Fault(s.log, id))
  }

  function InsertStep(s: System, id: Id, r: Call): System
    requires id in s.log.uploads
  {
    var took := r.Done? || r.took;
    var log := if took then s.log.(recorded := s.log.recorded + {id}) else s.log;
    var next := s.(rows := InsertIn(s.rows, id, RowOf(s.log.uploads[id]), r));
    if r.Done? then next.(uploading := s.uploading - {id}, log := log.(acked := log.acked + {id}))
    else next.(uploading := s.uploading[id := RollingBack], log := log)
  }

  function RollBackStep(s: System, id: Id, r: Call): System {
    var log := s.log.(tried := s.log.tried + {id});
    s.(blobs := DeleteIn(s.blobs, id, r), uploading := s.uploading - {id},
       log := if r.Done? then log else Fault(log, id))
  }

  /** The process dies; the call it was in may have left bytes behind or taken effect. */
  function CrashUploadStep(s: System, id: Id, left: Option<Data>, took: bool): System
    requires id in s.uploading && id in s.log.uploads
  {
    var log := s.log.(crashed := s.log.crashed + {id}, crashes := s.log.crashes + 1);
    var next := s.(uploading := s.uploading - {id}, log := log);
    match s.uploading[id]
    case Saving =>
      next.(blobs := SaveIn(s.blobs, id, [], SaveFailed(left)))
    case Inserting =>
      next.(rows := InsertIn(s.rows, id, RowOf(s.log.uploads[id]), Failed(took)),
            log := if took then log.(recorded := log.recorded + {id}) else log)
    case RollingBack =>
      next.(blobs := DeleteIn(s.blobs, id, Failed(took)), log := log.(tried := log.tried + {id}))
  }

  // Delete steps, for a request and for a cleanup cycle.

  /** The storage delete of `id` returned r. */
  function BlobGone(s: System, id: Id, r: Call): System {
    var log := s.log.(tried := s.log.tried + {id});
    s.(blobs := DeleteIn(s.blobs, id, r), log := if r.Done? then log else Fault(log, id))
  }

  /** The row delete of `id` returned r; success is final when the blob delete succeeded too. */
  function RowGone(s: System, id: Id, blobOk: bool, r: Call): System {
    s.(rows := DeleteIn(s.rows, id, r),
       log := if blobOk && RowDeleteOk(s.rows, id, r) then s.log.(gone := s.log.gone + {id}) else s.log)
  }

  /** A storage delete whose result nobody saw. */
  function Unreported(s: System, id: Id, r: Call): System {
    s.(blobs := DeleteIn(s.blobs, id, r), log := s.log.(tried := s.log.tried + {id}))
  }

  function CrashDeleteStep(s: System, req: nat, took: bool): System
    requires req in s.deleting
  {
    var next := match s.deleting[req]
      case AtBlob(id) => Unreported(s, id, Failed(took))
      case AtRow(id) => RowGone(s, id, true, Failed(took));
    next.(deleting := s.deleting - {req})
  }

  function CleanBlobStep(s: System, i: nat, r: Call): System
    requires Busy(s, i)
  {
    var c := s.cycles[i];
    BlobGone(s, c.snapshot[c.next], r).(cycles := s.cycles[i := c.(row := true, blobOk := r.Done?)])
  }

  function CleanRowStep(s: System, i: nat, r: Call): System
    requires Busy(s, i)
  {
    var c := s.cycles[i];
    var id := c.snapshot[c.next];
    var ok := c.blobOk && RowDeleteOk(s.rows, id, r);
    var counted := CyclePc(c.start, c.snapshot, c.next + 1, false, false,
                           c.success + (if ok then 1 else 0), c.failure + (if ok then 0 else 1));
    RowGone(s, id, c.blobOk, r).(cycles := s.cycles[i := counted])
  }

  function CrashCycleStep(s: System, i: nat, took: bool): System
    requires i in s.cycles
  {
    var c := s.cycles[i];
    var next :=
      if c.next >= |c.snapshot| then s
      else if c.row then RowGone(s, c.snapshot[c.next], c.blobOk, Failed(took))
      else Unreported(s, c.snapshot[c.next], Failed(took));
    next.(cycles := s.cycles - {i})
  }

  ghost function Step(age: Age, s: System, e: Event): System
    requires Enabled(s, e) && Started(s)
  {
    match e
    case Begin(id, u) => s.(uploading := s.uploading[id := Saving], log := s.log.(uploads := s.log.uploads[id := u]))
    case Save(id, r) => SaveStep(age, s, id, r)
    case Insert(id, r) => InsertStep(s, id, r)
    case RollBack(id, r) => RollBackStep(s, id, r)
    case CrashUpload(id, left, took) => CrashUploadStep(s, id, left, took)
    case BeginDelete(req, id) =>
      s.(deleting := s.deleting[req := AtBlob(id)], log := s.log.(begun := s.log.begun + {id}))
    case DeleteBlob(req, r) =>
      var id := s.deleting[req].target;
      BlobGone(s, id, r).(deleting := if r.Done? then s.deleting[req := AtRow(id)] else s.deleting - {req})
    case DeleteRow(req, r) => RowGone(s, s.deleting[req].target, true, r).(deleting := s.deleting - {req})
    case CrashDelete(req, took) => CrashDeleteStep(s, req, took)
    case BeginCycle(i, now, expired) =>
      s.(cycles := s.cycles[i := CyclePc(|s.log.starts|, expired, 0, false, false, 0, 0)],
         log := s.log.(starts := s.log.starts + [Start(now, s.rows)]))
    case CleanBlob(i, r) => CleanBlobStep(s, i, r)
    case CleanRow(i, r) => CleanRowStep(s, i, r)
    case CrashCycle(i, took) => CrashCycleStep(s, i, took)
    case Expire(id, t) =>
      s.(rows := s.rows[id := s.rows[id].(expiration := t)], log := s.log.(changed := s.log.changed[id := t]))
  }

  // The invariant, file by file.

  /** Every upload in progress was begun. */
  ghost predicate Started(s: System) {
    forall id :: id in s.uploading ==> id in s.log.uploads
  }

  ghost predicate UploadKept(s: System, id: Id) {
    id in s.uploading ==>
      match s.uploading[id]
      case Saving => id !in s.log.saved && id !in s.blobs && id !in s.log.recorded && id !in s.log.tried
      case Inserting => id in s.log.saved && id in s.blobs && id !in s.log.recorded && id !in s.log.tried
      case RollingBack => id in s.log.saved
  }

  /** The size of the upload's content, whether it was encrypted at rest, its version, and the expiration last set. */
  predicate Matches(row: Row, u: Upload, expiration: int) {
    && row.size == |u.inner| && row.encVersion == (if u.encrypts then 1 else 0)
    && row.clientVersion == u.clientVersion && row.expiration == expiration
  }

  /** The expiration last set by a request, or else the upload's. */
  function LastExpiration(log: History, id: Id): int
    requires id in log.uploads
  {
    if id in log.changed then log.changed[id] else log.uploads[id].expiration
  }

  ghost predicate FileKept(age: Age, s: System, id: Id) {
    && (id in s.blobs || id in s.uploading || id in s.log.saved || id in s.log.tried ==> id in s.log.uploads)
    && UploadKept(s, id)
    && (id in s.log.recorded ==> id in s.log.saved)
    && (id in s.rows ==>
         && id in s.log.recorded && id in s.log.uploads
         && Matches(s.rows[id], s.log.uploads[id], LastExpiration(s.log, id)))
    && (id in s.log.changed ==> id in s.log.recorded)
    && (id in s.log.recorded && id !in s.log.tried ==> id in s.rows)
    && (id in s.log.saved && id in s.blobs && id in s.log.uploads ==> s.blobs[id] == Stored(age, s.log.uploads[id]))
    && (id in s.log.saved && id !in s.blobs ==> id in s.log.tried)
    && (id in s.blobs && id !in s.rows ==> id in s.uploading || id in s.log.crashed || id in s.log.faulted)
    && (id in s.log.acked ==> id in s.log.recorded && id !in s.uploading)
    && (id in s.log.gone ==> id in s.log.recorded && id !in s.blobs && id !in s.rows)
    && (id in s.log.tried ==> id in s.log.saved)
  }

  ghost predicate DeleteKept(s: System, d: DeletePc) {
    && d.target in s.log.recorded && d.target in s.log.begun
    && (d.AtRow? ==> d.target !in s.blobs && d.target in s.log.tried)
  }

  ghost predicate CycleKept(s: System, c: CyclePc) {
    && c.next <= |c.snapshot|
    && c.start < |s.log.starts| && Snapshot(s.log.starts[c.start].rows, s.log.starts[c.start].now, c.snapshot)
    && (forall id :: id in c.snapshot ==> id in s.log.recorded)
    && c.success + c.failure == c.next
    && (c.failure == 0 ==> forall k :: 0 <= k < c.next ==> c.snapshot[k] in s.log.gone)
    && (c.next < |c.snapshot| && c.row ==>
         (var id := c.snapshot[c.next];
          id in s.log.tried && if c.blobOk then id !in s.blobs else id in s.log.faulted))
  }

  /** The file was listed as expired when one of the cycles began. */
  predicate HadExpired(starts: seq<Start>, id: Id) {
    exists k :: 0 <= k < |starts| && id in starts[k].rows && ExpiredAt(starts[k].rows[id], starts[k].now)
  }

  /** Why the storage delete of an acknowledged file was attempted. */
  predicate Accounted(s: System, id: Id) {
    id in s.log.acked && id in s.log.tried ==> id in s.log.begun || HadExpired(s.log.starts, id)
  }

  predicate Counted(s: System) {
    |s.log.crashed| <= s.log.crashes && |s.log.faulted| <= s.log.errors
  }

  ghost predicate Kept(age: Age, s: System) {
    && (forall id :: FileKept(age, s, id))
    && (forall id :: Accounted(s, id))
    && (forall req :: req in s.deleting ==> DeleteKept(s, s.deleting[req]))
    && (forall i :: i in s.cycles ==> CycleKept(s, s.cycles[i]))
    && Counted(s)
  }

  // Each kind of step keeps every file's part.

  lemma SaveKeeps(age: Age, s: System, id: Id, r: SaveCall, other: Id)
    requires Enabled(s, Save(id, r)) && FileKept(age, s, id) && FileKept(age, s, other)
    ensures FileKept(age, SaveStep(age, s, id, r), other)
  {
  }

  lemma InsertKeeps(age: Age, s: System, id: Id, r: Call, other: Id)
    requires Enabled(s, Insert(id, r)) && FileKept(age, s, id) && FileKept(age, s, other)
    ensures FileKept(age, InsertStep(s, id, r), other)
  {
  }

  lemma RollBackKeeps(age: Age, s: System, id: Id, r: Call, other: Id)
    requires Enabled(s, RollBack(id, r)) && FileKept(age, s, id) && FileKept(age, s, other)
    ensures FileKept(age, RollBackStep(s, id, r), other)
  {
  }

  lemma CrashUploadKeeps(age: Age, s: System, id: Id, left: Option<Data>, took: bool, other: Id)
    requires Enabled(s, CrashUpload(id, left, took)) && FileKept(age, s, id) && FileKept(age, s, other)
    ensures FileKept(age, CrashUploadStep(s, id, left, took), other)
  {
    if other == id {
      CrashKeepsOwn(age, s, id, left, took);
    }
  }

  lemma CrashKeepsOwn(age: Age, s: System, id: Id, left: Option<Data>, took: bool)
    requires Enabled(s, CrashUpload(id, left, took)) && FileKept(age, s, id)
    ensures FileKept(age, CrashUploadStep(s, id, left, took), id)
  {
  }

  lemma BlobGoneKeeps(age: Age, s: System, id: Id, r: Call, other: Id)
    requires id in s.log.recorded && FileKept(age, s, id) && FileKept(age, s, other)
    ensures FileKept(age, BlobGone(s, id, r), other)
  {
  }

  lemma RowGoneKeeps(age: Age, s: System, id: Id, blobOk: bool, r: Call, other: Id)
    requires id in s.log.recorded && id in s.log.tried && FileKept(age, s, id) && FileKept(age, s, other)
    requires if blobOk then id !in s.blobs else id in s.log.faulted
    ensures FileKept(age, RowGone(s, id, blobOk, r), other)
  {
  }

  lemma UploadEventKeeps(age: Age, s: System, e: Event, other: Id)
    requires Kept(age, s) && Started(s) && Enabled(s, e)
    requires e.Begin? || e.Save? || e.Insert? || e.RollBack? || e.CrashUpload? || e.Expire?
    ensures FileKept(age, Step(age, s, e), other)
  {
    assert FileKept(age, s, e.id) && FileKept(age, s, other);
    match e
    case Save(id, r) => SaveKeeps(age, s, id, r, other);
    case Insert(id, r) => InsertKeeps(age, s, id, r, other);
    case RollBack(id, r) => RollBackKeeps(age, s, id, r, other);
    case CrashUpload(id, left, took) => CrashUploadKeeps(age, s, id, left, took, other);
    case _ =>
  }

  /** A file's part of the invariant does not mention deletes and cycles. */
  lemma FileKeptBeside(age: Age, s: System, t: System, id: Id)
    requires FileKept(age, s, id)
    requires t.blobs == s.blobs && t.rows == s.rows && t.uploading == s.uploading
    requires t.log.(begun := s.log.begun, starts := s.log.starts) == s.log
    ensures FileKept(age, t, id)
  {
  }

  lemma DeleteEventKeeps(age: Age, s: System, e: Event, other: Id)
    requires Kept(age, s) && Started(s) && Enabled(s, e)
    requires e.BeginDelete? || e.DeleteBlob? || e.DeleteRow? || e.CrashDelete?
    ensures FileKept(age, Step(age, s, e), other)
  {
    var t := Step(age, s, e);
    if e.BeginDelete? {
      FileKeptBeside(age, s, t, other);
    } else {
      var d := s.deleting[e.req];
      var r := if e.CrashDelete? then Failed(e.took) else e.call;
      DeleteStepKeeps(age, s, d, r, other);
      if d.AtRow? {
        FileKeptBeside(age, RowGone(s, d.target, true, r), t, other);
      } else if e.DeleteBlob? {
        FileKeptBeside(age, BlobGone(s, d.target, r), t, other);
      } else {
        CrashInDelete(age, s, d.target, r, other);
        FileKeptBeside(age, Unreported(s, d.target, r), t, other);
      }
    }
  }

  lemma CycleEventKeeps(age: Age, s: System, e: Event, other: Id)
    requires Kept(age, s) && Started(s) && Enabled(s, e)
    requires e.BeginCycle? || e.CleanBlob? || e.CleanRow? || e.CrashCycle?
    ensures FileKept(age, Step(age, s, e), other)
  {
    var t := Step(age, s, e);
    if e.BeginCycle? || s.cycles[e.replica].next >= |s.cycles[e.replica].snapshot| {
      FileKeptBeside(age, s, t, other);
    } else {
      var c := s.cycles[e.replica];
      var id := c.snapshot[c.next];
      var r := if e.CrashCycle? then Failed(e.took) else e.call;
      assert CycleKept(s, c);
      CleanStepKeeps(age, s, c, r, other);
      if c.row {
        FileKeptBeside(age, RowGone(s, id, c.blobOk, r), t, other);
      } else if e.CleanBlob? {
        FileKeptBeside(age, BlobGone(s, id, r), t, other);
      } else {
        assert id in c.snapshot;
        CrashInDelete(age, s, id, r, other);
        FileKeptBeside(age, Unreported(s, id, r), t, other);
      }
    }
  }

  lemma CrashInDelete(age: Age, s: System, id: Id, r: Call, other: Id)
    requires Kept(age, s) && id in s.log.recorded
    ensures FileKept(age, Unreported(s, id, r), other)
  {
    assert FileKept(age, s, id) && FileKept(age, s, other);
  }

  lemma FilesKept(age: Age, s: System, e: Event)
    requires Kept(age, s) && Started(s) && Enabled(s, e)
    ensures forall id :: FileKept(age, Step(age, s, e), id)
  {
    forall other ensures FileKept(age, Step(age, s, e), other) {
      if e.BeginDelete? || e.DeleteBlob? || e.DeleteRow? || e.CrashDelete? {
        DeleteEventKeeps(age, s, e, other);
      } else if e.BeginCycle? || e.CleanBlob? || e.CleanRow? || e.CrashCycle? {
        CycleEventKeeps(age, s, e, other);
      } else {
        UploadEventKeeps(age, s, e, other);
      }
    }
  }

  lemma DeleteStepKeeps(age: Age, s: System, d: DeletePc, r: Call, other: Id)
    requires Kept(age, s) && DeleteKept(s, d)
    ensures d.AtBlob? ==> FileKept(age, BlobGone(s, d.target, r), other)
    ensures d.AtRow? ==> FileKept(age, RowGone(s, d.target, true, r), other)
  {
    assert FileKept(age, s, d.target) && FileKept(age, s, other);
    if d.AtBlob? {
      BlobGoneKeeps(age, s, d.target, r, other);
    } else {
      RowGoneKeeps(age, s, d.target, true, r, other);
    }
  }

  lemma CleanStepKeeps(age: Age, s: System, c: CyclePc, r: Call, other: Id)
    requires Kept(age, s) && CycleKept(s, c) && c.next < |c.snapshot|
    ensures !c.row ==> FileKept(age, BlobGone(s, c.snapshot[c.next], r), other)
    ensures c.row ==> FileKept(age, RowGone(s, c.snapshot[c.next], c.blobOk, r), other)
  {
    var id := c.snapshot[c.next];
    assert id in c.snapshot;
    assert FileKept(age, s, id) && FileKept(age, s, other);
    if c.row {
      RowGoneKeeps(age, s, id, c.blobOk, r, other);
    } else {
      BlobGoneKeeps(age, s, id, r, other);
    }
  }

  lemma UploadAccounted(age: Age, s: System, e: Event, id: Id)
    requires e.Begin? || e.Save? || e.Insert? || e.RollBack? || e.CrashUpload? || e.Expire?
    requires Started(s) && Enabled(s, e) && FileKept(age, s, e.id) && Accounted(s, id)
    ensures Accounted(Step(age, s, e), id)
  {
  }

  lemma DeleteAccounted(age: Age, s: System, e: Event, id: Id)
    requires e.BeginDelete? || e.DeleteBlob? || e.DeleteRow? || e.CrashDelete?
    requires Kept(age, s) && Started(s) && Enabled(s, e)
    ensures Accounted(Step(age, s, e), id)
  {
    assert Accounted(s, id);
    if !e.BeginDelete? {
      assert DeleteKept(s, s.deleting[e.req]);
    }
  }

  /** What a cycle works on had expired when the cycle began. */
  lemma WorksOnExpired(s: System, c: CyclePc)
    requires CycleKept(s, c) && c.next < |c.snapshot|
    ensures var start := s.log.starts[c.start];
            var id := c.snapshot[c.next];
            id in start.rows && ExpiredAt(start.rows[id], start.now) && HadExpired(s.log.starts, id)
  {
    assert c.snapshot[c.next] in c.snapshot;
  }

  lemma StartAdds(starts: seq<Start>, last: Start, id: Id)
    ensures HadExpired(starts, id) ==> HadExpired(starts + [last], id)
  {
    forall k | 0 <= k < |starts| ensures (starts + [last])[k] == starts[k] {
    }
  }

  lemma StartAccounted(age: Age, s: System, e: Event, id: Id)
    requires e.BeginCycle? && Started(s) && Enabled(s, e) && Accounted(s, id)
    ensures Accounted(Step(age, s, e), id)
  {
    StartAdds(s.log.starts, Start(e.now, s.rows), id);
  }

  lemma CleanAccounted(s: System, i: nat, r: Call, id: Id)
    requires Busy(s, i) && CycleKept(s, s.cycles[i]) && Accounted(s, id)
    ensures Accounted(CleanBlobStep(s, i, r), id) && Accounted(CleanRowStep(s, i, r), id)
    ensures Accounted(CrashCycleStep(s, i, r.Done? || r.took), id)
  {
    WorksOnExpired(s, s.cycles[i]);
  }

  lemma CycleAccounted(age: Age, s: System, e: Event, id: Id)
    requires e.BeginCycle? || e.CleanBlob? || e.CleanRow? || e.CrashCycle?
    requires Kept(age, s) && Started(s) && Enabled(s, e)
    ensures Accounted(Step(age, s, e), id)
  {
    assert Accounted(s, id);
    if e.BeginCycle? {
      StartAccounted(age, s, e, id);
    } else if Busy(s, e.replica) {
      CleanAccounted(s, e.replica, if e.CrashCycle? then Failed(e.took) else e.call, id);
    }
  }

  lemma AllAccounted(age: Age, s: System, e: Event)
    requires Kept(age, s) && Started(s) && Enabled(s, e)
    ensures forall id :: Accounted(Step(age, s, e), id)
  {
    forall id ensures Accounted(Step(age, s, e), id) {
      if e.BeginDelete? || e.DeleteBlob? || e.DeleteRow? || e.CrashDelete? {
        DeleteAccounted(age, s, e, id);
      } else if e.BeginCycle? || e.CleanBlob? || e.CleanRow? || e.CrashCycle? {
        CycleAccounted(age, s, e, id);
      } else {
        assert FileKept(age, s, e.id) && Accounted(s, id);
        UploadAccounted(age, s, e, id);
      }
    }
  }

  /** History only grows, and no blob of a recorded file comes back. */
  ghost predicate Onward(s: System, t: System) {
    && s.log.recorded <= t.log.recorded && s.log.tried <= t.log.tried && s.log.gone <= t.log.gone
    && s.log.faulted <= t.log.faulted && s.log.begun <= t.log.begun && s.log.starts <= t.log.starts
    && (forall id :: id in s.log.uploads ==> id in t.log.uploads && t.log.uploads[id] == s.log.uploads[id])
    && (forall id :: id in s.log.recorded && id in t.blobs ==> id in s.blobs)
  }

  lemma CrashUploadOnward(age: Age, s: System, id: Id, left: Option<Data>, took: bool)
    requires Started(s) && id in s.uploading && FileKept(age, s, id)
    ensures Onward(s, CrashUploadStep(s, id, left, took))
  {
  }

  lemma UploadOnward(age: Age, s: System, e: Event)
    requires e.Begin? || e.Save? || e.Insert? || e.RollBack? || e.CrashUpload? || e.Expire?
    requires Started(s) && Enabled(s, e) && FileKept(age, s, e.id)
    ensures Onward(s, Step(age, s, e))
  {
    match e
    case Save(_, _) =>
    case CrashUpload(id, left, took) => CrashUploadOnward(age, s, id, left, took);
    case _ =>
  }

  lemma CycleOnward(s: System, i: nat, call: Call)
    requires Busy(s, i)
    ensures !s.cycles[i].row ==> Onward(s, CleanBlobStep(s, i, call))
    ensures s.cycles[i].row ==> Onward(s, CleanRowStep(s, i, call))
    ensures Onward(s, CrashCycleStep(s, i, call.Done? || call.took))
  {
  }

  lemma DeleteOnward(age: Age, s: System, e: Event)
    requires e.BeginDelete? || e.DeleteBlob? || e.DeleteRow? || e.CrashDelete?
    requires Started(s) && Enabled(s, e)
    ensures Onward(s, Step(age, s, e))
  {
  }

  lemma StepOnward(age: Age, s: System, e: Event)
    requires Kept(age, s) && Started(s) && Enabled(s, e)
    ensures Onward(s, Step(age, s, e))
  {
    if e.BeginDelete? || e.DeleteBlob? || e.DeleteRow? || e.CrashDelete? {
      DeleteOnward(age, s, e);
    } else if e.CleanBlob? || e.CleanRow? {
      CycleOnward(s, e.replica, e.call);
    } else if e.CrashCycle? {
      if Busy(s, e.replica) {
        CycleOnward(s, e.replica, Failed(e.took));
      }
    } else if !e.BeginCycle? {
      assert FileKept(age, s, e.id);
      UploadOnward(age, s, e);
    }
  }

  lemma DeletesKept(age: Age, s: System, e: Event)
    requires Kept(age, s) && Started(s) && Enabled(s, e)
    ensures var t := Step(age, s, e); forall req :: req in t.deleting ==> DeleteKept(t, t.deleting[req])
  {
    var t := Step(age, s, e);
    StepOnward(age, s, e);
    forall req | req in t.deleting ensures DeleteKept(t, t.deleting[req]) {
      if req in s.deleting {
        assert DeleteKept(s, s.deleting[req]);
      } else {
        assert FileKept(age, s, e.id);
      }
    }
  }

  lemma CycleBeside(s: System, t: System, c: CyclePc)
    requires CycleKept(s, c) && Onward(s, t)
    ensures CycleKept(t, c)
  {
    assert c.next < |c.snapshot| ==> c.snapshot[c.next] in c.snapshot;
  }

  lemma CycleStepsKeep(s: System, i: nat, r: Call)
    requires Busy(s, i) && CycleKept(s, s.cycles[i])
    ensures !s.cycles[i].row ==> var t := CleanBlobStep(s, i, r); CycleKept(t, t.cycles[i])
    ensures s.cycles[i].row ==> var t := CleanRowStep(s, i, r); CycleKept(t, t.cycles[i])
  {
  }

  lemma StartedCycleKept(age: Age, s: System, e: Event)
    requires Kept(age, s) && Started(s) && Enabled(s, e) && e.BeginCycle?
    ensures var t := Step(age, s, e); CycleKept(t, t.cycles[e.replica])
  {
    forall id | id in e.expired ensures id in s.log.recorded {
      assert FileKept(age, s, id);
    }
  }

  /** A cycle moves on only in its own steps. */
  lemma CyclesElsewhere(age: Age, s: System, e: Event, i: nat)
    requires Started(s) && Enabled(s, e) && i in Step(age, s, e).cycles
    requires e.BeginCycle? || e.CleanBlob? || e.CleanRow? ==> e.replica != i
    ensures i in s.cycles && Step(age, s, e).cycles[i] == s.cycles[i]
  {
  }

  lemma CyclesKept(age: Age, s: System, e: Event)
    requires Kept(age, s) && Started(s) && Enabled(s, e)
    ensures var t := Step(age, s, e); forall i :: i in t.cycles ==> CycleKept(t, t.cycles[i])
  {
    StepOnward(age, s, e);
    forall i | i in Step(age, s, e).cycles ensures CycleKept(Step(age, s, e), Step(age, s, e).cycles[i]) {
      OneCycleKept(age, s, e, i);
    }
  }

  lemma OneCycleKept(age: Age, s: System, e: Event, i: nat)
    requires Kept(age, s) && Started(s) && Enabled(s, e) && Onward(s, Step(age, s, e)) && i in Step(age, s, e).cycles
    ensures CycleKept(Step(age, s, e), Step(age, s, e).cycles[i])
  {
    if (e.CleanBlob? || e.CleanRow?) && e.replica == i {
      CycleStepsKeep(s, i, e.call);
    } else if e.BeginCycle? && e.replica == i {
      StartedCycleKept(age, s, e);
    } else {
      CyclesElsewhere(age, s, e, i);
      CycleBeside(s, Step(age, s, e), s.cycles[i]);
    }
  }

  lemma StepKeeps(age: Age, s: System, e: Event)
    requires Kept(age, s) && Started(s) && Enabled(s, e)
    ensures Kept(age, Step(age, s, e)) && Started(Step(age, s, e))
  {
    FilesKept(age, s, e);
    AllAccounted(age, s, e);
    DeletesKept(age, s, e);
    CyclesKept(age, s, e);
    StepStarted(age, s, e);
  }

  lemma UploadStarted(age: Age, s: System, e: Event)
    requires e.Begin? || e.Save? || e.Insert? || e.RollBack? || e.CrashUpload? || e.Expire?
    requires Counted(s) && Started(s) && Enabled(s, e)
    ensures Started(Step(age, s, e)) && Counted(Step(age, s, e))
  {
  }

  lemma StepStarted(age: Age, s: System, e: Event)
    requires Counted(s) && Started(s) && Enabled(s, e)
    ensures Started(Step(age, s, e)) && Counted(Step(age, s, e))
  {
    match e
    case BeginDelete(_, _) =>
    case DeleteBlob(_, _) =>
    case DeleteRow(_, _) =>
    case CrashDelete(_, _) =>
    case BeginCycle(_, _, _) =>
    case CleanBlob(_, _) =>
    case CleanRow(_, _) =>
    case CrashCycle(_, _) =>
    case _ => UploadStarted(age, s, e);
  }

  // Runs.

  ghost predicate Legal(age: Age, s: System, events: seq<Event>)
    requires Kept(age, s) && Started(s)
    decreases events
  {
    events != [] ==>
      && Enabled(s, events[0])
      && (StepKeeps(age, s, events[0]);
          Legal(age, Step(age, s, events[0]), events[1..]))
  }

  ghost function Run(age: Age, s: System, events: seq<Event>): (t: System)
    requires Kept(age, s) && Started(s) && Legal(age, s, events)
    ensures Kept(age, t) && Started(t)
    decreases events
  {
    if events == [] then s
    else
      StepKeeps(age, s, events[0]);
      Run(age, Step(age, s, events[0]), events[1..])
  }

  lemma StartKept(age: Age)
    ensures Kept(age, START) && Started(START)
  {
  }

  lemma {:induction false} RunOnward(age: Age, s: System, events: seq<Event>)
    requires Kept(age, s) && Started(s) && Legal(age, s, events)
    ensures Onward(s, Run(age, s, events))
    decreases events
  {
    if events != [] {
      StepOnward(age, s, events[0]);
      StepKeeps(age, s, events[0]);
      RunOnward(age, Step(age, s, events[0]), events[1..]);
    }
  }

  ghost predicate Reachable(age: Age, s: System) {
    StartKept(age);
    exists events :: Legal(age, START, events) && s == Run(age, START, events)
  }

  lemma ReachableKept(age: Age, s: System)
    requires Reachable(age, s)
    ensures Kept(age, s) && Started(s)
  {
    StartKept(age);
  }

  // What holds after every run.

  /** A row whose blob is missing is one whose storage delete was attempted. */
  lemma RowWithoutBlob(age: Age, s: System, id: Id)
    requires Reachable(age, s)
    ensures id in s.rows && id !in s.blobs ==> id in s.log.tried
  {
    ReachableKept(age, s);
    assert FileKept(age, s, id);
  }

  function Orphans(s: System): set<Id> {
    set id | id in s.blobs && id !in s.rows
  }

  lemma SmallerSet(a: set<Id>, b: set<Id>)
    requires a <= b
    ensures |a| <= |b|
  {
    assert b == a + (b - a);
  }

  /**
   Blobs without a row belong to uploads still running, to uploads that crashed, or to storage calls that
   returned an error, and so number no more than those together.
   */
  lemma OrphansBounded(age: Age, s: System)
    requires Reachable(age, s)
    ensures Orphans(s) <= s.uploading.Keys + s.log.crashed + s.log.faulted
    ensures |Orphans(s)| <= |s.uploading| + s.log.crashes + s.log.errors
  {
    ReachableKept(age, s);
    forall id | id in Orphans(s) ensures id in s.uploading.Keys + s.log.crashed + s.log.faulted {
      assert FileKept(age, s, id);
    }
    SmallerSet(Orphans(s), s.uploading.Keys + s.log.crashed + s.log.faulted);
    assert |s.uploading.Keys + s.log.crashed| <= |s.uploading.Keys| + |s.log.crashed|;
  }

  /** The row and the exact bytes of an upload. */
  ghost predicate Intact(age: Age, s: System, id: Id) {
    && id in s.log.uploads
    && id in s.blobs && s.blobs[id] == Stored(age, s.log.uploads[id])
    && id in s.rows && Matches(s.rows[id], s.log.uploads[id], LastExpiration(s.log, id))
  }

  /** A file whose upload was answered with success keeps its row and its exact bytes until a delete of it starts. */
  lemma AcknowledgedUploadsLast(age: Age, s: System, id: Id)
    requires Reachable(age, s)
    ensures id in s.log.acked && id !in s.log.tried ==> Intact(age, s, id)
  {
    ReachableKept(age, s);
    assert FileKept(age, s, id);
  }

  /**
   An acknowledged file is lost, from either store, only through a delete begun on it or a cycle at whose
   start its expiration lay in the past.
   */
  lemma LostOnlyByDeleteOrExpiry(age: Age, s: System, id: Id)
    requires Reachable(age, s) && id in s.log.acked
    ensures Intact(age, s, id) || id in s.log.begun
         || exists k :: 0 <= k < |s.log.starts| && id in s.log.starts[k].rows
                        && s.log.starts[k].rows[id].expiration < s.log.starts[k].now
  {
    ReachableKept(age, s);
    AcknowledgedUploadsLast(age, s, id);
    assert Accounted(s, id);
    if HadExpired(s.log.starts, id) {
      var k :| 0 <= k < |s.log.starts| && id in s.log.starts[k].rows
               && ExpiredAt(s.log.starts[k].rows[id], s.log.starts[k].now);
      assert s.log.starts[k].rows[id].expiration < s.log.starts[k].now;
    }
  }

  /** A delete that reported success is final, whatever still runs or runs later. */
  lemma DeletesAreFinal(age: Age, s: System, more: seq<Event>, id: Id)
    requires Kept(age, s) && Started(s) && Legal(age, s, more) && id in s.log.gone
    ensures var t := Run(age, s, more); id !in t.blobs && id !in t.rows
  {
    RunOnward(age, s, more);
    assert FileKept(age, Run(age, s, more), id);
  }

  /**
   A cycle counts each file of its snapshot once; if it finishes without a failure, none of them is in
   either store, in spite of everything that ran beside it.
   */
  lemma CyclesConserve(age: Age, s: System, i: nat)
    requires Reachable(age, s)
    ensures i in s.cycles ==>
              var c := s.cycles[i];
              && c.next <= |c.snapshot| && c.success + c.failure == c.next
              && (c.next == |c.snapshot| && c.failure == 0 ==>
                   forall id :: id in c.snapshot ==> id !in s.blobs && id !in s.rows)
  {
    ReachableKept(age, s);
    if i in s.cycles {
      var c := s.cycles[i];
      assert CycleKept(s, c);
      if c.next == |c.snapshot| && c.failure == 0 {
        forall id | id in c.snapshot ensures id !in s.blobs && id !in s.rows {
          assert FileKept(age, s, id);
        }
      }
    }
  }

  /** And a cycle that finished without a failure has collected all that had expired when it began, and counted it. */
  lemma CyclesCollectExpired(age: Age, s: System, i: nat, id: Id)
    requires Reachable(age, s)
    ensures i in s.cycles ==>
              var c := s.cycles[i];
              && c.start < |s.log.starts|
              && (c.next == |c.snapshot| && c.failure == 0 && id in s.log.starts[c.start].rows
                  && s.log.starts[c.start].rows[id].expiration < s.log.starts[c.start].now ==>
                    id !in s.blobs && id !in s.rows)
  {
    ReachableKept(age, s);
    CyclesConserve(age, s, i);
    if i in s.cycles {
      assert CycleKept(s, s.cycles[i]);
    }
  }

  /** The file a cycle is at. */
  function InWork(s: System, i: nat): set<Id> {
    if Busy(s, i) then {s.cycles[i].snapshot[s.cycles[i].next]} else {}
  }

  /** The files an event may change. */
  function Targets(s: System, e: Event): set<Id> {
    match e
    case DeleteBlob(req, _) => if req in s.deleting then {s.deleting[req].target} else {}
    case DeleteRow(req, _) => if req in s.deleting then {s.deleting[req].target} else {}
    case CrashDelete(req, _) => if req in s.deleting then {s.deleting[req].target} else {}
    case CleanBlob(i, _) => InWork(s, i)
    case CleanRow(i, _) => InWork(s, i)
    case CrashCycle(i, _) => InWork(s, i)
    case BeginCycle(_, _, _) => {}
    case _ => {e.id}
  }

  predicate SameFile(s: System, t: System, id: Id) {
    && (id in s.blobs <==> id in t.blobs) && (id in s.blobs ==> t.blobs[id] == s.blobs[id])
    && (id in s.rows <==> id in t.rows) && (id in s.rows ==> t.rows[id] == s.rows[id])
  }

  lemma UploadTouchesTarget(age: Age, s: System, e: Event, id: Id)
    requires Started(s) && Enabled(s, e) && (e.Begin? || e.Save? || e.Insert? || e.RollBack? || e.CrashUpload?)
    requires id != e.id
    ensures SameFile(s, Step(age, s, e), id)
  {
  }

  lemma CycleTouchesItsFile(s: System, i: nat, call: Call, id: Id)
    requires Busy(s, i) && id !in InWork(s, i)
    ensures SameFile(s, CleanBlobStep(s, i, call), id) && SameFile(s, CleanRowStep(s, i, call), id)
    ensures SameFile(s, CrashCycleStep(s, i, call.Done? || call.took), id)
  {
  }

  lemma DeleteTouchesTarget(age: Age, s: System, e: Event, id: Id)
    requires Started(s) && Enabled(s, e) && (e.BeginDelete? || e.DeleteBlob? || e.DeleteRow? || e.CrashDelete?)
    requires id !in Targets(s, e)
    ensures SameFile(s, Step(age, s, e), id)
  {
  }

  lemma CycleTouchesTarget(age: Age, s: System, e: Event, id: Id)
    requires Started(s) && Enabled(s, e) && (e.BeginCycle? || e.CleanBlob? || e.CleanRow? || e.CrashCycle?)
    requires id !in Targets(s, e)
    ensures SameFile(s, Step(age, s, e), id)
  {
    if e.CleanBlob? || e.CleanRow? {
      CycleTouchesItsFile(s, e.replica, e.call, id);
    } else if e.CrashCycle? && Busy(s, e.replica) {
      CycleTouchesItsFile(s, e.replica, Failed(e.took), id);
    }
  }

  /** Each step leaves every other file alone; a cycle's step touches only the file it is at. */
  lemma StepTouchesOnlyTargets(age: Age, s: System, e: Event, id: Id)
    requires Started(s) && Enabled(s, e) && id !in Targets(s, e)
    ensures SameFile(s, Step(age, s, e), id)
  {
    match e
    case BeginDelete(_, _) => DeleteTouchesTarget(age, s, e, id);
    case DeleteBlob(_, _) => DeleteTouchesTarget(age, s, e, id);
    case DeleteRow(_, _) => DeleteTouchesTarget(age, s, e, id);
    case CrashDelete(_, _) => DeleteTouchesTarget(age, s, e, id);
    case BeginCycle(_, _, _) => CycleTouchesTarget(age, s, e, id);
    case CleanBlob(_, _) => CycleTouchesTarget(age, s, e, id);
    case CleanRow(_, _) => CycleTouchesTarget(age, s, e, id);
    case CrashCycle(_, _) => CycleTouchesTarget(age, s, e, id);
    case Expire(_, _) =>
    case _ => UploadTouchesTarget(age, s, e, id);
  }

  /** What a cycle's step changes had expired when that cycle began, whatever happened since. */
  lemma CycleTouchesOnlyExpired(age: Age, s: System, e: Event, id: Id)
    requires Reachable(age, s) && (e.CleanBlob? || e.CleanRow? || e.CrashCycle?)
    ensures Started(s)
    ensures Enabled(s, e) && !SameFile(s, Step(age, s, e), id) ==>
              && Busy(s, e.replica) && s.cycles[e.replica].start < |s.log.starts|
              && var start := s.log.starts[s.cycles[e.replica].start];
                 id in start.rows && start.rows[id].expiration < start.now
  {
    ReachableKept(age, s);
    if Enabled(s, e) && !SameFile(s, Step(age, s, e), id) {
      if id !in Targets(s, e) {
        StepTouchesOnlyTargets(age, s, e, id);
      }
      WorksOnExpired(s, s.cycles[e.replica]);
    }
  }

  // Stranded blobs.

  /** The cycle has yet to reach the file, or is at it. */
  ghost predicate Pending(c: CyclePc, id: Id) {
    exists k :: c.next <= k < |c.snapshot| && c.snapshot[k] == id
  }

  /** No upload or delete in progress refers to the file, and no cycle but possibly `but`. */
  ghost predicate Unclaimed(s: System, id: Id, but: Option<nat>) {
    && id in s.log.uploads && id !in s.uploading
    && (forall req :: req in s.deleting ==> s.deleting[req].target != id)
    && (forall i :: i in s.cycles && Some(i) != but ==> !Pending(s.cycles[i], id))
  }

  ghost predicate Forgotten(s: System, id: Id) {
    Unclaimed(s, id, None) && id !in s.rows
  }

  /** An orphaned blob nobody refers to any more is never collected. */
  lemma {:induction false} OrphansAreForever(age: Age, s: System, events: seq<Event>, id: Id)
    requires Kept(age, s) && Started(s) && Legal(age, s, events)
    requires Forgotten(s, id) && id in s.blobs
    ensures var t := Run(age, s, events); id !in t.rows && id in t.blobs && t.blobs[id] == s.blobs[id]
    decreases events
  {
    if events != [] {
      StepKeeps(age, s, events[0]);
      StepForgets(age, s, events[0], id);
      OrphansAreForever(age, Step(age, s, events[0]), events[1..], id);
    }
  }

  lemma StepForgets(age: Age, s: System, e: Event, id: Id)
    requires Kept(age, s) && Started(s) && Enabled(s, e) && Forgotten(s, id)
    ensures Forgotten(Step(age, s, e), id) && SameFile(s, Step(age, s, e), id)
  {
    var t := Step(age, s, e);
    StepOnward(age, s, e);
    if e.BeginDelete? || e.Begin? {
      assert e.id != id;
    } else {
      NotTarget(s, e, id);
    }
    StepTouchesOnlyTargets(age, s, e, id);
    StepUnclaimed(age, s, e, id);
  }

  lemma NotTarget(s: System, e: Event, id: Id)
    requires Enabled(s, e) && Forgotten(s, id) && !e.BeginDelete? && !e.Begin?
    ensures id !in Targets(s, e)
  {
    if e.CleanBlob? || e.CleanRow? || e.CrashCycle? {
      assert !Pending(s.cycles[e.replica], id);
    }
  }

  lemma StepUnclaimed(age: Age, s: System, e: Event, id: Id)
    requires Started(s) && Enabled(s, e) && Forgotten(s, id)
    ensures var t := Step(age, s, e);
            && id !in t.uploading
            && (forall req :: req in t.deleting ==> t.deleting[req].target != id)
            && (forall i :: i in t.cycles ==> !Pending(t.cycles[i], id))
  {
    var t := Step(age, s, e);
    forall i | i in t.cycles ensures !Pending(t.cycles[i], id) {
      if e.BeginCycle? && i == e.replica {
        assert id !in e.expired;
      } else {
        assert !Pending(s.cycles[i], id);
        assert s.cycles[i].next <= t.cycles[i].next;
      }
    }
  }

  /** The two calls of cleanupFile, one after the other. */
  ghost function Cleaned(age: Age, s: System, i: nat, storage: Call, database: Call): System
    requires Busy(s, i)
  {
    CleanRowStep(CleanBlobStep(s, i, storage), i, database)
  }

  /**
   A file that had both parts is left with a blob and no row exactly when the storage delete had no effect
   and the row delete had: the row delete is attempted in any case.
   */
  lemma StrandsIff(age: Age, s: System, i: nat, storage: Call, database: Call)
    requires Busy(s, i)
    ensures var id := s.cycles[i].snapshot[s.cycles[i].next];
            var t := Cleaned(age, s, i, storage, database);
            id in s.blobs && id in s.rows ==>
              (id in Orphans(t) <==> storage == Failed(false) && database != Failed(false))
  {
  }

  /**
   From there on, if nothing else was working on the file, every continuation leaves the blob in place and
   the row absent: no later cycle lists the file again.
   */
  lemma StrandedForever(age: Age, s: System, i: nat, storage: Call, database: Call, more: seq<Event>, id: Id)
    requires Kept(age, s) && Started(s) && Busy(s, i) && !s.cycles[i].row
    requires id == s.cycles[i].snapshot[s.cycles[i].next] && Unclaimed(s, id, Some(i))
    requires id in Orphans(Cleaned(age, s, i, storage, database))
    requires Legal(age, s, [CleanBlob(i, storage), CleanRow(i, database)] + more)
    ensures var t := Run(age, s, [CleanBlob(i, storage), CleanRow(i, database)] + more);
            id in Orphans(t) && t.blobs[id] == s.blobs[id]
  {
    var t := RunCleaned(age, s, i, storage, database, more);
    Released(age, s, i, storage, database, id);
    OrphansAreForever(age, t, more, id);
  }

  lemma RunCleaned(age: Age, s: System, i: nat, storage: Call, database: Call, more: seq<Event>) returns (t: System)
    requires Kept(age, s) && Started(s) && Busy(s, i) && !s.cycles[i].row
    requires Legal(age, s, [CleanBlob(i, storage), CleanRow(i, database)] + more)
    ensures t == Cleaned(age, s, i, storage, database) && Kept(age, t) && Started(t) && Legal(age, t, more)
    ensures Run(age, s, [CleanBlob(i, storage), CleanRow(i, database)] + more) == Run(age, t, more)
  {
    var first, second := CleanBlob(i, storage), CleanRow(i, database);
    var rest := [second] + more;
    assert [first, second] + more == [first] + rest;
    LegalRest(age, s, first, rest);
    var s1 := Step(age, s, first);
    LegalRest(age, s1, second, more);
    t := Step(age, s1, second);
  }

  lemma LegalRest(age: Age, s: System, e: Event, rest: seq<Event>)
    requires Kept(age, s) && Started(s) && Legal(age, s, [e] + rest)
    ensures Enabled(s, e)
    ensures var t := Step(age, s, e);
            && Kept(age, t) && Started(t) && Legal(age, t, rest)
            && Run(age, s, [e] + rest) == Run(age, t, rest)
  {
    StepKeeps(age, s, e);
    assert ([e] + rest)[1..] == rest;
  }

  /** The cycle has passed the file, so nothing refers to it any more. */
  lemma Released(age: Age, s: System, i: nat, storage: Call, database: Call, id: Id)
    requires Busy(s, i) && CycleKept(s, s.cycles[i])
    requires id == s.cycles[i].snapshot[s.cycles[i].next] && Unclaimed(s, id, Some(i))
    requires id in Orphans(Cleaned(age, s, i, storage, database))
    ensures var t := Cleaned(age, s, i, storage, database);
            Forgotten(t, id) && id in s.blobs && t.blobs[id] == s.blobs[id]
  {
    var t := Cleaned(age, s, i, storage, database);
    LetGo(s.cycles[i], t.cycles[i], id);
    forall j | j in t.cycles ensures !Pending(t.cycles[j], id) {
      if j != i {
        assert Some(j) != Some(i) && !Pending(s.cycles[j], id);
      }
    }
  }

  lemma LetGo(c: CyclePc, d: CyclePc, id: Id)
    requires NoDuplicates(c.snapshot) && c.next < |c.snapshot| && c.snapshot[c.next] == id
    requires d.snapshot == c.snapshot && d.next == c.next + 1
    ensures !Pending(d, id)
  {
  }

  // One request run alone takes exactly the handler's steps.

  lemma RunOne(age: Age, s: System, e: Event, rest: seq<Event>) returns (t: System)
    requires Kept(age, s) && Started(s) && Enabled(s, e)
    ensures t == Step(age, s, e) && Kept(age, t) && Started(t)
    ensures Legal(age, t, rest) ==> Legal(age, s, [e] + rest) && Run(age, s, [e] + rest) == Run(age, t, rest)
  {
    t := Step(age, s, e);
    StepKeeps(age, s, e);
    assert ([e] + rest)[1..] == rest;
  }

  /** The calls processUpload makes once the upload has begun, given their outcomes. */
  function UploadCalls(id: Id, o: Outcomes): seq<Event> {
    [Save(id, o.save)] + if o.save.Saved? then InsertCalls(id, o) else []
  }

  function InsertCalls(id: Id, o: Outcomes): seq<Event> {
    [Insert(id, o.insert)] + if o.insert.Done? then [] else [RollBack(id, o.rollBack)]
  }

  predicate Answers(t: System, id: Id, r: Result<Id, UploadError>, blobs: Blobs, rows: Rows) {
    && t.blobs == blobs && t.rows == rows
    && id !in t.uploading && (r == Ok(id) <==> id in t.log.acked)
  }

  lemma InsertIsItsSteps(age: Age, s: System, id: Id, o: Outcomes)
    requires Kept(age, s) && Started(s) && id in s.uploading && s.uploading[id].Inserting?
    ensures Legal(age, s, InsertCalls(id, o))
    ensures var rows := InsertIn(s.rows, id, RowOf(s.log.uploads[id]), o.insert);
            Answers(Run(age, s, InsertCalls(id, o)), id, if o.insert.Done? then Ok(id) else Err(InsertError),
                    if o.insert.Done? then s.blobs else DeleteIn(s.blobs, id, o.rollBack), rows)
  {
    assert FileKept(age, s, id);
    if o.insert.Done? {
      var _ := RunOne(age, s, Insert(id, o.insert), []);
    } else {
      assert [RollBack(id, o.rollBack)] + [] == [RollBack(id, o.rollBack)];
      var t := RunOne(age, s, Insert(id, o.insert), [RollBack(id, o.rollBack)]);
      var _ := RunOne(age, t, RollBack(id, o.rollBack), []);
    }
  }

  lemma SaveIsItsSteps(age: Age, s: System, id: Id, o: Outcomes)
    requires Kept(age, s) && Started(s) && id in s.uploading && s.uploading[id].Saving?
    ensures Legal(age, s, UploadCalls(id, o))
    ensures var (r, blobs, rows) := UploadIn(s.blobs, s.rows, Some(age), id, s.log.uploads[id], o);
            Answers(Run(age, s, UploadCalls(id, o)), id, r, blobs, rows)
  {
    assert FileKept(age, s, id);
    if o.save.Saved? {
      var t := RunOne(age, s, Save(id, o.save), InsertCalls(id, o));
      InsertIsItsSteps(age, t, id, o);
    } else {
      var _ := RunOne(age, s, Save(id, o.save), []);
    }
  }

  /** An upload nobody interferes with ends as the handler's specification says. */
  lemma UploadIsItsSteps(age: Age, s: System, id: Id, u: Upload, o: Outcomes)
    requires Kept(age, s) && Started(s) && id !in s.log.uploads
    ensures Legal(age, s, [Begin(id, u)] + UploadCalls(id, o))
    ensures var (r, blobs, rows) := UploadIn(s.blobs, s.rows, Some(age), id, u, o);
            Answers(Run(age, s, [Begin(id, u)] + UploadCalls(id, o)), id, r, blobs, rows)
  {
    var t := RunOne(age, s, Begin(id, u), UploadCalls(id, o));
    SaveIsItsSteps(age, t, id, o);
  }

  /** The calls deleteFile makes, given their outcomes. */
  function DeleteCalls(req: nat, storage: Call, database: Call): seq<Event> {
    [DeleteBlob(req, storage)] + if storage.Done? then [DeleteRow(req, database)] else []
  }

  /** A delete nobody interferes with ends as the handler's specification says. */
  lemma DeleteIsItsSteps(age: Age, s: System, req: nat, id: Id, storage: Call, database: Call)
    requires Kept(age, s) && Started(s) && req !in s.deleting && id in s.rows
    ensures var events := [BeginDelete(req, id)] + DeleteCalls(req, storage, database);
            Legal(age, s, events)
            && var t := Run(age, s, events);
               var (r, blobs, rows) := DeleteFileIn(s.blobs, s.rows, id, storage, database);
               t.blobs == blobs && t.rows == rows && req !in t.deleting && (r.Deleted? <==> id in t.log.gone)
  {
    assert FileKept(age, s, id);
    var t := RunOne(age, s, BeginDelete(req, id), DeleteCalls(req, storage, database));
    if storage.Done? {
      assert [DeleteRow(req, database)] + [] == [DeleteRow(req, database)];
      var u := RunOne(age, t, DeleteBlob(req, storage), [DeleteRow(req, database)]);
      var _ := RunOne(age, u, DeleteRow(req, database), []);
    } else {
      var _ := RunOne(age, t, DeleteBlob(req, storage), []);
    }
  }

  /** The calls performCleanup makes, given their outcomes file by file. */
  function CycleCalls(i: nat, faults: seq<Faults>): seq<Event> {
    if faults == [] then []
    else [CleanBlob(i, faults[0].storage), CleanRow(i, faults[0].database)] + CycleCalls(i, faults[1..])
  }

  /** The stores and the counters of replica i's cycle. */
  predicate CycleAt(t: System, i: nat, ids: seq<Id>, next: nat, c: Cycle) {
    && t.blobs == c.blobs && t.rows == c.rows
    && i in t.cycles && t.cycles[i].snapshot == ids && t.cycles[i].next == next && !t.cycles[i].row
    && t.cycles[i].success == c.success && t.cycles[i].failure == c.failure
  }

  lemma CleanedIsNext(age: Age, s: System, i: nat, blobs: Blobs, rows: Rows, ids: seq<Id>, faults: seq<Faults>, k: nat)
    requires |faults| == |ids| && k < |ids|
    requires CycleAt(s, i, ids, k, CycleIn(blobs, rows, ids[..k], faults[..k]))
    ensures CycleAt(Cleaned(age, s, i, faults[k].storage, faults[k].database), i, ids, k + 1,
                    CycleIn(blobs, rows, ids[..k + 1], faults[..k + 1]))
  {
    assert ids[..k + 1][..k] == ids[..k] && faults[..k + 1][..k] == faults[..k];
  }

  lemma {:induction false} RestOfCycle(
    age: Age, s: System, i: nat, blobs: Blobs, rows: Rows, ids: seq<Id>, faults: seq<Faults>, k: nat)
    requires Kept(age, s) && Started(s) && |faults| == |ids| && k <= |ids|
    requires CycleAt(s, i, ids, k, CycleIn(blobs, rows, ids[..k], faults[..k]))
    ensures var events := CycleCalls(i, faults[k..]);
            Legal(age, s, events)
            && CycleAt(Run(age, s, events), i, ids, |ids|, CycleIn(blobs, rows, ids, faults))
    decreases |ids| - k
  {
    if k == |ids| {
      assert ids[..k] == ids && faults[..k] == faults;
    } else {
      var f := faults[k];
      var rest := CycleCalls(i, faults[k + 1..]);
      assert faults[k..][1..] == faults[k + 1..];
      assert CycleCalls(i, faults[k..]) == [CleanBlob(i, f.storage)] + ([CleanRow(i, f.database)] + rest);
      CleanedIsNext(age, s, i, blobs, rows, ids, faults, k);
      var t := RunOne(age, s, CleanBlob(i, f.storage), [CleanRow(i, f.database)] + rest);
      var u := RunOne(age, t, CleanRow(i, f.database), rest);
      RestOfCycle(age, u, i, blobs, rows, ids, faults, k + 1);
    }
  }

  /** A cycle nobody interferes with ends as PerformCleanup's specification says. */
  lemma CycleIsItsSteps(age: Age, s: System, i: nat, now: int, expired: seq<Id>, faults: seq<Faults>)
    requires Kept(age, s) && Started(s) && !Busy(s, i)
    requires Snapshot(s.rows, now, expired) && |faults| == |expired|
    ensures var events := [BeginCycle(i, now, expired)] + CycleCalls(i, faults);
            Legal(age, s, events)
            && CycleAt(Run(age, s, events), i, expired, |expired|, CycleIn(s.blobs, s.rows, expired, faults))
  {
    var t := RunOne(age, s, BeginCycle(i, now, expired), CycleCalls(i, faults));
    assert faults[0..] == faults;
    RestOfCycle(age, t, i, s.blobs, s.rows, expired, faults, 0);
  }
}
