/**
 The Postgres session-level advisory lock that keeps cleanup cycles apart: TryLock pins a pooled
 connection and locks on its session; release unlocks and returns it, or discards it if unlocking failed.
 A connection and its session share one number; sessions are never reused.
 */
module CleanupLock {
  import opened Wrappers
  import opened FileStores

  /** The server's view: live sessions, and who holds the lock how many times over. */
  datatype Server = Server(alive: set<nat>, holder: Option<nat>, depth: nat)

  /** pg_try_advisory_lock: free or already ours; a session may stack it. */
  function TryIn(s: Server, c: nat): (bool, Server) {
    if c !in s.alive then (false, s)
    else if s.holder.None? then (true, s.(holder := Some(c), depth := 1))
    else if s.holder == Some(c) then (true, s.(depth := s.depth + 1))
    else (false, s)
  }

  /** pg_advisory_unlock: drops one level, and the lock with the last. */
  function UnlockIn(s: Server, c: nat): Server {
    if s.holder != Some(c) then s
    else if s.depth <= 1 then s.(holder := None, depth := 0)
    else s.(depth := s.depth - 1)
  }

  /** When a session ends, Postgres frees what it held. */
  function EndIn(s: Server, c: nat): Server {
    var left := s.(alive := s.alive - {c});
    if s.holder == Some(c) then left.(holder := None, depth := 0) else left
  }

  /**
   How a query on a connection comes out. After an error the statement may have run (took); the driver
   then treats the connection as broken, while a connection that survives an error ran nothing.
   */
  datatype Query = Answered | Broken(took: bool) | Rejected

  datatype LockError = NoConnection | QueryFailed

  /** What TryLock answers and leaves of the server and the replica's pool, given a connection. */
  function LockIn(s: Server, idle: set<nat>, c: nat, q: Query): (Result<bool, LockError>, Server, set<nat>) {
    match q
    case Answered =>
      var (locked, next) := TryIn(s, c);
      (Ok(locked), next, if locked then idle - {c} else idle + {c})
    case Broken(took) => (Err(QueryFailed), if took then TryIn(s, c).1 else s, idle - {c})
    case Rejected => (Err(QueryFailed), s, idle + {c})
  }

  /** What release leaves of them. */
  function ReleaseIn(s: Server, idle: set<nat>, c: nat, q: Query): (Server, set<nat>) {
    (if q.Answered? || (q.Broken? && q.took) then UnlockIn(s, c) else s, if q.Answered? then idle + {c} else idle)
  }

  // The handlers' own form.

  class Postgres {
    var server: Server
    // Idle connections of this replica's pool.
    var idle: set<nat>

    constructor (server: Server, idle: set<nat>)
      ensures this.server == server && this.idle == idle
    {
      this.server, this.idle := server, idle;
    }

    /** conn.Close returns the connection to the pool unless the driver saw it break. */
    method CloseConn(c: nat, broken: bool)
      modifies this`idle
      ensures idle == if broken then old(idle) else old(idle) + {c}
    {
      if !broken {
        idle := idle + {c};
      }
    }

    /** TryLock on the connection db.Conn gave, an idle or a new one, if any; false means held elsewhere. */
    method TryLock(conn: Option<nat>, q: Query) returns (r: Result<bool, LockError>)
      requires conn.Some? && q.Answered? ==> conn.value in server.alive
      modifies this
      ensures conn.None? ==> r == Err(NoConnection) && server == old(server) && idle == old(idle)
      ensures conn.Some? ==> (r, server, idle) == LockIn(old(server), old(idle), conn.value, q)
    {
      if conn.None? {
        return Err(NoConnection);
      }
      var c := conn.value;
      idle := idle - {c};
      if !q.Answered? {
        if q.Broken? && q.took {
          server := TryIn(server, c).1;
        }
        CloseConn(c, q.Broken?);
        assert old(idle) - {c} + {c} == old(idle) + {c};
        return Err(QueryFailed);
      }
      var (locked, next) := TryIn(server, c);
      server := next;
      if !locked {
        CloseConn(c, false);
        assert old(idle) - {c} + {c} == old(idle) + {c};
        return Ok(false);
      }
      r := Ok(true);
    }

    /** The release closure: an unlock error poisons the connection before it is closed. */
    method Release(c: nat, q: Query)
      modifies this
      ensures (server, idle) == ReleaseIn(old(server), old(idle), c, q)
    {
      if q.Answered? || (q.Broken? && q.took) {
        server := UnlockIn(server, c);
      }
      var broken := !q.Answered?;
      CloseConn(c, broken);
    }
  }

  /** runCleanupCycle: skipped without the lock, otherwise one cycle and then the release. */
  method RunCleanupCycle(db: Postgres, s: Stores, conn: Option<nat>, lock: Query, unlock: Query,
                         now: int, expired: Option<seq<Id>>, faults: seq<Faults>)
    returns (ran: bool, success: nat, failure: nat)
    requires conn.Some? && lock.Answered? ==> conn.value in db.server.alive
    requires expired.Some? ==> Snapshot(s.rows, now, expired.value) && |faults| == |expired.value|
    modifies db, s
    ensures ran <==> conn.Some? && lock.Answered? && TryIn(old(db.server), conn.value).0
    ensures !ran || expired.None? ==> s.blobs == old(s.blobs) && s.rows == old(s.rows) && success == failure == 0
    ensures ran && expired.Some? ==>
              Cycle(s.blobs, s.rows, success, failure)
              == CycleIn(old(s.blobs), old(s.rows), expired.value, faults)
    ensures ran && unlock.Answered? ==>
              && db.server == UnlockIn(TryIn(old(db.server), conn.value).1, conn.value)
              && db.idle == old(db.idle) + {conn.value}
    ensures ran && !unlock.Answered? ==> conn.value !in db.idle
  {
    ran, success, failure := false, 0, 0;
    var r := db.TryLock(conn, lock);
    if r.Err? {
      return;
    }
    if !r.value {
      return;
    }
    ran := true;
    if expired.Some? {
      success, failure := PerformCleanup(s, now, expired.value, faults);
    }
    db.Release(conn.value, unlock);
  }

  // All replicas together.

  datatype Where = Pooled(replica: nat) | Pinned(replica: nat) | Discarded

  datatype Pc = Idle | HasConn(conn: nat) | In(conn: nat)

  datatype Cluster = Cluster(server: Server, conns: map<nat, Where>, pcs: seq<Pc>)

  datatype Event =
    | Dial(replica: nat, conn: nat)
    | Checkout(replica: nat, conn: nat)
    | TryQuery(replica: nat, query: Query)
    | Unlock(replica: nat, query: Query)
    | Drop(conn: nat)
    | SessionEnds(conn: nat)
    | Crash(replica: nat)

  function Start(n: nat): Cluster {
    Cluster(Server({}, None, 0), map[], seq(n, _ => Idle))
  }

  predicate Enabled(s: Cluster, e: Event) {
    match e
    case Dial(i, c) => i < |s.pcs| && c !in s.conns
    case Checkout(i, c) => i < |s.pcs| && s.pcs[i].Idle? && c in s.conns && s.conns[c] == Pooled(i)
    case TryQuery(i, q) => i < |s.pcs| && s.pcs[i].HasConn? && (q.Answered? ==> s.pcs[i].conn in s.server.alive)
    case Unlock(i, q) => i < |s.pcs| && s.pcs[i].In? && (q.Answered? ==> s.pcs[i].conn in s.server.alive)
    case Drop(c) => c in s.conns && s.conns[c].Pooled?
    case SessionEnds(c) => c in s.server.alive
    case Crash(i) => i < |s.pcs|
  }

  /** A connection back in its pool, or dropped. */
  function Closed(s: Cluster, i: nat, c: nat, broken: bool): Cluster
    requires i < |s.pcs|
  {
    s.(conns := s.conns[c := if broken then Discarded else Pooled(i)], pcs := s.pcs[i := Idle])
  }

  function TryStep(s: Cluster, i: nat, q: Query): Cluster
    requires i < |s.pcs| && s.pcs[i].HasConn?
  {
    var c := s.pcs[i].conn;
    var (locked, server) := TryIn(s.server, c);
    match q
    case Answered =>
      if locked then s.(server := server, pcs := s.pcs[i := In(c)]) else Closed(s, i, c, false)
    case Broken(took) => Closed(s.(server := if took then server else s.server), i, c, true)
    case Rejected => Closed(s, i, c, false)
  }

  function UnlockStep(s: Cluster, i: nat, q: Query): Cluster
    requires i < |s.pcs| && s.pcs[i].In?
  {
    var c := s.pcs[i].conn;
    var unlocked := s.(server := UnlockIn(s.server, c));
    match q
    case Answered => Closed(unlocked, i, c, false)
    case Broken(took) => Closed(if took then unlocked else s, i, c, true)
    case Rejected => Closed(s, i, c, true)
  }

  /** A process that dies loses its connections; its sessions end when the server notices. */
  function CrashStep(s: Cluster, i: nat): Cluster
    requires i < |s.pcs|
  {
    s.(conns := map c | c in s.conns :: if s.conns[c] in {Pooled(i), Pinned(i)} then Discarded else s.conns[c],
       pcs := s.pcs[i := Idle])
  }

  function Step(s: Cluster, e: Event): Cluster
    requires Enabled(s, e)
  {
    match e
    case Dial(i, c) => s.(conns := s.conns[c := Pooled(i)], server := s.server.(alive := s.server.alive + {c}))
    case Checkout(i, c) => s.(conns := s.conns[c := Pinned(i)], pcs := s.pcs[i := HasConn(c)])
    case TryQuery(i, q) => TryStep(s, i, q)
    case Unlock(i, q) => UnlockStep(s, i, q)
    case Drop(c) => s.(conns := s.conns[c := Discarded])
    case SessionEnds(c) => s.(server := EndIn(s.server, c))
    case Crash(i) => CrashStep(s, i)
  }

  /** The idle connections of one replica. */
  function PoolOf(s: Cluster, i: nat): set<nat> {
    set c | c in s.conns && s.conns[c] == Pooled(i)
  }

  predicate OtherPoolsSame(s: Cluster, t: Cluster, i: nat) {
    forall c :: c in s.conns && s.conns[c].Pooled? && s.conns[c].replica != i ==>
      c in t.conns && t.conns[c] == s.conns[c]
  }

  /** A step of one replica is its TryLock: same answer, same server, same pool. */
  lemma TryStepIsTryLock(s: Cluster, i: nat, q: Query)
    requires Kept(s) && Enabled(s, TryQuery(i, q))
    ensures var c := s.pcs[i].conn;
            var t := Step(s, TryQuery(i, q));
            var (r, server, idle) := LockIn(s.server, PoolOf(s, i), c, q);
            && t.server == server && PoolOf(t, i) == idle && OtherPoolsSame(s, t, i)
            && t.pcs[i] == if r == Ok(true) then In(c) else Idle
  {
    assert PcKept(s, i);
    PoolAfter(s, Step(s, TryQuery(i, q)), i, s.pcs[i].conn);
  }

  lemma PoolAfter(s: Cluster, t: Cluster, i: nat, c: nat)
    requires c in s.conns && s.conns[c] == Pinned(i) && t.conns.Keys == s.conns.Keys
    requires forall d :: d in s.conns && d != c ==> t.conns[d] == s.conns[d]
    ensures t.conns[c] == Pooled(i) ==> PoolOf(t, i) == PoolOf(s, i) + {c}
    ensures t.conns[c] != Pooled(i) ==> PoolOf(t, i) == PoolOf(s, i) && PoolOf(s, i) == PoolOf(s, i) - {c}
  {
    forall d ensures d in PoolOf(t, i) <==> if d == c then t.conns[c] == Pooled(i) else d in PoolOf(s, i) {
    }
  }

  /** Likewise for its release. */
  lemma UnlockStepIsRelease(s: Cluster, i: nat, q: Query)
    requires Kept(s) && Enabled(s, Unlock(i, q))
    ensures var c := s.pcs[i].conn;
            var t := Step(s, Unlock(i, q));
            && (t.server, PoolOf(t, i)) == ReleaseIn(s.server, PoolOf(s, i), c, q) && OtherPoolsSame(s, t, i)
            && t.pcs[i].Idle?
  {
    assert PcKept(s, i);
    PoolAfter(s, Step(s, Unlock(i, q)), i, s.pcs[i].conn);
  }

  /** The pinned connection of a replica is the one its program counter names. */
  ghost predicate PcKept(s: Cluster, i: nat)
    requires i < |s.pcs|
  {
    && (!s.pcs[i].Idle? ==> s.pcs[i].conn in s.conns && s.conns[s.pcs[i].conn] == Pinned(i))
    && (s.pcs[i].In? && s.pcs[i].conn in s.server.alive ==> s.server.holder == Some(s.pcs[i].conn))
  }

  ghost predicate HolderKept(s: Cluster) {
    match s.server.holder
    case None => s.server.depth == 0
    case Some(c) =>
      && c in s.server.alive && s.server.depth == 1 && c in s.conns
      && (s.conns[c].Discarded?
          || (s.conns[c].Pinned? && s.conns[c].replica < |s.pcs| && s.pcs[s.conns[c].replica] == In(c)))
  }

  ghost predicate Kept(s: Cluster) {
    && (forall i :: 0 <= i < |s.pcs| ==> PcKept(s, i))
    && HolderKept(s)
    && (forall c :: c in s.server.alive ==> c in s.conns)
  }

  lemma StepKeeps(s: Cluster, e: Event)
    requires Kept(s) && Enabled(s, e)
    ensures Kept(Step(s, e))
  {
    var t := Step(s, e);
    forall i | 0 <= i < |t.pcs| ensures PcKept(t, i) {
      assert PcKept(s, i);
      if e.TryQuery? || e.Unlock? || e.Checkout? || e.Crash? {
        assert PcKept(s, e.replica);
      }
    }
    if e.TryQuery? || e.Unlock? || e.Checkout? {
      assert PcKept(s, e.replica);
    }
  }

  predicate Legal(s: Cluster, events: seq<Event>)
    decreases events
  {
    events != [] ==> Enabled(s, events[0]) && Legal(Step(s, events[0]), events[1..])
  }

  function Run(s: Cluster, events: seq<Event>): Cluster
    requires Legal(s, events)
    decreases events
  {
    if events == [] then s else Run(Step(s, events[0]), events[1..])
  }

  lemma {:induction false} RunKeeps(s: Cluster, events: seq<Event>)
    requires Kept(s) && Legal(s, events)
    ensures Kept(Run(s, events))
    decreases events
  {
    if events != [] {
      StepKeeps(s, events[0]);
      RunKeeps(Step(s, events[0]), events[1..]);
    }
  }

  /** At most one replica is inside a cycle with a live session. */
  lemma AtMostOneInside(n: nat, events: seq<Event>, i: nat, j: nat)
    requires Legal(Start(n), events)
    requires var s := Run(Start(n), events);
             i < |s.pcs| && j < |s.pcs| && s.pcs[i].In? && s.pcs[j].In?
             && s.pcs[i].conn in s.server.alive && s.pcs[j].conn in s.server.alive
    ensures i == j
  {
    RunKeeps(Start(n), events);
    var s := Run(Start(n), events);
    assert PcKept(s, i) && PcKept(s, j);
  }

  /** No connection in a pool holds the lock, also after failed lock and unlock queries. */
  lemma NoPooledConnectionHolds(n: nat, events: seq<Event>, c: nat)
    requires Legal(Start(n), events)
    ensures var s := Run(Start(n), events);
            c in s.conns && s.conns[c].Pooled? ==> s.server.holder != Some(c)
  {
    RunKeeps(Start(n), events);
  }

  /**
   The lock never leaks: whoever holds it holds it once, and is either a replica inside a cycle or a
   discarded connection whose session has not ended yet; a replica inside with a live session holds it.
   */
  lemma HeldOnlyForAReason(n: nat, events: seq<Event>)
    requires Legal(Start(n), events)
    ensures var s := Run(Start(n), events);
            && (s.server.holder.Some? ==>
                 var c := s.server.holder.value;
                 && c in s.server.alive && c in s.conns && s.server.depth == 1
                 && (s.conns[c].Discarded? || exists i :: 0 <= i < |s.pcs| && s.pcs[i] == In(c)))
            && (forall i :: 0 <= i < |s.pcs| && s.pcs[i].In? && s.pcs[i].conn in s.server.alive ==>
                 s.server.holder == Some(s.pcs[i].conn))
  {
    RunKeeps(Start(n), events);
    var s := Run(Start(n), events);
    forall i | 0 <= i < |s.pcs| && s.pcs[i].In? && s.pcs[i].conn in s.server.alive
      ensures s.server.holder == Some(s.pcs[i].conn)
    {
      assert PcKept(s, i);
    }
  }

  /** An answered attempt gets the lock exactly when nobody holds it: pooled sessions never stack it. */
  lemma AttemptSucceedsIffFree(n: nat, events: seq<Event>, i: nat)
    requires Legal(Start(n), events) && Enabled(Run(Start(n), events), TryQuery(i, Answered))
    ensures var s := Run(Start(n), events);
            Step(s, TryQuery(i, Answered)).pcs[i].In? <==> s.server.holder.None?
  {
    RunKeeps(Start(n), events);
    assert PcKept(Run(Start(n), events), i);
  }

  /**
   What TryLock relies on: it closes a connection after a failed query without poisoning it. If such a query
   took the lock and the driver kept the connection, the pool would hold the lock.
   */
  lemma SurvivingErrorWouldLeak(s: Cluster, i: nat)
    requires Kept(s) && Enabled(s, TryQuery(i, Answered)) && s.server.holder.None?
    ensures var c := s.pcs[i].conn;
            var t := Closed(s.(server := TryIn(s.server, c).1), i, c, false);
            t.conns[c] == Pooled(i) && t.server.holder == Some(c) && !Kept(t)
  {
    assert PcKept(s, i);
    var c := s.pcs[i].conn;
    var t := Closed(s.(server := TryIn(s.server, c).1), i, c, false);
    assert !HolderKept(t);
  }
}
