/**
 The compare-and-swap that throttles the "degraded" warning, with any number of goroutines interleaved
 between reading the clock, loading the last timestamp, swapping it and writing the log line.
 */
module LogThrottle {
  import opened Bytes
  import opened Backoff
  import opened RedisLimiter

  /**
   Loaded also remembers how many timestamps had been stored at the load, Logging which one its own is
   (history only).
   */
  datatype Pc = Idle | Clocked(now: int) | Loaded(now: int, last: int, seen: nat) | Logging(now: int, index: nat)

  /** stamps are the timestamps stored so far, emitted the times at which their warnings were logged. */
  datatype Throttle = Throttle(last: int, pcs: seq<Pc>, stamps: seq<int>, emitted: map<nat, int>)

  datatype Action = ReadClock | Load | Swap | Log

  datatype Event = Event(g: nat, at: int, action: Action)

  /** One step of goroutine g; a step its program counter does not allow does nothing. */
  function Step(s: Throttle, e: Event): (r: Throttle)
    requires e.g < |s.pcs|
    ensures |r.pcs| == |s.pcs|
  {
    match e.action
    case ReadClock =>
      if s.pcs[e.g].Idle? then s.(pcs := s.pcs[e.g := Clocked(e.at)]) else s
    case Load =>
      if s.pcs[e.g].Clocked? then s.(pcs := s.pcs[e.g := Loaded(s.pcs[e.g].now, s.last, |s.stamps|)]) else s
    case Swap =>
      if !s.pcs[e.g].Loaded? then s
      else
        var pc := s.pcs[e.g];
        if !Due(pc.now, pc.last) || s.last != pc.last then s.(pcs := s.pcs[e.g := Idle])
        else s.(last := pc.now, stamps := s.stamps + [pc.now], pcs := s.pcs[e.g := Logging(pc.now, |s.stamps|)])
    case Log =>
      if !s.pcs[e.g].Logging? then s
      else s.(pcs := s.pcs[e.g := Idle], emitted := s.emitted[s.pcs[e.g].index := e.at])
  }

  /** Clock readings are nanoseconds since 1970 in an int64; nothing orders them. */
  predicate Readings(events: seq<Event>, n: nat) {
    forall i :: 0 <= i < |events| ==> events[i].g < n && 0 <= events[i].at <= MAX_INT64
  }

  function Run(s: Throttle, events: seq<Event>): (r: Throttle)
    requires Readings(events, |s.pcs|)
    ensures |r.pcs| == |s.pcs|
    decreases events
  {
    if events == [] then s else Run(Step(s, events[0]), events[1..])
  }

  function Started(n: nat): Throttle {
    Throttle(0, seq(n, _ => Idle), [], map[])
  }

  /** The value `last` held after k warnings. */
  function Chain(stamps: seq<int>, k: nat): int
    requires k <= |stamps|
  {
    if k == 0 then 0 else stamps[k - 1]
  }

  predicate Rises(stamps: seq<int>, k: nat)
    requires k < |stamps|
  {
    0 <= Chain(stamps, k) <= stamps[k] - REDIS_ERROR_LOG_INTERVAL && stamps[k] <= MAX_INT64
  }

  ghost predicate PcKept(s: Throttle, pc: Pc) {
    && (!pc.Idle? ==> 0 <= pc.now <= MAX_INT64)
    && (pc.Loaded? ==> pc.seen <= |s.stamps| && pc.last == Chain(s.stamps, pc.seen))
    && (pc.Logging? ==> pc.index < |s.stamps| && pc.now == s.stamps[pc.index] && pc.index !in s.emitted)
  }

  /** No two goroutines are about to log the same timestamp. */
  predicate LogsApart(s: Throttle) {
    forall g, h :: 0 <= g < h < |s.pcs| && s.pcs[g].Logging? && s.pcs[h].Logging? ==> s.pcs[g].index != s.pcs[h].index
  }

  ghost predicate Kept(s: Throttle) {
    && s.last == Chain(s.stamps, |s.stamps|)
    && (forall k :: k in s.emitted ==> k < |s.stamps|)
    && (forall k :: 0 <= k < |s.stamps| ==> Rises(s.stamps, k))
    && LogsApart(s)
    && forall g :: 0 <= g < |s.pcs| ==> PcKept(s, s.pcs[g])
  }

  lemma {:induction false} ChainRises(s: Throttle, i: nat, j: nat)
    requires Kept(s) && i <= j <= |s.stamps|
    ensures Chain(s.stamps, i) + (j - i) * REDIS_ERROR_LOG_INTERVAL <= Chain(s.stamps, j)
    decreases j
  {
    if i < j {
      ChainRises(s, i, j - 1);
      assert Rises(s.stamps, j - 1);
    }
  }

  /** What a due swap finds: it succeeds exactly when nobody has warned since its load. No ABA. */
  lemma SwapSucceedsIff(s: Throttle, g: nat)
    requires Kept(s) && g < |s.pcs| && s.pcs[g].Loaded?
    ensures s.last == s.pcs[g].last <==> s.pcs[g].seen == |s.stamps|
  {
    if s.pcs[g].seen < |s.stamps| {
      ChainRises(s, s.pcs[g].seen, |s.stamps|);
    }
  }

  lemma LastInRange(s: Throttle)
    requires Kept(s)
    ensures 0 <= s.last <= MAX_INT64
  {
    if s.stamps != [] {
      assert Rises(s.stamps, |s.stamps| - 1);
    }
  }

  lemma StoreKeeps(s: Throttle, e: Event)
    requires Kept(s) && e.g < |s.pcs| && e.action == Swap && Step(s, e).stamps != s.stamps
    ensures Kept(Step(s, e))
  {
    var r := Step(s, e);
    LastInRange(s);
    assert PcKept(s, s.pcs[e.g]);
    forall g | 0 <= g < |s.pcs| ensures PcKept(r, r.pcs[g]) {
      assert PcKept(s, s.pcs[g]);
    }
    forall k | 0 <= k < |r.stamps| ensures Rises(r.stamps, k) {
      if k < |s.stamps| {
        assert Rises(s.stamps, k);
      }
    }
  }

  lemma StepKeeps(s: Throttle, e: Event)
    requires Kept(s) && e.g < |s.pcs| && 0 <= e.at <= MAX_INT64
    ensures Kept(Step(s, e))
  {
    var r := Step(s, e);
    if r.stamps == s.stamps {
      assert forall g :: 0 <= g < |s.pcs| ==> PcKept(s, s.pcs[g]);
    } else {
      StoreKeeps(s, e);
    }
  }

  lemma {:induction false} RunKeeps(s: Throttle, events: seq<Event>)
    requires Kept(s) && Readings(events, |s.pcs|)
    ensures Kept(Run(s, events))
    decreases events
  {
    if events != [] {
      StepKeeps(s, events[0]);
      RunKeeps(Step(s, events[0]), events[1..]);
    }
  }

  /** Main result. Whatever the interleaving, the stored timestamps rise by at least the interval each time. */
  lemma StampsSpaced(n: nat, events: seq<Event>, i: nat, j: nat)
    requires Readings(events, n)
    requires i < j < |Run(Started(n), events).stamps|
    ensures var stamps := Run(Started(n), events).stamps;
            stamps[j] - stamps[i] >= (j - i) * REDIS_ERROR_LOG_INTERVAL
  {
    var s := Run(Started(n), events);
    RunKeeps(Started(n), events);
    ChainRises(s, i + 1, j + 1);
  }

  /** So the warnings stamped within any stretch [from, to] number at most one per interval, plus one. */
  lemma AtMostOnePerInterval(n: nat, events: seq<Event>, i: nat, j: nat, from: int, to: int)
    requires Readings(events, n)
    requires i <= j < |Run(Started(n), events).stamps|
    requires from <= Run(Started(n), events).stamps[i] && Run(Started(n), events).stamps[j] <= to
    ensures (j - i) + 1 <= (to - from) / REDIS_ERROR_LOG_INTERVAL + 1
  {
    var stamps := Run(Started(n), events).stamps;
    if i < j {
      StampsSpaced(n, events, i, j);
    }
    assert (j - i) * REDIS_ERROR_LOG_INTERVAL <= to - from;
  }

  /** A due call stays silent only because another goroutine warned after its load. */
  lemma SilentOnlyIfAnotherWarned(s: Throttle, g: nat, at: int)
    requires Kept(s) && g < |s.pcs| && s.pcs[g].Loaded?
    ensures var pc := s.pcs[g];
            |Step(s, Event(g, at, Swap)).stamps| == |s.stamps| + 1
            <==> pc.now - pc.last >= REDIS_ERROR_LOG_INTERVAL && pc.seen == |s.stamps|
  {
    var pc := s.pcs[g];
    SwapSucceedsIff(s, g);
    assert PcKept(s, pc);
    if pc.seen > 0 {
      assert Rises(s.stamps, pc.seen - 1);
    }
  }

  /** Run alone, the steps are the store's degrade method, and the warning comes out when it is due. */
  lemma AloneIsDegrade(s: Throttle, g: nat, at: int)
    requires Kept(s) && g < |s.pcs| && s.pcs[g].Idle? && 0 <= at <= MAX_INT64
    ensures var swapped := Step(Step(Step(s, Event(g, at, ReadClock)), Event(g, at, Load)), Event(g, at, Swap));
            var r := Step(swapped, Event(g, at, Log));
            && ErrorLog(r.last, |r.stamps|) == DegradeIn(ErrorLog(s.last, |s.stamps|), at)
            && r.stamps == s.stamps + (if Due(at, s.last) then [at] else [])
            && r.emitted == (if Due(at, s.last) then s.emitted[|s.stamps| := at] else s.emitted)
            && r.pcs == s.pcs
  {
    LastInRange(s);
    var clocked := Step(s, Event(g, at, ReadClock));
    var loaded := Step(clocked, Event(g, at, Load));
    assert loaded.pcs == s.pcs[g := Loaded(at, s.last, |s.stamps|)];
    SetTwice(s.pcs, g, Loaded(at, s.last, |s.stamps|), Idle);
    SetTwice(s.pcs, g, Loaded(at, s.last, |s.stamps|), Logging(at, |s.stamps|));
    SetTwice(s.pcs, g, Logging(at, |s.stamps|), Idle);
  }

  lemma SetTwice(pcs: seq<Pc>, g: nat, first: Pc, second: Pc)
    requires g < |pcs|
    ensures pcs[g := first][g := second] == pcs[g := second] && (pcs[g] == second ==> pcs[g := second] == pcs)
  {
  }

  /** Every stored timestamp is logged once: it has been, or one goroutine is about to. */
  ghost predicate Accounted(s: Throttle, k: nat) {
    k in s.emitted || exists g :: 0 <= g < |s.pcs| && s.pcs[g].Logging? && s.pcs[g].index == k
  }

  lemma StepAccounts(s: Throttle, e: Event, k: nat)
    requires e.g < |s.pcs| && k < |Step(s, e).stamps| && (k < |s.stamps| ==> Accounted(s, k))
    ensures Accounted(Step(s, e), k)
  {
    var r := Step(s, e);
    if k < |s.stamps| && k !in s.emitted {
      var g :| 0 <= g < |s.pcs| && s.pcs[g].Logging? && s.pcs[g].index == k;
      assert g != e.g ==> r.pcs[g] == s.pcs[g];
    } else if k !in s.emitted {
      assert r.pcs[e.g].Logging? && r.pcs[e.g].index == k;
    }
  }

  lemma {:induction false} RunAccounts(s: Throttle, events: seq<Event>, k: nat)
    requires Readings(events, |s.pcs|) && k < |Run(s, events).stamps|
    requires forall j :: 0 <= j < |s.stamps| ==> Accounted(s, j)
    ensures Accounted(Run(s, events), k)
    decreases events
  {
    if events != [] {
      var next := Step(s, events[0]);
      forall j | 0 <= j < |next.stamps| ensures Accounted(next, j) {
        StepAccounts(s, events[0], j);
      }
      RunAccounts(next, events[1..], k);
    }
  }

  /** No stored timestamp is lost and none is logged twice: one log line each, written or about to be. */
  lemma OneLineEach(n: nat, events: seq<Event>, k: nat)
    requires Readings(events, n) && k < |Run(Started(n), events).stamps|
    ensures var s := Run(Started(n), events);
            && Accounted(s, k) && LogsApart(s)
            && (k in s.emitted ==> forall g :: 0 <= g < |s.pcs| && s.pcs[g].Logging? ==> s.pcs[g].index != k)
  {
    var s := Run(Started(n), events);
    RunKeeps(Started(n), events);
    RunAccounts(Started(n), events, k);
    assert forall g :: 0 <= g < |s.pcs| ==> PcKept(s, s.pcs[g]);
  }

  // The interval is kept between timestamps, which are read before the warning is logged.

  predicate Ordered(events: seq<Event>, now: int) {
    events == [] || (now <= events[0].at && Ordered(events[1..], events[0].at))
  }

  /** Every log line comes at most `delay` after its goroutine read the clock. */
  predicate Prompt(s: Throttle, events: seq<Event>, delay: int)
    requires Readings(events, |s.pcs|)
    decreases events
  {
    events != [] ==>
      && (events[0].action == Log && s.pcs[events[0].g].Logging? ==> events[0].at - s.pcs[events[0].g].now <= delay)
      && Prompt(Step(s, events[0]), events[1..], delay)
  }

  ghost predicate OnTime(s: Throttle, delay: int) {
    forall k :: k in s.emitted ==> k < |s.stamps| && s.stamps[k] <= s.emitted[k] <= s.stamps[k] + delay
  }

  ghost predicate EmittedWithin(s: Throttle, delay: int, now: int) {
    && OnTime(s, delay)
    && (forall g :: 0 <= g < |s.pcs| && !s.pcs[g].Idle? ==> s.pcs[g].now <= now)
    && (forall g :: 0 <= g < |s.pcs| && s.pcs[g].Logging? ==>
         s.pcs[g].index < |s.stamps| && s.stamps[s.pcs[g].index] == s.pcs[g].now)
  }

  lemma {:induction false} RunEmitsWithin(s: Throttle, events: seq<Event>, delay: int, now: int)
    requires EmittedWithin(s, delay, now) && Readings(events, |s.pcs|) && Ordered(events, now)
    requires Prompt(s, events, delay)
    ensures OnTime(Run(s, events), delay)
    decreases events
  {
    if events != [] {
      RunEmitsWithin(Step(s, events[0]), events[1..], delay, events[0].at);
    }
  }

  /** If no call takes longer than `delay`, warnings come out at least interval - delay apart... */
  lemma EmissionsSpaced(n: nat, events: seq<Event>, delay: int, i: nat, j: nat)
    requires Readings(events, n) && Ordered(events, 0) && Prompt(Started(n), events, delay)
    requires i < j && var r := Run(Started(n), events); i in r.emitted && j in r.emitted
    ensures var r := Run(Started(n), events);
            r.emitted[j] - r.emitted[i] >= (j - i) * REDIS_ERROR_LOG_INTERVAL - delay
  {
    RunEmitsWithin(Started(n), events, delay, 0);
    StampsSpaced(n, events, i, j);
  }

  /** One goroutine is held up between swap and log line, the other is not. */
  function HeldUp(delay: int): seq<Event> {
    var t := REDIS_ERROR_LOG_INTERVAL;
    [Event(0, t, ReadClock), Event(0, t, Load), Event(0, t, Swap), Event(0, t + delay, Log),
     Event(1, 2 * t, ReadClock), Event(1, 2 * t, Load), Event(1, 2 * t, Swap), Event(1, 2 * t, Log)]
  }

  /** The events take s to r, in order from `now` on and with no call slower than `delay`. */
  ghost predicate Leads(s: Throttle, events: seq<Event>, delay: int, now: int, r: Throttle) {
    Readings(events, |s.pcs|) && Ordered(events, now) && Prompt(s, events, delay) && Run(s, events) == r
  }

  lemma LeadsFrom(s: Throttle, e: Event, rest: seq<Event>, delay: int, now: int, r: Throttle)
    requires e.g < |s.pcs| && 0 <= now <= e.at <= MAX_INT64
    requires Leads(Step(s, e), rest, delay, e.at, r)
    requires e.action == Log && s.pcs[e.g].Logging? ==> e.at - s.pcs[e.g].now <= delay
    ensures Leads(s, [e] + rest, delay, now, r)
  {
    assert ([e] + rest)[1..] == rest;
  }

  lemma FirstWarning(delay: int, s4: Throttle, rest: seq<Event>, r: Throttle)
    requires 0 <= delay <= REDIS_ERROR_LOG_INTERVAL
    requires s4 == Throttle(REDIS_ERROR_LOG_INTERVAL, [Idle, Idle], [REDIS_ERROR_LOG_INTERVAL],
                            map[0 := REDIS_ERROR_LOG_INTERVAL + delay])
    requires Leads(s4, rest, delay, REDIS_ERROR_LOG_INTERVAL + delay, r)
    ensures var e := HeldUp(delay);
            Leads(Started(2), [e[0]] + ([e[1]] + ([e[2]] + ([e[3]] + rest))), delay, 0, r)
  {
    var t, e := REDIS_ERROR_LOG_INTERVAL, HeldUp(delay);
    var s1 := Throttle(0, [Clocked(t), Idle], [], map[]);
    var s2 := Throttle(0, [Loaded(t, 0, 0), Idle], [], map[]);
    var s3 := Throttle(t, [Logging(t, 0), Idle], [t], map[]);
    assert Step(s3, e[3]) == s4;
    LeadsFrom(s3, e[3], rest, delay, t, r);
    assert Step(s2, e[2]) == s3;
    LeadsFrom(s2, e[2], [e[3]] + rest, delay, t, r);
    assert Step(s1, e[1]) == s2;
    LeadsFrom(s1, e[1], [e[2]] + ([e[3]] + rest), delay, t, r);
    assert Step(Started(2), e[0]) == s1;
    LeadsFrom(Started(2), e[0], [e[1]] + ([e[2]] + ([e[3]] + rest)), delay, 0, r);
  }

  lemma SecondWarning(delay: int, s4: Throttle, r: Throttle)
    requires 0 <= delay <= REDIS_ERROR_LOG_INTERVAL
    requires var t := REDIS_ERROR_LOG_INTERVAL;
             && s4 == Throttle(t, [Idle, Idle], [t], map[0 := t + delay])
             && r == Throttle(2 * t, [Idle, Idle], [t, 2 * t], map[0 := t + delay, 1 := 2 * t])
    ensures var e := HeldUp(delay);
            Leads(s4, [e[4]] + ([e[5]] + ([e[6]] + ([e[7]] + []))), delay, REDIS_ERROR_LOG_INTERVAL + delay, r)
  {
    var t, e := REDIS_ERROR_LOG_INTERVAL, HeldUp(delay);
    var s5 := Throttle(t, [Idle, Clocked(2 * t)], [t], map[0 := t + delay]);
    var s6 := Throttle(t, [Idle, Loaded(2 * t, t, 1)], [t], map[0 := t + delay]);
    var s7 := Throttle(2 * t, [Idle, Logging(2 * t, 1)], [t, 2 * t], map[0 := t + delay]);
    assert Step(s7, e[7]) == r;
    LeadsFrom(s7, e[7], [], delay, 2 * t, r);
    assert Step(s6, e[6]) == s7;
    LeadsFrom(s6, e[6], [e[7]] + [], delay, 2 * t, r);
    assert Step(s5, e[5]) == s6;
    LeadsFrom(s5, e[5], [e[6]] + ([e[7]] + []), delay, 2 * t, r);
    assert Step(s4, e[4]) == s5;
    LeadsFrom(s4, e[4], [e[5]] + ([e[6]] + ([e[7]] + [])), delay, t + delay, r);
  }

  /** ...and no closer bound holds: two warnings exactly interval - delay apart, for every delay up to the interval. */
  lemma EmissionBoundIsTight(delay: int)
    requires 0 <= delay <= REDIS_ERROR_LOG_INTERVAL
    ensures Readings(HeldUp(delay), 2) && Ordered(HeldUp(delay), 0) && Prompt(Started(2), HeldUp(delay), delay)
    ensures var r := Run(Started(2), HeldUp(delay));
            && 0 in r.emitted && 1 in r.emitted
            && r.emitted[1] - r.emitted[0] == REDIS_ERROR_LOG_INTERVAL - delay
  {
    var t, e := REDIS_ERROR_LOG_INTERVAL, HeldUp(delay);
    var s4 := Throttle(t, [Idle, Idle], [t], map[0 := t + delay]);
    var r := Throttle(2 * t, [Idle, Idle], [t, 2 * t], map[0 := t + delay, 1 := 2 * t]);
    SecondWarning(delay, s4, r);
    var rest := [e[4]] + ([e[5]] + ([e[6]] + ([e[7]] + [])));
    FirstWarning(delay, s4, rest, r);
    assert e == [e[0]] + ([e[1]] + ([e[2]] + ([e[3]] + rest)));
  }
}
