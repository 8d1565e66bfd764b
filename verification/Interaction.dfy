/**
 The display-interaction boost: binder threads call Acquire, one worker thread
 loops through Routine, and Exit stops it.  Every section that runs under the
 handler's mutex is one atomic step; the worker's position between those
 sections is explicit, as are the eventfd counter that aborts a wait and the
 condition variable the worker sleeps on.
 */
module Interaction {
  import opened Bits
  import opened Common

  const NS_PER_MS: int := 1_000_000
  const NS_PER_SEC: int := 1_000_000_000
  /** CLOCK_MONOTONIC readings are 63-bit nanosecond counts. */
  const CLOCK_LIMIT: int := 0x8000_0000_0000_0000

  // ---- Configuration and time ----

  /** System properties, all read as unsigned 32-bit integers. */
  datatype Config = Config(idleSupport: bool, minMs: nat, maxMs: nat, offsetMs: nat) {
    predicate Valid() {
      minMs < TWO_32 && maxMs < TWO_32 && offsetMs < TWO_32
    }
    /** Exactly the settings under which every grant is within the limits (GrantWithinLimits). */
    predicate Ordered() {
      Valid() && minMs <= maxMs < TWO_31
    }
  }

  datatype Timespec = Timespec(sec: int, nsec: int)

  function At(ns: nat): Timespec {
    Timespec(ns / NS_PER_SEC, ns % NS_PER_SEC)
  }

  /** The difference as the code computes it, in 64-bit unsigned arithmetic. */
  function CalcTimespecDiffMs(start: Timespec, end: Timespec): nat {
    ((end.sec - start.sec) * 1000 + TruncDiv(end.nsec - start.nsec, NS_PER_MS)) % TWO_64
  }

  lemma DiffOfParts(ds: int, dn: int)
    ensures var d := ds * 1000 + TruncDiv(dn, NS_PER_MS);
            && ds * NS_PER_SEC + dn - NS_PER_MS < d * NS_PER_MS < ds * NS_PER_SEC + dn + NS_PER_MS
            && (if dn >= 0 then d * NS_PER_MS <= ds * NS_PER_SEC + dn else d * NS_PER_MS >= ds * NS_PER_SEC + dn)
  {
  }

  lemma DiffDoesNotWrap(s: Timespec, e: Timespec)
    requires 0 <= s.nsec < NS_PER_SEC && 0 <= e.nsec < NS_PER_SEC && 0 <= s.sec <= e.sec < CLOCK_LIMIT / NS_PER_SEC + 1
    requires s.sec == e.sec ==> s.nsec <= e.nsec
    ensures CalcTimespecDiffMs(s, e) == (e.sec - s.sec) * 1000 + TruncDiv(e.nsec - s.nsec, NS_PER_MS)
  {
    var t := TruncDiv(e.nsec - s.nsec, NS_PER_MS);
    assert -1000 < t < 1000 && (s.sec == e.sec ==> t >= 0);
    assert 0 <= (e.sec - s.sec) * 1000 + t < TWO_64;
  }

  /** On a monotonic clock the computed difference is less than 1 ms off, and exact between whole milliseconds. It is
      rounded down unless the nanoseconds within the second went back, and up if they did. */
  lemma DiffWithinOneMs(start: nat, end: nat)
    requires start <= end < CLOCK_LIMIT
    ensures var d := CalcTimespecDiffMs(At(start), At(end)) * NS_PER_MS;
            && end - start - NS_PER_MS < d < end - start + NS_PER_MS
            && (start % NS_PER_MS == 0 && end % NS_PER_MS == 0 ==> d == end - start)
            && (start % NS_PER_SEC <= end % NS_PER_SEC ==> d <= end - start)
            && (start % NS_PER_SEC > end % NS_PER_SEC ==> d >= end - start)
  {
    var s, e := At(start), At(end);
    AtParts(start);
    AtParts(end);
    DiffDoesNotWrap(s, e);
    DiffOfParts(e.sec - s.sec, e.nsec - s.nsec);
    if start % NS_PER_MS == 0 && end % NS_PER_MS == 0 {
      WholeMs(s.nsec, e.nsec);
    }
  }

  lemma AtParts(ns: nat)
    ensures var t := At(ns);
            && ns == t.sec * NS_PER_SEC + t.nsec && 0 <= t.nsec < NS_PER_SEC
            && t.nsec % NS_PER_MS == ns % NS_PER_MS
  {
    var t := At(ns);
    assert ns == (t.sec * 1000) * NS_PER_MS + t.nsec;
  }

  lemma WholeMs(a: nat, b: nat)
    requires a % NS_PER_MS == 0 && b % NS_PER_MS == 0
    ensures TruncDiv(b - a, NS_PER_MS) * NS_PER_MS == b - a
  {
    assert b - a == (b / NS_PER_MS - a / NS_PER_MS) * NS_PER_MS;
  }

  // ---- Granted durations ----

  /** The duration Acquire settles on: signed input, unsigned comparisons. */
  function Granted(cfg: Config, duration: int): int
    requires cfg.Valid()
  {
    var input := ToI32(ToU32(duration) + cfg.offsetMs);
    if ToU32(input) > cfg.maxMs then ToI32(cfg.maxMs)
    else if ToU32(input) > cfg.minMs then input
    else ToI32(cfg.minMs)
  }

  predicate Int32(x: int) {
    -TWO_31 <= x < TWO_31
  }

  /** A request whose offset sum is, as an unsigned value, `u`. */
  function RequestFor(cfg: Config, u: nat): (d: int)
    requires cfg.Valid() && u < TWO_32
    ensures Int32(d) && ToU32(ToI32(ToU32(d) + cfg.offsetMs)) == u
  {
    ToI32(u - cfg.offsetMs)
  }

  lemma GrantInRange(cfg: Config, d: int)
    requires cfg.Ordered() && Int32(d)
    ensures cfg.minMs <= Granted(cfg, d) <= cfg.maxMs
  {
  }

  lemma GrantOutOfRange(cfg: Config)
    requires cfg.Valid() && !cfg.Ordered()
    ensures var d := RequestFor(cfg, TWO_32 - 1); !(cfg.minMs <= Granted(cfg, d) <= cfg.maxMs)
  {
    var d := RequestFor(cfg, TWO_32 - 1);
    assert Granted(cfg, d) == if cfg.maxMs < TWO_32 - 1 then ToI32(cfg.maxMs)
                              else if cfg.minMs < TWO_32 - 1 then -1 else ToI32(cfg.minMs);
  }

  /** All int32 requests are granted within [min, max] exactly when min <= max < 2^31. */
  lemma GrantWithinLimits(cfg: Config)
    requires cfg.Valid()
    ensures cfg.minMs <= cfg.maxMs < TWO_31
            <==> forall d :: Int32(d) ==> cfg.minMs <= Granted(cfg, d) <= cfg.maxMs
  {
    if cfg.Ordered() {
      forall d | Int32(d) ensures cfg.minMs <= Granted(cfg, d) <= cfg.maxMs {
        GrantInRange(cfg, d);
      }
    } else {
      GrantOutOfRange(cfg);
    }
  }

  /** Which duration a request gets: with ordered limits the request plus the offset, kept within them; but a negative
      sum gets the longest duration, and one of 2^32 or more starts over at 0. So it is the sum kept within the limits
      exactly if the sum fits 32 unsigned bits, exceeds them by at least the upper limit, or the limits are equal. With
      other limits the upper one is tested first, and what comes out is read as a signed number. */
  lemma GrantIsClampedSum(cfg: Config, d: int)
    requires cfg.Valid() && Int32(d)
    ensures var sum := d + cfg.offsetMs;
            && (cfg.minMs <= cfg.maxMs < TWO_31 && 0 <= sum < TWO_32 ==>
                  Granted(cfg, d) == Max(cfg.minMs, Min(cfg.maxMs, sum)))
            && (cfg.minMs <= cfg.maxMs < TWO_31 && sum < 0 ==> Granted(cfg, d) == cfg.maxMs)
            && (cfg.minMs <= cfg.maxMs < TWO_31 && sum >= TWO_32 ==>
                  Granted(cfg, d) == Max(cfg.minMs, Min(cfg.maxMs, sum - TWO_32)))
    ensures cfg.minMs <= cfg.maxMs < TWO_31 ==>
              var sum := d + cfg.offsetMs;
              Granted(cfg, d) == Max(cfg.minMs, Min(cfg.maxMs, sum))
              <==> 0 <= sum < TWO_32 || sum >= TWO_32 + cfg.maxMs || cfg.minMs == cfg.maxMs
    ensures var sum := d + cfg.offsetMs;
            var u := if sum < 0 then sum + TWO_32 else if sum < TWO_32 then sum else sum - TWO_32;
            var ms := if u > cfg.maxMs then cfg.maxMs else Max(u, cfg.minMs);
            Granted(cfg, d) == if ms < TWO_31 then ms else ms - TWO_32
  {
    OffsetSum(d, cfg.offsetMs);
  }

  lemma OffsetSum(d: int, offset: nat)
    requires Int32(d) && offset < TWO_32
    ensures var sum := d + offset;
            var u := if sum < 0 then sum + TWO_32 else if sum < TWO_32 then sum else sum - TWO_32;
            && ToI32(ToU32(d) + offset) == (if u < TWO_31 then u else u - TWO_32)
            && ToU32(ToI32(ToU32(d) + offset)) == u
  {
  }

  // ---- The handler's fields and its locked sections ----

  datatype Mode = Uninitialized | Idle | Interacting | Waiting

  /** Calls on the INTERACTION hint. */
  datatype HintCall = DoHint | DoHintFor(ms: int) | EndHint

  datatype Handler = Handler(
    mode: Mode,
    eventCount: nat,
    durationMs: int,
    last: Timespec,
    hints: seq<HintCall>)

  datatype Outcome = Fallback | Covered | Extended

  function AbortWait(h: Handler): Handler {
    h.(eventCount := h.eventCount + 1)
  }

  /** Does the promise already made reach at least as far as this request? */
  predicate Covers(h: Handler, granted: int, now: nat) {
    && h.mode != Idle
    && granted <= h.durationMs
    && CalcTimespecDiffMs(h.last, At(now)) <= h.durationMs - granted
  }

  function AcquireOutcome(cfg: Config, h: Handler, duration: int, now: nat): Outcome
    requires cfg.Valid()
  {
    if !cfg.idleSupport || h.mode == Uninitialized then Fallback
    else if Covers(h, Granted(cfg, duration), now) then Covered
    else Extended
  }

  function AcquireLocked(cfg: Config, h: Handler, duration: int, now: nat): Handler
    requires cfg.Valid()
  {
    var g := Granted(cfg, duration);
    match AcquireOutcome(cfg, h, duration, now)
    case Fallback => h.(hints := h.hints + [DoHintFor(g)])
    case Covered => h
    case Extended =>
      var h' := h.(last := At(now), durationMs := g, mode := Interacting);
      if h.mode == Waiting then AbortWait(h')
      else if h.mode == Idle then h'.(hints := h.hints + [DoHint])
      else h'
  }

  function ReleaseLocked(h: Handler): Handler {
    if h.mode == Waiting then h.(hints := h.hints + [EndHint], mode := Idle)
    else h.(eventCount := 0)
  }

  function ExitLocked(h: Handler): Handler {
    if h.mode == Uninitialized then h else AbortWait(h).(mode := Uninitialized)
  }

  // ---- The whole system ----

  /** The worker's position.  Top: about to lock and test the wait predicate.  Armed: WAITING is set and the
      lock is dropped.  The timeout is the duration the worker read after dropping the lock. */
  datatype Pc =
    | NotStarted
    | Top
    | Asleep(signalled: bool)
    | Armed
    | Polling(timeoutMs: int)
    | ReadingIdle(timeoutMs: int)
    | PollingIdle(timeoutMs: int, since: nat)
    | Releasing
    | Returned

  /** Exit's position; `was` is the mode Exit found. */
  datatype ExitPc = NoExit | Flagged(was: Mode) | Notified(was: Mode) | Joined(was: Mode)

  datatype Request = Request(at: nat, ms: int) {
    function Deadline(): int { at + ms * NS_PER_MS }
  }

  /** What has happened so far, for stating properties: the last clock reading, the time behind `last`, the
      requests since the handler left IDLE, and whether a request not covered arrived in this wait. */
  datatype History = History(clock: nat, lastNs: nat, requests: seq<Request>, arrived: bool)

  datatype System = System(h: Handler, pc: Pc, exit: ExitPc, hist: History)

  datatype Event =
    | Init(ok: bool)
    | Acquire(duration: int, now: nat)
    | Test                 // the worker locks, and tests the wait predicate
    | Wake                 // the worker leaves the condition wait, signalled or spuriously
    | ReadDuration         // the worker evaluates the arguments of WaitForIdle
    | PollAbort            // the first poll sees the eventfd
    | PollTimeout
    | PollError
    | IdleFileDone         // pread hits end of file or reads "idle"
    | IdleFileBusy(now: nat)      // it is not idle, and the second poll starts
    | IdlePollAbort        // the second poll sees the eventfd
    | IdlePollTimeout(now: nat)   // it times out
    | IdlePollOther        // it fails or sees the display go idle
    | Release
    | ExitLock
    | ExitNotify
    | ExitJoin

  function Signal(pc: Pc): Pc {
    if pc.Asleep? then Asleep(true) else pc
  }

  function Start(): System {
    System(Handler(Uninitialized, 0, 0, Timespec(0, 0), []), NotStarted, NoExit, History(0, 0, [], false))
  }

  /** Between setting WAITING and finishing Release. */
  predicate InWait(pc: Pc) {
    pc.Armed? || pc.Polling? || pc.ReadingIdle? || pc.PollingIdle? || pc.Releasing?
  }

  function AcquireStep(cfg: Config, s: System, duration: int, now: nat): System
    requires cfg.Valid()
  {
    var h := AcquireLocked(cfg, s.h, duration, now);
    var hist := s.hist.(clock := now);
    var requests := s.hist.requests + [Request(now, Granted(cfg, duration))];
    match AcquireOutcome(cfg, s.h, duration, now)
    case Fallback => s.(h := h, hist := hist)
    case Covered => s.(h := h, hist := hist.(requests := requests))
    case Extended => System(h, Signal(s.pc), s.exit, History(now, now, requests, true))
  }

  function TestStep(s: System): System {
    match s.h.mode
    case Idle => s.(pc := Asleep(false))
    case Uninitialized => s.(pc := Returned)
    case _ => s.(h := s.h.(mode := Waiting), pc := Armed, hist := s.hist.(arrived := false))
  }

  function ReleaseStep(s: System): System {
    var requests := if s.h.mode == Waiting then [] else s.hist.requests;
    s.(h := ReleaseLocked(s.h), pc := Top, hist := s.hist.(requests := requests))
  }

  /** One atomic step; None when the event cannot happen in this state. */
  function Step(cfg: Config, s: System, ev: Event): Option<System>
    requires cfg.Valid()
  {
    match ev
    case Init(ok) =>
      if !s.pc.NotStarted? then None
      else Some(if ok then s.(h := s.h.(mode := Idle, eventCount := 0), pc := Top) else s)
    case Acquire(d, now) =>
      if Int32(d) && s.hist.clock <= now < CLOCK_LIMIT then Some(AcquireStep(cfg, s, d, now)) else None
    case Test => if s.pc.Top? then Some(TestStep(s)) else None
    case Wake => if s.pc.Asleep? then Some(s.(pc := Top)) else None
    case ReadDuration => if s.pc.Armed? then Some(s.(pc := Polling(s.h.durationMs))) else None
    case PollAbort => if s.pc.Polling? && s.h.eventCount > 0 then Some(s.(pc := Releasing)) else None
    case PollTimeout =>
      if s.pc.Polling? && s.h.eventCount == 0 then Some(s.(pc := ReadingIdle(s.pc.timeoutMs))) else None
    case PollError => if s.pc.Polling? then Some(s.(pc := Releasing)) else None
    case IdleFileDone => if s.pc.ReadingIdle? then Some(s.(pc := Releasing)) else None
    case IdleFileBusy(now) =>
      if s.pc.ReadingIdle? && s.hist.clock <= now < CLOCK_LIMIT
      then Some(s.(pc := PollingIdle(s.pc.timeoutMs, now), hist := s.hist.(clock := now))) else None
    case IdlePollAbort => if s.pc.PollingIdle? && s.h.eventCount > 0 then Some(s.(pc := Releasing)) else None
    case IdlePollTimeout(now) =>
      if s.pc.PollingIdle? && s.h.eventCount == 0 && s.hist.clock <= now < CLOCK_LIMIT
         && s.pc.timeoutMs >= 0 && now >= s.pc.since + s.pc.timeoutMs * NS_PER_MS
      then Some(s.(pc := Releasing, hist := s.hist.(clock := now))) else None
    case IdlePollOther => if s.pc.PollingIdle? then Some(s.(pc := Releasing)) else None
    case Release => if s.pc.Releasing? then Some(ReleaseStep(s)) else None
    case ExitLock =>
      if s.h.mode == Uninitialized then Some(s)
      else Some(s.(h := ExitLocked(s.h), exit := Flagged(s.h.mode)))
    case ExitNotify => if s.exit.Flagged? then Some(s.(pc := Signal(s.pc), exit := Notified(s.exit.was))) else None
    case ExitJoin =>
      if s.exit.Notified? && s.pc.Returned? then Some(s.(exit := Joined(s.exit.was))) else None
  }

  /** The state after a whole interleaving. */
  function Run(cfg: Config, s: System, evs: seq<Event>): Option<System>
    requires cfg.Valid()
    decreases |evs|
  {
    if evs == [] then Some(s)
    else match Step(cfg, s, evs[0]) case None => None case Some(s') => Run(cfg, s', evs[1..])
  }

  ghost predicate Reachable(cfg: Config, s: System)
    requires cfg.Valid()
  {
    exists evs :: Run(cfg, Start(), evs) == Some(s)
  }

  // ---- Specifications ----

  /** Is the untimed hint held after these calls? */
  ghost predicate Held(hints: seq<HintCall>) {
    |hints| > 0 &&
    var n := |hints| - 1;
    hints[n].DoHint? || (hints[n].DoHintFor? && Held(hints[..n]))
  }

  /** PerfLock and PerfRel alternate, starting with PerfLock. */
  ghost predicate Alternates(hints: seq<HintCall>) {
    |hints| == 0 ||
    var n := |hints| - 1;
    && Alternates(hints[..n])
    && (hints[n].DoHint? ==> !Held(hints[..n]))
    && (hints[n].EndHint? ==> Held(hints[..n]))
  }

  predicate Boosting(mode: Mode) {
    mode == Interacting || mode == Waiting
  }

  predicate Running(s: System) {
    s.exit.NoExit? && !s.pc.NotStarted?
  }

  ghost function Promise(s: System): int {
    s.hist.lastNs + s.h.durationMs * NS_PER_MS
  }

  ghost predicate LatestDeadline(requests: seq<Request>, d: int) {
    && (exists i :: 0 <= i < |requests| && requests[i].Deadline() == d)
    && forall i :: 0 <= i < |requests| ==> requests[i].Deadline() <= d
  }

  // ---- Invariants ----

  /** Lifecycle: which modes and positions go together. */
  ghost predicate InvPhase(s: System) {
    && (s.pc.NotStarted? ==> s.exit.NoExit? && s.h.mode == Uninitialized && s.h.eventCount == 0)
    && (Running(s) ==> s.h.mode != Uninitialized && !s.pc.Returned?)
    && (!s.exit.NoExit? ==> s.h.mode == Uninitialized && s.exit.was != Uninitialized)
    && (s.exit.Joined? ==> s.pc.Returned?)
    && (Running(s) ==> if InWait(s.pc) then Boosting(s.h.mode) else s.h.mode != Waiting)
  }

  /** The hint is held exactly in INTERACTION and WAITING; Exit leaves it as it was. */
  ghost predicate InvHint(s: System) {
    && Alternates(s.h.hints)
    && (Held(s.h.hints) <==> Boosting(if s.exit.NoExit? then s.h.mode else s.exit.was))
  }

  /** The eventfd holds one token exactly when an abort is pending. */
  ghost predicate InvEvent(s: System) {
    && (Running(s) ==> s.h.eventCount == if InWait(s.pc) && s.h.mode == Interacting then 1 else 0)
    && (Running(s) && InWait(s.pc) ==> (s.hist.arrived <==> s.h.mode == Interacting))
    && (!s.exit.NoExit? && InWait(s.pc) ==> s.h.eventCount >= 1)
    && s.h.eventCount <= 2
  }

  /** No wake-up is lost. */
  ghost predicate InvWake(s: System) {
    s.pc == Asleep(false) ==> s.h.mode == Idle || s.exit.Flagged?
  }

  /** Durations and poll timeouts stay within the configured limits, hence nonnegative. */
  ghost predicate InvDuration(cfg: Config, s: System) {
    && ((Running(s) && Boosting(s.h.mode)) || (!s.exit.NoExit? && InWait(s.pc)) ==>
          cfg.minMs <= s.h.durationMs <= cfg.maxMs)
    && (s.pc.Polling? || s.pc.ReadingIdle? || s.pc.PollingIdle? ==> cfg.minMs <= s.pc.timeoutMs <= cfg.maxMs)
  }

  /** The pair (mLastTimespec, mDurationMs) stands for the latest deadline promised. */
  ghost predicate InvPromise(s: System) {
    && s.hist.lastNs <= s.hist.clock < CLOCK_LIMIT
    && (s.pc.NotStarted? || (Running(s) && s.h.mode == Idle) ==> s.hist.requests == [])
    && (Running(s) && Boosting(s.h.mode) ==> s.h.last == At(s.hist.lastNs) && Tracks(s.hist, s.h.durationMs))
  }

  /** The promise is one of the requests, none of them ends 1 ms or more after it, and on whole milliseconds none
      ends after it at all. */
  ghost predicate Tracks(hist: History, durationMs: int) {
    var d := hist.lastNs + durationMs * NS_PER_MS;
    && (exists i :: 0 <= i < |hist.requests| && hist.requests[i] == Request(hist.lastNs, durationMs))
    && (forall i :: 0 <= i < |hist.requests| ==> hist.requests[i].Deadline() < d + NS_PER_MS)
    && (OnWholeMs(hist.requests) ==> forall i :: 0 <= i < |hist.requests| ==> hist.requests[i].Deadline() <= d)
  }

  ghost predicate OnWholeMs(requests: seq<Request>) {
    forall i :: 0 <= i < |requests| ==> requests[i].at % NS_PER_MS == 0
  }

  ghost predicate Inv(s: System) {
    InvPhase(s) && InvHint(s) && InvEvent(s) && InvWake(s) && InvPromise(s)
  }

  // ---- Every step keeps the invariants ----

  lemma AppendHint(hints: seq<HintCall>, c: HintCall)
    ensures Held(hints + [c]) <==> c.DoHint? || (c.DoHintFor? && Held(hints))
    ensures Alternates(hints + [c]) <==>
            Alternates(hints) && (c.DoHint? ==> !Held(hints)) && (c.EndHint? ==> Held(hints))
  {
    assert (hints + [c])[..|hints|] == hints;
  }

  /** A covered request ends before the promise does (up to the clock arithmetic). */
  lemma CoveredTracks(hist: History, durationMs: int, g: int, now: nat)
    requires Tracks(hist, durationMs) && hist.lastNs <= now < CLOCK_LIMIT
    requires CalcTimespecDiffMs(At(hist.lastNs), At(now)) <= durationMs - g
    ensures Tracks(hist.(clock := now, requests := hist.requests + [Request(now, g)]), durationMs)
  {
    DiffWithinOneMs(hist.lastNs, now);
    var r := hist.requests;
    var r' := r + [Request(now, g)];
    var i :| 0 <= i < |r| && r[i] == Request(hist.lastNs, durationMs);
    assert r'[i] == r[i];
    if OnWholeMs(r') {
      assert r'[|r|].at == now;
      assert hist.lastNs % NS_PER_MS == 0;
      assert OnWholeMs(r) by {
        forall j | 0 <= j < |r| ensures r[j].at % NS_PER_MS == 0 { assert r'[j] == r[j]; }
      }
    }
  }

  /** A request that is not covered moves the promise strictly later. */
  lemma ExtendedTracks(hist: History, durationMs: int, g: int, now: nat)
    requires Tracks(hist, durationMs) && hist.lastNs <= now < CLOCK_LIMIT
    requires !(g <= durationMs && CalcTimespecDiffMs(At(hist.lastNs), At(now)) <= durationMs - g)
    ensures now + g * NS_PER_MS > hist.lastNs + durationMs * NS_PER_MS
    ensures Tracks(
              hist.(clock := now, lastNs := now, requests := hist.requests + [Request(now, g)], arrived := true), g)
  {
    DiffWithinOneMs(hist.lastNs, now);
    var r := hist.requests;
    var r' := r + [Request(now, g)];
    assert r'[|r|] == Request(now, g);
    if OnWholeMs(r') {
      assert OnWholeMs(r) by {
        forall j | 0 <= j < |r| ensures r[j].at % NS_PER_MS == 0 { assert r'[j] == r[j]; }
      }
    }
  }

  lemma AcquireKeepsHint(cfg: Config, s: System, d: int, now: nat)
    requires cfg.Valid() && InvPhase(s) && InvHint(s)
    ensures InvHint(AcquireStep(cfg, s, d, now))
  {
    AppendHint(s.h.hints, DoHint);
    AppendHint(s.h.hints, DoHintFor(Granted(cfg, d)));
  }

  lemma AcquireKeepsPromise(cfg: Config, s: System, d: int, now: nat)
    requires cfg.Valid() && InvPhase(s) && InvPromise(s)
    requires s.hist.clock <= now < CLOCK_LIMIT
    ensures InvPromise(AcquireStep(cfg, s, d, now))
  {
    var g := Granted(cfg, d);
    if Running(s) {
      if s.h.mode == Idle {
        assert ([] + [Request(now, g)])[0] == Request(now, g);
      } else if AcquireOutcome(cfg, s.h, d, now) == Covered {
        CoveredTracks(s.hist, s.h.durationMs, g, now);
      } else if AcquireOutcome(cfg, s.h, d, now) == Extended {
        ExtendedTracks(s.hist, s.h.durationMs, g, now);
      }
    }
  }

  lemma AcquireKeepsInv(cfg: Config, s: System, d: int, now: nat)
    requires cfg.Valid() && Inv(s) && Int32(d) && s.hist.clock <= now < CLOCK_LIMIT
    ensures Inv(AcquireStep(cfg, s, d, now))
  {
    AcquireKeepsHint(cfg, s, d, now);
    AcquireKeepsPromise(cfg, s, d, now);
  }

  lemma ReleaseKeepsInv(s: System)
    requires Inv(s) && s.pc.Releasing?
    ensures Inv(ReleaseStep(s))
  {
    AppendHint(s.h.hints, EndHint);
  }

  lemma WorkerKeepsInv(cfg: Config, s: System, ev: Event)
    requires cfg.Valid() && Inv(s) && Step(cfg, s, ev).Some? && WorkerEvent(ev) && !ev.Release?
    ensures Inv(Step(cfg, s, ev).value)
  {
  }

  lemma InitExitKeepInv(cfg: Config, s: System, ev: Event)
    requires cfg.Valid() && Inv(s) && Step(cfg, s, ev).Some? && !WorkerEvent(ev) && !ev.Acquire?
    ensures Inv(Step(cfg, s, ev).value)
  {
  }

  lemma StepKeepsInv(cfg: Config, s: System, ev: Event)
    requires cfg.Valid() && Inv(s) && Step(cfg, s, ev).Some?
    ensures Inv(Step(cfg, s, ev).value)
  {
    if ev.Acquire? {
      AcquireKeepsInv(cfg, s, ev.duration, ev.now);
    } else if ev.Release? {
      ReleaseKeepsInv(s);
    } else if WorkerEvent(ev) {
      WorkerKeepsInv(cfg, s, ev);
    } else {
      InitExitKeepInv(cfg, s, ev);
    }
  }

  lemma {:induction false} RunKeepsInv(cfg: Config, s: System, evs: seq<Event>)
    requires cfg.Valid() && Inv(s) && Run(cfg, s, evs).Some?
    ensures Inv(Run(cfg, s, evs).value)
    decreases |evs|
  {
    if evs != [] {
      StepKeepsInv(cfg, s, evs[0]);
      RunKeepsInv(cfg, Step(cfg, s, evs[0]).value, evs[1..]);
    }
  }

  lemma StepKeepsDurations(cfg: Config, s: System, ev: Event)
    requires cfg.Ordered() && InvPhase(s) && InvDuration(cfg, s) && Step(cfg, s, ev).Some?
    ensures InvDuration(cfg, Step(cfg, s, ev).value)
  {
    if ev.Acquire? {
      GrantInRange(cfg, ev.duration);
    }
  }

  lemma {:induction false} RunKeepsDurations(cfg: Config, s: System, evs: seq<Event>)
    requires cfg.Ordered() && Inv(s) && InvDuration(cfg, s) && Run(cfg, s, evs).Some?
    ensures InvDuration(cfg, Run(cfg, s, evs).value)
    decreases |evs|
  {
    if evs != [] {
      StepKeepsInv(cfg, s, evs[0]);
      StepKeepsDurations(cfg, s, evs[0]);
      RunKeepsDurations(cfg, Step(cfg, s, evs[0]).value, evs[1..]);
    }
  }

  // ---- Main results, for every interleaving ----

  lemma ReachableInv(cfg: Config, s: System)
    requires cfg.Valid() && Reachable(cfg, s)
    ensures Inv(s)
  {
    var evs :| Run(cfg, Start(), evs) == Some(s);
    RunKeepsInv(cfg, Start(), evs);
  }

  /** Between Init and Exit the untimed hint is held exactly while boosting, and PerfLock and PerfRel alternate.
      Exit drops the boost without releasing the hint: it stays held for good exactly if Exit interrupted a boost. */
  lemma HintHeldExactlyWhileBoosting(cfg: Config, s: System)
    requires cfg.Valid() && Reachable(cfg, s)
    ensures Alternates(s.h.hints)
    ensures s.exit.NoExit? ==> (Held(s.h.hints) <==> s.h.mode in {Interacting, Waiting})
    ensures !s.exit.NoExit? ==> (Held(s.h.hints) <==> s.exit.was in {Interacting, Waiting})
  {
    ReachableInv(cfg, s);
  }

  /** The eventfd counts one exactly while a wait has an abort pending; a wait never starts with a leftover token;
      Release's read always finds its token; and Release goes to IDLE exactly if nothing new arrived. */
  lemma AbortTokenIsExact(cfg: Config, s: System)
    requires cfg.Valid() && Reachable(cfg, s) && Running(s)
    ensures s.h.eventCount == if InWait(s.pc) && s.h.mode == Interacting then 1 else 0
    ensures Step(cfg, s, Test).Some? && Step(cfg, s, Test).value.pc.Armed? ==> s.h.eventCount == 0
    ensures s.pc.Releasing? && s.h.mode != Waiting ==> s.h.eventCount == 1
    ensures s.pc.Releasing? ==> (ReleaseStep(s).h.mode == Idle <==> !s.hist.arrived)
  {
    ReachableInv(cfg, s);
  }

  /** No lost wake-up: while there is work, or Exit has notified, the worker is not stuck in its condition wait. */
  lemma NoLostWakeup(cfg: Config, s: System)
    requires cfg.Valid() && Reachable(cfg, s)
    requires s.h.mode != Idle && !s.exit.Flagged?
    ensures s.pc != Asleep(false)
  {
    ReachableInv(cfg, s);
  }

  /** While boosting, `last + duration` is the latest deadline of all requests since IDLE, to within 1 ms, and exactly
      so on a whole-millisecond clock. */
  lemma PromiseIsLatestDeadline(cfg: Config, s: System, latest: int)
    requires cfg.Valid() && Reachable(cfg, s) && Running(s) && Boosting(s.h.mode)
    requires LatestDeadline(s.hist.requests, latest)
    ensures s.h.last == At(s.hist.lastNs)
    ensures latest - NS_PER_MS < Promise(s) <= latest
    ensures OnWholeMs(s.hist.requests) ==> Promise(s) == latest
  {
    ReachableInv(cfg, s);
    var i :| 0 <= i < |s.hist.requests| && s.hist.requests[i] == Request(s.hist.lastNs, s.h.durationMs);
    assert s.hist.requests[i].Deadline() == Promise(s);
  }

  lemma StepPromiseMonotone(cfg: Config, s: System, ev: Event)
    requires cfg.Valid() && Inv(s) && Running(s) && Boosting(s.h.mode) && Step(cfg, s, ev).Some?
    ensures Promise(s) <= Promise(Step(cfg, s, ev).value)
  {
    if ev.Acquire? && AcquireOutcome(cfg, s.h, ev.duration, ev.now) == Extended {
      ExtendedTracks(s.hist, s.h.durationMs, Granted(cfg, ev.duration), ev.now);
    }
  }

  /** The handler is boosting in every state of the run. */
  ghost predicate StaysBoosting(cfg: Config, s: System, evs: seq<Event>)
    requires cfg.Valid()
    decreases |evs|
  {
    && Running(s) && Boosting(s.h.mode)
    && (evs != [] && Step(cfg, s, evs[0]).Some? ==> StaysBoosting(cfg, Step(cfg, s, evs[0]).value, evs[1..]))
  }

  /** The promise never moves back while the handler is not idle. */
  lemma {:induction false} PromiseNeverDecreases(cfg: Config, s: System, evs: seq<Event>)
    requires cfg.Valid() && Inv(s) && StaysBoosting(cfg, s, evs) && Run(cfg, s, evs).Some?
    ensures Promise(s) <= Promise(Run(cfg, s, evs).value)
    decreases |evs|
  {
    if evs != [] {
      StepPromiseMonotone(cfg, s, evs[0]);
      StepKeepsInv(cfg, s, evs[0]);
      PromiseNeverDecreases(cfg, Step(cfg, s, evs[0]).value, evs[1..]);
    }
  }

  // ---- A boost ends only with its wait ----

  /** The worker's own events of a run. */
  function Work(evs: seq<Event>): seq<Event> {
    if evs == [] then []
    else
      Worked(Work(evs[..|evs| - 1]), evs[|evs| - 1])
  }

  function Worked(work: seq<Event>, ev: Event): seq<Event> {
    if WorkerEvent(ev) then work + [ev] else work
  }

  // How far the worker's events say it has got in its last wait. Each says what came last, and what just before it.

  predicate Then(work: seq<Event>, ev: Event) {
    work != [] && work[|work| - 1] == ev
  }

  function Front(work: seq<Event>): seq<Event>
    requires work != []
  {
    work[..|work| - 1]
  }

  predicate HasTested(work: seq<Event>) {
    Then(work, Test)
  }

  predicate HasRead(work: seq<Event>) {
    Then(work, ReadDuration) && HasTested(Front(work))
  }

  predicate HasWaited(work: seq<Event>) {
    Then(work, PollTimeout) && HasRead(Front(work))
  }

  predicate HasFoundBusy(work: seq<Event>, from: nat) {
    Then(work, IdleFileBusy(from)) && HasWaited(Front(work))
  }

  ghost predicate IsPollingIdle(work: seq<Event>) {
    exists from: nat :: HasFoundBusy(work, from)
  }

  /** A wait cut short by the abort token, in either poll. */
  ghost predicate Aborted(work: seq<Event>) {
    || (Then(work, PollAbort) && HasRead(Front(work)))
    || (Then(work, IdlePollAbort) && IsPollingIdle(Front(work)))
  }

  /** A wait that ended because the display is idle or a call failed, in the first poll, the file or the second poll. */
  ghost predicate EndedByDisplay(work: seq<Event>) {
    || (Then(work, PollError) && HasRead(Front(work)))
    || (Then(work, IdleFileDone) && HasWaited(Front(work)))
    || (Then(work, IdlePollOther) && IsPollingIdle(Front(work)))
  }

  /** A wait in which both polls timed out, the second one at time `at`. */
  ghost predicate WaitedOut(work: seq<Event>, at: nat) {
    Then(work, IdlePollTimeout(at)) && IsPollingIdle(Front(work))
  }

  lemma FrontOf(work: seq<Event>, ev: Event)
    ensures Front(work + [ev]) == work && Then(work + [ev], ev)
  {
  }

  /** What the worker has done to get where it is in its wait. */
  ghost predicate CameHere(s: System, work: seq<Event>) {
    match s.pc
    case Armed => HasTested(work)
    case Polling(_) => HasRead(work)
    case ReadingIdle(_) => HasWaited(work)
    case PollingIdle(_, from) => HasFoundBusy(work, from)
    case Releasing => Aborted(work) || EndedByDisplay(work) || exists at: nat :: WaitedOut(work, at)
    case _ => true
  }

  /** While no uncovered request has come in, the worker waits for the duration promised, from a moment not before the
      request that promised it, and a wait that is over was not aborted and lasted up to the promise if it timed out. */
  ghost predicate InvWait(s: System, work: seq<Event>) {
    Running(s) && s.h.mode == Waiting ==>
      && (s.pc.Polling? || s.pc.ReadingIdle? || s.pc.PollingIdle? ==> s.pc.timeoutMs == s.h.durationMs)
      && (s.pc.PollingIdle? ==> s.hist.lastNs <= s.pc.since)
      && (s.pc.Releasing? ==> EndedByDisplay(work) || TimedOutAfterPromise(s, work))
  }

  ghost predicate TimedOutAfterPromise(s: System, work: seq<Event>) {
    exists at: nat :: WaitedOut(work, at) && Promise(s) <= at <= s.hist.clock
  }

  lemma AcquireKeepsWait(cfg: Config, s: System, d: int, now: nat, work: seq<Event>)
    requires cfg.Valid() && InvPhase(s) && InvWait(s, work) && s.hist.clock <= now
    ensures InvWait(AcquireStep(cfg, s, d, now), work)
  {
    var t := AcquireStep(cfg, s, d, now);
    if Running(s) && s.h.mode == Waiting && s.pc.Releasing? && t.h.mode == Waiting && !EndedByDisplay(work) {
      var at: nat :| WaitedOut(work, at) && Promise(s) <= at <= s.hist.clock;
      assert WaitedOut(work, at) && Promise(t) <= at <= t.hist.clock;
    }
  }

  lemma WorkerCameHere(cfg: Config, s: System, ev: Event, work: seq<Event>)
    requires cfg.Valid() && Step(cfg, s, ev).Some? && WorkerEvent(ev) && CameHere(s, work)
    ensures CameHere(Step(cfg, s, ev).value, work + [ev])
  {
    FrontOf(work, ev);
    if ev.IdlePollTimeout? {
      assert WaitedOut(work + [ev], ev.now);
    }
  }

  lemma WorkerKeepsWait(cfg: Config, s: System, ev: Event, work: seq<Event>)
    requires cfg.Valid() && Inv(s) && InvWait(s, work) && CameHere(s, work) && Step(cfg, s, ev).Some? && WorkerEvent(ev)
    ensures InvWait(Step(cfg, s, ev).value, work + [ev])
  {
    FrontOf(work, ev);
    var t := Step(cfg, s, ev).value;
    if ev.IdlePollTimeout? && Running(s) && s.h.mode == Waiting {
      assert WaitedOut(work + [ev], ev.now) && Promise(t) <= ev.now <= t.hist.clock;
    }
  }

  lemma StepKeepsWait(cfg: Config, s: System, ev: Event, work: seq<Event>)
    requires cfg.Valid() && Inv(s) && InvWait(s, work) && CameHere(s, work) && Step(cfg, s, ev).Some?
    ensures CameHere(Step(cfg, s, ev).value, Worked(work, ev)) && InvWait(Step(cfg, s, ev).value, Worked(work, ev))
  {
    if WorkerEvent(ev) {
      WorkerCameHere(cfg, s, ev, work);
      WorkerKeepsWait(cfg, s, ev, work);
    } else if ev.Acquire? {
      AcquireKeepsWait(cfg, s, ev.duration, ev.now, work);
    }
  }

  lemma RunSnoc(cfg: Config, s: System, evs: seq<Event>)
    requires cfg.Valid() && evs != [] && Run(cfg, s, evs).Some?
    ensures var n := |evs| - 1;
            var r := Run(cfg, s, evs[..n]);
            r.Some? && Step(cfg, r.value, evs[n]) == Run(cfg, s, evs)
    decreases |evs|
  {
    var n := |evs| - 1;
    if n > 0 {
      RunSnoc(cfg, Step(cfg, s, evs[0]).value, evs[1..]);
      assert evs[1..][..n - 1] == evs[..n][1..];
    } else {
      assert evs[1..] == [];
    }
  }

  lemma {:induction false} RunKeepsWait(cfg: Config, evs: seq<Event>)
    requires cfg.Valid() && Run(cfg, Start(), evs).Some?
    ensures var s := Run(cfg, Start(), evs).value; Inv(s) && CameHere(s, Work(evs)) && InvWait(s, Work(evs))
    decreases |evs|
  {
    RunKeepsInv(cfg, Start(), evs);
    if evs != [] {
      var n := |evs| - 1;
      RunSnoc(cfg, Start(), evs);
      RunKeepsWait(cfg, evs[..n]);
      StepKeepsWait(cfg, Run(cfg, Start(), evs[..n]).value, evs[n], Work(evs[..n]));
    }
  }

  lemma AtOrAfterPromise(s: System, work: seq<Event>, at: nat)
    requires Running(s) && s.h.mode == Waiting && s.pc.Releasing? && InvWait(s, work) && WaitedOut(work, at)
    ensures Promise(s) <= at <= s.hist.clock
  {
    assert !EndedByDisplay(work);
    var at': nat :| WaitedOut(work, at') && Promise(s) <= at' <= s.hist.clock;
  }

  /** At or after every deadline of the requests since IDLE, up to the clock arithmetic. */
  ghost predicate Honours(s: System, at: nat) {
    && (forall i :: 0 <= i < |s.hist.requests| ==> at > s.hist.requests[i].Deadline() - NS_PER_MS)
    && (OnWholeMs(s.hist.requests) ==>
          forall i :: 0 <= i < |s.hist.requests| ==> at >= s.hist.requests[i].Deadline())
  }

  lemma PromiseHonours(s: System, at: nat)
    requires InvPromise(s) && Running(s) && Boosting(s.h.mode) && Promise(s) <= at
    ensures Honours(s, at)
  {
  }

  /** In every run, told by the worker's events: when Release ends a boost, the worker has gone all the way through its
      last wait and nobody aborted it. Either the display was idle or a call failed, or both polls timed out; and then
      the second one did so at or after the promised deadline, hence not 1 ms before the end of any request since IDLE,
      and on a whole-millisecond clock not before any at all. */
  lemma TimedOutReleaseKeepsPromise(cfg: Config, evs: seq<Event>, s: System)
    requires cfg.Valid() && Run(cfg, Start(), evs) == Some(s) && Running(s) && s.pc.Releasing?
    requires ReleaseStep(s).h.mode == Idle
    ensures EndedByDisplay(Work(evs)) || exists at: nat :: WaitedOut(Work(evs), at)
    ensures forall at: nat :: WaitedOut(Work(evs), at) ==> Promise(s) <= at <= s.hist.clock && Honours(s, at)
  {
    RunKeepsWait(cfg, evs);
    forall at: nat | WaitedOut(Work(evs), at) ensures Promise(s) <= at <= s.hist.clock && Honours(s, at) {
      AtOrAfterPromise(s, Work(evs), at);
      PromiseHonours(s, at);
    }
  }

  /** And that wait can happen: from the start of any wait, with the display busy and no request in between, the second
      poll times out exactly from the promised duration on, and then the boost is over and the hint released. */
  lemma WholeWaitEndsTheBoost(cfg: Config, s: System, from: nat, at: nat)
    requires cfg.Valid() && Reachable(cfg, s) && Running(s) && s.pc.Armed? && s.h.mode == Waiting && s.h.durationMs >= 0
    requires s.hist.clock <= from <= at < CLOCK_LIMIT
    ensures var r := Run(cfg, s, [ReadDuration, PollTimeout, IdleFileBusy(from), IdlePollTimeout(at), Release]);
            && (r.Some? <==> at >= from + s.h.durationMs * NS_PER_MS)
            && (r.Some? ==> r.value.h.mode == Idle && !Held(r.value.h.hints) && r.value.pc.Top?)
  {
    ReachableInv(cfg, s);
    var rest := [IdlePollTimeout(at), Release];
    var s1 := s.(pc := Polling(s.h.durationMs));
    var s2 := s.(pc := ReadingIdle(s.h.durationMs));
    var s3 := s.(pc := PollingIdle(s.h.durationMs, from), hist := s.hist.(clock := from));
    RunFirst(cfg, s, ReadDuration, [PollTimeout, IdleFileBusy(from)] + rest, s1);
    RunFirst(cfg, s1, PollTimeout, [IdleFileBusy(from)] + rest, s2);
    RunFirst(cfg, s2, IdleFileBusy(from), rest, s3);
    SecondPollEndsTheBoost(cfg, s3, at);
    assert [ReadDuration] + ([PollTimeout, IdleFileBusy(from)] + rest)
        == [ReadDuration, PollTimeout, IdleFileBusy(from), IdlePollTimeout(at), Release];
    assert [PollTimeout] + ([IdleFileBusy(from)] + rest) == [PollTimeout, IdleFileBusy(from)] + rest;
  }

  lemma SecondPollEndsTheBoost(cfg: Config, s: System, at: nat)
    requires cfg.Valid() && s.pc.PollingIdle? && s.h.mode == Waiting && s.h.eventCount == 0 && s.pc.timeoutMs >= 0
    requires s.hist.clock <= at < CLOCK_LIMIT
    ensures var r := Run(cfg, s, [IdlePollTimeout(at), Release]);
            && (r.Some? <==> at >= s.pc.since + s.pc.timeoutMs * NS_PER_MS)
            && (r.Some? ==> r.value.h.mode == Idle && !Held(r.value.h.hints) && r.value.pc.Top?)
  {
    RunOfTwo(cfg, s, IdlePollTimeout(at), Release);
    AppendHint(s.h.hints, EndHint);
  }

  lemma RunFirst(cfg: Config, s: System, ev: Event, evs: seq<Event>, t: System)
    requires cfg.Valid() && Step(cfg, s, ev) == Some(t)
    ensures Run(cfg, s, [ev] + evs) == Run(cfg, t, evs)
  {
    assert ([ev] + evs)[1..] == evs;
  }

  lemma RunOfTwo(cfg: Config, s: System, x: Event, y: Event)
    requires cfg.Valid()
    ensures Run(cfg, s, [x, y]) ==
            match Step(cfg, s, x) case None => None case Some(t) => Step(cfg, t, y)
  {
    assert [x, y][1..] == [y] && [y][1..] == [];
    if Step(cfg, s, x).Some? {
      var t := Step(cfg, s, x).value;
      assert Run(cfg, t, [y]) == match Step(cfg, t, y) case None => None case Some(u) => Run(cfg, u, []);
    }
  }

  // ---- Without new requests the boost ends ----

  /** How many more steps the worker takes before it is idle, if no request comes in: a wait that was aborted is
      followed by a whole one. */
  function IdleRank(s: System): nat {
    if s.h.mode == Idle then 0
    else
      (if InWait(s.pc) && s.h.mode == Interacting then 6 else 0) +
      match s.pc
      case Releasing => 1
      case PollingIdle(_, _) => 2
      case ReadingIdle(_) => 3
      case Polling(_) => 4
      case Armed => 5
      case Top => 6
      case Asleep(_) => 7
      case _ => 0
  }

  lemma WorkerComesNearerToIdle(cfg: Config, s: System, ev: Event)
    requires cfg.Valid() && InvPhase(s) && Running(s) && Boosting(s.h.mode) && WorkerEvent(ev) && Step(cfg, s, ev).Some?
    ensures Running(Step(cfg, s, ev).value)
    ensures IdleRank(Step(cfg, s, ev).value) < IdleRank(s) <= 11
  {
  }

  /** From any boost, without new requests and Exit, the worker reaches IDLE within eleven of its own steps. */
  lemma {:induction false} BoostEndsWithoutRequests(cfg: Config, s: System, evs: seq<Event>)
    requires cfg.Valid() && Inv(s) && StaysBoosting(cfg, s, evs) && Run(cfg, s, evs).Some?
    requires forall i :: 0 <= i < |evs| ==> WorkerEvent(evs[i])
    ensures |evs| + IdleRank(Run(cfg, s, evs).value) <= IdleRank(s) <= 11
    decreases |evs|
  {
    if evs == [] {
      IdleRankBound(s);
    } else {
      WorkerComesNearerToIdle(cfg, s, evs[0]);
      StepKeepsInv(cfg, s, evs[0]);
      BoostEndsWithoutRequests(cfg, Step(cfg, s, evs[0]).value, evs[1..]);
    }
  }

  lemma IdleRankBound(s: System)
    requires InvPhase(s) && Running(s)
    ensures IdleRank(s) <= 11
  {
  }

  // ---- Exit terminates ----

  predicate WorkerEvent(ev: Event) {
    !(ev.Init? || ev.Acquire? || ev.ExitLock? || ev.ExitNotify? || ev.ExitJoin?)
  }

  function WorkerSteps(evs: seq<Event>): nat {
    if evs == [] then 0 else (if WorkerEvent(evs[0]) then 1 else 0) + WorkerSteps(evs[1..])
  }

  /** How many more steps the worker can take once the handler is uninitialized. */
  function Rank(pc: Pc): nat {
    match pc
    case NotStarted => 0
    case Returned => 0
    case Top => 1
    case Asleep(_) => 2
    case Releasing => 2
    case PollingIdle(_, _) => 3
    case ReadingIdle(_) => 4
    case Polling(_) => 5
    case Armed => 6
  }

  lemma ExitStep(cfg: Config, s: System, ev: Event)
    requires cfg.Valid() && Inv(s) && !s.exit.NoExit? && Step(cfg, s, ev).Some?
    ensures var t := Step(cfg, s, ev).value;
            && !t.exit.NoExit? && t.h.mode == Uninitialized
            && Rank(t.pc) <= Rank(s.pc) - (if WorkerEvent(ev) then 1 else 0)
  {
  }

  /** Once Exit has set UNINITIALIZED no interleaving undoes it, and the worker takes at most Rank more steps,
      whatever Acquire calls come in between. */
  lemma {:induction false} ExitBoundsTheWorker(cfg: Config, s: System, evs: seq<Event>)
    requires cfg.Valid() && Inv(s) && !s.exit.NoExit? && Run(cfg, s, evs).Some?
    ensures var t := Run(cfg, s, evs).value;
            && !t.exit.NoExit? && t.h.mode == Uninitialized
            && WorkerSteps(evs) + Rank(t.pc) <= Rank(s.pc) <= 6
    decreases |evs|
  {
    if evs != [] {
      ExitStep(cfg, s, evs[0]);
      StepKeepsInv(cfg, s, evs[0]);
      ExitBoundsTheWorker(cfg, Step(cfg, s, evs[0]).value, evs[1..]);
    }
  }

  /** The step the worker takes next with no help from the clock or the display. */
  function Unaided(pc: Pc): Event {
    match pc
    case Asleep(_) => Wake
    case Armed => ReadDuration
    case Polling(_) => PollAbort
    case ReadingIdle(_) => IdleFileDone
    case PollingIdle(_, _) => IdlePollAbort
    case Releasing => Release
    case _ => Test
  }

  /** Once Exit has notified, nothing blocks the worker: both polls see the eventfd and the condition wait has been
      signalled; and when the worker has returned, Exit's join completes. */
  lemma ExitUnblocksTheWorker(cfg: Config, s: System)
    requires cfg.Valid() && Reachable(cfg, s) && !s.exit.NoExit?
    ensures s.exit.Flagged? ==> Step(cfg, s, ExitNotify).Some?
    ensures s.exit.Notified? && s.pc.Asleep? ==> s.pc.signalled
    ensures !s.pc.Returned? ==> Step(cfg, s, Unaided(s.pc)).Some?
    ensures s.exit.Notified? && s.pc.Returned? ==> Step(cfg, s, ExitJoin).Some?
    ensures s.pc.Polling? || s.pc.PollingIdle? ==> s.h.eventCount > 0
  {
    ReachableInv(cfg, s);
  }

  /** With ordered limits the wait for the display to go idle has a timeout within them, so it ends even when nothing
      happens. */
  lemma IdlePollIsBounded(cfg: Config, s: System)
    requires cfg.Ordered() && Reachable(cfg, s) && s.pc.PollingIdle?
    ensures cfg.minMs <= s.pc.timeoutMs <= cfg.maxMs < TWO_31
  {
    var evs :| Run(cfg, Start(), evs) == Some(s);
    RunKeepsDurations(cfg, Start(), evs);
  }

  // ---- A request that arrives during a wait survives it ----

  lemma {:induction false} WaitKeepsArrival(cfg: Config, s: System, evs: seq<Event>)
    requires cfg.Valid() && Inv(s) && Running(s) && InWait(s.pc) && s.hist.arrived
    requires Release !in evs && Run(cfg, s, evs).Some? && Running(Run(cfg, s, evs).value)
    ensures var t := Run(cfg, s, evs).value; Inv(t) && InWait(t.pc) && t.hist.arrived
    decreases |evs|
  {
    if evs != [] {
      var s' := Step(cfg, s, evs[0]).value;
      StepKeepsInv(cfg, s, evs[0]);
      if !s'.exit.NoExit? {
        ExitBoundsTheWorker(cfg, s', evs[1..]);
      } else {
        WaitKeepsArrival(cfg, s', evs[1..]);
      }
    }
  }

  /** Whatever else happens before the wait ends, Release then finds INTERACTION and keeps the boost. */
  lemma ExtendedRequestSurvivesItsWait(cfg: Config, s: System, d: int, now: nat, evs: seq<Event>)
    requires cfg.Valid() && Reachable(cfg, s) && Running(s) && InWait(s.pc)
    requires Step(cfg, s, Acquire(d, now)).Some? && AcquireOutcome(cfg, s.h, d, now) == Extended
    requires Release !in evs
    ensures var r := Run(cfg, AcquireStep(cfg, s, d, now), evs);
            r.Some? && Running(r.value) && r.value.pc.Releasing? ==> ReleaseStep(r.value).h.mode == Interacting
  {
    ReachableInv(cfg, s);
    StepKeepsInv(cfg, s, Acquire(d, now));
    var s' := AcquireStep(cfg, s, d, now);
    var r := Run(cfg, s', evs);
    if r.Some? && Running(r.value) {
      WaitKeepsArrival(cfg, s', evs);
    }
  }

  // ---- The handler object ----

  /** After a request is taken while boosting, the promise reaches its end to within 1 ms and has not moved back. */
  lemma AcquireCoversRequest(cfg: Config, s: System, d: int, now: nat)
    requires cfg.Valid() && cfg.idleSupport && Inv(s) && Running(s) && Int32(d) && s.hist.clock <= now < CLOCK_LIMIT
    ensures var t := AcquireStep(cfg, s, d, now);
            && Running(t) && Boosting(t.h.mode)
            && Promise(t) > now + (Granted(cfg, d) - 1) * NS_PER_MS
            && (Boosting(s.h.mode) ==> Promise(t) >= Promise(s))
            && (cfg.Ordered() && 0 <= d + cfg.offsetMs < TWO_32 ==>
                  Promise(t) > now + (Max(cfg.minMs, Min(cfg.maxMs, d + cfg.offsetMs)) - 1) * NS_PER_MS)
  {
    GrantIsClampedSum(cfg, d);
    AcquireKeepsInv(cfg, s, d, now);
    var t := AcquireStep(cfg, s, d, now);
    var n := |s.hist.requests|;
    assert t.hist.requests[n] == Request(now, Granted(cfg, d));
    assert t.hist.requests[n].Deadline() < Promise(t) + NS_PER_MS;
    if Boosting(s.h.mode) {
      StepPromiseMonotone(cfg, s, Acquire(d, now));
    }
  }

  /** What a request for `duration` does, told from the settings: without display-idle support or before Init it is one
      timed hint for the request plus the offset kept within the limits; otherwise the boost goes on or starts, with the
      hint taken only from IDLE, and either promises that duration from now or already promises at least as much. */
  ghost predicate AcquireEffect(cfg: Config, h: Handler, duration: int, now: nat, h': Handler, notify: bool) {
    var sum := duration + cfg.offsetMs;
    var ms := if sum < 0 then cfg.maxMs
              else Max(cfg.minMs, Min(cfg.maxMs, if sum < TWO_32 then sum else sum - TWO_32));
    if !cfg.idleSupport || h.mode == Uninitialized then
      !notify && h' == h.(hints := h.hints + [DoHintFor(ms)])
    else
      && Boosting(h'.mode)
      && h'.hints == h.hints + (if h.mode == Idle then [DoHint] else [])
      && (notify <==> h.mode == Idle || ms > h.durationMs
                      || CalcTimespecDiffMs(h.last, At(now)) > h.durationMs - ms)
      && (notify ==> h'.mode == Interacting && h'.durationMs == ms && h'.last == At(now))
      && (!notify ==> h' == h)
  }

  lemma AcquireTakesEffect(cfg: Config, h: Handler, duration: int, now: nat)
    requires cfg.Ordered() && Int32(duration)
    ensures AcquireEffect(cfg, h, duration, now, AcquireLocked(cfg, h, duration, now),
                          AcquireOutcome(cfg, h, duration, now) == Extended)
  {
    GrantIsClampedSum(cfg, duration);
  }

  /** What Release promises while the handler runs: the token is gone, the boost ends exactly if no uncovered request
      came in during the wait, and the hint is held exactly if it goes on. */
  ghost predicate ReleaseOutcome(before: System, after: System) {
    Running(after) ==>
      && after.h.eventCount == 0
      && (after.h.mode == Idle <==> !before.hist.arrived)
      && (Held(after.h.hints) <==> after.h.mode != Idle)
  }

  lemma ReleaseOutcomeHolds(s: System)
    requires Inv(s) && s.pc.Releasing?
    ensures ReleaseOutcome(s, ReleaseStep(s))
  {
    ReleaseKeepsInv(s);
  }

  /** The object. Its locked sections compute exactly the steps above; `sys` is the state of the whole system they are
      part of. */
  class InteractionHandler {
    const cfg: Config
    var mode: Mode
    var eventCount: nat
    var durationMs: int
    var last: Timespec
    var hints: seq<HintCall>
    ghost var sys: System

    ghost function View(): Handler
      reads this
    {
      Handler(mode, eventCount, durationMs, last, hints)
    }

    /** The protocol invariant, from Init to Exit. */
    ghost predicate Valid()
      reads this
    {
      cfg.Valid() && sys.h == View() && Inv(sys)
    }

    constructor (cfg: Config)
      requires cfg.Valid()
      ensures Valid() && sys == Start() && this.cfg == cfg
    {
      this.cfg := cfg;
      mode, eventCount, durationMs, last, hints := Uninitialized, 0, 0, Timespec(0, 0), [];
      sys := Start();
    }

    /** Opening the idle-state file or creating the eventfd may fail. Nothing is promised of another life after Exit. */
    method Init(idleFdOk: bool, eventFdOk: bool) returns (ok: bool)
      requires Valid()
      modifies this
      ensures ok == (old(mode) != Uninitialized || (idleFdOk && eventFdOk))
      ensures View() == if ok && old(mode) == Uninitialized then old(View()).(mode := Idle, eventCount := 0)
                        else old(View())
      ensures old(sys).pc.NotStarted? || !ok || old(mode) != Uninitialized ==> Valid()
      ensures old(sys).pc.NotStarted? && ok ==> Running(sys) && !Held(hints)
    {
      if mode != Uninitialized {
        return true;
      }
      if !idleFdOk || !eventFdOk {
        return false;
      }
      if sys.pc.NotStarted? {
        StepKeepsInv(cfg, sys, Event.Init(true));
        sys := Step(cfg, sys, Event.Init(true)).value;
      }
      eventCount := 0;
      mode := Idle;
      ok := true;
    }

    /** The locked part of Exit. */
    method Exit()
      requires Valid()
      modifies this
      ensures Valid() && View() == ExitLocked(old(View())) && sys == Step(cfg, old(sys), ExitLock).value
      ensures mode == Uninitialized && (Held(hints) <==> old(Held(hints)))
    {
      StepKeepsInv(cfg, sys, ExitLock);
      sys := Step(cfg, sys, ExitLock).value;
      if mode == Uninitialized {
        return;
      }
      AbortWaitLocked();
      mode := Uninitialized;
    }

    method PerfLock()
      modifies `hints
      ensures hints == old(hints) + [DoHint]
    {
      hints := hints + [DoHint];
    }

    method PerfRel()
      modifies `hints
      ensures hints == old(hints) + [EndHint]
    {
      hints := hints + [EndHint];
    }

    /** While running, the hint is held afterwards and the promise reaches the end of this request to within 1 ms. */
    method Acquire(duration: int, now: nat) returns (notify: bool)
      requires Valid() && Int32(duration) && sys.hist.clock <= now < CLOCK_LIMIT
      modifies this
      ensures Valid() && sys == AcquireStep(cfg, old(sys), duration, now)
      ensures notify <==> AcquireOutcome(cfg, old(View()), duration, now) == Extended
      ensures Running(sys) && cfg.idleSupport ==>
                Held(hints) && Promise(sys) > now + (Granted(cfg, duration) - 1) * NS_PER_MS
      ensures cfg.Ordered() ==> AcquireEffect(cfg, old(View()), duration, now, View(), notify)
    {
      AcquireKeepsInv(cfg, sys, duration, now);
      if cfg.Ordered() {
        AcquireTakesEffect(cfg, View(), duration, now);
      }
      if Running(sys) && cfg.idleSupport {
        AcquireCoversRequest(cfg, sys, duration, now);
      }
      sys := AcquireStep(cfg, sys, duration, now);
      notify := AcquireSection(duration, now);
    }

    method AcquireSection(duration: int, now: nat) returns (notify: bool)
      requires cfg.Valid()
      modifies `mode, `eventCount, `durationMs, `last, `hints
      ensures View() == AcquireLocked(cfg, old(View()), duration, now)
      ensures notify <==> AcquireOutcome(cfg, old(View()), duration, now) == Extended
    {
      var inputDuration := ToI32(ToU32(duration) + cfg.offsetMs);
      var finalDuration;
      if ToU32(inputDuration) > cfg.maxMs {
        finalDuration := ToI32(cfg.maxMs);
      } else if ToU32(inputDuration) > cfg.minMs {
        finalDuration := inputDuration;
      } else {
        finalDuration := ToI32(cfg.minMs);
      }

      if !cfg.idleSupport || mode == Uninitialized {
        hints := hints + [DoHintFor(finalDuration)];
        return false;
      }

      var current := At(now);
      if mode != Idle && finalDuration <= durationMs {
        var elapsed := CalcTimespecDiffMs(last, current);
        if elapsed <= durationMs - finalDuration {
          return false;
        }
      }
      last := current;
      durationMs := finalDuration;

      if mode == Waiting {
        AbortWaitLocked();
      } else if mode == Idle {
        PerfLock();
      }
      mode := Interacting;
      notify := true;
    }

    /** While running, the boost ends exactly if no uncovered request came in during the wait. */
    method Release()
      requires Valid() && sys.pc.Releasing?
      modifies this
      ensures Valid() && sys == ReleaseStep(old(sys))
      ensures ReleaseOutcome(old(sys), sys)
    {
      ReleaseKeepsInv(sys);
      ReleaseOutcomeHolds(sys);
      sys := ReleaseStep(sys);
      ReleaseSection();
    }

    method ReleaseSection()
      modifies `mode, `eventCount, `hints
      ensures View() == ReleaseLocked(old(View()))
    {
      if mode == Waiting {
        PerfRel();
        mode := Idle;
      } else {
        eventCount := 0;
      }
    }

    method AbortWaitLocked()
      modifies `eventCount
      ensures eventCount == old(eventCount) + 1
    {
      eventCount := eventCount + 1;
    }

    /** The locked part of one turn of Routine, at worker position Top: a wait never starts with a leftover token. */
    method TestPredicate() returns (pc: Pc)
      requires Valid() && sys.pc.Top?
      modifies this
      ensures Valid() && sys == TestStep(old(sys)) && pc == sys.pc
      ensures pc == if old(mode) == Idle then Asleep(false) else if old(mode) == Uninitialized then Returned else Armed
      ensures View() == old(View()).(mode := if pc.Armed? then Waiting else old(mode))
      ensures pc.Armed? && Running(sys) ==> eventCount == 0 && Held(hints)
    {
      StepKeepsInv(cfg, sys, Test);
      sys := TestStep(sys);
      if mode == Idle {
        return Asleep(false);
      }
      if mode == Uninitialized {
        return Returned;
      }
      mode := Waiting;
      pc := Armed;
    }

    /** What happens outside the lock: the worker wakes, reads the duration, polls; Exit notifies and joins. */
    ghost method Unlocked(ev: Event)
      requires Valid() && Step(cfg, sys, ev).Some? && Step(cfg, sys, ev).value.h == sys.h
      modifies `sys
      ensures Valid() && sys == Step(cfg, old(sys), ev).value
    {
      StepKeepsInv(cfg, sys, ev);
      sys := Step(cfg, sys, ev).value;
    }
  }
}
