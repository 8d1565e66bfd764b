/**
 Sessions, their stale timers and the manager together: when does the manager's
 cache of "some session is active" hold, once it has no message left to handle?
 Pausing, resuming and closing a session, a stale verdict and a report after the
 stale time each send the manager a message; creating a session and a report in
 time send none. Every binder call and every message handled is one step.
 */
module PowerSystem {

  import opened StaleTimer
  import SM = SessionManager

  type SessionId = SM.SessionId

  datatype Sess = Sess(active: bool, timer: Timer) {
    /** What the manager can ask. */
    function Status(): SM.Status {
      SM.Status(active, timer.StaleTime())
    }

    /** What the manager counts: `isStale` compares with "not before". */
    predicate Counts(now: int) {
      Status().Counts(now)
    }
  }

  datatype Power = Power(
    clock: int,
    sessions: map<SessionId, Sess>,
    cache: bool,
    pending: nat,               // messages to the manager
    counted: set<SessionId>,    // what the last look counted
    since: set<SessionId>,      // created since the last look
    tied: set<SessionId>,       // not counted, then updated without a message
    lookAt: int,                // the clock at the last look
    closed: set<SessionId>)     // sessions that have been closed

  datatype Event =
    | Create(id: SessionId, timeout: nat, now: int)
    | CloseSession(id: SessionId)
    | Pause(id: SessionId)
    | Resume(id: SessionId)
    | Report(id: SessionId, now: int, sent: int)
    | TakeCheck(id: SessionId)
    | HandleCheck(id: SessionId, now: int, sent: int)
    | Nudge                     // a closed session, whose calls are not refused, or its check sends a message
    | Look(now: int)
    | Wait(now: int)

  predicate Possible(s: Power, ev: Event) {
    match ev
    case Create(id, _, now) => id !in s.sessions && id !in s.closed && s.clock <= now
    case CloseSession(id) => id in s.sessions
    case Pause(id) => id in s.sessions && s.sessions[id].active
    case Resume(id) => id in s.sessions && !s.sessions[id].active
    case Report(id, now, sent) => id in s.sessions && s.sessions[id].active && s.clock <= now <= sent
    case TakeCheck(id) => id in s.sessions && Enabled(s.sessions[id].timer.(clock := s.clock), Take)
    case HandleCheck(id, now, sent) => id in s.sessions && s.sessions[id].timer.inDispatch > 0 && s.clock <= now <= sent
    case Nudge => s.closed != {}
    case Look(now) => s.pending > 0 && s.clock <= now
    case Wait(now) => s.clock <= now
  }

  /** The session's timer at the system's clock. */
  function TimerOf(s: Power, id: SessionId): Timer
    requires id in s.sessions
  {
    s.sessions[id].timer.(clock := s.clock)
  }

  function WithTimer(s: Power, id: SessionId, t: Timer): Power
    requires id in s.sessions
  {
    s.(clock := t.clock, sessions := s.sessions[id := s.sessions[id].(timer := t)])
  }

  function Sends(s: Power): Power { s.(pending := s.pending + 1) }

  function Act(s: Power, ev: Event): Power
    requires Possible(s, ev)
  {
    match ev
    case Create(id, timeout, now) =>
      s.(clock := now, sessions := s.sessions[id := Sess(true, Started(timeout, now))], since := s.since + {id})
    case CloseSession(id) => Sends(s.(sessions := s.sessions - {id}, closed := s.closed + {id}))
    case Pause(id) => Sends(s.(sessions := s.sessions[id := s.sessions[id].(active := false)]))
    case Resume(id) => Sends(s.(sessions := s.sessions[id := s.sessions[id].(active := true)]))
    case Report(id, now, sent) =>
      var updated := WithTimer(s, id, Step(TimerOf(s, id), Update(now, sent)));
      if now > s.sessions[id].timer.StaleTime() then Sends(updated)
      else if id in s.counted || id in s.since then updated
      else updated.(tied := s.tied + {id})
    case TakeCheck(id) => WithTimer(s, id, Step(TimerOf(s, id), Take))
    case HandleCheck(id, now, sent) =>
      var handled := WithTimer(s, id, Step(TimerOf(s, id), Handle(now, sent)));
      if now > s.sessions[id].timer.StaleTime() then Sends(handled) else handled
    case Nudge => Sends(s)
    case Look(now) =>
      var counted := set id | id in s.sessions && s.sessions[id].Counts(now);
      s.(clock := now, pending := s.pending - 1, cache := counted != {}, counted := counted, since := {}, tied := {},
         lookAt := now)
    case Wait(now) => s.(clock := now)
  }

  function Booted(now: int): Power {
    Power(now, map[], false, 0, {}, {}, {}, now, {})
  }

  ghost predicate Runs(s: Power, evs: seq<Event>, s': Power)
    decreases |evs|
  {
    if evs == [] then s' == s else Possible(s, evs[0]) && Runs(Act(s, evs[0]), evs[1..], s')
  }

  // ---- The invariant ----

  ghost predicate TimerOk(t: Timer, clock: int) {
    t.clock <= clock && !t.closed && OneMessage(t)
  }

  ghost predicate TimersOk(s: Power) {
    forall id :: id in s.sessions ==> TimerOk(s.sessions[id].timer, s.clock)
  }

  /** With no message pending nothing that sends one has happened since the last look. */
  ghost predicate Quiet(s: Power) {
    && s.counted + s.since + s.tied <= s.sessions.Keys
    && (forall id :: id in s.counted + s.since + s.tied ==> s.sessions[id].active)
    && (forall id :: id in s.sessions && id !in s.counted + s.since + s.tied ==>
          !s.sessions[id].active || s.sessions[id].timer.StaleTime() <= s.lookAt)
  }

  ghost predicate Inv(s: Power) {
    && TimersOk(s)
    && s.lookAt <= s.clock
    && (s.cache <==> s.counted != {})
    && (s.pending == 0 ==> Quiet(s))
  }

  lemma TimerStep(s: Power, id: SessionId, ev: StaleTimer.Event)
    requires id in s.sessions && TimersOk(s) && Enabled(TimerOf(s, id), ev) && !ev.Close?
    ensures Step(TimerOf(s, id), ev).clock >= s.clock
    ensures TimersOk(WithTimer(s, id, Step(TimerOf(s, id), ev)))
  {
    assert TimerOk(s.sessions[id].timer, s.clock);
    StepKeepsOneMessage(TimerOf(s, id), ev);
  }

  lemma TimersStayOk(s: Power, ev: Event)
    requires TimersOk(s) && Possible(s, ev)
    ensures TimersOk(Act(s, ev)) && Act(s, ev).clock >= s.clock
  {
    match ev
    case Report(id, now, sent) => TimerStep(s, id, Update(now, sent));
    case TakeCheck(id) => TimerStep(s, id, Take);
    case HandleCheck(id, now, sent) => TimerStep(s, id, Handle(now, sent));
    case _ =>
  }

  /** Steps of a timer leave everything but its session's stale time alone, and that never goes back. */
  lemma TimerStepKeepsQuiet(s: Power, id: SessionId, t: Timer)
    requires Quiet(s) && id in s.sessions && t.StaleTime() == s.sessions[id].timer.StaleTime()
    ensures Quiet(WithTimer(s, id, t))
  {
  }

  lemma ReportKeepsQuiet(s: Power, id: SessionId, now: int, sent: int)
    requires Quiet(s) && s.lookAt <= s.clock && Possible(s, Report(id, now, sent))
    requires now <= s.sessions[id].timer.StaleTime()
    ensures Quiet(Act(s, Report(id, now, sent)))
  {
    KnownKeepsQuiet(s, id, Step(TimerOf(s, id), Update(now, sent)));
  }

  /** A session the manager need not be told about may have any timer. */
  lemma KnownKeepsQuiet(s: Power, id: SessionId, t: Timer)
    requires Quiet(s) && id in s.sessions && s.sessions[id].active
    ensures var s' := WithTimer(s, id, t);
            && Quiet(s'.(tied := s.tied + {id}))
            && (id in s.counted || id in s.since ==> Quiet(s'))
  {
  }

  lemma CheckKeepsQuiet(s: Power, ev: Event)
    requires Quiet(s) && Possible(s, ev)
    requires ev.TakeCheck? || (ev.HandleCheck? && ev.now <= s.sessions[ev.id].timer.StaleTime())
    ensures Quiet(Act(s, ev))
  {
    TimerStepKeepsQuiet(s, ev.id, if ev.TakeCheck? then Step(TimerOf(s, ev.id), Take)
                                  else Step(TimerOf(s, ev.id), Handle(ev.now, ev.sent)));
  }

  lemma OtherKeepsQuiet(s: Power, ev: Event)
    requires Possible(s, ev) && Act(s, ev).pending == 0 && (Quiet(s) || ev.Look?)
    requires ev.Create? || ev.Look? || ev.Wait?
    ensures Quiet(Act(s, ev))
  {
  }

  lemma QuietStays(s: Power, ev: Event)
    requires Inv(s) && Possible(s, ev) && Act(s, ev).pending == 0
    ensures Quiet(Act(s, ev))
  {
    match ev
    case Report(id, now, sent) => ReportKeepsQuiet(s, id, now, sent);
    case TakeCheck(_) => CheckKeepsQuiet(s, ev);
    case HandleCheck(_, _, _) => CheckKeepsQuiet(s, ev);
    case _ => OtherKeepsQuiet(s, ev);
  }

  lemma ActKeepsInv(s: Power, ev: Event)
    requires Inv(s) && Possible(s, ev)
    ensures Inv(Act(s, ev))
  {
    TimersStayOk(s, ev);
    LookStays(s, ev);
    if Act(s, ev).pending == 0 {
      QuietStays(s, ev);
    }
  }

  lemma LookStays(s: Power, ev: Event)
    requires Possible(s, ev) && s.lookAt <= s.clock && (s.cache <==> s.counted != {})
    ensures var s' := Act(s, ev); s'.lookAt <= s'.clock && (s'.cache <==> s'.counted != {})
  {
  }

  lemma {:induction false} RunKeepsInv(s: Power, evs: seq<Event>, s': Power)
    requires Runs(s, evs, s') && Inv(s)
    ensures Inv(s')
    decreases |evs|
  {
    if evs != [] {
      ActKeepsInv(s, evs[0]);
      RunKeepsInv(Act(s, evs[0]), evs[1..], s');
    }
  }

  // ---- When the cache is right ----

  /** What the cache is meant to say. */
  ghost predicate SomeActive(s: Power) {
    exists id :: id in s.sessions && s.sessions[id].Counts(s.clock)
  }

  predicate NotStale(s: Power, id: SessionId) {
    id in s.sessions && s.clock < s.sessions[id].timer.StaleTime()
  }

  /** In every run, with no message pending: the cache says whether the last look counted a session; a session is active
      now exactly if it is not stale and was counted, was created since, or was updated right at the look's reading. So
      the cache is right exactly if, when something was counted, one such session is not stale, and when nothing was,
      every session created or updated in that way since has gone stale. */
  lemma CacheIsRightIff(boot: int, evs: seq<Event>, s: Power)
    requires Runs(Booted(boot), evs, s) && s.pending == 0
    ensures s.cache <==> s.counted != {}
    ensures SomeActive(s) <==> exists id :: id in s.counted + s.since + s.tied && NotStale(s, id)
    ensures (s.cache <==> SomeActive(s))
            <==> if s.counted != {} then exists id :: id in s.counted + s.since + s.tied && NotStale(s, id)
                 else forall id :: id in s.since + s.tied ==> !NotStale(s, id)
  {
    RunKeepsInv(Booted(boot), evs, s);
    if id :| id in s.sessions && s.sessions[id].Counts(s.clock) {
      assert id in s.counted + s.since + s.tied && NotStale(s, id);
    }
    if id :| id in s.counted + s.since + s.tied && NotStale(s, id) {
      assert s.sessions[id].Counts(s.clock);
    }
  }

  /** A session becomes tied only by an update at the very instant it went stale and the manager looked: the timer's
      "after" and the manager's "not before" differ there alone. */
  lemma TiedOnlyAtTheInstant(boot: int, evs: seq<Event>, s: Power, id: SessionId, now: int, sent: int)
    requires Runs(Booted(boot), evs, s) && s.pending == 0 && Possible(s, Report(id, now, sent))
    requires id !in s.tied && id in Act(s, Report(id, now, sent)).tied
    ensures now == s.lookAt == s.sessions[id].timer.StaleTime()
  {
    RunKeepsInv(Booted(boot), evs, s);
  }

  /** A session has a stale check under way exactly if it is monitored; without one nothing is left that would tell the
      manager when it goes stale. */
  lemma NoticedIffMonitored(boot: int, evs: seq<Event>, s: Power, id: SessionId)
    requires Runs(Booted(boot), evs, s) && id in s.sessions
    ensures s.sessions[id].timer.Messages() == if s.sessions[id].timer.monitoring then 1 else 0
  {
    RunKeepsInv(Booted(boot), evs, s);
    assert TimerOk(s.sessions[id].timer, s.clock);
  }

  // ---- A stale verdict reaches the manager ----

  /** Updated at some time, and declared stale since. */
  predicate HasFired(t: Timer) {
    t.log != [] && !t.monitoring
  }

  /** A session declared stale is past its stale time, and with no message pending the manager does not count it. */
  ghost predicate Informed(s: Power) {
    && (forall id :: id in s.sessions && HasFired(s.sessions[id].timer) ==> s.sessions[id].timer.StaleTime() < s.clock)
    && (s.pending == 0 ==> forall id :: id in s.counted && id in s.sessions ==> !HasFired(s.sessions[id].timer))
  }

  lemma TimerKeepsInformed(s: Power, id: SessionId, t: Timer)
    requires Informed(s) && id in s.sessions && s.clock <= t.clock
    requires HasFired(t) ==> HasFired(s.sessions[id].timer) && t.StaleTime() == s.sessions[id].timer.StaleTime()
    ensures Informed(WithTimer(s, id, t))
  {
  }

  lemma VerdictKeepsInformed(s: Power, id: SessionId, t: Timer)
    requires Informed(s) && id in s.sessions && s.clock <= t.clock && t.StaleTime() < t.clock
    ensures Informed(Sends(WithTimer(s, id, t)))
  {
  }

  lemma ReportKeepsInformed(s: Power, ev: Event)
    requires Informed(s) && Possible(s, ev) && ev.Report?
    ensures Informed(Act(s, ev))
  {
    TimerKeepsInformed(s, ev.id, Step(TimerOf(s, ev.id), Update(ev.now, ev.sent)));
  }

  lemma CheckKeepsInformed(s: Power, ev: Event)
    requires Informed(s) && Possible(s, ev) && (ev.TakeCheck? || ev.HandleCheck?)
    ensures Informed(Act(s, ev))
  {
    if ev.TakeCheck? {
      TimerKeepsInformed(s, ev.id, Step(TimerOf(s, ev.id), Take));
    } else if ev.now > s.sessions[ev.id].timer.StaleTime() {
      VerdictKeepsInformed(s, ev.id, Step(TimerOf(s, ev.id), Handle(ev.now, ev.sent)));
    } else {
      TimerKeepsInformed(s, ev.id, Step(TimerOf(s, ev.id), Handle(ev.now, ev.sent)));
    }
  }

  lemma OtherKeepsInformed(s: Power, ev: Event)
    requires Informed(s) && Possible(s, ev) && !ev.Report? && !ev.TakeCheck? && !ev.HandleCheck?
    ensures Informed(Act(s, ev))
  {
  }

  lemma {:induction false} RunKeepsInformed(s: Power, evs: seq<Event>, s': Power)
    requires Runs(s, evs, s') && Informed(s)
    ensures Informed(s')
    decreases |evs|
  {
    if evs != [] {
      var ev := evs[0];
      if ev.Report? {
        ReportKeepsInformed(s, ev);
      } else if ev.TakeCheck? || ev.HandleCheck? {
        CheckKeepsInformed(s, ev);
      } else {
        OtherKeepsInformed(s, ev);
      }
      RunKeepsInformed(Act(s, ev), evs[1..], s');
    }
  }

  /** In every run with no message pending, a session the manager counts and that has no check under way has never been
      updated. So when the cache wrongly says that a session is active, there is a check to come that will put it right,
      or a session that was never updated. */
  lemma WrongTrueHasCheckOrNoUpdate(boot: int, evs: seq<Event>, s: Power)
    requires Runs(Booted(boot), evs, s) && s.pending == 0
    ensures forall id :: id in s.counted ==> id in s.sessions
    ensures forall id :: id in s.counted && s.sessions[id].timer.Messages() == 0 ==> s.sessions[id].timer.log == []
    ensures s.cache && !SomeActive(s) ==>
              exists id :: id in s.counted && (s.sessions[id].timer.Messages() == 1 || s.sessions[id].timer.log == [])
  {
    RunKeepsInv(Booted(boot), evs, s);
    RunKeepsInformed(Booted(boot), evs, s);
    forall id | id in s.counted
      ensures id in s.sessions
      ensures s.sessions[id].timer.Messages() == 1 || s.sessions[id].timer.log == []
    {
      assert TimerOk(s.sessions[id].timer, s.clock) && !HasFired(s.sessions[id].timer);
    }
    if s.cache {
      var id :| id in s.counted;
    }
  }

  /** That check does put it right: past the stale time it takes the session off monitoring and sends the manager a
      message, and the look that follows says whether another session is active. */
  lemma CheckPutsCacheRight(boot: int, evs: seq<Event>, s: Power, id: SessionId, now: int, sent: int)
    requires Runs(Booted(boot), evs, s) && Possible(s, HandleCheck(id, now, sent))
    requires now > s.sessions[id].timer.StaleTime()
    ensures var s' := Act(s, HandleCheck(id, now, sent));
            && s'.pending == s.pending + 1 && s'.sessions.Keys == s.sessions.Keys
            && s'.sessions[id].timer.Messages() == 0 && !s'.sessions[id].timer.monitoring
            && forall look :: look >= sent ==> (Act(s', Look(look)).cache <==> AnotherCounts(s, id, look))
  {
    RunKeepsInv(Booted(boot), evs, s);
    assert TimerOk(s.sessions[id].timer, s.clock);
    var s' := Act(s, HandleCheck(id, now, sent));
    assert s'.sessions[id].timer.StaleTime() == s.sessions[id].timer.StaleTime() < sent;
    forall look | look >= sent ensures Act(s', Look(look)).cache <==> AnotherCounts(s, id, look) {
      LookFindsAnother(s', id, look);
      SameOthers(s, s', id, look);
    }
  }

  /** And that check can come: once it is due, it can be taken and handled, at any later reading of the clock. */
  lemma CheckCanCome(boot: int, evs: seq<Event>, s: Power, id: SessionId, t: int)
    requires Runs(Booted(boot), evs, s) && id in s.sessions && s.sessions[id].timer.Messages() == 1 && s.clock <= t
    requires s.sessions[id].timer.queue != [] ==> s.sessions[id].timer.queue[0].due <= t
    ensures Possible(s, Wait(t))
    ensures var s1 := Act(s, Wait(t));
            if s.sessions[id].timer.inDispatch == 1 then Possible(s1, HandleCheck(id, t, t))
            else Possible(s1, TakeCheck(id)) && Possible(Act(s1, TakeCheck(id)), HandleCheck(id, t, t))
  {
    RunKeepsInv(Booted(boot), evs, s);
    assert TimerOk(s.sessions[id].timer, s.clock);
  }

  ghost predicate AnotherCounts(s: Power, id: SessionId, look: int) {
    exists x :: x in s.sessions && x != id && s.sessions[x].Counts(look)
  }

  lemma SameOthers(s: Power, s': Power, id: SessionId, look: int)
    requires s'.sessions.Keys == s.sessions.Keys
    requires forall x :: x in s.sessions && x != id ==> s'.sessions[x] == s.sessions[x]
    ensures AnotherCounts(s', id, look) <==> AnotherCounts(s, id, look)
  {
    if x :| x in s.sessions && x != id && s.sessions[x].Counts(look) {
      assert x in s'.sessions && x != id && s'.sessions[x].Counts(look);
    }
    if x :| x in s'.sessions && x != id && s'.sessions[x].Counts(look) {
      assert x in s.sessions && x != id && s.sessions[x].Counts(look);
    }
  }

  lemma LookFindsAnother(s: Power, id: SessionId, look: int)
    requires Possible(s, Look(look)) && id in s.sessions && !s.sessions[id].Counts(look)
    ensures Act(s, Look(look)).cache <==> AnotherCounts(s, id, look)
  {
    var counted := Act(s, Look(look)).counted;
    if x :| x in counted {
      assert x in s.sessions && x != id && s.sessions[x].Counts(look);
    }
    if x :| x in s.sessions && x != id && s.sessions[x].Counts(look) {
      assert x in counted;
    }
  }

  /** When the manager is sent a message, by what the clock says: a pause, a resume, a close, a report after the stale
      time, a verdict after it; a new session, a report in time and a check in time send none. */
  lemma MessageSentIff(s: Power, ev: Event)
    requires Possible(s, ev) && !ev.Look?
    ensures Act(s, ev).pending == s.pending +
            if ev.Pause? || ev.Resume? || ev.CloseSession? || ev.Nudge? then 1
            else if ev.Report? || ev.HandleCheck? then
              (if ev.now > s.sessions[ev.id].timer.last + s.sessions[ev.id].timer.timeout then 1 else 0)
            else 0
  {
  }

  // ---- The manager's part is the manager ----

  ghost function StatusMap(s: Power): map<SessionId, SM.Status> {
    map id | id in s.sessions :: s.sessions[id].Status()
  }

  /** The manager model has the same sessions, is answered the same and caches the same. */
  ghost predicate Mirrors(s: Power, m: SM.Manager) {
    && m.status == StatusMap(s) && m.boost.active == s.cache
    && m.reg.live.Keys == s.sessions.Keys && m.reg.closed == s.closed && s.sessions.Keys !! s.closed
  }

  /** The threads a session is created with, and the outcomes of the profile calls made for them. */
  type Threads = t: SessionId -> (seq<SM.Tid>, seq<bool>) | forall id :: |t(id).0| == |t(id).1| witness _ => ([], [])

  /** What a step means to the manager. */
  ghost function Told(s: Power, ev: Event, threads: Threads): (told: seq<SM.Message>)
    requires Possible(s, ev)
    ensures |told| <= 1
  {
    match ev
    case Create(id, timeout, now) => [SM.Register(SM.Create(id, threads(id).0, threads(id).1), now + timeout)]
    case CloseSession(id) => [SM.Register(SM.Close(id), 0)]
    case Pause(id) => [SM.Change(id, Act(s, ev).sessions[id].Status())]
    case Resume(id) => [SM.Change(id, Act(s, ev).sessions[id].Status())]
    case Report(id, _, _) => [SM.Change(id, Act(s, ev).sessions[id].Status())]
    case Look(now) => [SM.Look(map id | id in s.sessions :: now)]
    case _ => []
  }

  /** The manager accepts the message, and agrees with the next state afterwards. */
  ghost predicate Follows(m: SM.Manager, msg: SM.Message, s': Power) {
    SM.Accepts(m, msg) && Mirrors(s', SM.Receive(m, msg))
  }

  lemma LookMirrors(s: Power, m: SM.Manager, now: int)
    requires Possible(s, Look(now)) && Mirrors(s, m)
    ensures var msg := SM.Look(map id | id in s.sessions :: now);
            Follows(m, msg, Act(s, Look(now)))
  {
    var readings := map id | id in s.sessions :: now;
    var s' := Act(s, Look(now));
    SM.LookFinds(m, readings);
    if id :| id in m.status && m.status[id].active && readings[id] < m.status[id].staleTime {
      assert id in s'.counted;
    }
    if id :| id in s'.counted {
      assert m.status[id].active && readings[id] < m.status[id].staleTime;
    }
    assert StatusMap(s') == StatusMap(s);
  }

  /** A step of a timer that is not an update leaves what the manager can ask alone. */
  lemma CheckMirrors(s: Power, ev: Event)
    requires Possible(s, ev) && (ev.TakeCheck? || ev.HandleCheck?)
    ensures StatusMap(Act(s, ev)) == StatusMap(s)
  {
    TimerStatus(s, ev.id, if ev.TakeCheck? then Step(TimerOf(s, ev.id), Take)
                          else Step(TimerOf(s, ev.id), Handle(ev.now, ev.sent)));
  }

  lemma TimerStatus(s: Power, id: SessionId, t: Timer)
    requires id in s.sessions
    ensures StatusMap(WithTimer(s, id, t)) == StatusMap(s)[id := SM.Status(s.sessions[id].active, t.StaleTime())]
  {
  }

  lemma ReportMirrors(s: Power, ev: Event)
    requires Possible(s, ev) && ev.Report?
    ensures ev.id in Act(s, ev).sessions
    ensures StatusMap(Act(s, ev)) == StatusMap(s)[ev.id := Act(s, ev).sessions[ev.id].Status()]
  {
    TimerStatus(s, ev.id, Step(TimerOf(s, ev.id), Update(ev.now, ev.sent)));
  }

  /** From one state to the next only what one session answers has changed, as far as the manager can tell. */
  ghost predicate Answers(s: Power, id: SessionId, to: SM.Status, s': Power) {
    && id in s.sessions && StatusMap(s') == StatusMap(s)[id := to]
    && s'.sessions.Keys == s.sessions.Keys && s'.closed == s.closed && s'.cache == s.cache
  }

  lemma AnswerFollows(s: Power, id: SessionId, to: SM.Status, s': Power, m: SM.Manager)
    requires Mirrors(s, m) && Answers(s, id, to, s')
    ensures Follows(m, SM.Change(id, to), s')
  {
  }

  lemma ChangeMirrors(s: Power, ev: Event)
    requires Possible(s, ev) && (ev.Pause? || ev.Resume? || ev.Report?)
    ensures ev.id in Act(s, ev).sessions
    ensures Answers(s, ev.id, Act(s, ev).sessions[ev.id].Status(), Act(s, ev))
  {
    if ev.Report? {
      ReportMirrors(s, ev);
    }
  }

  lemma CreatedStatus(s: Power, id: SessionId, timeout: nat, now: int)
    requires Possible(s, Create(id, timeout, now))
    ensures StatusMap(Act(s, Create(id, timeout, now))) == StatusMap(s)[id := SM.Status(true, now + timeout)]
  {
  }

  lemma CreateMirrors(s: Power, ev: Event, m: SM.Manager, threads: Threads)
    requires Possible(s, ev) && Mirrors(s, m) && ev.Create?
    ensures Follows(m, Told(s, ev, threads)[0], Act(s, ev))
  {
    CreatedStatus(s, ev.id, ev.timeout, ev.now);
  }

  lemma CloseMirrors(s: Power, ev: Event, m: SM.Manager, threads: Threads)
    requires Possible(s, ev) && Mirrors(s, m) && ev.CloseSession?
    ensures Follows(m, Told(s, ev, threads)[0], Act(s, ev))
  {
    assert StatusMap(Act(s, ev)) == StatusMap(s) - {ev.id};
  }

  lemma ChangeFollows(s: Power, ev: Event, m: SM.Manager, threads: Threads)
    requires Possible(s, ev) && Mirrors(s, m) && (ev.Pause? || ev.Resume? || ev.Report?)
    ensures Follows(m, Told(s, ev, threads)[0], Act(s, ev))
  {
    ChangeMirrors(s, ev);
    AnswerFollows(s, ev.id, Act(s, ev).sessions[ev.id].Status(), Act(s, ev), m);
  }

  lemma QuietMirrors(s: Power, ev: Event, m: SM.Manager, threads: Threads)
    requires Possible(s, ev) && Mirrors(s, m) && Told(s, ev, threads) == []
    ensures Mirrors(Act(s, ev), m)
  {
    if ev.TakeCheck? || ev.HandleCheck? {
      CheckMirrors(s, ev);
    }
  }

  /** Every step is, to the manager model, the message it stands for, or none: both agree afterwards. */
  lemma ActMirrors(s: Power, ev: Event, m: SM.Manager, threads: Threads)
    requires Possible(s, ev) && Mirrors(s, m)
    ensures var told := Told(s, ev, threads);
            if told == [] then Mirrors(Act(s, ev), m) else Follows(m, told[0], Act(s, ev))
  {
    match ev
    case Create(_, _, _) => CreateMirrors(s, ev, m, threads);
    case CloseSession(_) => CloseMirrors(s, ev, m, threads);
    case Pause(_) => ChangeFollows(s, ev, m, threads);
    case Resume(_) => ChangeFollows(s, ev, m, threads);
    case Report(_, _, _) => ChangeFollows(s, ev, m, threads);
    case Look(now) => LookMirrors(s, m, now);
    case _ => QuietMirrors(s, ev, m, threads);
  }

  /** What a run means to the manager. */
  ghost function ToldAll(s: Power, evs: seq<Event>, s': Power, threads: Threads): seq<SM.Message>
    requires Runs(s, evs, s')
    decreases |evs|
  {
    if evs == [] then [] else Told(s, evs[0], threads) + ToldAll(Act(s, evs[0]), evs[1..], s', threads)
  }

  lemma ReceivesFirst(m: SM.Manager, told: seq<SM.Message>, rest: seq<SM.Message>, m': SM.Manager)
    requires |told| == 1 && SM.Accepts(m, told[0]) && SM.Receives(SM.Receive(m, told[0]), rest, m')
    ensures SM.Receives(m, told + rest, m')
  {
    assert (told + rest)[1..] == rest;
  }

  lemma {:induction false} RunMirrorsFrom(s: Power, evs: seq<Event>, s': Power, m: SM.Manager, threads: Threads)
      returns (m': SM.Manager)
    requires Runs(s, evs, s') && Mirrors(s, m)
    ensures SM.Receives(m, ToldAll(s, evs, s', threads), m') && Mirrors(s', m')
    decreases |evs|
  {
    if evs == [] {
      m' := m;
    } else {
      var told := Told(s, evs[0], threads);
      var rest := ToldAll(Act(s, evs[0]), evs[1..], s', threads);
      ActMirrors(s, evs[0], m, threads);
      if told == [] {
        m' := RunMirrorsFrom(Act(s, evs[0]), evs[1..], s', m, threads);
        assert told + rest == rest;
      } else {
        m' := RunMirrorsFrom(Act(s, evs[0]), evs[1..], s', SM.Receive(m, told[0]), threads);
        ReceivesFirst(m, told, rest, m');
      }
    }
  }

  /** Every run is a run of the manager model on the messages its steps stand for, whatever threads the sessions have:
      it accepts all of them, and in the end has the same sessions and the same cache. */
  lemma RunMirrors(boot: int, evs: seq<Event>, s: Power, threads: Threads)
    requires Runs(Booted(boot), evs, s)
    ensures exists m :: SM.Receives(SM.Initially, ToldAll(Booted(boot), evs, s, threads), m) && Mirrors(s, m)
  {
    assert StatusMap(Booted(boot)) == map[];
    var m := RunMirrorsFrom(Booted(boot), evs, s, SM.Initially, threads);
  }

  // ---- The three ways it is wrong ----

  ghost predicate Reachable(s: Power) {
    exists boot, evs :: Runs(Booted(boot), evs, s)
  }

  lemma {:induction false} RunsSnoc(s: Power, evs: seq<Event>, s': Power, ev: Event)
    requires Runs(s, evs, s') && Possible(s', ev)
    ensures Runs(s, evs + [ev], Act(s', ev))
    decreases |evs|
  {
    if evs != [] {
      RunsSnoc(Act(s, evs[0]), evs[1..], s', ev);
      assert (evs + [ev])[1..] == evs[1..] + [ev];
    }
  }

  lemma ReachableAct(s: Power, ev: Event)
    requires Reachable(s) && Possible(s, ev)
    ensures Reachable(Act(s, ev))
  {
    var boot, evs :| Runs(Booted(boot), evs, s);
    RunsSnoc(Booted(boot), evs, s, ev);
  }

  /** A new session is active, and no message says so. */
  lemma NewSessionIsUnseen(timeout: nat, now: int)
    requires timeout > 0
    ensures var s := Act(Booted(now), Create(0, timeout, now));
            Reachable(s) && s.pending == 0 && !s.cache && SomeActive(s)
  {
    var evs: seq<Event> := [];
    assert Runs(Booted(now), evs, Booted(now));
    ReachableAct(Booted(now), Create(0, timeout, now));
    var s := Act(Booted(now), Create(0, timeout, now));
    assert 0 in s.sessions && s.sessions[0].Counts(s.clock);
  }

  /** One session, paused and resumed without ever being updated, and the manager's two looks at `look`. */
  ghost function OneLooked(timeout: nat, now: int, look: int): Power
    requires now <= look
  {
    Act(Act(Toggled(timeout, now), Look(look)), Look(look))
  }

  ghost function Toggled(timeout: nat, now: int): Power {
    Act(Act(Act(Booted(now), Create(0, timeout, now)), Pause(0)), Resume(0))
  }

  lemma ToggledIs(timeout: nat, now: int)
    ensures var s := Toggled(timeout, now);
            && Reachable(s) && s.pending == 2 && s.clock == now
            && s.sessions == map[0 := Sess(true, Started(timeout, now))]
  {
    var evs: seq<Event> := [];
    assert Runs(Booted(now), evs, Booted(now));
    ReachableAct(Booted(now), Create(0, timeout, now));
    var s1 := Act(Booted(now), Create(0, timeout, now));
    ReachableAct(s1, Pause(0));
    ReachableAct(Act(s1, Pause(0)), Resume(0));
  }

  lemma LookAtOne(s: Power, timeout: nat, now: int, look: int)
    requires Reachable(s) && s.pending > 0 && s.clock <= look
    requires s.sessions == map[0 := Sess(true, Started(timeout, now))]
    ensures var s' := Act(s, Look(look));
            && Reachable(s') && s'.pending == s.pending - 1 && s'.clock == s'.lookAt == look
            && s'.sessions == s.sessions && s'.since == {} && s'.tied == {}
            && (s'.cache <==> look < now + timeout) && s'.counted == if look < now + timeout then {0} else {}
  {
    ReachableAct(s, Look(look));
    var s' := Act(s, Look(look));
    assert 0 in s.sessions && s.sessions[0].Counts(look) == (look < now + timeout);
    assert s'.counted == if look < now + timeout then {0} else {};
  }

  lemma OneLookedIs(timeout: nat, now: int, look: int)
    requires now <= look
    ensures var s := OneLooked(timeout, now, look);
            && Reachable(s) && s.pending == 0 && s.clock == look && s.lookAt == look && s.since == {} && s.tied == {}
            && s.sessions == map[0 := Sess(true, Started(timeout, now))]
            && (s.cache <==> look < now + timeout) && s.counted == if look < now + timeout then {0} else {}
  {
    ToggledIs(timeout, now);
    LookAtOne(Toggled(timeout, now), timeout, now, look);
    LookAtOne(Act(Toggled(timeout, now), Look(look)), timeout, now, look);
  }

  /** A session that is counted but never updated goes stale with no check under way: the cache stays true for good if
      nothing else happens. */
  lemma NeverUpdatedIsNeverNoticed(timeout: nat, now: int, later: int)
    requires timeout > 0 && later >= now + timeout
    ensures var s := Act(OneLooked(timeout, now, now), Wait(later));
            Reachable(s) && s.pending == 0 && s.cache && !SomeActive(s) && s.sessions[0].timer.Messages() == 0
  {
    OneLookedIs(timeout, now, now);
    ReachableAct(OneLooked(timeout, now, now), Wait(later));
  }

  /** A look and an update at the very instant a session goes stale: the look does not count it and the update sends no
      message, so the cache stays false while the session is active. */
  lemma TieIsMissed(timeout: nat, now: int)
    requires timeout > 0
    ensures var at := now + timeout;
            var s := Act(OneLooked(timeout, now, at), Report(0, at, at));
            Reachable(s) && s.pending == 0 && !s.cache && SomeActive(s) && 0 in s.tied
  {
    var at := now + timeout;
    OneLookedIs(timeout, now, at);
    ReachableAct(OneLooked(timeout, now, at), Report(0, at, at));
    var s := Act(OneLooked(timeout, now, at), Report(0, at, at));
    assert 0 in s.sessions && s.sessions[0].Counts(s.clock);
  }
}
