/**
 The stale timer of a power-hint session: a self-rearming delayed message on a
 looper, re-aimed lazily at the stale time that reports keep pushing forward.
 Report calls, closing the session and the looper thread interleave; what runs
 under the handler's lock is one step. Times are nanoseconds on one clock.
 */
module StaleTimer {

  /** A delayed message: when the looper will deliver it, and how late after sampling the clock it was sent. */
  datatype Msg = Msg(due: int, lag: nat)

  datatype Entry = Updated(at: int) | Fired(at: int)

  datatype Timer = Timer(
    timeout: nat,          // how long after an update the session is stale
    clock: int,
    last: int,             // the last update
    monitoring: bool,
    queue: seq<Msg>,       // messages of this handler waiting in the looper
    inDispatch: nat,       // messages the looper has taken out and not handled yet
    closed: bool,
    log: seq<Entry>)
  {
    function StaleTime(): int { last + timeout }

    function Messages(): nat { |queue| + inDispatch }
  }

  /** The rate is cut to whole milliseconds before it is multiplied. */
  function Timeout(rate: nat, factor: nat): nat {
    rate / 1000000 * 1000000 * factor
  }

  lemma {:induction false} TimeoutCut(rate: nat, factor: nat)
    ensures Timeout(rate, factor) == (rate - rate % 1000000) * factor <= rate * factor
    ensures Timeout(rate, factor) == rate * factor <==> rate % 1000000 == 0 || factor == 0
  {
    var cut := rate % 1000000;
    assert rate / 1000000 * 1000000 == rate - cut;
    CutTimes(rate, cut, factor);
  }

  lemma CutTimes(rate: nat, cut: nat, factor: nat)
    requires cut <= rate
    ensures (rate - cut) * factor <= rate * factor
    ensures (rate - cut) * factor == rate * factor <==> cut == 0 || factor == 0
  {
    assert (rate - cut) * factor == rate * factor - cut * factor;
    if cut > 0 && factor > 0 {
      assert cut * factor > 0;
    }
  }

  /** `now` is the handler's reading of the clock, `sent` the looper's own when it queues a message. */
  datatype Event =
    | Update(now: int, sent: int)
    | Take
    | Handle(now: int, sent: int)
    | Close
    | Tick(now: int)

  predicate Enabled(s: Timer, ev: Event) {
    match ev
    case Update(now, sent) => s.clock <= now <= sent
    case Take => s.inDispatch == 0 && s.queue != [] && s.queue[0].due <= s.clock
    case Handle(now, sent) => s.inDispatch > 0 && s.clock <= now <= sent
    case Close => !s.closed
    case Tick(now) => s.clock <= now
  }

  /** The message that, sent at `sent` after reading `now`, is aimed at `when`. */
  function Aimed(when: int, now: int, sent: int): Msg
    requires now <= sent
  {
    Msg(sent + (when - now), sent - now)
  }

  function Step(s: Timer, ev: Event): Timer
    requires Enabled(s, ev)
  {
    match ev
    case Update(now, sent) =>
      var updated := s.(clock := sent, last := now, log := s.log + [Updated(now)]);
      if s.monitoring then updated
      else updated.(queue := s.queue + [Aimed(now + s.timeout, now, sent)], monitoring := true)
    case Take => s.(queue := s.queue[1..], inDispatch := 1)
    case Handle(now, sent) =>
      var taken := s.(clock := sent, inDispatch := s.inDispatch - 1);
      if now > s.StaleTime() then taken.(monitoring := false, log := s.log + [Fired(now)])
      else taken.(queue := s.queue + [Aimed(s.StaleTime(), now, sent)])
    case Close => s.(closed := true, queue := [])
    case Tick(now) => s.(clock := now)
  }

  function Started(timeout: nat, now: int): Timer {
    Timer(timeout, now, now, false, [], 0, false, [])
  }

  ghost predicate Runs(s: Timer, evs: seq<Event>, s': Timer)
    decreases |evs|
  {
    if evs == [] then s' == s else Enabled(s, evs[0]) && Runs(Step(s, evs[0]), evs[1..], s')
  }

  // ---- One message ----

  /** At most one message, one exactly while monitoring an open session, none while not monitoring; and it is aimed no
      later than the stale time. */
  ghost predicate OneMessage(s: Timer) {
    && s.last <= s.clock
    && s.Messages() <= 1
    && (!s.monitoring ==> s.Messages() == 0)
    && (!s.closed && s.monitoring ==> s.Messages() == 1)
    && forall m :: m in s.queue ==> m.due - m.lag <= s.StaleTime()
  }

  // ---- What the log says ----

  /** A stale verdict comes more than the timeout after every update before it. */
  ghost predicate FullTimeout(timeout: nat, log: seq<Entry>) {
    forall i, j :: 0 <= i < j < |log| && log[i].Updated? && log[j].Fired? ==> log[j].at > log[i].at + timeout
  }

  /** Some update came after the last stale verdict. */
  ghost predicate UpdatedSince(log: seq<Entry>) {
    log != [] && log[|log| - 1].Updated?
  }

  /** Every stale verdict comes right after an update. */
  ghost predicate Alternates(log: seq<Entry>) {
    forall i :: 0 <= i < |log| && log[i].Fired? ==> i > 0 && log[i - 1].Updated?
  }

  ghost predicate LogInv(s: Timer) {
    && FullTimeout(s.timeout, s.log)
    && Alternates(s.log)
    && (s.monitoring ==> UpdatedSince(s.log))
    && forall i :: 0 <= i < |s.log| && s.log[i].Updated? ==> s.log[i].at <= s.last
  }

  lemma StepKeepsOneMessage(s: Timer, ev: Event)
    requires Enabled(s, ev) && OneMessage(s)
    ensures OneMessage(Step(s, ev))
  {
  }

  lemma StepKeepsLog(s: Timer, ev: Event)
    requires Enabled(s, ev) && OneMessage(s) && LogInv(s)
    ensures LogInv(Step(s, ev))
  {
  }

  lemma {:induction false} RunKeepsInv(s: Timer, evs: seq<Event>, s': Timer)
    requires Runs(s, evs, s') && OneMessage(s) && LogInv(s)
    ensures OneMessage(s') && LogInv(s') && s'.timeout == s.timeout
    decreases |evs|
  {
    if evs != [] {
      StepKeepsOneMessage(s, evs[0]);
      StepKeepsLog(s, evs[0]);
      RunKeepsInv(Step(s, evs[0]), evs[1..], s');
    }
  }

  /** In every run: never more than one message queued or in dispatch; before the session is closed exactly one iff the
      handler says it is monitoring. */
  lemma OneMessageIffMonitoring(timeout: nat, now: int, evs: seq<Event>, s: Timer)
    requires Runs(Started(timeout, now), evs, s)
    ensures s.Messages() <= 1
    ensures !s.closed ==> (s.Messages() == 1 <==> s.monitoring)
  {
    RunKeepsInv(Started(timeout, now), evs, s);
  }

  /** In every run: the session is declared stale only when more than the timeout has passed since every update before,
      and never twice without an update in between. */
  lemma StaleOnlyAfterFullTimeout(timeout: nat, now: int, evs: seq<Event>, s: Timer)
    requires Runs(Started(timeout, now), evs, s)
    ensures FullTimeout(timeout, s.log) && Alternates(s.log)
  {
    RunKeepsInv(Started(timeout, now), evs, s);
  }

  // ---- When the check comes in time ----

  /** No waiting check is due after the stale time. */
  ghost predicate InTime(s: Timer) {
    forall m :: m in s.queue ==> m.due <= s.StaleTime()
  }

  /** The event makes the handler send a check. */
  predicate Sends(s: Timer, ev: Event) {
    (ev.Update? && !s.monitoring) || (ev.Handle? && ev.now <= s.StaleTime())
  }

  /** Whenever the run sends a check it does so the moment it has read the clock. */
  ghost predicate SendsAtOnce(s: Timer, evs: seq<Event>)
    requires Executable(s, evs)
    decreases |evs|
  {
    evs == [] || ((Sends(s, evs[0]) ==> evs[0].sent == evs[0].now) && SendsAtOnce(Step(s, evs[0]), evs[1..]))
  }

  ghost predicate AlwaysInTime(s: Timer, evs: seq<Event>)
    requires Executable(s, evs)
    decreases |evs|
  {
    InTime(s) && (evs == [] || AlwaysInTime(Step(s, evs[0]), evs[1..]))
  }

  ghost predicate Executable(s: Timer, evs: seq<Event>)
    decreases |evs|
  {
    evs == [] || (Enabled(s, evs[0]) && Executable(Step(s, evs[0]), evs[1..]))
  }

  /** Any check is sent late by exactly the time sending it took. */
  lemma SlowSendIsLate(s: Timer, ev: Event)
    requires Enabled(s, ev) && OneMessage(s) && Sends(s, ev)
    ensures var s' := Step(s, ev);
            |s'.queue| == 1 && s'.queue[0].due == s'.StaleTime() + (ev.sent - ev.now)
  {
  }

  lemma StepInTime(s: Timer, ev: Event)
    requires Enabled(s, ev) && OneMessage(s) && InTime(s)
    ensures InTime(Step(s, ev)) <==> (Sends(s, ev) ==> ev.sent == ev.now)
  {
    if Sends(s, ev) {
      SlowSendIsLate(s, ev);
      assert Step(s, ev).queue[0] in Step(s, ev).queue;
    }
  }

  lemma {:induction false} InTimeIffSentAtOnce(s: Timer, evs: seq<Event>)
    requires Executable(s, evs) && OneMessage(s) && InTime(s)
    ensures AlwaysInTime(s, evs) <==> SendsAtOnce(s, evs)
    decreases |evs|
  {
    if evs != [] {
      StepInTime(s, evs[0]);
      StepKeepsOneMessage(s, evs[0]);
      var s' := Step(s, evs[0]);
      if InTime(s') {
        InTimeIffSentAtOnce(s', evs[1..]);
      }
    }
  }

  /** In every run the waiting check is due by the current stale time in all states exactly if every check was sent the
      moment the clock was read; and in any state it is late by at most the time sending it took. */
  lemma CheckDueByStaleTime(timeout: nat, now: int, evs: seq<Event>, s: Timer)
    requires Runs(Started(timeout, now), evs, s)
    ensures Executable(Started(timeout, now), evs)
    ensures forall m :: m in s.queue ==> m.due <= s.StaleTime() + m.lag
    ensures AlwaysInTime(Started(timeout, now), evs) <==> SendsAtOnce(Started(timeout, now), evs)
  {
    RunKeepsInv(Started(timeout, now), evs, s);
    RunsAreExecutable(Started(timeout, now), evs, s);
    InTimeIffSentAtOnce(Started(timeout, now), evs);
  }

  lemma {:induction false} RunsAreExecutable(s: Timer, evs: seq<Event>, s': Timer)
    requires Runs(s, evs, s')
    ensures Executable(s, evs)
    decreases |evs|
  {
    if evs != [] {
      RunsAreExecutable(Step(s, evs[0]), evs[1..], s');
    }
  }

  // ---- Silence is noticed ----

  /** From any state of an open session that is monitored, past the stale time and with the check due, delivering and
      handling that check declares the session stale and leaves no check. */
  lemma SilenceIsNoticed(s: Timer, t: int)
    requires OneMessage(s) && !s.closed && s.monitoring && s.clock <= t && t > s.StaleTime()
    requires s.queue != [] ==> s.queue[0].due <= t
    ensures var evs := if s.inDispatch == 1 then [Handle(t, t)] else [Tick(t), Take, Handle(t, t)];
            exists s' :: Runs(s, evs, s') && s'.log == s.log + [Fired(t)] && !s'.monitoring && s'.Messages() == 0
  {
    if s.inDispatch == 1 {
      var s' := Step(s, Handle(t, t));
      RunOne(s, Handle(t, t));
      assert s'.log == s.log + [Fired(t)];
    } else {
      var s1 := Step(s, Tick(t));
      var s2 := Step(s1, Take);
      var s' := Step(s2, Handle(t, t));
      RunOne(s2, Handle(t, t));
      assert [Take, Handle(t, t)][1..] == [Handle(t, t)];
      assert Runs(s1, [Take, Handle(t, t)], s');
      assert [Tick(t), Take, Handle(t, t)][1..] == [Take, Handle(t, t)];
      assert Runs(s, [Tick(t), Take, Handle(t, t)], s') && s'.log == s.log + [Fired(t)];
    }
  }

  lemma RunOne(s: Timer, ev: Event)
    requires Enabled(s, ev)
    ensures Runs(s, [ev], Step(s, ev))
  {
    assert [ev][1..] == [];
  }

  /** A report right after creation starts the monitoring of an open session, which then ends at the first instant past
      the timeout if nothing else happens. */
  lemma OneReportThenSilence(timeout: nat, now: int)
    ensures Enabled(Started(timeout, now), Update(now, now)) && Enabled(Started(timeout, now), Close)
    ensures var s, t := Step(Started(timeout, now), Update(now, now)), now + timeout + 1;
            && s.monitoring && !s.closed && s.queue == [Msg(now + timeout, 0)] && s.inDispatch == 0
            && exists s' :: Runs(s, [Tick(t), Take, Handle(t, t)], s') && s'.log == [Updated(now), Fired(t)]
  {
    var s, t := Step(Started(timeout, now), Update(now, now)), now + timeout + 1;
    assert s.queue == [Msg(now + timeout, 0)];
    SilenceIsNoticed(s, t);
    assert [] + [Updated(now)] + [Fired(t)] == [Updated(now), Fired(t)];
  }

  // ---- After close ----

  ghost predicate NoUpdates(evs: seq<Event>) {
    forall i :: 0 <= i < |evs| ==> !evs[i].Update?
  }

  /** Without updates no message comes into being. */
  lemma {:induction false} NoUpdateNoNewMessage(s: Timer, evs: seq<Event>, s': Timer)
    requires Runs(s, evs, s') && NoUpdates(evs)
    ensures s'.Messages() <= s.Messages()
    decreases |evs|
  {
    if evs != [] {
      NoUpdateNoNewMessage(Step(s, evs[0]), evs[1..], s');
    }
  }

  /** Closing leaves only a check that was in dispatch: without a later update there is none if none was, and one that
      was is queued again, on the closed session, exactly if the session is not stale when it is handled. */
  lemma OnlyDispatchSurvivesClose(s: Timer, evs: seq<Event>, s': Timer)
    requires OneMessage(s) && Enabled(s, Close) && Runs(Step(s, Close), evs, s') && NoUpdates(evs)
    ensures s.inDispatch == 0 ==> s'.Messages() == 0
    ensures s'.Messages() <= 1
    ensures forall now, sent :: Enabled(Step(s, Close), Handle(now, sent)) ==>
              s.inDispatch == 1
              && (Step(Step(s, Close), Handle(now, sent)).Messages() == 1 <==> now <= s.StaleTime())
  {
    NoUpdateNoNewMessage(Step(s, Close), evs, s');
  }

  // ---- The handler object ----

  class StaleHandler {
    const rate: nat
    const factor: nat
    var clock: int
    var lastUpdatedTime: int
    var isMonitoringStale: bool
    var queue: seq<Msg>
    var inDispatch: nat
    var closed: bool
    ghost var log: seq<Entry>

    ghost function View(): Timer
      reads this
    {
      Timer(Timeout(rate, factor), clock, lastUpdatedTime, isMonitoringStale, queue, inDispatch, closed, log)
    }

    /** One check while monitoring, aimed by the stale time; verdicts a full timeout after every earlier update. */
    ghost predicate Valid()
      reads this
    {
      OneMessage(View()) && LogInv(View())
    }

    constructor (rate: nat, factor: nat, now: int)
      ensures Valid() && this.rate == rate && this.factor == factor
      ensures View() == Started(Timeout(rate, factor), now)
      ensures lastUpdatedTime == now && !isMonitoringStale && !closed && queue == [] && inDispatch == 0
    {
      this.rate, this.factor := rate, factor;
      clock, lastUpdatedTime, isMonitoringStale := now, now, false;
      queue, inDispatch, closed, log := [], 0, false, [];
    }

    function GetStaleTime(): (r: int)
      reads this
      ensures r == View().StaleTime()
    {
      lastUpdatedTime + rate / 1000000 * 1000000 * factor
    }

    /** The looper delivers `delay` after its own reading of the clock. */
    method SendMessageDelayed(delay: int, now: int, sent: int)
      requires now <= sent
      modifies this`queue, this`clock
      ensures clock == sent && queue == old(queue) + [Msg(sent + delay, sent - now)]
    {
      clock := sent;
      queue := queue + [Msg(sent + delay, sent - now)];
    }

    /** An update; `recheck` is whether the manager is asked to look at the sessions again. Afterwards an open session
        has exactly one check, due a timeout from now plus the time sending took if it is a new one. */
    method UpdateStaleTimer(running: bool, now: int, sent: int) returns (recheck: bool)
      requires Valid() && Enabled(View(), Update(now, sent))
      modifies this
      ensures Valid()
      ensures View() == if running then Step(old(View()), Update(now, sent)) else old(View())
      ensures running ==> lastUpdatedTime == now && isMonitoringStale
      ensures recheck <==> running && now > old(View()).StaleTime()
      ensures running && !closed ==> View().Messages() == 1
      ensures running && old(!isMonitoringStale) ==>
                |queue| == 1 && queue[0].due == now + Timeout(rate, factor) + (sent - now)
    {
      recheck := false;
      if running {
        StepKeepsOneMessage(View(), Update(now, sent));
        StepKeepsLog(View(), Update(now, sent));
        var when := GetStaleTime();
        lastUpdatedTime := now;
        log := log + [Updated(now)];
        if now > when {
          recheck := true;
        }
        if !isMonitoringStale {
          var next := GetStaleTime();
          SendMessageDelayed(next - now, now, sent);
          isMonitoringStale := true;
        }
        clock := sent;
      }
    }

    /** The looper takes the first message out when it is due. */
    method TakeMessage()
      requires Valid() && Enabled(View(), Take)
      modifies this`queue, this`inDispatch
      ensures Valid() && View() == Step(old(View()), Take)
    {
      StepKeepsOneMessage(View(), Take);
      StepKeepsLog(View(), Take);
      queue, inDispatch := queue[1..], 1;
    }

    /** The message in dispatch is handled. The session is declared stale exactly past the stale time, so more than the
        timeout after every update so far, and then no check is left; else there is exactly one again. */
    method HandleMessage(now: int, sent: int) returns (stale: bool)
      requires Valid() && Enabled(View(), Handle(now, sent))
      modifies this
      ensures Valid() && View() == Step(old(View()), Handle(now, sent))
      ensures stale <==> now > old(View()).StaleTime()
      ensures stale ==> forall i :: 0 <= i < |old(log)| && old(log)[i].Updated? ==>
                          now > old(log)[i].at + Timeout(rate, factor)
      ensures View().Messages() == if stale then 0 else 1
      ensures isMonitoringStale == !stale && lastUpdatedTime == old(lastUpdatedTime)
      ensures !stale ==> |queue| == 1 && queue[0].due == GetStaleTime() + (sent - now)
    {
      StepKeepsOneMessage(View(), Handle(now, sent));
      StepKeepsLog(View(), Handle(now, sent));
      inDispatch := inDispatch - 1;
      var when := GetStaleTime();
      if now > when {
        isMonitoringStale, clock := false, sent;
        log := log + [Fired(now)];
        return true;
      }
      SendMessageDelayed(when - now, now, sent);
      stale := false;
    }

    /** Closing the session removes what waits in the looper, not what is in dispatch. */
    method RemoveMessages()
      requires Valid() && Enabled(View(), Close)
      modifies this`queue, this`closed
      ensures Valid() && View() == Step(old(View()), Close)
      ensures View().Messages() == old(inDispatch)
    {
      StepKeepsOneMessage(View(), Close);
      StepKeepsLog(View(), Close);
      closed := true;
      queue := [];
    }
  }
}
