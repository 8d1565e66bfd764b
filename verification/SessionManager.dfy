/**
 The manager of power-hint sessions: a reference count per thread that decides
 when a thread joins and leaves the "reset uclamp" profile, and an
 edge-triggered cache of "some session is active" that drives the hint
 disabling the top-app boost.
 */
module SessionManager {

  type SessionId = nat
  type Tid = int

  // ---- Reference counts ----

  type RefCounts = map<Tid, int>

  function Count(refs: RefCounts, t: Tid): int {
    if t in refs then refs[t] else 0
  }

  /** One thread of a new session; `ok` is whether SetTaskProfiles succeeds if it is called. */
  function AddTid(refs: RefCounts, t: Tid, ok: bool): RefCounts {
    if t !in refs then (if ok then refs[t := 1] else refs)
    else if refs[t] <= 0 then refs
    else refs[t := refs[t] + 1]
  }

  function AddTids(refs: RefCounts, tids: seq<Tid>, ok: seq<bool>): RefCounts
    requires |ok| == |tids|
    decreases |tids|
  {
    if tids == [] then refs else AddTids(AddTid(refs, tids[0], ok[0]), tids[1..], ok[1..])
  }

  /** One thread of a closing session; leaving the profile may fail, the count goes all the same. */
  function RemoveTid(refs: RefCounts, t: Tid): RefCounts {
    if t !in refs then refs
    else if refs[t] - 1 <= 0 then refs - {t}
    else refs[t := refs[t] - 1]
  }

  function RemoveTids(refs: RefCounts, tids: seq<Tid>): RefCounts
    decreases |tids|
  {
    if tids == [] then refs else RemoveTids(RemoveTid(refs, tids[0]), tids[1..])
  }

  ghost predicate Positive(refs: RefCounts) {
    forall t :: t in refs ==> refs[t] >= 1
  }

  /** A call is made for thread `t`, which is not counted at that moment, and fails. */
  predicate FailedCall(refs: RefCounts, tids: seq<Tid>, ok: seq<bool>, t: Tid)
    requires |ok| == |tids|
    decreases |tids|
  {
    tids != []
    && ((tids[0] == t && t !in refs && !ok[0]) || FailedCall(AddTid(refs, tids[0], ok[0]), tids[1..], ok[1..], t))
  }

  /** Where `t` first occurs. */
  function First(tids: seq<Tid>, t: Tid): (i: nat)
    requires t in tids
    ensures i < |tids| && tids[i] == t && t !in tids[..i]
  {
    if tids[0] == t then 0
    else
      var i := First(tids[1..], t) + 1;
      assert tids[..i] == [tids[0]] + tids[1..][..i - 1];
      i
  }

  function Occurrences(tids: seq<Tid>, t: Tid): nat {
    multiset(tids)[t]
  }

  lemma OccurrencesSplit(tids: seq<Tid>, t: Tid)
    requires tids != []
    ensures Occurrences(tids, t) == (if tids[0] == t then 1 else 0) + Occurrences(tids[1..], t)
  {
    assert tids == [tids[0]] + tids[1..];
  }

  /** A thread gains at most its occurrences, and exactly those unless a call made for it fails. */
  lemma {:induction false} AddTidsCounts(refs: RefCounts, tids: seq<Tid>, ok: seq<bool>, t: Tid)
    requires |ok| == |tids| && Positive(refs)
    ensures Positive(AddTids(refs, tids, ok))
    ensures var c, c', k := Count(refs, t), Count(AddTids(refs, tids, ok), t), Occurrences(tids, t);
            && c <= c' <= c + k
            && (c' == c + k <==> !FailedCall(refs, tids, ok, t))
    decreases |tids|
  {
    if tids != [] {
      OccurrencesSplit(tids, t);
      AddTidsCounts(AddTid(refs, tids[0], ok[0]), tids[1..], ok[1..], t);
    }
  }

  /** Whether a call made for `t` fails, told before any is made: `t` is not counted yet, is in the list, and the call
      for its first occurrence fails. */
  lemma {:induction false} FailedCallIffFirstFails(refs: RefCounts, tids: seq<Tid>, ok: seq<bool>, t: Tid)
    requires |ok| == |tids|
    ensures FailedCall(refs, tids, ok, t) <==> t !in refs && t in tids && !ok[First(tids, t)]
    decreases |tids|
  {
    if tids != [] {
      FailedCallIffFirstFails(AddTid(refs, tids[0], ok[0]), tids[1..], ok[1..], t);
      assert t in tids <==> tids[0] == t || t in tids[1..];
    }
  }

  /** Removing takes away the occurrences, stopping at zero. */
  lemma {:induction false} RemoveTidsCounts(refs: RefCounts, tids: seq<Tid>, t: Tid)
    requires Positive(refs)
    ensures Positive(RemoveTids(refs, tids))
    ensures var c, k := Count(refs, t), Occurrences(tids, t);
            Count(RemoveTids(refs, tids), t) == if c >= k then c - k else 0
    decreases |tids|
  {
    if tids != [] {
      OccurrencesSplit(tids, t);
      RemoveTidsCounts(RemoveTid(refs, tids[0]), tids[1..], t);
    }
  }

  // ---- Sessions coming and going ----

  datatype Registry = Registry(live: map<SessionId, seq<Tid>>, closed: set<SessionId>, refs: RefCounts)

  const NoSessions: Registry := Registry(map[], {}, map[])

  datatype Event = Create(id: SessionId, tids: seq<Tid>, ok: seq<bool>) | Close(id: SessionId)

  /** A session is created once; closing it again (or a session that never was) changes nothing. */
  predicate Enabled(r: Registry, ev: Event) {
    match ev
    case Create(id, tids, ok) => id !in r.live && id !in r.closed && |ok| == |tids|
    case Close(id) => id in r.live || id in r.closed
  }

  function Step(r: Registry, ev: Event): Registry
    requires Enabled(r, ev)
  {
    match ev
    case Create(id, tids, ok) => r.(live := r.live[id := tids], refs := AddTids(r.refs, tids, ok))
    case Close(id) =>
      if id in r.closed then r
      else Registry(r.live - {id}, r.closed + {id}, RemoveTids(r.refs, r.live[id]))
  }

  ghost predicate Runs(r: Registry, evs: seq<Event>, r': Registry)
    decreases |evs|
  {
    if evs == [] then r == r'
    else Enabled(r, evs[0]) && Runs(Step(r, evs[0]), evs[1..], r')
  }

  /** All thread identifiers of the live sessions, with repetitions. */
  ghost function Total(live: map<SessionId, seq<Tid>>): multiset<Tid>
    decreases |live|
  {
    if live == map[] then multiset{}
    else
      var id :| id in live;
      DropShrinks(live, id);
      multiset(live[id]) + Total(live - {id})
  }

  lemma DropShrinks(live: map<SessionId, seq<Tid>>, id: SessionId)
    requires id in live
    ensures |live - {id}| < |live|
  {
    assert (live - {id}).Keys == live.Keys - {id};
  }

  /** The total does not depend on the order of counting. */
  lemma {:induction false} TotalDrop(live: map<SessionId, seq<Tid>>, id: SessionId)
    requires id in live
    ensures Total(live) == multiset(live[id]) + Total(live - {id})
    decreases |live|
  {
    var first :| first in live && Total(live) == multiset(live[first]) + Total(live - {first});
    if first != id {
      DropShrinks(live, first);
      DropShrinks(live, id);
      TotalDrop(live - {first}, id);
      TotalDrop(live - {id}, first);
      assert live - {first} - {id} == live - {id} - {first};
    }
  }

  lemma TotalAdd(live: map<SessionId, seq<Tid>>, id: SessionId, tids: seq<Tid>)
    requires id !in live
    ensures Total(live[id := tids]) == multiset(tids) + Total(live)
  {
    TotalDrop(live[id := tids], id);
    assert live[id := tids] - {id} == live;
  }

  // ---- Conservation ----

  /** Counts are positive and never exceed the occurrences in live sessions. */
  ghost predicate Conserved(r: Registry) {
    && r.live.Keys !! r.closed
    && Positive(r.refs)
    && forall t :: Count(r.refs, t) <= Total(r.live)[t]
  }

  ghost predicate Exact(r: Registry, t: Tid) {
    Count(r.refs, t) == Total(r.live)[t]
  }

  /** The step makes a call for thread `t` that fails. */
  predicate StepFailsFor(r: Registry, ev: Event, t: Tid)
    requires Enabled(r, ev)
  {
    ev.Create? && FailedCall(r.refs, ev.tids, ev.ok, t)
  }

  /** Every step keeps the counts within the occurrences, and keeps an exact count exact unless a call for it fails. */
  lemma StepConserves(r: Registry, ev: Event)
    requires Enabled(r, ev) && Conserved(r)
    ensures Conserved(Step(r, ev))
    ensures forall t :: Exact(r, t) ==> (Exact(Step(r, ev), t) <==> !StepFailsFor(r, ev, t))
  {
    var r' := Step(r, ev);
    match ev
    case Create(id, tids, ok) =>
      TotalAdd(r.live, id, tids);
      AddTidsCounts(r.refs, tids, ok, 0);
      forall t
        ensures Count(r'.refs, t) <= Total(r'.live)[t] && (Exact(r, t) ==> (Exact(r', t) <==> !StepFailsFor(r, ev, t)))
      {
        AddTidsCounts(r.refs, tids, ok, t);
      }
    case Close(id) =>
      if id !in r.closed {
        TotalDrop(r.live, id);
        RemoveTidsCounts(r.refs, r.live[id], 0);
        forall t ensures Count(r'.refs, t) <= Total(r'.live)[t] && (Exact(r, t) ==> Exact(r', t)) {
          RemoveTidsCounts(r.refs, r.live[id], t);
        }
      }
  }

  ghost predicate Executable(r: Registry, evs: seq<Event>)
    decreases |evs|
  {
    evs == [] || (Enabled(r, evs[0]) && Executable(Step(r, evs[0]), evs[1..]))
  }

  /** Some call made for `t` along the run fails. */
  ghost predicate FailsFor(r: Registry, evs: seq<Event>, t: Tid)
    requires Executable(r, evs)
    decreases |evs|
  {
    evs != [] && (StepFailsFor(r, evs[0], t) || FailsFor(Step(r, evs[0]), evs[1..], t))
  }

  /** The count of `t` is exact in every state of the run. */
  ghost predicate AlwaysExact(r: Registry, evs: seq<Event>, t: Tid)
    requires Executable(r, evs)
    decreases |evs|
  {
    Exact(r, t) && (evs == [] || AlwaysExact(Step(r, evs[0]), evs[1..], t))
  }

  lemma {:induction false} RunConserves(r: Registry, evs: seq<Event>, r': Registry)
    requires Runs(r, evs, r') && Conserved(r)
    ensures Conserved(r') && Executable(r, evs)
    decreases |evs|
  {
    if evs != [] {
      StepConserves(r, evs[0]);
      RunConserves(Step(r, evs[0]), evs[1..], r');
    }
  }

  lemma {:induction false} AlwaysExactIffNoFailure(r: Registry, evs: seq<Event>, t: Tid)
    requires Executable(r, evs) && Conserved(r) && Exact(r, t)
    ensures AlwaysExact(r, evs, t) <==> !FailsFor(r, evs, t)
    decreases |evs|
  {
    if evs != [] {
      StepConserves(r, evs[0]);
      var r' := Step(r, evs[0]);
      if Exact(r', t) {
        AlwaysExactIffNoFailure(r', evs[1..], t);
      }
    }
  }

  lemma {:induction false} AlwaysExactAtTheEnd(r: Registry, evs: seq<Event>, r': Registry, t: Tid)
    requires Runs(r, evs, r') && Executable(r, evs) && AlwaysExact(r, evs, t)
    ensures Exact(r', t)
    decreases |evs|
  {
    if evs != [] {
      AlwaysExactAtTheEnd(Step(r, evs[0]), evs[1..], r', t);
    }
  }

  /** Over any run of creations and closes every count is positive and at most the occurrences of its thread in live
      sessions; it is exactly that in every state of the run exactly if no call made for the thread fails; and when no
      session is left no count is. */
  lemma RefCountsConserved(evs: seq<Event>, r: Registry)
    requires Runs(NoSessions, evs, r)
    ensures forall t :: t in r.refs ==> 1 <= r.refs[t] <= Total(r.live)[t]
    ensures Executable(NoSessions, evs)
    ensures forall t :: AlwaysExact(NoSessions, evs, t) <==> !FailsFor(NoSessions, evs, t)
    ensures forall t :: !FailsFor(NoSessions, evs, t) ==> Count(r.refs, t) == Total(r.live)[t]
    ensures r.live == map[] ==> r.refs == map[]
  {
    RunConserves(NoSessions, evs, r);
    forall t | t in r.refs ensures 1 <= r.refs[t] <= Total(r.live)[t] {
      assert Count(r.refs, t) <= Total(r.live)[t];
    }
    forall t
      ensures AlwaysExact(NoSessions, evs, t) <==> !FailsFor(NoSessions, evs, t)
      ensures !FailsFor(NoSessions, evs, t) ==> Count(r.refs, t) == Total(r.live)[t]
    {
      AlwaysExactIffNoFailure(NoSessions, evs, t);
      if AlwaysExact(NoSessions, evs, t) {
        AlwaysExactAtTheEnd(NoSessions, evs, r, t);
      }
    }
  }

  /** After a failed call a thread can drop out of the counts while a live session still has it. */
  lemma FailureLosesALiveThread()
    ensures var evs := [Create(1, [7], [false]), Create(2, [7], [true]), Close(1)];
            exists r :: Runs(NoSessions, evs, r) && 2 in r.live && 7 in r.live[2] && 7 !in r.refs
  {
    var e0, e1, e2 := Create(1, [7], [false]), Create(2, [7], [true]), Close(1);
    var evs := [e0, e1, e2];
    var r1 := Step(NoSessions, e0);
    assert r1.refs == map[];
    var r2 := Step(r1, e1);
    assert r2.refs == map[7 := 1];
    var r3 := Step(r2, e2);
    assert r3.refs == map[] by {
      assert [7][1..] == [] && RemoveTid(r2.refs, 7) == map[];
      assert RemoveTids(RemoveTid(r2.refs, 7), [7][1..]) == map[];
    }
    assert r3.live == map[2 := [7]];
    assert evs[1..] == [e1, e2] && evs[1..][1..] == [e2] && evs[1..][1..][1..] == [];
    assert Runs(r3, [], r3) && Runs(r2, [e2], r3) && Runs(r1, [e1, e2], r3);
    assert Runs(NoSessions, evs, r3);
  }

  // ---- The active cache and its hint ----

  /** Calls on the hint that disables the top-app boost. */
  datatype HintCall = DoHint | EndHint

  datatype Boost = Boost(active: bool, hasManager: bool, calls: seq<HintCall>)

  /** What the manager can ask a live session: whether it is active, and when it goes stale. */
  datatype Status = Status(active: bool, staleTime: int) {
    predicate Counts(now: int) {
      active && now < staleTime
    }
  }

  /** Some live session is active and not stale, each asked at its own reading of the clock. */
  predicate AnyActive(status: map<SessionId, Status>, now: map<SessionId, int>)
    requires status.Keys <= now.Keys
  {
    exists id :: id in status && status[id].Counts(now[id])
  }

  /** One message: look at the sessions, and act if the answer changed. */
  function Handle(b: Boost, any: bool): Boost {
    if any == b.active then b
    else b.(active := any,
            calls := if b.hasManager then b.calls + [if any then DoHint else EndHint] else b.calls)
  }

  /** The manager: the registry of sessions, what they answer, and the cache. */
  datatype Manager = Manager(reg: Registry, status: map<SessionId, Status>, boost: Boost)

  const Initially: Manager := Manager(NoSessions, map[], Boost(false, false, []))

  /** A session is created (active, going stale at `staleTime`) or closed, changes its answers, a hint manager is set,
      or the manager handles a message. */
  datatype Message =
    | Register(ev: Event, staleTime: int)
    | Change(id: SessionId, to: Status)
    | SetHintManager(supported: bool)
    | Look(now: map<SessionId, int>)

  predicate Accepts(m: Manager, msg: Message) {
    match msg
    case Register(ev, _) => Enabled(m.reg, ev)
    case Look(now) => m.status.Keys <= now.Keys
    case _ => true
  }

  function Receive(m: Manager, msg: Message): Manager
    requires Accepts(m, msg)
  {
    match msg
    case Register(ev, staleTime) =>
      m.(reg := Step(m.reg, ev),
         status := if ev.Create? then m.status[ev.id := Status(true, staleTime)] else m.status - {ev.id})
    case Change(id, to) => if id in m.status then m.(status := m.status[id := to]) else m
    case SetHintManager(supported) => m.(boost := m.boost.(hasManager := m.boost.hasManager || supported))
    case Look(now) => m.(boost := Handle(m.boost, AnyActive(m.status, now)))
  }

  ghost predicate Receives(m: Manager, msgs: seq<Message>, m': Manager)
    decreases |msgs|
  {
    if msgs == [] then m' == m else Accepts(m, msgs[0]) && Receives(Receive(m, msgs[0]), msgs[1..], m')
  }

  /** The sessions asked are exactly the live ones. */
  ghost predicate AsksLive(m: Manager) {
    Conserved(m.reg) && m.status.Keys == m.reg.live.Keys
  }

  lemma ReceiveAsksLive(m: Manager, msg: Message)
    requires AsksLive(m) && Accepts(m, msg)
    ensures AsksLive(Receive(m, msg))
  {
    if msg.Register? {
      StepConserves(m.reg, msg.ev);
    }
  }

  /** Along any messages the sessions asked stay the live ones, and one is live from its creation to its close. */
  lemma {:induction false} LiveFromCreateToClose(m: Manager, msgs: seq<Message>, m': Manager, id: SessionId)
    requires Receives(m, msgs, m') && AsksLive(m)
    ensures AsksLive(m')
    ensures id in m'.status <==> (id in m.status || Creates(msgs, id)) && !Closes(msgs, id)
    ensures id in m'.reg.closed <==> id in m.reg.closed || Closes(msgs, id)
    decreases |msgs|
  {
    if msgs != [] {
      ReceiveAsksLive(m, msgs[0]);
      LiveFromCreateToClose(Receive(m, msgs[0]), msgs[1..], m', id);
    }
  }

  ghost predicate Creates(msgs: seq<Message>, id: SessionId) {
    exists i :: 0 <= i < |msgs| && msgs[i].Register? && msgs[i].ev.Create? && msgs[i].ev.id == id
  }

  ghost predicate Closes(msgs: seq<Message>, id: SessionId) {
    exists i :: 0 <= i < |msgs| && msgs[i].Register? && msgs[i].ev == Close(id)
  }

  ghost predicate NoLooks(msgs: seq<Message>) {
    forall i :: 0 <= i < |msgs| ==> !msgs[i].Look?
  }

  lemma {:induction false} CacheOnlyChangesOnLook(m: Manager, msgs: seq<Message>, m': Manager)
    requires Receives(m, msgs, m') && NoLooks(msgs)
    ensures m'.boost.active == m.boost.active
    decreases |msgs|
  {
    if msgs != [] {
      CacheOnlyChangesOnLook(Receive(m, msgs[0]), msgs[1..], m');
    }
  }

  /** After any messages the cache is what the last look found: some session created and not closed by then was active
      and not stale when it was asked. */
  lemma CacheIsLastLook(before: seq<Message>, m: Manager, now: map<SessionId, int>, after: seq<Message>, m': Manager)
    requires Receives(Initially, before, m) && Accepts(m, Look(now))
    requires Receives(Receive(m, Look(now)), after, m') && NoLooks(after)
    ensures m'.boost.active
            <==> exists id :: Creates(before, id) && !Closes(before, id)
                              && id in m.status && m.status[id].active && now[id] < m.status[id].staleTime
    ensures forall id :: id in m.reg.live <==> Creates(before, id) && !Closes(before, id)
  {
    CacheOnlyChangesOnLook(Receive(m, Look(now)), after, m');
    forall id
      ensures id in m.status <==> Creates(before, id) && !Closes(before, id)
      ensures id in m.reg.live <==> id in m.status
    {
      LiveFromCreateToClose(Initially, before, m, id);
    }
    LookFinds(m, now);
  }

  lemma LookFinds(m: Manager, now: map<SessionId, int>)
    requires Accepts(m, Look(now))
    ensures Receive(m, Look(now)).boost.active
            <==> exists id :: id in m.status && m.status[id].active && now[id] < m.status[id].staleTime
  {
    if id :| id in m.status && m.status[id].active && now[id] < m.status[id].staleTime {
      assert m.status[id].Counts(now[id]);
    }
  }

  predicate Held(calls: seq<HintCall>) {
    |calls| > 0 && calls[|calls| - 1] == DoHint
  }

  /** The calls alternate, starting with DoHint. */
  ghost predicate Alternates(calls: seq<HintCall>) {
    forall i :: 0 <= i < |calls| ==> calls[i] == if i % 2 == 0 then DoHint else EndHint
  }

  ghost predicate Tracks(b: Boost) {
    b.hasManager && Alternates(b.calls) && (Held(b.calls) <==> b.active)
  }

  lemma HandleTracks(b: Boost, any: bool)
    requires Tracks(b)
    ensures Tracks(Handle(b, any))
  {
    assert |b.calls| % 2 == 1 <==> Held(b.calls);
  }

  lemma {:induction false} KeepsTracking(m: Manager, msgs: seq<Message>, m': Manager)
    requires Receives(m, msgs, m') && Tracks(m.boost)
    ensures Tracks(m'.boost)
    decreases |msgs|
  {
    if msgs != [] {
      if msgs[0].Look? {
        HandleTracks(m.boost, AnyActive(m.status, msgs[0].now));
      }
      KeepsTracking(Receive(m, msgs[0]), msgs[1..], m');
    }
  }

  lemma {:induction false} SilentWithoutManager(m: Manager, msgs: seq<Message>, m': Manager)
    requires Receives(m, msgs, m') && m.boost.calls == [] && !m'.boost.hasManager
    ensures m'.boost.calls == [] && !m.boost.hasManager
    decreases |msgs|
  {
    if msgs != [] {
      ManagerStays(Receive(m, msgs[0]), msgs[1..], m');
      SilentWithoutManager(Receive(m, msgs[0]), msgs[1..], m');
    }
  }

  lemma {:induction false} ManagerStays(m: Manager, msgs: seq<Message>, m': Manager)
    requires Receives(m, msgs, m')
    ensures m.boost.hasManager ==> m'.boost.hasManager
    decreases |msgs|
  {
    if msgs != [] {
      ManagerStays(Receive(m, msgs[0]), msgs[1..], m');
    }
  }

  ghost predicate AlwaysTracks(m: Manager) {
    forall after, m' :: Receives(m, after, m') ==> Tracks(m'.boost)
  }

  /** From the moment a hint manager is set, the hint is held exactly while the cache says so, and DoHint and EndHint
      alternate from DoHint on, whatever follows, exactly if the cache was false at that moment. */
  lemma HintTracksCacheIffSetWhileIdle(before: seq<Message>, m: Manager)
    requires Receives(Initially, before, m) && !m.boost.hasManager
    ensures var b := Receive(m, SetHintManager(true));
            !b.boost.active <==> AlwaysTracks(b)
  {
    SilentWithoutManager(Initially, before, m);
    var b := Receive(m, SetHintManager(true));
    if !b.boost.active {
      forall after, m' | Receives(b, after, m') ensures Tracks(m'.boost) {
        KeepsTracking(b, after, m');
      }
    } else {
      var none: seq<Message> := [];
      assert Receives(b, none, b);
      assert !Tracks(b.boost);
    }
  }

  // ---- The manager object ----

  class PowerSessionManager {
    var sessions: map<SessionId, seq<Tid>>
    var status: map<SessionId, Status>
    var tidRefCountMap: RefCounts
    var active: bool
    var hasManager: bool
    var calls: seq<HintCall>
    ghost var closed: set<SessionId>

    ghost function View(): Manager
      reads this
    {
      Manager(Registry(sessions, closed, tidRefCountMap), status, Boost(active, hasManager, calls))
    }

    /** Counts are positive and within the live occurrences, and the sessions asked are the live ones. */
    ghost predicate Valid()
      reads this
    {
      AsksLive(View())
    }

    constructor ()
      ensures Valid() && View() == Initially
    {
      sessions, status, tidRefCountMap, active, hasManager, calls := map[], map[], map[], false, false, [];
      closed := {};
    }

    method AddPowerSession(id: SessionId, tids: seq<Tid>, ok: seq<bool>, staleTime: int)
      requires Valid() && id !in sessions && id !in closed && |ok| == |tids|
      modifies this
      ensures Valid() && View() == Receive(old(View()), Register(Create(id, tids, ok), staleTime))
      ensures sessions == old(sessions)[id := tids] && status == old(status)[id := Status(true, staleTime)]
      ensures forall t :: Count(tidRefCountMap, t)
                          == Count(old(tidRefCountMap), t) + Occurrences(tids, t)
                          <==> t in old(tidRefCountMap) || t !in tids || ok[First(tids, t)]
    {
      ReceiveAsksLive(View(), Register(Create(id, tids, ok), staleTime));
      forall t
        ensures Count(AddTids(tidRefCountMap, tids, ok), t) == Count(tidRefCountMap, t) + Occurrences(tids, t)
                <==> t in tidRefCountMap || t !in tids || ok[First(tids, t)]
      {
        AddTidsCounts(tidRefCountMap, tids, ok, t);
        FailedCallIffFirstFails(tidRefCountMap, tids, ok, t);
      }
      AddThreads(tids, ok);
      sessions := sessions[id := tids];
      status := status[id := Status(true, staleTime)];
    }

    method AddThreads(tids: seq<Tid>, ok: seq<bool>)
      requires |ok| == |tids|
      modifies this`tidRefCountMap
      ensures tidRefCountMap == AddTids(old(tidRefCountMap), tids, ok)
    {
      var i := 0;
      assert tids[0..] == tids && ok[0..] == ok;
      while i < |tids|
        invariant 0 <= i <= |tids|
        invariant AddTids(tidRefCountMap, tids[i..], ok[i..]) == AddTids(old(tidRefCountMap), tids, ok)
      {
        var t := tids[i];
        assert tids[i..][1..] == tids[i + 1..] && ok[i..][1..] == ok[i + 1..];
        if t !in tidRefCountMap {
          if ok[i] {
            tidRefCountMap := tidRefCountMap[t := 1];
          }
        } else if tidRefCountMap[t] > 0 {
          tidRefCountMap := tidRefCountMap[t := tidRefCountMap[t] + 1];
        }
        i := i + 1;
      }
    }

    method RemovePowerSession(id: SessionId)
      requires Valid() && id in sessions
      modifies this
      ensures Valid() && View() == Receive(old(View()), Register(Close(id), 0))
      ensures sessions == old(sessions) - {id} && status == old(status) - {id}
      ensures forall t :: var c, k := Count(old(tidRefCountMap), t), Occurrences(old(sessions)[id], t);
                          Count(tidRefCountMap, t) == if c >= k then c - k else 0
      ensures sessions == map[] ==> tidRefCountMap == map[]
    {
      ReceiveAsksLive(View(), Register(Close(id), 0));
      forall t ensures var c, k := Count(tidRefCountMap, t), Occurrences(sessions[id], t);
                       Count(RemoveTids(tidRefCountMap, sessions[id]), t) == if c >= k then c - k else 0
      {
        RemoveTidsCounts(tidRefCountMap, sessions[id], t);
      }
      RemoveThreads(sessions[id]);
      sessions, status, closed := sessions - {id}, status - {id}, closed + {id};
      if sessions == map[] {
        forall t ensures t !in tidRefCountMap {
          assert Count(tidRefCountMap, t) <= Total(sessions)[t];
        }
      }
    }

    method RemoveThreads(tids: seq<Tid>)
      modifies this`tidRefCountMap
      ensures tidRefCountMap == RemoveTids(old(tidRefCountMap), tids)
    {
      var i := 0;
      assert tids[0..] == tids;
      while i < |tids|
        invariant 0 <= i <= |tids|
        invariant RemoveTids(tidRefCountMap, tids[i..]) == RemoveTids(old(tidRefCountMap), tids)
      {
        var t := tids[i];
        assert tids[i..][1..] == tids[i + 1..];
        ghost var before := tidRefCountMap;
        if t in tidRefCountMap {
          tidRefCountMap := tidRefCountMap[t := tidRefCountMap[t] - 1];
          if tidRefCountMap[t] <= 0 {
            tidRefCountMap := tidRefCountMap - {t};
          }
        }
        assert tidRefCountMap == RemoveTid(before, t);
        i := i + 1;
      }
    }

    /** A session's own flags change; the manager only ever reads them. */
    method SessionChanged(id: SessionId, to: Status)
      requires Valid()
      modifies this`status
      ensures Valid() && View() == Receive(old(View()), Change(id, to))
    {
      ReceiveAsksLive(View(), Change(id, to));
      if id in status {
        status := status[id := to];
      }
    }

    /** Whether the answer changed, and the answer; the stored sessions are asked in turn until one is active and not
        stale. */
    method IsAnySessionActive(now: map<SessionId, int>) returns (changed: bool, value: bool)
      requires Valid() && status.Keys <= now.Keys
      modifies this`active
      ensures value
              <==> exists id :: id in sessions && id in status && status[id].active && now[id] < status[id].staleTime
      ensures value == AnyActive(status, now) && changed == (value != old(active)) && active == value
    {
      value := false;
      var todo := sessions.Keys;
      while todo != {}
        invariant todo <= sessions.Keys == status.Keys && !value && active == old(active)
        invariant forall id :: id in sessions && id !in todo ==> !status[id].Counts(now[id])
        decreases |todo|
      {
        var id :| id in todo;
        if status[id].active && !(now[id] >= status[id].staleTime) {
          assert status[id].Counts(now[id]);
          value := true;
          break;
        }
        todo := todo - {id};
      }
      changed := value != active;
      active := value;
    }

    method HandleMessage(now: map<SessionId, int>)
      requires Valid() && status.Keys <= now.Keys
      modifies this
      ensures Valid() && View() == Receive(old(View()), Look(now))
      ensures active
              <==> exists id :: id in sessions && id in status && status[id].active && now[id] < status[id].staleTime
      ensures calls == if active == old(active) || !hasManager then old(calls)
                       else old(calls) + [if active then DoHint else EndHint]
      ensures Tracks(old(View()).boost) ==> Tracks(View().boost)
    {
      ReceiveAsksLive(View(), Look(now));
      if Tracks(View().boost) {
        HandleTracks(View().boost, AnyActive(status, now));
      }
      var changed, value := IsAnySessionActive(now);
      if !changed {
        return;
      }
      if value {
        DisableSystemTopAppBoost();
      } else {
        EnableSystemTopAppBoost();
      }
    }

    method DisableSystemTopAppBoost()
      modifies `calls
      ensures calls == if hasManager then old(calls) + [DoHint] else old(calls)
    {
      if hasManager {
        calls := calls + [DoHint];
      }
    }

    method EnableSystemTopAppBoost()
      modifies `calls
      ensures calls == if hasManager then old(calls) + [EndHint] else old(calls)
    {
      if hasManager {
        calls := calls + [EndHint];
      }
    }

    method SetHintManager(supported: bool)
      modifies `hasManager
      ensures hasManager == (old(hasManager) || supported)
    {
      if supported {
        hasManager := true;
      }
    }
  }
}
