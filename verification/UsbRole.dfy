/**
 The USB role switch: any number of concurrent switchRole calls, the condition
 wait for the partner to come back, and the uevent thread. Each step is one
 action between lock operations; a log records what a run did, in order.
 */
module UsbRole {

  import opened Common

  type CallId = nat

  datatype Holder = Free | Caller(id: CallId) | Uevent

  /** Where a switchRole call is; `mode` is whether it switches the port's mode. */
  datatype Pc =
    | Requested(mode: bool)     // before taking the role-switch lock
    | Opening(mode: bool)       // has it
    | NodeOpen                  // data or power role: the node is open
    | NodeWritten               // and written, to be read back
    | Clearing                  // mode node open, wants the partner lock
    | Writing                   // partner lock held, flag cleared
    | Waiting(signalled: bool)  // in the condition wait
    | Awake(timedOut: bool)     // partner lock held again
    | Failed                    // about to go back to "dual"
    | Notifying(mode: bool, ok: bool)
    | Releasing
    | Finished

  datatype UeventPc = Polling | PartnerSeen | PartnerLocked | TypecSeen | TypecLocked

  datatype Entry =
    | RoleLocked(id: CallId)
    | RoleUnlocked(id: CallId)
    | Opened(id: CallId, ok: bool)
    | Wrote(id: CallId, ok: bool)
    | ReadBack(id: CallId, same: bool)
    | Cleared(id: CallId)
    | PartnerAdded
    | Woken(id: CallId, timedOut: bool)
    | Dual(id: CallId)
    | DualByUevent
    | Reported(id: CallId, mode: bool, ok: bool)

  datatype Usb = Usb(
    roleLock: Holder, partnerLock: Holder, partnerUp: bool,
    calls: map<CallId, Pc>, uevent: UeventPc, log: seq<Entry>)

  const Idle: Usb := Usb(Free, Free, false, map[], Polling, [])

  /** What happens next: a call arrives, a call takes its next step (with what it observes), or the uevent thread takes
      one of its own. */
  datatype Event =
    | Arrive(id: CallId, mode: bool)
    | Advance(id: CallId, observed: bool)
    | SeePartner
    | SeeTypec
    | UeventAdvance(dual: bool)

  predicate Enabled(u: Usb, ev: Event) {
    match ev
    case Arrive(id, _) => id !in u.calls
    case Advance(id, _) =>
      && id in u.calls && !u.calls[id].Finished?
      && (u.calls[id].Requested? ==> u.roleLock.Free?)
      && (u.calls[id].Clearing? || u.calls[id].Waiting? ==> u.partnerLock.Free?)
    case SeePartner => u.uevent.Polling?
    case SeeTypec => u.uevent.Polling?
    case UeventAdvance(_) => !u.uevent.Polling? && (u.uevent.PartnerSeen? ==> u.partnerLock.Free?)
  }

  /** One step of a call. `observed` is whether the node opens, the write succeeds, the role read back is the one
      written, the wait times out. */
  function CallStep(u: Usb, id: CallId, observed: bool): Usb
    requires Enabled(u, Advance(id, observed))
  {
    match u.calls[id]
    case Requested(mode) =>
      u.(roleLock := Caller(id), calls := u.calls[id := Opening(mode)], log := u.log + [RoleLocked(id)])
    case Opening(mode) =>
      u.(calls := u.calls[id := if mode then (if observed then Clearing else Failed)
                                else if observed then NodeOpen else Notifying(false, false)],
         log := u.log + [Opened(id, observed)])
    case NodeOpen =>
      u.(calls := u.calls[id := if observed then NodeWritten else Notifying(false, false)],
         log := u.log + [Wrote(id, observed)])
    case NodeWritten => u.(calls := u.calls[id := Notifying(false, observed)], log := u.log + [ReadBack(id, observed)])
    case Clearing =>
      u.(partnerLock := Caller(id), partnerUp := false, calls := u.calls[id := Writing], log := u.log + [Cleared(id)])
    case Writing =>
      u.(partnerLock := Free, calls := u.calls[id := if observed then Waiting(false) else Failed],
         log := u.log + [Wrote(id, observed)])
    case Waiting(_) =>
      u.(partnerLock := Caller(id), calls := u.calls[id := Awake(observed)], log := u.log + [Woken(id, observed)])
    case Awake(timedOut) =>
      u.(partnerLock := Free,
         calls := u.calls[id := if timedOut then Failed
                                else if !u.partnerUp then Waiting(false) else Notifying(true, true)])
    case Failed => u.(calls := u.calls[id := Notifying(true, false)], log := u.log + [Dual(id)])
    case Notifying(mode, ok) => u.(calls := u.calls[id := Releasing], log := u.log + [Reported(id, mode, ok)])
    case Releasing => u.(roleLock := Free, calls := u.calls[id := Finished], log := u.log + [RoleUnlocked(id)])
  }

  /** The condition is signalled; the role-switch lock lets at most one call wait (OneWaiter). */
  function Signal(calls: map<CallId, Pc>): map<CallId, Pc> {
    map id | id in calls :: Heard(calls[id])
  }

  function Heard(pc: Pc): Pc {
    if pc.Waiting? then Waiting(true) else pc
  }

  /** One step of the uevent thread. After a successful trylock it goes through the ports and may put some back to
      "dual" before it unlocks. */
  function UeventStep(u: Usb, dual: bool): Usb
    requires Enabled(u, UeventAdvance(dual))
  {
    match u.uevent
    case PartnerSeen => u.(partnerLock := Uevent, uevent := PartnerLocked)
    case PartnerLocked =>
      u.(partnerLock := Free, partnerUp := true, uevent := Polling, calls := Signal(u.calls),
         log := u.log + [PartnerAdded])
    case TypecSeen => if u.roleLock.Free? then u.(roleLock := Uevent, uevent := TypecLocked) else u.(uevent := Polling)
    case TypecLocked =>
      if dual then u.(log := u.log + [DualByUevent]) else u.(roleLock := Free, uevent := Polling)
  }

  function Step(u: Usb, ev: Event): Usb
    requires Enabled(u, ev)
  {
    match ev
    case Arrive(id, mode) => u.(calls := u.calls[id := Requested(mode)])
    case Advance(id, observed) => CallStep(u, id, observed)
    case SeePartner => u.(uevent := PartnerSeen)
    case SeeTypec => u.(uevent := TypecSeen)
    case UeventAdvance(dual) => UeventStep(u, dual)
  }

  ghost predicate Runs(u: Usb, evs: seq<Event>, u': Usb)
    decreases |evs|
  {
    if evs == [] then u' == u else Enabled(u, evs[0]) && Runs(Step(u, evs[0]), evs[1..], u')
  }

  // ---- What a log may hold ----

  /** The call between its lock and its unlock, by the first `k` entries of the log. */
  function Held(log: seq<Entry>, k: nat): Option<CallId>
    requires k <= |log|
  {
    if k == 0 then None
    else match log[k - 1]
      case RoleLocked(id) => Some(id)
      case RoleUnlocked(_) => None
      case _ => Held(log, k - 1)
  }

  /** Three entries to be found in this order. */
  datatype Steps = Steps(a: Entry, b: Entry, c: Entry)

  /** How a mode switch succeeds: it clears the flag, a partner is added, and it wakes up in time after that. */
  function ModeSteps(id: CallId): Steps { Steps(Cleared(id), PartnerAdded, Woken(id, false)) }

  /** How a data or power role switch succeeds: it opens the node, writes it, and reads the same role back. */
  function NodeSteps(id: CallId): Steps { Steps(Opened(id, true), Wrote(id, true), ReadBack(id, true)) }

  /** How many of the steps the first `k` entries have gone through. */
  function Progress(log: seq<Entry>, k: nat, st: Steps): (n: nat)
    requires k <= |log|
    ensures n <= 3
  {
    if k == 0 then 0 else Onward(Progress(log, k - 1, st), log[k - 1], st)
  }

  function Onward(n: nat, e: Entry, st: Steps): nat {
    if n == 0 && e == st.a then 1
    else if n == 1 && e == st.b then 2
    else if n == 2 && e == st.c then 3
    else n
  }

  ghost predicate Has(log: seq<Entry>, k: nat, e: Entry)
    requires k <= |log|
  {
    exists i :: 0 <= i < k && log[i] == e
  }

  ghost predicate HasTwo(log: seq<Entry>, k: nat, st: Steps)
    requires k <= |log|
  {
    exists j: nat :: j < k && log[j] == st.b && Has(log, j, st.a)
  }

  ghost predicate HasThree(log: seq<Entry>, k: nat, st: Steps)
    requires k <= |log|
  {
    exists w: nat :: w < k && log[w] == st.c && HasTwo(log, w, st)
  }

  ghost predicate OkAt(log: seq<Entry>, k: nat)
    requires k < |log|
  {
    match log[k]
    case RoleLocked(_) => Held(log, k) == None
    case DualByUevent => Held(log, k) == None
    case PartnerAdded => true
    case Reported(id, mode, ok) =>
      && Held(log, k) == Some(id)
      && (ok <==> Progress(log, k, if mode then ModeSteps(id) else NodeSteps(id)) == 3)
      && (mode && ok ==> Progress(log, k, NodeSteps(id)) >= 2)
      && (Has(log, k, Dual(id)) <==> mode && !ok)
    case e => Held(log, k) == Some(e.id)
  }

  ghost predicate LogOk(log: seq<Entry>) {
    forall k: nat :: k < |log| ==> OkAt(log, k)
  }

  // What the first entries say does not depend on the later ones.

  lemma {:induction false} HeldPrefix(log: seq<Entry>, e: Entry, k: nat)
    requires k <= |log|
    ensures Held(log + [e], k) == Held(log, k)
  {
    if k > 0 {
      HeldPrefix(log, e, k - 1);
    }
  }

  lemma {:induction false} ProgressPrefix(log: seq<Entry>, e: Entry, k: nat, st: Steps)
    requires k <= |log|
    ensures Progress(log + [e], k, st) == Progress(log, k, st)
  {
    if k > 0 {
      ProgressPrefix(log, e, k - 1, st);
    }
  }

  lemma HasPrefix(log: seq<Entry>, e: Entry, k: nat, x: Entry)
    requires k <= |log|
    ensures Has(log + [e], k, x) <==> Has(log, k, x)
  {
    assert forall i :: 0 <= i < k ==> (log + [e])[i] == log[i];
  }

  lemma OkPrefix(log: seq<Entry>, e: Entry, k: nat)
    requires k < |log| && OkAt(log, k)
    ensures OkAt(log + [e], k)
  {
    HeldPrefix(log, e, k);
    if log[k].Reported? {
      ProgressPrefix(log, e, k, ModeSteps(log[k].id));
      ProgressPrefix(log, e, k, NodeSteps(log[k].id));
      HasPrefix(log, e, k, Dual(log[k].id));
    }
  }

  /** A log stays good if the new entry is. */
  lemma LogOkSnoc(log: seq<Entry>, e: Entry)
    requires LogOk(log) && OkAt(log + [e], |log|)
    ensures LogOk(log + [e])
  {
    forall k: nat | k < |log + [e]| ensures OkAt(log + [e], k) {
      if k < |log| {
        OkPrefix(log, e, k);
      }
    }
  }

  lemma {:induction false} ProgressMeans(log: seq<Entry>, k: nat, st: Steps)
    requires k <= |log|
    ensures Progress(log, k, st) >= 1 <==> Has(log, k, st.a)
    ensures Progress(log, k, st) >= 2 <==> HasTwo(log, k, st)
    ensures Progress(log, k, st) == 3 <==> HasThree(log, k, st)
  {
    if k > 0 {
      ProgressMeans(log, k - 1, st);
      HasNext(log, k - 1, st.a);
      HasTwoNext(log, k - 1, st);
      HasThreeNext(log, k - 1, st);
    }
  }

  lemma HasNext(log: seq<Entry>, k: nat, e: Entry)
    requires k < |log|
    ensures Has(log, k + 1, e) <==> Has(log, k, e) || log[k] == e
  {
  }

  lemma HasTwoNext(log: seq<Entry>, k: nat, st: Steps)
    requires k < |log|
    ensures HasTwo(log, k + 1, st) <==> HasTwo(log, k, st) || (log[k] == st.b && Has(log, k, st.a))
  {
  }

  lemma HasThreeNext(log: seq<Entry>, k: nat, st: Steps)
    requires k < |log|
    ensures HasThree(log, k + 1, st) <==> HasThree(log, k, st) || (log[k] == st.c && HasTwo(log, k, st))
  {
  }

  // ---- The invariant ----

  predicate HoldsRole(pc: Pc) { !pc.Requested? && !pc.Finished? }

  predicate HoldsPartner(pc: Pc) { pc.Writing? || pc.Awake? }

  // Locks are where the program counters say.

  ghost predicate RoleLockOk(u: Usb) {
    && (u.uevent.TypecLocked? <==> u.roleLock.Uevent?)
    && (u.roleLock.Caller? ==> u.roleLock.id in u.calls)
    && (forall id :: id in u.calls ==> (HoldsRole(u.calls[id]) <==> u.roleLock == Caller(id)))
  }

  ghost predicate PartnerLockOk(u: Usb) {
    && (u.uevent.PartnerLocked? <==> u.partnerLock.Uevent?)
    && (u.partnerLock.Caller? ==> u.partnerLock.id in u.calls)
    && (forall id :: id in u.calls ==> (HoldsPartner(u.calls[id]) <==> u.partnerLock == Caller(id)))
  }

  /** The progress a call has made when it is where it is: while it waits that is what the flag says, and once awake
      in time the flag decides. */
  ghost predicate ProgressOk(n: nat, up: bool, pc: Pc) {
    match pc
    case Requested(_) => n == 0
    case Opening(_) => n == 0
    case Clearing => n == 0
    case Writing => n == 1 && !up
    case Waiting(signalled) => n == (if up then 2 else 1) && (up <==> signalled)
    case Awake(timedOut) => n == if !up then 1 else if timedOut then 2 else 3
    case Failed => n < 3
    case Notifying(mode, ok) => mode ==> (ok <==> n == 3)
    case _ => true
  }

  /** How far it has got with its node. */
  ghost predicate NodeOk(m: nat, pc: Pc) {
    match pc
    case Requested(_) => m == 0
    case Opening(_) => m == 0
    case NodeOpen => m == 1
    case NodeWritten => m == 2
    case Clearing => m == 1
    case Writing => m == 1
    case Waiting(_) => m == 2
    case Awake(_) => m == 2
    case Notifying(mode, ok) => if mode then ok ==> m >= 2 else ok <==> m == 3
    case _ => true
  }

  /** Whether it has gone back to "dual" when it is about to report. */
  ghost predicate DualOk(dual: bool, pc: Pc) {
    match pc
    case Notifying(mode, ok) => dual <==> mode && !ok
    case Releasing => true
    case Finished => true
    case _ => !dual
  }

  ghost predicate CallOk(u: Usb, id: CallId) {
    var n, m := Progress(u.log, |u.log|, ModeSteps(id)), Progress(u.log, |u.log|, NodeSteps(id));
    var dual := Has(u.log, |u.log|, Dual(id));
    if id !in u.calls then n == 0 && m == 0 && !dual
    else ProgressOk(n, u.partnerUp, u.calls[id]) && NodeOk(m, u.calls[id]) && DualOk(dual, u.calls[id])
  }

  /** The log tells who holds the role-switch lock. */
  ghost predicate LogMatches(u: Usb) {
    && LogOk(u.log)
    && Held(u.log, |u.log|) == (if u.roleLock.Caller? then Some(u.roleLock.id) else None)
  }

  ghost predicate CallsOk(u: Usb) {
    forall id :: CallOk(u, id)
  }

  ghost predicate Inv(u: Usb) {
    RoleLockOk(u) && PartnerLockOk(u) && LogMatches(u) && CallsOk(u)
  }

  lemma CallKeepsRoleLock(u: Usb, id: CallId, observed: bool)
    requires RoleLockOk(u) && Enabled(u, Advance(id, observed))
    ensures RoleLockOk(CallStep(u, id, observed))
  {
  }

  lemma CallKeepsPartnerLock(u: Usb, id: CallId, observed: bool)
    requires PartnerLockOk(u) && Enabled(u, Advance(id, observed))
    ensures PartnerLockOk(CallStep(u, id, observed))
  {
  }

  lemma UeventKeepsLocks(u: Usb, dual: bool)
    requires RoleLockOk(u) && PartnerLockOk(u) && Enabled(u, UeventAdvance(dual))
    ensures RoleLockOk(UeventStep(u, dual)) && PartnerLockOk(UeventStep(u, dual))
  {
  }

  /** The entry a step of a call adds to the log, if any. */
  function Added(u: Usb, id: CallId, observed: bool): Option<Entry>
    requires id in u.calls
  {
    match u.calls[id]
    case Requested(_) => Some(RoleLocked(id))
    case Opening(_) => Some(Opened(id, observed))
    case NodeOpen => Some(Wrote(id, observed))
    case NodeWritten => Some(ReadBack(id, observed))
    case Writing => Some(Wrote(id, observed))
    case Clearing => Some(Cleared(id))
    case Waiting(_) => Some(Woken(id, observed))
    case Failed => Some(Dual(id))
    case Notifying(mode, ok) => Some(Reported(id, mode, ok))
    case Releasing => Some(RoleUnlocked(id))
    case _ => None
  }

  /** The entry a step of the uevent thread adds to the log, if any. */
  function UeventAdded(u: Usb, dual: bool): Option<Entry> {
    if u.uevent.PartnerLocked? then Some(PartnerAdded)
    else if u.uevent.TypecLocked? && dual then Some(DualByUevent)
    else None
  }

  function Extended(log: seq<Entry>, e: Option<Entry>): seq<Entry> {
    if e.Some? then log + [e.value] else log
  }

  ghost function NewProgress(n: nat, e: Option<Entry>, st: Steps): nat {
    if e.Some? then Onward(n, e.value, st) else n
  }

  lemma ProgressAfter(log: seq<Entry>, e: Option<Entry>, st: Steps)
    ensures var log' := Extended(log, e);
            Progress(log', |log'|, st) == NewProgress(Progress(log, |log|, st), e, st)
  {
    if e.Some? {
      ProgressPrefix(log, e.value, |log|, st);
    }
  }

  lemma CallStepAdds(u: Usb, id: CallId, observed: bool)
    requires Enabled(u, Advance(id, observed))
    ensures var u' := CallStep(u, id, observed);
            && u'.log == Extended(u.log, Added(u, id, observed))
            && id in u'.calls && u'.calls == u.calls[id := u'.calls[id]]
  {
  }

  lemma UeventStepAdds(u: Usb, dual: bool)
    requires Enabled(u, UeventAdvance(dual))
    ensures UeventStep(u, dual).log == Extended(u.log, UeventAdded(u, dual))
    ensures UeventStep(u, dual).calls.Keys == u.calls.Keys
    ensures forall x :: x in u.calls ==> UeventStep(u, dual).calls[x] in {u.calls[x], Heard(u.calls[x])}
  {
  }

  // ---- Progress, step by step ----

  lemma OwnProgress(u: Usb, id: CallId, observed: bool, n: nat)
    requires Enabled(u, Advance(id, observed)) && ProgressOk(n, u.partnerUp, u.calls[id])
    ensures var u', e := CallStep(u, id, observed), Added(u, id, observed);
            id in u'.calls && ProgressOk(NewProgress(n, e, ModeSteps(id)), u'.partnerUp, u'.calls[id])
  {
  }

  lemma OwnNode(u: Usb, id: CallId, observed: bool, m: nat)
    requires Enabled(u, Advance(id, observed)) && NodeOk(m, u.calls[id]) && m <= 3
    ensures var u', e := CallStep(u, id, observed), Added(u, id, observed);
            id in u'.calls && NodeOk(NewProgress(m, e, NodeSteps(id)), u'.calls[id])
  {
  }

  /** A call's step does not touch the progress of another, and clears the flag only while no other waits for it. */
  lemma OtherProgress(u: Usb, id: CallId, observed: bool, x: CallId, n: nat)
    requires Enabled(u, Advance(id, observed)) && RoleLockOk(u) && x != id
    ensures NewProgress(n, Added(u, id, observed), ModeSteps(x)) == n
    ensures x in u.calls && ProgressOk(n, u.partnerUp, u.calls[x]) ==>
              ProgressOk(n, CallStep(u, id, observed).partnerUp, u.calls[x])
  {
    assert x in u.calls && u.calls[id].Clearing? ==> !HoldsRole(u.calls[x]);
  }

  lemma OtherNode(u: Usb, id: CallId, observed: bool, x: CallId, m: nat)
    requires Enabled(u, Advance(id, observed)) && x != id
    ensures NewProgress(m, Added(u, id, observed), NodeSteps(x)) == m
  {
  }

  /** The uevent thread sets the flag only while no call is between waking up and testing it. */
  lemma UeventProgress(u: Usb, dual: bool, x: CallId, n: nat)
    requires Enabled(u, UeventAdvance(dual)) && PartnerLockOk(u)
    requires x in u.calls && ProgressOk(n, u.partnerUp, u.calls[x])
    ensures var u', e := UeventStep(u, dual), UeventAdded(u, dual);
            x in u'.calls && ProgressOk(NewProgress(n, e, ModeSteps(x)), u'.partnerUp, u'.calls[x])
  {
    assert u.uevent.PartnerLocked? ==> !HoldsPartner(u.calls[x]);
  }

  lemma UeventNode(u: Usb, dual: bool, x: CallId, m: nat)
    requires Enabled(u, UeventAdvance(dual)) && x in u.calls && NodeOk(m, u.calls[x])
    ensures var u', e := UeventStep(u, dual), UeventAdded(u, dual);
            x in u'.calls && NodeOk(NewProgress(m, e, NodeSteps(x)), u'.calls[x])
  {
  }

  lemma OwnDual(u: Usb, id: CallId, observed: bool, dual: bool)
    requires Enabled(u, Advance(id, observed)) && DualOk(dual, u.calls[id])
    ensures var u', e := CallStep(u, id, observed), Added(u, id, observed);
            id in u'.calls && DualOk(dual || e == Some(Dual(id)), u'.calls[id])
  {
  }

  /** What is to be shown of a call after a step that adds `e` to the log. */
  lemma CallOkAfter(u: Usb, u': Usb, e: Option<Entry>, x: CallId)
    requires u'.log == Extended(u.log, e)
    requires var n := NewProgress(Progress(u.log, |u.log|, ModeSteps(x)), e, ModeSteps(x));
             if x in u'.calls then ProgressOk(n, u'.partnerUp, u'.calls[x]) else n == 0
    requires var m := NewProgress(Progress(u.log, |u.log|, NodeSteps(x)), e, NodeSteps(x));
             if x in u'.calls then NodeOk(m, u'.calls[x]) else m == 0
    requires var dual := Has(u.log, |u.log|, Dual(x)) || e == Some(Dual(x));
             if x in u'.calls then DualOk(dual, u'.calls[x]) else !dual
    ensures CallOk(u', x)
  {
    ProgressAfter(u.log, e, ModeSteps(x));
    ProgressAfter(u.log, e, NodeSteps(x));
    if e.Some? {
      HasPrefix(u.log, e.value, |u.log|, Dual(x));
      HasNext(u'.log, |u.log|, Dual(x));
    }
  }

  lemma CallStepKeepsCall(u: Usb, id: CallId, observed: bool, x: CallId)
    requires Enabled(u, Advance(id, observed)) && RoleLockOk(u) && CallOk(u, x)
    ensures CallOk(CallStep(u, id, observed), x)
  {
    var n, m := Progress(u.log, |u.log|, ModeSteps(x)), Progress(u.log, |u.log|, NodeSteps(x));
    CallStepAdds(u, id, observed);
    if x == id {
      OwnProgress(u, id, observed, n);
      OwnNode(u, id, observed, m);
      OwnDual(u, id, observed, Has(u.log, |u.log|, Dual(x)));
    } else {
      OtherProgress(u, id, observed, x, n);
      OtherNode(u, id, observed, x, m);
    }
    CallOkAfter(u, CallStep(u, id, observed), Added(u, id, observed), x);
  }

  lemma UeventStepKeepsCall(u: Usb, dual: bool, x: CallId)
    requires Enabled(u, UeventAdvance(dual)) && PartnerLockOk(u) && CallOk(u, x)
    ensures CallOk(UeventStep(u, dual), x)
  {
    UeventStepAdds(u, dual);
    if x in u.calls {
      UeventProgress(u, dual, x, Progress(u.log, |u.log|, ModeSteps(x)));
      UeventNode(u, dual, x, Progress(u.log, |u.log|, NodeSteps(x)));
    }
    CallOkAfter(u, UeventStep(u, dual), UeventAdded(u, dual), x);
  }

  // ---- The log, step by step ----

  lemma LogMatchesAfter(u: Usb, u': Usb, e: Entry)
    requires LogOk(u.log) && u'.log == u.log + [e] && OkAt(u'.log, |u.log|)
    requires (if u'.roleLock.Caller? then Some(u'.roleLock.id) else None)
             == match e case RoleLocked(id) => Some(id) case RoleUnlocked(_) => None case _ => Held(u.log, |u.log|)
    ensures LogMatches(u')
  {
    LogOkSnoc(u.log, e);
    HeldPrefix(u.log, e, |u.log|);
  }

  lemma AddedIsOk(u: Usb, id: CallId, observed: bool)
    requires Inv(u) && Enabled(u, Advance(id, observed)) && Added(u, id, observed).Some?
    ensures OkAt(u.log + [Added(u, id, observed).value], |u.log|)
  {
    assert CallOk(u, id);
    var e := Added(u, id, observed).value;
    HeldPrefix(u.log, e, |u.log|);
    ProgressPrefix(u.log, e, |u.log|, ModeSteps(id));
    ProgressPrefix(u.log, e, |u.log|, NodeSteps(id));
    HasPrefix(u.log, e, |u.log|, Dual(id));
  }

  lemma RoleLockAfter(u: Usb, id: CallId, observed: bool)
    requires RoleLockOk(u) && Enabled(u, Advance(id, observed))
    ensures CallStep(u, id, observed).roleLock == match Added(u, id, observed)
            case Some(RoleLocked(x)) => Caller(x)
            case Some(RoleUnlocked(_)) => Free
            case _ => u.roleLock
  {
  }

  lemma CallStepKeepsLog(u: Usb, id: CallId, observed: bool)
    requires Inv(u) && Enabled(u, Advance(id, observed))
    ensures LogMatches(CallStep(u, id, observed))
  {
    CallStepAdds(u, id, observed);
    RoleLockAfter(u, id, observed);
    if Added(u, id, observed).Some? {
      AddedIsOk(u, id, observed);
      LogMatchesAfter(u, CallStep(u, id, observed), Added(u, id, observed).value);
    }
  }

  lemma CallStepKeepsInv(u: Usb, id: CallId, observed: bool)
    requires Inv(u) && Enabled(u, Advance(id, observed))
    ensures Inv(CallStep(u, id, observed))
  {
    CallKeepsRoleLock(u, id, observed);
    CallKeepsPartnerLock(u, id, observed);
    CallStepKeepsLog(u, id, observed);
    forall x ensures CallOk(CallStep(u, id, observed), x) {
      assert CallOk(u, x);
      CallStepKeepsCall(u, id, observed, x);
    }
  }

  lemma UeventStepKeepsLog(u: Usb, dual: bool)
    requires Inv(u) && Enabled(u, UeventAdvance(dual))
    ensures LogMatches(UeventStep(u, dual))
  {
    UeventStepAdds(u, dual);
    if UeventAdded(u, dual).Some? {
      HeldPrefix(u.log, UeventAdded(u, dual).value, |u.log|);
      LogMatchesAfter(u, UeventStep(u, dual), UeventAdded(u, dual).value);
    }
  }

  lemma UeventStepKeepsInv(u: Usb, dual: bool)
    requires Inv(u) && Enabled(u, UeventAdvance(dual))
    ensures Inv(UeventStep(u, dual))
  {
    UeventKeepsLocks(u, dual);
    UeventStepKeepsLog(u, dual);
    forall x ensures CallOk(UeventStep(u, dual), x) {
      assert CallOk(u, x);
      UeventStepKeepsCall(u, dual, x);
    }
  }

  lemma OtherStepsKeepInv(u: Usb, ev: Event)
    requires Inv(u) && Enabled(u, ev) && !ev.Advance? && !ev.UeventAdvance?
    ensures Inv(Step(u, ev))
  {
    forall x ensures CallOk(Step(u, ev), x) {
      assert CallOk(u, x);
    }
  }

  lemma StepKeepsInv(u: Usb, ev: Event)
    requires Inv(u) && Enabled(u, ev)
    ensures Inv(Step(u, ev))
  {
    match ev
    case Advance(id, observed) => CallStepKeepsInv(u, id, observed);
    case UeventAdvance(dual) => UeventStepKeepsInv(u, dual);
    case _ => OtherStepsKeepInv(u, ev);
  }

  lemma {:induction false} RunKeepsInv(u: Usb, evs: seq<Event>, u': Usb)
    requires Runs(u, evs, u') && Inv(u)
    ensures Inv(u')
    decreases |evs|
  {
    if evs != [] {
      StepKeepsInv(u, evs[0]);
      RunKeepsInv(Step(u, evs[0]), evs[1..], u');
    }
  }

  // ---- What every interleaving promises ----

  /** Exactly when a mode switch reports success: it woke up, without a timeout, after a partner was added after that
      very call cleared the flag. And then it has opened and written the port's node. */
  lemma ModeSwitchSucceedsIffWokenByPartner(evs: seq<Event>, u: Usb, k: nat, id: CallId, ok: bool)
    requires Runs(Idle, evs, u) && k < |u.log| && u.log[k] == Reported(id, true, ok)
    ensures ok
            <==> exists c, j, w :: 0 <= c < j < w < k
                   && u.log[c] == Cleared(id) && u.log[j] == PartnerAdded && u.log[w] == Woken(id, false)
    ensures ok ==> exists o, w :: 0 <= o < w < k && u.log[o] == Opened(id, true) && u.log[w] == Wrote(id, true)
  {
    RunKeepsInv(Idle, evs, u);
    ReportedIff(u.log, k, id, true, ok);
    ThreeMeans(u.log, k, ModeSteps(id));
  }

  /** Exactly when a data or power role switch reports success: it opened the port's node, wrote the role, and read the
      same role back. */
  lemma RoleSwitchSucceedsIffReadBack(evs: seq<Event>, u: Usb, k: nat, id: CallId, ok: bool)
    requires Runs(Idle, evs, u) && k < |u.log| && u.log[k] == Reported(id, false, ok)
    ensures ok
            <==> exists o, w, r :: 0 <= o < w < r < k
                   && u.log[o] == Opened(id, true) && u.log[w] == Wrote(id, true) && u.log[r] == ReadBack(id, true)
  {
    RunKeepsInv(Idle, evs, u);
    ReportedIff(u.log, k, id, false, ok);
    ThreeMeans(u.log, k, NodeSteps(id));
  }

  lemma ReportedIff(log: seq<Entry>, k: nat, id: CallId, mode: bool, ok: bool)
    requires LogOk(log) && k < |log| && log[k] == Reported(id, mode, ok)
    ensures ok <==> HasThree(log, k, if mode then ModeSteps(id) else NodeSteps(id))
    ensures mode && ok ==> HasTwo(log, k, NodeSteps(id))
  {
    assert OkAt(log, k);
    ProgressMeans(log, k, ModeSteps(id));
    ProgressMeans(log, k, NodeSteps(id));
  }

  lemma ThreeMeans(log: seq<Entry>, k: nat, st: Steps)
    requires k <= |log|
    ensures HasThree(log, k, st)
            <==> exists c, j, w :: 0 <= c < j < w < k && log[c] == st.a && log[j] == st.b && log[w] == st.c
  {
    if HasThree(log, k, st) {
      var w: nat :| w < k && log[w] == st.c && HasTwo(log, w, st);
      var j: nat :| j < w && log[j] == st.b && Has(log, j, st.a);
      var c :| 0 <= c < j && log[c] == st.a;
    }
    forall c, j, w | 0 <= c < j < w < k && log[c] == st.a && log[j] == st.b && log[w] == st.c
      ensures HasThree(log, k, st)
    {
      assert Has(log, j, st.a);
      assert HasTwo(log, w, st);
    }
  }

  /** In particular it reports success only if a partner was added after it cleared the flag. */
  lemma SuccessMeansPartnerAdded(evs: seq<Event>, u: Usb, k: nat, id: CallId)
    requires Runs(Idle, evs, u) && k < |u.log| && u.log[k] == Reported(id, true, true)
    ensures exists i, j :: 0 <= i < j < k && u.log[i] == Cleared(id) && u.log[j] == PartnerAdded
  {
    ModeSwitchSucceedsIffWokenByPartner(evs, u, k, id, true);
  }

  /** A call has tried to return to "dual" before it reports exactly if it is a mode switch that failed. */
  lemma FailureReturnsToDual(evs: seq<Event>, u: Usb, k: nat, id: CallId, mode: bool, ok: bool)
    requires Runs(Idle, evs, u) && k < |u.log| && u.log[k] == Reported(id, mode, ok)
    ensures mode && !ok <==> exists i :: 0 <= i < k && u.log[i] == Dual(id)
  {
    RunKeepsInv(Idle, evs, u);
    assert OkAt(u.log, k);
  }

  /** At most one call is in the condition wait, so a signal is never for another. */
  lemma OneWaiter(evs: seq<Event>, u: Usb, x: CallId, y: CallId)
    requires Runs(Idle, evs, u) && x in u.calls && y in u.calls && u.calls[x].Waiting? && u.calls[y].Waiting?
    ensures x == y
  {
    RunKeepsInv(Idle, evs, u);
    assert HoldsRole(u.calls[x]) && HoldsRole(u.calls[y]);
  }

  /** No connected signal is lost: in every interleaving a waiting call has been signalled exactly if the flag is up,
      and exactly if a partner has been added since it cleared the flag. */
  lemma NoSignalIsLost(evs: seq<Event>, u: Usb, id: CallId)
    requires Runs(Idle, evs, u) && id in u.calls && u.calls[id].Waiting?
    ensures u.calls[id].signalled <==> u.partnerUp
    ensures u.partnerUp
            <==> exists c, j :: 0 <= c < j < |u.log| && u.log[c] == Cleared(id) && u.log[j] == PartnerAdded
  {
    RunKeepsInv(Idle, evs, u);
    assert CallOk(u, id);
    ProgressMeans(u.log, |u.log|, ModeSteps(id));
    TwoMeans(u.log, |u.log|, ModeSteps(id));
  }

  lemma TwoMeans(log: seq<Entry>, k: nat, st: Steps)
    requires k <= |log|
    ensures HasTwo(log, k, st) <==> exists c, j :: 0 <= c < j < k && log[c] == st.a && log[j] == st.b
  {
    if HasTwo(log, k, st) {
      var j: nat :| j < k && log[j] == st.b && Has(log, j, st.a);
      var c :| 0 <= c < j && log[c] == st.a;
    }
    forall c, j | 0 <= c < j < k && log[c] == st.a && log[j] == st.b ensures HasTwo(log, k, st) {
      assert Has(log, j, st.a);
    }
  }

  /** Entries a call makes, or the uevent thread makes with the role-switch lock. */
  predicate NeedsRoleLock(e: Entry) { !e.PartnerAdded? }

  predicate By(e: Entry, id: CallId) {
    match e
    case PartnerAdded => false
    case DualByUevent => false
    case _ => e.id == id
  }

  lemma {:induction false} HeldUntilUnlocked(log: seq<Entry>, i: nat, k: nat, id: CallId)
    requires LogOk(log) && i < k <= |log| && log[i] == RoleLocked(id)
    requires forall j :: i < j < k ==> log[j] != RoleUnlocked(id)
    ensures Held(log, k) == Some(id)
    decreases k
  {
    if k - 1 > i {
      HeldUntilUnlocked(log, i, k - 1, id);
      assert OkAt(log, k - 1);
    }
  }

  /** Between a call's lock and its unlock nothing but that call acts on the port: no other call, and the uevent thread
      never goes back to "dual". */
  lemma RoleSwitchIsExclusive(evs: seq<Event>, u: Usb, i: nat, k: nat, id: CallId)
    requires Runs(Idle, evs, u) && i < k < |u.log| && u.log[i] == RoleLocked(id)
    requires forall j :: i < j < k ==> u.log[j] != RoleUnlocked(id)
    requires NeedsRoleLock(u.log[k])
    ensures By(u.log[k], id)
  {
    RunKeepsInv(Idle, evs, u);
    HeldUntilUnlocked(u.log, i, k, id);
    assert OkAt(u.log, k);
  }

  ghost predicate Reachable(u: Usb) {
    exists evs :: Runs(Idle, evs, u)
  }

  lemma {:induction false} RunsSnoc(u: Usb, evs: seq<Event>, u': Usb, ev: Event)
    requires Runs(u, evs, u') && Enabled(u', ev)
    ensures Runs(u, evs + [ev], Step(u', ev))
    decreases |evs|
  {
    if evs != [] {
      RunsSnoc(Step(u, evs[0]), evs[1..], u', ev);
      assert (evs + [ev])[1..] == evs[1..] + [ev];
    }
  }

  lemma ReachableStep(u: Usb, ev: Event)
    requires Reachable(u) && Enabled(u, ev)
    ensures Reachable(Step(u, ev))
  {
    var evs :| Runs(Idle, evs, u);
    RunsSnoc(Idle, evs, u, ev);
  }

  /** From any reachable state with a call in its condition wait, a timeout makes it go back to "dual" and report
      failure, even if a partner has been added since it cleared the flag. */
  lemma TimeoutFailsTheSwitch(u: Usb, id: CallId)
    requires Reachable(u) && id in u.calls && u.calls[id].Waiting? && u.partnerLock.Free?
    ensures exists u' :: Reachable(u') && u'.log == u.log + [Woken(id, true), Dual(id), Reported(id, true, false)]
  {
    var u1 := Step(u, Advance(id, true));
    ReachableStep(u, Advance(id, true));
    var u2 := Step(u1, Advance(id, true));
    ReachableStep(u1, Advance(id, true));
    var u3 := Step(u2, Advance(id, true));
    ReachableStep(u2, Advance(id, true));
    var u4 := Step(u3, Advance(id, true));
    ReachableStep(u3, Advance(id, true));
    assert u4.log == u.log + [Woken(id, true), Dual(id), Reported(id, true, false)];
  }

  /** From any reachable state with a call in its condition wait, waking up in time makes it report success if the flag
      is up, and wait again if it is not. */
  lemma WakeUpInTime(u: Usb, id: CallId)
    requires Reachable(u) && id in u.calls && u.calls[id].Waiting? && u.partnerLock.Free?
    ensures u.partnerUp ==>
              exists u' :: Reachable(u') && u'.log == u.log + [Woken(id, false), Reported(id, true, true)]
    ensures !u.partnerUp ==>
              exists u' :: Reachable(u') && u'.log == u.log + [Woken(id, false)]
                           && u'.calls == u.calls[id := Waiting(false)] && u'.partnerLock.Free?
  {
    var u1 := Step(u, Advance(id, false));
    ReachableStep(u, Advance(id, false));
    var u2 := Step(u1, Advance(id, false));
    ReachableStep(u1, Advance(id, false));
    if u.partnerUp {
      var u3 := Step(u2, Advance(id, false));
      ReachableStep(u2, Advance(id, false));
      assert u3.log == u.log + [Woken(id, false), Reported(id, true, true)];
    } else {
      assert u2.calls == u.calls[id := Waiting(false)];
    }
  }

  /** One call with id 0, at `pc`. */
  function Alone(role: Holder, partner: Holder, up: bool, pc: Pc, uevent: UeventPc, log: seq<Entry>): Usb {
    Usb(role, partner, up, map[0 := pc], uevent, log)
  }

  lemma OneCall(pc: Pc, pc': Pc)
    ensures map[0 := pc][0 := pc'] == map[0 := pc']
  {
  }

  lemma WaitingReachable()
    ensures Reachable(Alone(Caller(0), Free, false, Waiting(false), Polling,
                            [RoleLocked(0), Opened(0, true), Cleared(0), Wrote(0, true)]))
  {
    assert Runs(Idle, [], Idle);
    var go := Advance(0, true);
    ReachableStep(Idle, Arrive(0, true));
    OneCall(Requested(true), Opening(true));
    assert [] + [RoleLocked(0)] == [RoleLocked(0)];
    ReachableStep(Alone(Free, Free, false, Requested(true), Polling, []), go);
    OneCall(Opening(true), Clearing);
    var open := [RoleLocked(0)] + [Opened(0, true)];
    ReachableStep(Alone(Caller(0), Free, false, Opening(true), Polling, [RoleLocked(0)]), go);
    OneCall(Clearing, Writing);
    ReachableStep(Alone(Caller(0), Free, false, Clearing, Polling, open), go);
    OneCall(Writing, Waiting(false));
    var cleared := open + [Cleared(0)];
    ReachableStep(Alone(Caller(0), Caller(0), false, Writing, Polling, cleared), go);
    assert cleared + [Wrote(0, true)] == [RoleLocked(0), Opened(0, true), Cleared(0), Wrote(0, true)];
  }

  /** Such a wait is reachable with a partner added: a partner alone is not enough for success. */
  lemma TimeoutBeatsPartner()
    ensures exists u :: Reachable(u)
              && u.log == [RoleLocked(0), Opened(0, true), Cleared(0), Wrote(0, true), PartnerAdded, Woken(0, true),
                           Dual(0), Reported(0, true, false)]
  {
    WaitingReachable();
    var log := [RoleLocked(0), Opened(0, true), Cleared(0), Wrote(0, true)];
    ReachableStep(Alone(Caller(0), Free, false, Waiting(false), Polling, log), SeePartner);
    ReachableStep(Alone(Caller(0), Free, false, Waiting(false), PartnerSeen, log), UeventAdvance(false));
    ReachableStep(Alone(Caller(0), Uevent, false, Waiting(false), PartnerLocked, log), UeventAdvance(false));
    assert Signal(map[0 := Waiting(false)]) == map[0 := Waiting(true)];
    TimeoutFailsTheSwitch(Alone(Caller(0), Free, true, Waiting(true), Polling, log + [PartnerAdded]), 0);
  }
}
