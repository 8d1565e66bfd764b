# Models of the exynos9810 device tree's power HAL, USB role switch, allocator and image tools

This project models the parts of the device tree that hold real algorithms and proves what they promise.

- `Interaction.dfy`: the display-interaction boost. Binder threads call `Acquire`, one worker runs `Routine`, `Exit`
  stops it. Each section under the mutex is one atomic step and the worker's position in between is explicit, so the
  results hold for every interleaving. An object whose locked methods compute exactly those steps follows.
- `HintSession.dfy`: a power-hint session, a windowed PID controller with anti-windup clamping that drives a
  utilisation clamp with hysteresis, while the stale-check looper may reset the clamp between any two steps.
- `StaleTimer.dfy`: the self-rearming delayed message that finds out when a session has gone stale.
- `SessionManager.dfy`: reference counts per thread over all live sessions, and the edge-triggered cache behind the
  hint that disables the top-app boost.
- `PowerSystem.dfy`: sessions, their stale timers and the manager's cache together, with the messages between them; its
  runs are runs of the manager's own model.
- `BumpArena.dfy`: the demangler's bump-pointer allocator, a linked list of blocks with a side path for large requests.
- `BootImage.dfy`: writing and reading Android boot images, and the address arithmetic of their header.
- `Dtbh.dfy`: packing device-tree blobs into a DTBH image and unpacking it.
- `UsbRole.dfy`, `Uevent.dfy`: the USB role switch with any number of concurrent calls and the uevent thread, and the
  walk over the strings of a uevent.
- `Bits.dfy`, `Bytes.dfy`, `Common.dfy`: C arithmetic (masks, truncating division, 32-bit conversions), byte strings,
  and declarations that several models share.

Where the code falls short of the property one would expect of it, the model keeps the code's behaviour and the lemma
states the exact condition:

- a boost duration is granted within `[min, max]` for every input iff `min <= max < 2^31` (`GrantWithinLimits`), and
  then it is the request plus the offset kept within them iff that sum fits 32 unsigned bits, exceeds them by at least
  `max`, or `min = max` (`GrantIsClampedSum`);
- an allocation of `N` bytes gets `N` bytes iff `N <= 2^32 - 16`, because the rounding mask is 32 bits wide
  (`RoundSizeCovers`);
- a packed device tree comes back for all contents, and so does a signature, iff there is no second stage or its size
  is that of the ramdisk modulo the page size, because the padding after the second stage is computed from the ramdisk
  (`DtComesBackIffAligned`, `SignatureComesBackIffAligned`);
- the recovered base address is the one given iff the kernel offset is 0x8000, but all four addresses always come back
  (`BaseRecoveredIffDefaultOffset`, `AddressesReproduced`);
- a DTBH image unpacks to its blobs iff `16 + 16*n*(n+1) <= pagesize`, whatever memory lies behind the unpacker's
  header page, because the header size is summed up quadratically and written linearly (`RoundTripIffOnePage`);
- the subtraction comparator agrees with (chip, hw_rev) order on a list iff all chips, and all revisions of one chip,
  are less than 2^31 apart (`LexIffClose`); it is an order at all iff they lie within half a circle of 32-bit words
  (`OrderIffHalfCircle`); and then what comes out is sorted iff the keys are less than 2^31 apart (`SortedIffClose`);
- a thread's reference count is exact in every state of a run iff no profile call actually made for it fails
  (`RefCountsConserved`), which a creation makes iff the thread is not counted yet and the call for its first occurrence
  fails (`FailedCallIffFirstFails`);
- splitting a report in two never changes the integral error iff the I window is unlimited or holds both parts
  (`SplitsIffWindowCovers`);
- the clamp a report asks for is its output kept within the limits, for outputs up to a bound, iff the bound is below
  2^31 (`TargetFollowsOutput`), and a report can exceed it (`LongWorkWrapsToLow`), but not
  while all durations stay within a bound that depends on the gains, 214.3 seconds off the target for the default ones
  (`OutputWithin`, `DefaultBound`);
- the disable-boost hint follows `mActive` whatever comes later iff the hint manager is set while `mActive` is false
  (`HintTracksCacheIffSetWhileIdle`);
- with no message pending, `mActive` is right iff one of the sessions counted by the last look, created since, or
  updated at that look's very instant is not stale, when some were counted, and none of them is, when none were
  (`CacheIsRightIff`); it can be wrong in each way (`NewSessionIsUnseen`, `NeverUpdatedIsNeverNoticed`, `TieIsMissed`);
- a waiting stale check is due by the stale time in all states of a run iff every check is sent the moment the clock was
  read (`CheckDueByStaleTime`), and late by exactly the time sending took (`SlowSendIsLate`);
- a mode switch reports success iff it woke up, without a timeout, after a partner was added after that call cleared the
  flag (`ModeSwitchSucceedsIffWokenByPartner`); a partner alone is not enough (`TimeoutBeatsPartner`).

## Model

| member | source | states |
|---|---|---|
| Interaction.DiffWithinOneMs | aidl/power-libperfmgr/InteractionHandler.cpp:62-67 | On a monotonic clock the computed difference is less than 1 ms off the true one, exact between whole milliseconds, and rounded down unless the nanoseconds within the second went back, up if they did |
| Interaction.GrantWithinLimits | aidl/power-libperfmgr/InteractionHandler.cpp:150-157 | Every int32 request is granted a duration in [min, max] if and only if min <= max < 2^31 |
| Interaction.GrantIsClampedSum | aidl/power-libperfmgr/InteractionHandler.cpp:150-157 | Which duration a request gets: with ordered limits the request plus the offset kept within them iff that sum fits 32 unsigned bits, exceeds them by at least the maximum, or the limits are equal; else the maximum if it is negative, and the sum less 2^32 kept within the limits from 2^32 on; for other limits the value the code ends up with |
| Interaction.StepKeepsInv | aidl/power-libperfmgr/InteractionHandler.cpp:91-276 | Every atomic step of binder, worker and Exit keeps the protocol invariant (phases, hint, eventfd, wake-up, promise) |
| Interaction.RunKeepsInv | aidl/power-libperfmgr/InteractionHandler.cpp:91-276 | Every interleaving keeps the protocol invariant |
| Interaction.HintHeldExactlyWhileBoosting | aidl/power-libperfmgr/InteractionHandler.cpp:131-206 | In every reachable state the untimed hint is held iff mState is INTERACTION or WAITING, PerfLock and PerfRel alternate, and Exit leaves the hint held iff it interrupted a boost |
| Interaction.AbortTokenIsExact | aidl/power-libperfmgr/InteractionHandler.cpp:184-214 | The eventfd counts 1 exactly while a wait has an abort pending, no wait starts with a leftover, Release's read finds its token, and Release goes to IDLE iff no uncovered request arrived |
| Interaction.NoLostWakeup | aidl/power-libperfmgr/InteractionHandler.cpp:265-271 | While there is work, or after Exit has notified, the worker is never asleep unsignalled |
| Interaction.PromiseIsLatestDeadline | aidl/power-libperfmgr/InteractionHandler.cpp:167-180 | While boosting, mLastTimespec + mDurationMs is the latest deadline of all requests since IDLE, to within 1 ms, and exactly so on a millisecond clock |
| Interaction.PromiseNeverDecreases | aidl/power-libperfmgr/InteractionHandler.cpp:167-180 | Along every run that stays boosting the promised deadline never moves back |
| Interaction.AcquireCoversRequest | aidl/power-libperfmgr/InteractionHandler.cpp:150-191 | While running, Acquire leaves a boost whose promised deadline reaches now plus the request plus the offset, kept within the limits, to within 1 ms, and has not moved back |
| Interaction.IdlePollIsBounded | aidl/power-libperfmgr/InteractionHandler.cpp:250-273 | With ordered limits the timeout of the wait for display idle lies within them, so that wait ends |
| Interaction.TimedOutReleaseKeepsPromise | aidl/power-libperfmgr/InteractionHandler.cpp:216-274 | In every run, told by the worker's own events: when Release goes to IDLE the last wait went through test, duration and first poll and was ended by the display or a failed call, or both polls timed out, and then the second one at or after the promise, so every request since IDLE got its time to within 1 ms, and exactly so on a millisecond clock |
| Interaction.WholeWaitEndsTheBoost | aidl/power-libperfmgr/InteractionHandler.cpp:216-274 | From the start of any wait, with the display busy and no request in between, the second poll can time out exactly from the promised duration on, and then the boost is over and the hint released |
| Interaction.BoostEndsWithoutRequests | aidl/power-libperfmgr/InteractionHandler.cpp:216-276 | Without new requests the worker takes at most eleven more steps before the boost has ended, from any state of the protocol |
| Interaction.ExitBoundsTheWorker | aidl/power-libperfmgr/InteractionHandler.cpp:115-129 | After Exit sets UNINITIALIZED nothing undoes it and the worker takes at most six more steps, whatever Acquire calls come in |
| Interaction.ExitUnblocksTheWorker | aidl/power-libperfmgr/InteractionHandler.cpp:216-276 | After Exit no poll and no condition wait blocks the worker, and once it has returned the join completes |
| Interaction.ExtendedRequestSurvivesItsWait | aidl/power-libperfmgr/InteractionHandler.cpp:184-206 | A request that is not covered and arrives during a wait keeps the boost through the Release that ends that wait |
| Interaction.AcquireTakesEffect | aidl/power-libperfmgr/InteractionHandler.cpp:145-191 | For every request and ordered limits: without idle support or before Init one timed hint for the request plus offset kept within the limits, and nothing else; otherwise it is covered iff the present duration and the time left reach as far, and if not the new duration counts from now, with the hint taken only from IDLE |
| Interaction.InteractionHandler.Init | aidl/power-libperfmgr/InteractionHandler.cpp:91-113 | Succeeds if already initialised or both descriptors open; then the handler is IDLE with an empty eventfd, else unchanged; the first time it starts the protocol invariant |
| Interaction.InteractionHandler.Exit | aidl/power-libperfmgr/InteractionHandler.cpp:115-122 | The locked part writes one abort token and sets UNINITIALIZED, or does nothing if it was so already; the hint stays as it was |
| Interaction.InteractionHandler.Acquire | aidl/power-libperfmgr/InteractionHandler.cpp:145-191 | Takes the Acquire step of the whole protocol and keeps its invariant; its effect on state, hint and notification is the one told from the settings and the request; while running the hint is held afterwards and the promise reaches the end of this request to within 1 ms |
| Interaction.InteractionHandler.Release | aidl/power-libperfmgr/InteractionHandler.cpp:193-206 | Takes the Release step and keeps the invariant; while running the token is gone and the boost ends iff no uncovered request came in |
| Interaction.InteractionHandler.TestPredicate | aidl/power-libperfmgr/InteractionHandler.cpp:265-271 | Sleeps in IDLE, returns when uninitialized, else sets WAITING; keeps the invariant, and a wait starts with the hint held and no leftover token |
| HintSession.WindowStart | aidl/power-libperfmgr/PowerHintSession.cpp:301-306 | Every window holds the last sample and min(w, n) samples, all of them for w = 0 |
| HintSession.FoldMonotone | aidl/power-libperfmgr/PowerHintSession.cpp:324-328 | The clamped integral is monotone in its start value and in every sample |
| HintSession.FoldUnclamped | aidl/power-libperfmgr/PowerHintSession.cpp:324-328 | While no limit is touched the integral is its start plus the sum of the errors times dt |
| HintSession.IntegralWithinLimits | aidl/power-libperfmgr/PowerHintSession.cpp:290-328 | Every report leaves integral_error within the limits, whatever it was and whether or not the session was stale |
| HintSession.IntegralMonotone | aidl/power-libperfmgr/PowerHintSession.cpp:310-328 | Longer work in any sample never lowers integral_error |
| HintSession.SplitsIffWindowCovers | aidl/power-libperfmgr/PowerHintSession.cpp:303-330 | Reporting a then b equals reporting a + b for integral_error, for all samples and starts, iff the I window is 0 or holds both; previous_error never depends on the split |
| HintSession.StaleBetweenParts | aidl/power-libperfmgr/PowerHintSession.cpp:290-298 | Finding the session stale between the two parts only raises the result, and changes nothing once the initial value is reached |
| HintSession.LongerWorkNeverLowersOutput | aidl/power-libperfmgr/PowerHintSession.cpp:340-346 | With gains that are not negative a longer last sample never lowers the controller output, for every target |
| HintSession.OutputValue | aidl/power-libperfmgr/PowerHintSession.cpp:299-346 | The output of every report is the sum of three parts cut to whole numbers: gain by sign times the error sum over the P window per sample, gain times the clamped integral over the I window, gain by sign times the error difference over the D window per dt and sample |
| HintSession.ControlWithinThree | aidl/power-libperfmgr/PowerHintSession.cpp:340-346 | That output is less than 3 off the exact real sum of the three parts |
| HintSession.TruncTowardsZero | aidl/power-libperfmgr/PowerHintSession.cpp:340-344 | The conversion to an integer cuts towards zero |
| HintSession.TargetFollowsOutput | aidl/power-libperfmgr/PowerHintSession.cpp:376-378 | For all outputs up to m either way the requested clamp is the output kept within the limits, iff m < 2^31 |
| HintSession.LongWorkWrapsToLow | aidl/power-libperfmgr/PowerHintSession.cpp:340-378 | With the default settings a report of 40000 seconds against a 10 ms target yields an output of 2^31 or more and asks for the lowest clamp instead of the highest |
| HintSession.OutputWithin | aidl/power-libperfmgr/PowerHintSession.cpp:299-346 | When every duration and the previous error lie within e of the target, the output of a report is bounded by the gains times e plus the limits of the integral part, for every target of 100 microseconds or more |
| HintSession.DefaultBound | aidl/power-libperfmgr/PowerHintSession.cpp:340-346 | With the default settings durations up to 214.3 seconds off the target keep that bound below 2^31 |
| HintSession.StepKeepsInv | aidl/power-libperfmgr/PowerHintSession.cpp:183-289 | Every step of a binder call or a stale reset keeps the clamp invariant |
| HintSession.ClampStaysWithinLimits | aidl/power-libperfmgr/PowerHintSession.cpp:183-241 | For 0 <= low <= high <= 1024, in every interleaving current_min is 0 or in [low, high], and 0 while paused; a stale reset can come at any point and leaves 0 |
| HintSession.CallIsSafe | aidl/power-libperfmgr/PowerHintSession.cpp:183-382 | A whole binder call from a safe clamp ends with a safe clamp |
| HintSession.ReportSettlesNearTarget | aidl/power-libperfmgr/PowerHintSession.cpp:376-382 | From the decision on, the clamp ends within the granularity of the target; a stale reset spoils that only after the last look at the clamp, and then leaves 0 |
| HintSession.ReportTracksItsOutput | aidl/power-libperfmgr/PowerHintSession.cpp:276-382 | In every run, an accepted report with nonzero output leaves current_min within the granularity of that output converted to 32 bits and clamped, so of the clamped output itself while it fits 32 bits, until the next call or stale reset |
| HintSession.ReportTracksItsSums | aidl/power-libperfmgr/PowerHintSession.cpp:276-382 | The same with the output told from the samples: in every run the clamp ends within the granularity of the value computed from the three window sums, converted to 32 bits and clamped |
| HintSession.ReportLeaves | aidl/power-libperfmgr/PowerHintSession.cpp:276-382 | An accepted report with nothing in between leaves the last error, the clamped integral from the possibly raised start, one more update, and the clamp as asked unless the output is zero or within the granularity |
| HintSession.BoundedReportsTrackTheirOutput | aidl/power-libperfmgr/PowerHintSession.cpp:276-382 | In every run whose reports all stay within a bound that keeps the output below 2^31, an accepted report with nonzero output leaves current_min within the granularity of the clamped output itself |
| HintSession.PowerHintSession.constructor | aidl/power-libperfmgr/PowerHintSession.cpp:135-156 | A new session is active, open, with zero errors, the clamp at its high limit, a fresh stale handler, and registered with the manager |
| HintSession.PowerHintSession.SetClamp | aidl/power-libperfmgr/PowerHintSession.cpp:183-210 | The clamp becomes the requested value kept within 0 and 1024, nothing else changes |
| HintSession.PowerHintSession.PauseSession | aidl/power-libperfmgr/PowerHintSession.cpp:212-225 | Illegal state unless active; computes the steps of pause in order, ends paused with the clamp off |
| HintSession.PowerHintSession.ResumeSession | aidl/power-libperfmgr/PowerHintSession.cpp:227-241 | Illegal state if active; computes the steps of resume in order, ends active with the clamp at its high limit and the integral raised to at least the initial value |
| HintSession.PowerHintSession.CloseSession | aidl/power-libperfmgr/PowerHintSession.cpp:243-253 | Succeeds once only; then the waiting stale check is removed, the clamp is off and the session has left the manager with its thread counts |
| HintSession.PowerHintSession.UpdateTargetWorkDuration | aidl/power-libperfmgr/PowerHintSession.cpp:255-274 | Refuses targets that are not positive, else stores the target and rescales integral_error by the integer quotient |
| HintSession.PowerHintSession.Loop | aidl/power-libperfmgr/PowerHintSession.cpp:308-330 | The single pass yields the P sum, the telescoped D sum and the clamped I fold, each over its own window, and the last error |
| HintSession.PowerHintSession.Accumulate | aidl/power-libperfmgr/PowerHintSession.cpp:299-330 | err_sum is the sum over the P window, derivative_sum the last error minus the one before the D window or the carried-in one, integral_error the clamped fold over the I window |
| HintSession.PowerHintSession.ReportActualWorkDuration | aidl/power-libperfmgr/PowerHintSession.cpp:276-385 | Error cases in the code's order, changing nothing; an accepted report asks the stale handler, computes the controller and the clamp steps of the model, whose values OutputValue and ReportLeaves give, updates the stale timer, leaves integral_error within its limits and keeps the clamp safe |
| StaleTimer.TimeoutCut | aidl/power-libperfmgr/PowerHintSession.cpp:456-459 | The timeout is the rate cut to whole milliseconds times the factor, so at most rate times factor, and equal iff the rate is whole milliseconds (or the factor 0) |
| StaleTimer.StepKeepsOneMessage | aidl/power-libperfmgr/PowerHintSession.cpp:433-474 | Every step keeps at most one message, none while not monitoring, aimed no later than the stale time |
| StaleTimer.StepKeepsLog | aidl/power-libperfmgr/PowerHintSession.cpp:433-474 | Every step keeps that stale verdicts come a full timeout after all earlier updates and right after an update |
| StaleTimer.OneMessageIffMonitoring | aidl/power-libperfmgr/PowerHintSession.cpp:433-474 | In every run at most one stale-check message is queued or in dispatch, and before close exactly one iff mIsMonitoringStale |
| StaleTimer.StaleOnlyAfterFullTimeout | aidl/power-libperfmgr/PowerHintSession.cpp:461-470 | In every run setStale comes more than the timeout after every earlier update, and never twice without an update in between |
| StaleTimer.CheckDueByStaleTime | aidl/power-libperfmgr/PowerHintSession.cpp:433-474 | In every run the waiting message is due by the current stale time in all states iff every message is sent the moment the clock was read; and in any state it is late by at most its own sending delay |
| StaleTimer.SlowSendIsLate | aidl/power-libperfmgr/PowerHintSession.cpp:437-473 | From any state of the protocol, a message sent by an update or a check is due after the stale time by exactly the time between reading the clock and sending |
| StaleTimer.InTimeIffSentAtOnce | aidl/power-libperfmgr/PowerHintSession.cpp:433-474 | The same equivalence for runs from any state that satisfies the one-message invariant |
| StaleTimer.SilenceIsNoticed | aidl/power-libperfmgr/PowerHintSession.cpp:461-474 | From any state of an open, monitored session past its stale time, delivering and handling the due check declares it stale and leaves no check |
| StaleTimer.OneReportThenSilence | aidl/power-libperfmgr/PowerHintSession.cpp:433-474 | After creation one report starts the monitoring, and the check declares the session stale at the first instant past the timeout |
| StaleTimer.OnlyDispatchSurvivesClose | aidl/power-libperfmgr/PowerHintSession.cpp:243-248 | After close and without a later update there is no check if none was in dispatch, and one in dispatch is queued again iff the session is not stale when it is handled |
| StaleTimer.StaleHandler.constructor | aidl/power-libperfmgr/PowerHintSession.h:88-89 | A new handler is not monitoring, has no message, and counts its creation as the last update |
| StaleTimer.StaleHandler.UpdateStaleTimer | aidl/power-libperfmgr/PowerHintSession.cpp:433-454 | Computes the update step when the monitor runs, nothing otherwise, keeps the timer invariant, leaves an open session with exactly one check, and asks the manager to look again iff the stale time had passed |
| StaleTimer.StaleHandler.HandleMessage | aidl/power-libperfmgr/PowerHintSession.cpp:461-474 | Computes the handle step and keeps the invariant; the session is declared stale iff the clock is past the stale time, hence a full timeout after every earlier update, and then no check is left, else exactly one |
| StaleTimer.StaleHandler.RemoveMessages | aidl/power-libperfmgr/PowerHintSession.cpp:243-248 | Closing removes the waiting message and not the one in dispatch, and keeps the invariant |
| SessionManager.AddTidsCounts | aidl/power-libperfmgr/PowerSessionManager.cpp:57-75 | A thread gains at most its occurrences, and exactly those iff no call made for it fails |
| SessionManager.FailedCallIffFirstFails | aidl/power-libperfmgr/PowerSessionManager.cpp:59-73 | A creation makes a failing call for a thread iff the thread is not counted yet, is in the list, and the call for its first occurrence fails |
| SessionManager.RemoveTidsCounts | aidl/power-libperfmgr/PowerSessionManager.cpp:77-93 | A thread loses its occurrences, stopping at zero, and every count kept is positive |
| SessionManager.StepConserves | aidl/power-libperfmgr/PowerSessionManager.cpp:57-93 | Every creation and close keeps counts at most the live occurrences, and an exact count stays exact iff no call made for it fails |
| SessionManager.RefCountsConserved | aidl/power-libperfmgr/PowerSessionManager.cpp:57-93 | Over any run every count is positive and at most the occurrences in live sessions; it is exactly that in every state iff no call made for the thread fails; no live session means no count |
| SessionManager.FailureLosesALiveThread | aidl/power-libperfmgr/PowerSessionManager.cpp:57-93 | An input for the failing side: after a failed profile call a thread loses its count while a live session still has it |
| SessionManager.CacheIsLastLook | aidl/power-libperfmgr/PowerSessionManager.cpp:95-112 | In every run mActive is, at the last look, whether some session created and not closed by then was active and not stale when asked; the live sessions are exactly those |
| SessionManager.LiveFromCreateToClose | aidl/power-libperfmgr/PowerSessionManager.cpp:57-93 | Along any messages the sessions the manager asks are exactly the live ones, each from its creation to its close |
| SessionManager.KeepsTracking | aidl/power-libperfmgr/PowerSessionManager.cpp:114-138 | Once the hint is held iff mActive with DoHint and EndHint alternating, every later run keeps it so |
| SessionManager.HintTracksCacheIffSetWhileIdle | aidl/power-libperfmgr/PowerSessionManager.cpp:33-38 | After the hint manager is set, the hint follows mActive in all continuations iff mActive was false when it was set |
| SessionManager.PowerSessionManager.AddPowerSession | aidl/power-libperfmgr/PowerSessionManager.cpp:57-75 | The loop computes the counts of the model, the session is recorded, and a thread gains exactly its occurrences iff it was counted, is absent, or its first call succeeds |
| SessionManager.PowerSessionManager.RemovePowerSession | aidl/power-libperfmgr/PowerSessionManager.cpp:77-93 | The session is forgotten, every thread loses its occurrences in it, stopping at zero, and when no session is left no count is |
| SessionManager.PowerSessionManager.IsAnySessionActive | aidl/power-libperfmgr/PowerSessionManager.cpp:95-112 | Asks the stored sessions until one is active and not stale; the answer is whether one is, is stored, and is reported iff it changed |
| SessionManager.PowerSessionManager.HandleMessage | aidl/power-libperfmgr/PowerSessionManager.cpp:114-124 | Afterwards mActive is whether some stored session is active and not stale as asked; the hint is called exactly on a change and with a hint manager, DoHint on the rise and EndHint on the fall |
| PowerSystem.ActKeepsInv | aidl/power-libperfmgr/PowerHintSession.cpp:183-474 | Every call, timer step, message and look keeps the joint invariant of sessions, timers and cache |
| PowerSystem.CacheIsRightIff | aidl/power-libperfmgr/PowerSessionManager.cpp:95-124 | In every run with no message pending, which sessions are active now in terms of the last look, and the exact condition for mActive to be right |
| PowerSystem.TiedOnlyAtTheInstant | aidl/power-libperfmgr/PowerHintSession.cpp:412-441 | A session is updated back to life without a message only at the very instant it went stale and the manager looked |
| PowerSystem.NoticedIffMonitored | aidl/power-libperfmgr/PowerHintSession.cpp:433-474 | In every run a live session has exactly one stale check under way if it is monitored and none otherwise |
| PowerSystem.WrongTrueHasCheckOrNoUpdate | aidl/power-libperfmgr/PowerHintSession.cpp:420-474 | In every run with no message pending, a session counted by the manager and without a check under way was never updated; so behind a wrong mActive there is a check to come or a session never updated |
| PowerSystem.CheckPutsCacheRight | aidl/power-libperfmgr/PowerHintSession.cpp:420-474 | Handled past the stale time, a check sends the manager a message and ends the monitoring, and the next look says whether another session is active |
| PowerSystem.CheckCanCome | aidl/power-libperfmgr/PowerHintSession.cpp:461-474 | Once due, a check can be taken and handled at any later reading of the clock |
| PowerSystem.MessageSentIff | aidl/power-libperfmgr/PowerHintSession.cpp:179-441 | A message goes to the manager exactly on pause, resume, close, a report after the stale time and a stale verdict |
| PowerSystem.ActMirrors | aidl/power-libperfmgr/PowerSessionManager.cpp:57-112 | Every step of the combined system is, to the manager model, the one message it stands for or none, and both have the same sessions, answers and cache afterwards |
| PowerSystem.RunMirrors | aidl/power-libperfmgr/PowerSessionManager.cpp:57-112 | Every run of the combined system is a run of the manager model that accepts all those messages and ends with the same sessions and the same mActive, whatever threads the sessions have |
| PowerSystem.NewSessionIsUnseen | aidl/power-libperfmgr/PowerHintSession.cpp:152-154 | Creating a session sends no message: mActive stays false while the session is active |
| PowerSystem.NeverUpdatedIsNeverNoticed | aidl/power-libperfmgr/PowerHintSession.cpp:442-447 | A session counted but never updated goes stale with no check and no message: mActive stays true |
| PowerSystem.TieIsMissed | aidl/power-libperfmgr/PowerHintSession.cpp:412-441 | A look and an update at the instant of staleness leave mActive false, with no message, while the session is active |
| BumpArena.RoundSizeCovers | shims/libdemangle/cxa_demangle.cpp:282 | The rounded size is a multiple of 16, covers N iff N <= 2^32 - 16, and then exceeds it by less than 16 |
| BumpArena.AllocateKeeps | shims/libdemangle/cxa_demangle.cpp:281-291 | Every allocation, small, growing or massive, keeps the arena invariant |
| BumpArena.ResetKeeps | shims/libdemangle/cxa_demangle.cpp:293-301 | A reset keeps the arena invariant |
| BumpArena.RegionsAreFresh | shims/libdemangle/cxa_demangle.cpp:261-291 | Over any run, regions handed out since the last reset are pairwise disjoint, 16-aligned, inside their block, cover the request iff it is at most 2^32 - 16, and Current stays within every block |
| BumpArena.AllocatePlaces | shims/libdemangle/cxa_demangle.cpp:261-291 | Where a request goes: behind what the head block handed out if that leaves some of its 4080 bytes, into a block of its own behind the head above 4080, else to the start of a new head block |
| BumpArena.ListHoldsEachBlockOnce | shims/libdemangle/cxa_demangle.cpp:261-275 | Over any run the list has no duplicates and holds the initial buffer and exactly the blocks allocated and not freed |
| BumpArena.ResetFreesEachBlockOnce | shims/libdemangle/cxa_demangle.cpp:293-301 | A reset after any run restores the constructor's state, has freed every allocated block exactly once, and never the initial buffer |
| BumpArena.BumpPointerAllocator.constructor | shims/libdemangle/cxa_demangle.cpp:278-279 | The linked list is the initial buffer alone |
| BumpArena.BumpPointerAllocator.Grow | shims/libdemangle/cxa_demangle.cpp:261-266 | Puts a new block in front of the linked list |
| BumpArena.BumpPointerAllocator.AllocateMassive | shims/libdemangle/cxa_demangle.cpp:268-275 | Puts a block of its own second in the linked list and returns its start |
| BumpArena.BumpPointerAllocator.Allocate | shims/libdemangle/cxa_demangle.cpp:281-291 | The linked list after the call is the arena step, and the pointer returned is the region that step added |
| BumpArena.BumpPointerAllocator.FreeAll | shims/libdemangle/cxa_demangle.cpp:294-299 | The loop ends and frees the allocated blocks of the list in order, each once, skipping the initial buffer |
| BumpArena.BumpPointerAllocator.Reset | shims/libdemangle/cxa_demangle.cpp:293-301 | The linked list after the call is the arena reset |
| BootImage.HeaderRoundTrip | dtbhtool/bootimg.h:28-50 | Decoding an encoded header gives it back |
| BootImage.HeaderBytes | dtbhtool/mkbootimg.c:190-307 | The image starts with ANDROID!, then ten words with the sizes of the inputs, the addresses modulo 2^32, the page size and 0, then board name, command line and id at bytes 48, 64 and 576 |
| BootImage.CStringRoundTrip | dtbhtool/unpackbootimg.c:98-114 | A command line stored with trailing zeros is read back whole |
| BootImage.PaddingFillsPage | dtbhtool/mkbootimg.c:95-111 | The padding is the distance to the next page boundary, less than a page |
| BootImage.SamePadding | dtbhtool/mkbootimg.c:316-319 | Two sizes get the same padding iff they agree modulo the page size |
| BootImage.Pack | dtbhtool/mkbootimg.c:307-328 | The write sequence produces the image: header, kernel, ramdisk, second, dt and signature with the padding the code gives each |
| BootImage.ScanForMagic | dtbhtool/unpackbootimg.c:83-93 | Computes the scan with its stale buffer, and on files of eight bytes or more finds the first magic at 0..512 or reports there is none |
| BootImage.ScanFindsFirstMagic | dtbhtool/unpackbootimg.c:83-93 | On files of eight bytes or more short reads into the stale buffer never match, so the scan finds the first magic |
| BootImage.ReadItem | dtbhtool/unpackbootimg.c:14-30 | Reads an item and skips its padding, with the cursor stopping at the end of the file |
| BootImage.UnpackImage | dtbhtool/unpackbootimg.c:83-216 | The moving cursor reads every section at the place the header implies, a header cut short keeping what its memory held |
| BootImage.MagicFound | dtbhtool/unpackbootimg.c:83-97 | Behind any prefix of at most 512 bytes that makes no earlier match, the scan finds the header |
| BootImage.KernelOnePageOn | dtbhtool/unpackbootimg.c:83-160 | In any file the kernel is read one page behind the magic, a page as given or as the header says |
| BootImage.FrontSectionsRoundTrip | dtbhtool/unpackbootimg.c:151-194 | Behind any such prefix and whatever the memory held, command line, header, kernel, ramdisk and second come back exactly for all sizes |
| BootImage.TailPositionsAgree | dtbhtool/mkbootimg.c:316-328 | Reader and writer agree on where dt and signature are iff there is no second stage or its size equals the ramdisk's modulo the page |
| BootImage.TailSectionsRoundTrip | dtbhtool/unpackbootimg.c:196-216 | Under that condition dt and signature come back exactly |
| BootImage.MisalignedDtIsLost | dtbhtool/mkbootimg.c:318 | Otherwise some dt of every size does not come back |
| BootImage.DtComesBackIffAligned | dtbhtool/mkbootimg.c:318 | All dts of a given size come back iff that condition holds |
| BootImage.SignatureComesBackIffAligned | dtbhtool/mkbootimg.c:318 | All signatures come back iff the same condition holds |
| BootImage.AddressesReproduced | dtbhtool/unpackbootimg.c:99-102 | Packing with the recovered base and offsets and kernel offset 0x8000 reproduces all four addresses modulo 2^32 |
| BootImage.BaseRecoveredIffDefaultOffset | dtbhtool/mkbootimg.c:192-197 | The recovered base is the one given iff the kernel offset was 0x8000 |
| Dtbh.HeaderSumClosed | dtbhtool/dtbimg.c:246-248 | The header size accumulated over n entries is 12 + 16 n (n + 1) |
| Dtbh.NoGapIffOnePage | dtbhtool/dtbimg.c:258-259 | The gap between computed and written header space is 0 iff 16 + 16 n (n + 1) fits a page |
| Dtbh.EntriesTile | dtbhtool/dtbimg.c:263-276 | Entry ranges are page aligned and follow one another from the header space to the end of the image |
| Dtbh.EntriesDisjoint | dtbhtool/dtbimg.c:263-276 | Entry ranges do not overlap |
| Dtbh.ImageSize | dtbhtool/dtbimg.c:281 | The image fills the allocated buffer exactly |
| Dtbh.ImageHeader | dtbhtool/dtbimg.c:285-291 | The image starts with the bytes of DTBH, version 2 and the number of blobs, least significant byte first |
| Dtbh.ImageEntries | dtbhtool/dtbimg.c:233-298 | Entry c of the table holds, word by word, the chip of the blob sorted there, the two fixed codes, its hw_rev and hw_rev_end, its offset, its size in whole pages and the space character |
| Dtbh.PayloadPosition | dtbhtool/dtbimg.c:300-306 | Every payload sits, zero-padded, at its entry's offset minus the one gap, whatever the sort did |
| Dtbh.UnpackOfImage | dtbhtool/unpackdtbhimg.c:139-170 | The unpacker gets as many entries as were packed, those within its header page as packed with what is found at their offsets, whatever memory lies behind the page; it gets nothing iff that memory ends within the entry table |
| Dtbh.LastEntryMisread | dtbhtool/dtbimg.c:300-306 | With a gap, the last blob is not what its entry points to |
| Dtbh.RoundTripIffOnePage | dtbhtool/unpackdtbhimg.c:139-170 | Whatever lies behind the header page, every entry comes out with its own padded payload iff 16 + 16 n (n + 1) fits a page |
| Dtbh.FieldsComeBack | dtbhtool/unpackdtbhimg.c:139-170 | Within one page, entry c comes out with the chip, codes and revisions of the blob sorted there, and its data are the blob's bytes followed by zeros up to whole pages |
| Dtbh.DifferenceSign | dtbhtool/dtbimg.c:60-68 | The subtraction has the sign of the comparison iff the difference fits 32 signed bits |
| Dtbh.LexIffClose | dtbhtool/dtbimg.c:60-68 | The comparator agrees with (chip, hw_rev) order on all pairs of a list iff all chips, and revisions of one chip, are less than 2^31 apart |
| Dtbh.OrderIffHalfCircle | dtbhtool/dtbimg.c:60-68 | The comparator is an order on a list (sign flips, transitive) iff the chips, and the revisions of each chip, lie within half a circle of 32-bit words |
| Dtbh.ComparatorIsOrderBelowSignBit | dtbhtool/dtbimg.c:60-68 | With chip and revision below 2^31 the keys are close and the comparator is an order |
| Dtbh.ComparatorCycle | dtbhtool/dtbimg.c:60-68 | An input for the failing side: three chips around the circle compare in a cycle |
| Dtbh.ComparatorTie | dtbhtool/dtbimg.c:60-68 | An input for the failing side: two chips 2^31 apart each compare below the other |
| Dtbh.SortedIffClose | dtbhtool/dtbimg.c:261 | Whatever qsort returns with a comparator that is an order, it is in (chip, hw_rev) order iff the keys are less than 2^31 apart |
| Dtbh.EntriesComeOutSorted | dtbhtool/dtbimg.c:261 | Within one page and with a comparator that is an order, the unpacked entries are in (chip, hw_rev) order iff the keys are less than 2^31 apart |
| Dtbh.Gather | dtbhtool/dtbimg.c:229-259 | The gathering loop yields the header space and the blob space of the model, masks and all |
| Dtbh.BlobOffsets | dtbhtool/dtbimg.c:263-268 | The offset loop gives each blob the header space plus the padded sizes before it |
| Dtbh.FillEntries | dtbhtool/dtbimg.c:270-276 | Each sorted entry takes its own blob's offset and padded size |
| Dtbh.WriteHeader | dtbhtool/dtbimg.c:285-298 | The copies put magic, version, count and entries at the start of the zeroed buffer, inside it |
| Dtbh.WriteBlobs | dtbhtool/dtbimg.c:303-306 | The copies put each padded blob after the one before, inside the buffer |
| Dtbh.LoadDtbhBlock | dtbhtool/dtbimg.c:229-311 | The finished buffer is the image of the model |
| Dtbh.UnpackDtbh | dtbhtool/unpackdtbhimg.c:134-170 | The extraction loop, reading on behind its page unchecked, computes the unpacking of the model |
| UsbRole.StepKeepsInv | aidl/usb/Usb.cpp:241-372 | Every step of a call or the uevent thread keeps lock ownership, the log and the partner flag consistent |
| UsbRole.ModeSwitchSucceedsIffWokenByPartner | aidl/usb/Usb.cpp:254-285 | In every interleaving a mode switch reports success iff it woke up without a timeout after a partner was added after that call cleared mPartnerUp; and then it had opened and written the node |
| UsbRole.RoleSwitchSucceedsIffReadBack | aidl/usb/Usb.cpp:337-357 | In every interleaving a data or power role switch reports success iff it opened the node, wrote the role and read the same role back |
| UsbRole.SuccessMeansPartnerAdded | aidl/usb/Usb.cpp:254-285 | In every interleaving a mode switch reports success only if a partner was added after that call cleared mPartnerUp |
| UsbRole.FailureReturnsToDual | aidl/usb/Usb.cpp:288-291 | In every interleaving a call has attempted "dual" before it reports iff it is a mode switch that failed |
| UsbRole.RoleSwitchIsExclusive | aidl/usb/Usb.cpp:332-369 | Between a call's lock and unlock nothing but that call acts on the port: no other call, and no "dual" by the uevent thread |
| UsbRole.OneWaiter | aidl/usb/Usb.cpp:332-369 | In every interleaving at most one call waits for a partner |
| UsbRole.NoSignalIsLost | aidl/usb/Usb.cpp:254-285 | In every interleaving a waiting call has been signalled iff the flag is up, and iff a partner was added since it cleared the flag |
| UsbRole.TimeoutFailsTheSwitch | aidl/usb/Usb.cpp:270-277 | From every reachable wait a timeout can end in "dual" and a reported failure |
| UsbRole.WakeUpInTime | aidl/usb/Usb.cpp:270-283 | From every reachable wait, waking up in time leads to a reported success if the flag is up and to waiting again if it is not |
| UsbRole.TimeoutBeatsPartner | aidl/usb/Usb.cpp:270-277 | An input for the failing side: a switch fails although a partner was added after it cleared the flag |
| Uevent.AnnouncesPartnerIff | aidl/usb/Usb.cpp:662 | A string announces a partner iff it is add, one line of anything, -partner |
| Uevent.AsksForRecheckIff | aidl/usb/Usb.cpp:668-670 | A string asks for a recheck and ends the walk iff it starts with DEVTYPE=typec_, CCIC=WATER or CCIC=DRY; any other asks for nothing |
| Uevent.WalkVisitsTokens | aidl/usb/Usb.cpp:646-694 | For every list of non-empty NUL-free strings, and whatever each string asks for, walking the message visits exactly those up to the first empty one, whatever follows |
| Uevent.WalkVisitsUnterminated | aidl/usb/Usb.cpp:646-694 | A last string without its NUL is visited too |
| Uevent.WalkBuffer | aidl/usb/Usb.cpp:660-693 | The cursor loop ends, stays inside a buffer that ends in two NULs, and does what the message says |
| Uevent.UeventEvent | aidl/usb/Usb.cpp:646-694 | A read of 1..2047 bytes is terminated and walked with its bytes intact; any other length changes nothing and does nothing |

## Left out

- Interaction: the time the first poll takes is left open; signed overflow of the duration subtraction when the configured limits are at or above 2^31 is not modelled; the hint's fate after Exit is stated but later Init calls are not.
- HintSession: int64 overflow and floating-point rounding; gains are reals and integers unbounded. For a target below 100 microseconds the derivative part is an arbitrary number, since the code converts the result of a division by zero; the integer division by zero of its tracing output is not modelled.
- HintSession.PowerHintSession.UpdateTargetWorkDuration: the rescaling of integral_error is modelled as the integer quotient the code computes; that it may exceed the high limit until the next report is allowed, not bounded.
- HintSession.PowerHintSession.CloseSession: does not promise that a closed session refuses later calls, because the code does not refuse them.
- StaleTimer: the monitor is assumed to be running; that the looper delivers a due message is not claimed.
- SessionManager: the manager's lock is taken as given, each operation is one step; a session's flags are what it last reported to the manager object.
- PowerSystem: one look reads one clock for all sessions, and a binder call and the message it sends are one step; of a closed session only the messages it can still cause are kept.
- BumpArena: malloc failure ends the process and is not modelled; a block's bytes are offsets in a block, not addresses.
- BootImage: file errors, the SHA-1 id (an arbitrary value), output file names and handles; of a section cut short by the end of the file only the bytes read are modelled.
- Dtbh: reading the device-tree properties with libfdt, directory order and file errors; page sizes are the powers of two from 2048 to 131072; qsort is taken as a permutation that the comparator orders.
- UsbRole: writes to sysfs are recorded attempts with an arbitrary outcome; the callback, its lock and setCallback's join of the worker are not modelled; no signal is lost, but that the signalled waiter gets to run is not claimed.
- Uevent: reading the ports and their partner directories after a Type-C string is one recorded action.
- Power.setMode, setBoost and PowerExt: a case map over hints that would only add easy members.
- The rest of the demangler (its parser is in headers that are not part of this model) and parse_discriminator.
- Sensors, lights, vibrator, memtrack, fingerprint, radio services and other shims: thin wrappers.
- Makefiles, init scripts, overlays and configuration files.
