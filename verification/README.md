# ERa firmware: a verified model of its state machines and codecs

The ERa library connects a microcontroller to a cloud service. Most of it is board glue. This
project models the parts that decide something on the device itself, and proves what they promise
over whole runs:

1. **Local automation** (`ActionChain`, `ChainMeaning`, `ChainRuns`, `AlertRate`, `AlertDeferral`, `ActionList`,
   `Conditions`, `ConditionObjects`, `SmartRuns`, `SmartObject`): linked actions that suspend on
   timeouts, an alert rate limiter, conditions whose check has a side effect, an edge detector.
2. **Button recogniser** (`Flags`, `ButtonModel`, `ButtonRuns`, `ButtonMulti`, `ButtonClicks`, `ButtonDebounce`,
   `ButtonObjects`): debouncing, edges, hold, two multi-click modes, deferred callbacks and deletion.
3. **Provisioning** (`Query`, `ProvisionModel`, `Provisioner`): percent-decoding (section 2.1 of
   RFC 3986), looking an argument up in a query (section 3.4 of RFC 3986), and the configuration
   that has to survive power cycles.
4. **Schedules** (`ScheduleWord`, `ScheduleWindows`): the packed schedule word and the times at which
   it is active.
5. **BLE verification** (`BleSlots`, `BleVerify`, `BleProtocol`, `BleTransport`): five slots that
   behave as a bounded map, and the authorisation protocol over them.
6. **Line store and timestamps** (`LineStore`, `Timestamps`).

Code that changes fields is a class whose methods change fields; each method is proved equal to a
function on values, and the theorems over runs are about these functions. Steps, readings of the
clock and inputs are arbitrary: a "run" is any finite sequence of them.

## What turned out different from what one would expect

Each of these is a lemma; the code is modelled as it is written.

- A delay of 0xFFFFFFFF ms is refused by the timer but stays running: the list is busy, and nothing
  more happens, until somebody stops it. It is the only delay for which this is so
  (`ChainRuns.DelayBlocksIffRefused`), and one trigger is enough (`ChainRuns.EndlessDelayIsReached`).
- A delay that reaches past a wrap of the 32-bit clock takes no time at all, because its due time is
  compared with the unwrapped clock. At any uptime a delay lasts its time if and only if it does not
  reach past a wrap (`ChainRuns.DelaysLastTheirTime`, `ChainRuns.DelayOfNoTime`).
- For the same reason the alert limiter fails around a wrap. `AlertRate.DeferredWait` says for all
  clock readings which of three things happens to an alert that has to wait: it waits at most one delay;
  its slot has wrapped, so it is due at once (`AlertRate.ThreeAlertsAtOnce` is a run with three alerts in
  100 ms at a delay of one hour); or its last slot is still ahead of the clock and it waits longer.
- An alert waits longer than its delay after a wrap of the clock, by up to 49 days
  (`AlertRate.WrappedAlertIsLate`), and without any wrap after stops: by one delay for each stop and no
  more (`AlertDeferral.EachStopAddsOneDelay`, `AlertDeferral.StoppedAlertsArePutOff`).
- The timer can also refuse the wait of an alert, which then blocks its list like an endless delay
  (`AlertDeferral.AlertBlocksIffRefused`).
- The log of an any-condition evaluates the children again. The log can name a condition that did not
  cause the activation; `Conditions.LoggingConsumesNothing` says exactly when. If the users' functions
  answer as in the check before, that uses up no reset; if they answer differently it can, and
  `Conditions.LoggingWithOtherAnswers` says exactly when (`Conditions.LogMayUseUpAReset` is an input).
- The click count of a button is one byte: with reload, a burst of 256 clicks is never reported
  (`ButtonMulti.BurstIsJudgedOnce`).
- A fixed-delta schedule divides by zero for a repetition of 0 and for 2^25 days, and for no other value
  (`ScheduleWindows.WhenItDividesByZero`).
- A weekly window that runs past midnight is cut off there unless the next day is active too
  (`ScheduleWindows.WeeklyWindowIsServed`).
- A yearly schedule word is of no kind and never active (`ScheduleWord.YearlyHasNoKind`,
  `ScheduleWindows.YearlyIsNeverActive`).
- A configuration request without a token is answered with an error but has already changed the
  configuration in memory: host and port if given, user name and password in any case, by default to the
  token (`ProvisionModel.RejectedRequestLeavesTraces`). `ProvisionModel.RejectedRequestMatters` says
  exactly when the next accepted request comes out differently for it.
- A command over BLE reaches the application by its own checks and without the verification that a
  control message needs (`BleProtocol.CallbackRunsExactly`).
- A request that is accepted without `save` is lost if power fails before the cloud connection
  (`ProvisionModel.AcceptedRequestIsDurableIfSaved`).
- Reading lines back stops at the first empty line (`LineStore.LinesComeBackIffNoneEmpty`).

## Model

| member | source | states |
|---|---|---|
| ChainMeaning.PlayRunsToFirstSuspension | src/Automation/ERaAutomation.hpp:90-103 | playing action by action through the links equals one jump: all actions up to the first that has to wait take effect, in order and at once, and only that one is left running with its timeout armed |
| ChainRuns.FireMeaning | src/Automation/ERaTimer.tpp:56-84 | a due timeout wakes its action, the pass runs on to its next suspension, and the entry dropped afterwards is the one that fired |
| ChainRuns.StepMeaning | src/Automation/ERaAutomation.hpp:77-188 | every trigger, timeout, stop and clock step keeps the list either idle or suspended at exactly one action, and where it leads |
| ChainRuns.StopClears | src/Automation/ERaAutomation.hpp:105-115 | stopping leaves nothing running and nothing pending |
| ChainRuns.AtMostOneRunning | src/Automation/ERaAutomation.hpp:77-188 | in every reachable state at most one action is running; a suspended delay has exactly one pending timeout, its own, unless the timer refused it |
| ChainRuns.RefusedTimeoutBlocks | src/Automation/ERaTimer.tpp:17-19 | without its timeout a suspended pass never moves again, and no trigger gets through, in any run without a stop |
| ChainRuns.PassBlocksIffRefused | src/Automation/ERaTimer.tpp:17-19 | a suspended pass has no further effect in any run without a stop if and only if the timer has refused its timeout |
| ChainRuns.DelayBlocksIffRefused | src/Automation/ERaTimer.tpp:17-19 | a running delay blocks its list in every run without a stop if and only if its length is 0xFFFFFFFF |
| ChainRuns.EndlessDelayIsReached | src/Automation/ERaTimer.tpp:17-19 | from a fresh list one trigger leads there whenever the first action that waits is a delay of 0xFFFFFFFF ms |
| ChainRuns.GoesOffWhenDue | src/Automation/ERaTimer.tpp:56-61 | a pending timeout has an effect exactly when its 32-bit due time is not after the 32-bit clock |
| ChainRuns.DelaysLastTheirTime | src/Automation/ERaAutomation.hpp:703-708 | over every run and at any uptime: a delay that comes to run, at the head of its list or behind others, lasts at least its whole time in every run without a stop, if and only if it is 0, refused by the timer, or over before the 32-bit clock wraps |
| ChainRuns.DelayAtTheWrap | src/Automation/ERaTimer.tpp:25-25 | a delay can go off in the millisecond in which it is played if and only if it is 0 or reaches past the next wrap of the clock |
| ChainRuns.DelayOfNoTime | src/Automation/ERaTimer.tpp:25-25 | a run in which a delay of one second takes no time |
| ChainRuns.EffectsArePasses | src/Automation/ERaAutomation.hpp:77-188 | over every run the effects are complete passes in insertion order, except that a stopped pass or the one still waiting is a proper prefix; one pass per accepted trigger, at most one short pass per stop |
| AlertRate.NextSlotMeaning | src/Automation/ERaAutomation.hpp:790-805 | without wrap-around each play moves to a later multiple of the delay: not after now when sent at once, the very next one when it has to wait |
| AlertRate.DeferredWait | src/Automation/ERaAutomation.hpp:795-805 | for all clock readings of an alert that has to wait: its timeout is due at its slot, and exact conditions for the three cases, 1 to d ms ahead, due at once, and more than d ms ahead because the last slot is still ahead of the clock |
| AlertRate.SlotAdvances | src/Automation/ERaAutomation.hpp:790-804 | for all clock readings: the slot moves forward by at least d if and only if the alert is sent at once or the next slot fits 32 bits |
| AlertRate.ThreeAlertsAtOnce | src/Automation/ERaAutomation.hpp:781-807 | a run from a fresh list in which an alert with a delay of one hour goes out three times within 100 ms |
| AlertRate.WrappedAlertIsLate | src/Automation/ERaAutomation.hpp:795-805 | a run from a fresh list in which an alert with a delay of 60 ms, played after the wrap, is not out 49 days later |
| AlertRate.AlertsAreRateLimited | src/Automation/ERaAutomation.hpp:781-807 | over every run in which the clock and the next slots of this alert stay below 2^32 ms, with triggers, stops and timeouts in any order and whatever other actions the list has: slots are multiples of the delay at least one delay apart, no alert is earlier than its slot, and n alerts with delay d take at least n*d ms |
| AlertRate.DeferredAlertsWaitAtMostOneDelay | src/Automation/ERaAutomation.hpp:799-806 | in a run without stops an alert that is not waiting, whatever else its list waits for, would ask for 1 to d ms if it had to wait |
| AlertRate.EveryDeferralIsShort | src/Automation/ERaAutomation.hpp:799-806 | in a run without stops every alert that comes to wait, at the head of its list or behind any other action, has one timeout, due 1 to d ms later |
| AlertRate.RefusedAlert | src/Automation/ERaTimer.tpp:17-19 | for all clock readings: the timer refuses a deferred alert if and only if the clock is one millisecond past the next slot modulo 2^32 |
| AlertRate.WaitingAlertHasItsTimeout | src/Automation/ERaAutomation.hpp:799-806 | over every run below 2^32 ms, an alert is running if and only if exactly one timeout is pending, its own, due at its slot |
| AlertDeferral.EachStopAddsOneDelay | src/Automation/ERaAutomation.hpp:799-813 | over every run below 2^32 ms with h stops: an alert that waits is due at most (h + 1) * d ms later, and its timeout is the only one pending |
| AlertDeferral.StoppedAlertsArePutOff | src/Automation/ERaAutomation.hpp:799-813 | the bound is reached: for every number of stops a run from a fresh list in which the alert waits exactly that long |
| AlertDeferral.OneStopIsEnough | src/Automation/ERaAutomation.hpp:799-813 | played at 50 ms, stopped and played again, an alert with a delay of 60 ms waits for 70 ms |
| AlertDeferral.AlertIsArmed | src/Automation/ERaAutomation.hpp:799-806 | for all clock readings and at any place of the list: the slot, the due time and the refusal of an alert that comes to wait |
| AlertDeferral.LimiterIsOffWhenTheSlotWraps | src/Automation/ERaAutomation.hpp:799-806 | for all clock readings and at any place of the list: an alert that comes to wait goes out in the same millisecond if and only if its slot has wrapped, is not ahead of the clock, and is not refused by the timer |
| AlertDeferral.AlertBlocksIffRefused | src/Automation/ERaTimer.tpp:17-19 | for all clock readings: an alert that comes to wait blocks its list in every run without a stop if and only if the clock is one millisecond past its slot modulo 2^32 |
| AlertDeferral.EndlessAlertIsReached | src/Automation/ERaTimer.tpp:17-19 | a run from a fresh list that is blocked by an alert |
| ActionList.Device.SetTimeout | src/Automation/ERaTimer.tpp:9-29 | adds one entry due after the interval, none for the reserved interval |
| ActionList.Device.CancelTimeout | src/Automation/ERaTimer.tpp:131-149 | removes exactly the entries of the action, the others keep their order |
| ActionList.Action.PlayLambda | src/Automation/ERaAutomation.hpp:746-751 | the linked object does what the model of a lambda does: effect first, then hand over |
| ActionList.Action.PlayDelay | src/Automation/ERaAutomation.hpp:703-708 | the delay comes to run and arms its timeout; nothing after it is played |
| ActionList.Action.PlayAlert | src/Automation/ERaAutomation.hpp:781-807 | the alert is sent at once and hands over, or is charged to a later slot and waits |
| ActionList.Action.Charge | src/Automation/ERaAutomation.hpp:784-805 | dividing, multiplying and adding modulo 2^32 moves to the last whole slot before now, or to the next slot |
| ActionList.Action.PlayNext | src/Automation/ERaAutomation.hpp:96-103 | only a running action hands over, once, to its successor |
| ActionList.Action.Execute | src/Automation/ERaAutomation.hpp:816-820 | the alert goes out charged to its slot, then the pass goes on |
| ActionList.Action.Elapse | src/Automation/ERaAutomation.hpp:704-706 | the timeout of a delay is its hand-over |
| ActionList.Action.StopSelf | src/Automation/ERaAutomation.hpp:710-714 | stopping an action that waits cancels its timeout and clears its flag |
| ActionList.Action.Stop | src/Automation/ERaAutomation.hpp:105-115 | stopping travels along the links to the end of the list |
| ActionList.Action.IsRunning | src/Automation/ERaAutomation.hpp:83-85 | true if and only if this action or one after it is running |
| ActionList.List.AddAction | src/Automation/ERaAutomation.hpp:144-152 | the list stays linked end to end and the action becomes its last |
| ActionList.List.Trigger | src/Automation/ERaAutomation.hpp:950-955 | a trigger starts a pass at the first action, and is dropped while a pass is under way |
| ActionList.List.Stop | src/Automation/ERaAutomation.hpp:167-172 | every action is stopped |
| ActionList.List.IsRunning | src/Automation/ERaAutomation.hpp:178-183 | whether any action of the list is running |
| ActionList.List.Fire | src/Automation/ERaTimer.tpp:56-84 | the callback of the entry runs first and may add entries; then that very entry is dropped |
| Conditions.CheckAllMeaning | src/Automation/ERaAutomation.hpp:292-300 | one check of an all-group stops at the first condition that refuses and uses up that one's reset only |
| Conditions.CheckAnyMeaning | src/Automation/ERaAutomation.hpp:348-356 | one check of an any-group stops at the first ready condition and uses up every reset before it |
| Conditions.TestsOfOneThreshold | src/Automation/ERaAutomation.hpp:478-647 | what each of the five tests means for one threshold, and that without thresholds none accepts |
| Conditions.MoreThresholds | src/Automation/ERaAutomation.hpp:478-647 | for more thresholds: being equal takes one of them, every other test all of them |
| Conditions.AllSettles | src/Automation/ERaAutomation.hpp:292-300 | check number m succeeds if and only if all conditions are met and at most m resets were pending: with k pending, exactly k checks fail |
| Conditions.AnySettles | src/Automation/ERaAutomation.hpp:348-356 | after one check the outcome says whether any condition is met; the first check may miss those with a pending reset |
| Conditions.LoggingConsumesNothing | src/Automation/ERaAutomation.hpp:363-381 | if the users' functions answer the same in check and log: checking again for the log succeeds and changes nothing; it names the first met condition, which is the activating one if and only if no met condition before it had a reset pending |
| Conditions.LoggingWithOtherAnswers | src/Automation/ERaAutomation.hpp:363-381 | for any other answers of the users' functions: the log uses up a reset if and only if one is pending behind the activating condition and before the first that is then ready; it names nothing if and only if none is ready |
| Conditions.LogMayUseUpAReset | src/Automation/ERaAutomation.hpp:363-381 | two conditions for which the log uses up a reset and names nothing |
| Conditions.LogMayBlameTheWrongCondition | src/Automation/ERaAutomation.hpp:363-381 | two conditions for which the log names the one that did not activate |
| ConditionObjects.ValueCondition.UpdateValue | src/Automation/ERaAutomation.hpp:434-441 | only the matching configuration takes the value and the reset |
| ConditionObjects.ValueCondition.Check | src/Automation/ERaAutomation.hpp:443-456 | the value of the user's function if there is one, else the last update scaled; without a value false; a pending reset makes it false once; otherwise whether the thresholds accept the value |
| ConditionObjects.ValueCondition.CheckThreshold | src/Automation/ERaAutomation.hpp:478-647 | the loops over thresholds decide the five quantified tests; a reset is used up and fails |
| ConditionObjects.ValueCondition.Find | src/Automation/ERaAutomation.hpp:536-550 | membership among the thresholds |
| ConditionObjects.ValueCondition.AllOnOneSide | src/Automation/ERaAutomation.hpp:478-492 | every threshold is on the wanted side of the value |
| ConditionObjects.Group.CheckMember | src/Automation/ERaAutomation.hpp:443-456 | a member answers whether it is ready, and only its own reset is used up |
| ConditionObjects.Group.CheckEvery | src/Automation/ERaAutomation.hpp:292-300 | the early-returning loop over the objects is the all-check |
| ConditionObjects.Group.CheckSome | src/Automation/ERaAutomation.hpp:348-356 | the early-returning loop over the objects is the any-check |
| SmartRuns.AcceptedAreChanges | src/Automation/ERaHelpers.hpp:56-65 | the accepted values are exactly the first one and those that differ from their predecessor |
| SmartRuns.TriggersOnRisingEdges | src/Automation/ERaAutomation.hpp:935-955 | over every run with updates, changing functions, timeouts and stops in between: with value-change detection a trigger is attempted exactly where the condition holds and did not hold at the run before, without it exactly where it holds |
| SmartRuns.ChainSeesATriggerPerAttempt | src/Automation/ERaAutomation.hpp:935-955 | the action list inside an automation goes through a run of its own steps plus one trigger per attempt, so all results on lists carry over |
| SmartRuns.UpdateRearmsOnce | src/Automation/ERaAutomation.hpp:434-456 | an active automation with k resets pending attempts exactly one new trigger, at its run k, if and only if all conditions are met, whatever timeouts, stops and clock steps come between its runs |
| SmartRuns.UpdateTriggersAgain | src/Automation/ERaAutomation.hpp:434-456 | from the update to the trigger: after a value with the trigger an active automation attempts exactly once more, at its run k where k is how many of its conditions have that configuration, if and only if all conditions accept, those of that configuration the new value times their scale unless they have a function; without the trigger, never |
| SmartRuns.WhatARunLeaves | src/Automation/ERaAutomation.hpp:363-381 | which resets one run uses up: at most one for an all-group; for an any-group those before its first ready condition and, if the run logs, those before the first that is ready by the functions' later answers |
| SmartObject.Deduplicator.Next | src/Automation/ERaHelpers.hpp:56-65 | the object accepts and remembers as the edge detector does |
| SmartObject.Smart.Run | src/Automation/ERaAutomation.hpp:935-947 | check, edge detection, logging, with whatever the users' functions answer then, and triggering on the linked objects amount to one step of the run model |
| SmartObject.Smart.Decide | src/Automation/ERaAutomation.hpp:935-944 | whether a run gets as far as the log, and what check and edge detector leave behind |
| SmartObject.Smart.LogAndTrigger | src/Automation/ERaAutomation.hpp:945-955 | conditions change only as the log with its own answers of the users' functions makes them, the list only as the trigger makes it |
| Flags.SettingAFlag | src/ERa/ERaButton.hpp:261-272 | the byte of flags is a faithful set of events: setting or clearing one mask changes one event |
| ButtonModel.CatchUpKeepsGrid | src/ERa/ERaButton.cpp:17-22 | catching up moves the mark by whole periods to less than one period before now, across a clock wrap too |
| ButtonDebounce.TicksAreSampledRuns | src/ERa/ERaButton.cpp:11-29 | a run of calls leaves the button as the run of exactly those calls that get through the debounce gate |
| ButtonDebounce.TicksReportTheirSamples | src/ERa/ERaButton.cpp:11-147 | each call reports exactly what the sample it takes reports, and a call that the gate holds back reports nothing |
| ButtonDebounce.DisabledButtonSleeps | src/ERa/ERaButton.cpp:24-26 | a disabled button reports nothing and keeps its state; only its sampling mark goes on |
| ButtonDebounce.SamplesAreSpaced | src/ERa/ERaButton.cpp:17-22 | n samples take at least n whole debounce periods of real time, across clock wraps |
| ButtonRuns.AfterMeaning | src/ERa/ERaButton.cpp:30-147 | after every run nothing is left to report, and the state is that of the edge, click and hold detectors run apart |
| ButtonRuns.ReportedMeaning | src/ERa/ERaButton.cpp:85-147 | each call reports exactly what each detector finds at its own sample |
| ButtonRuns.ReportsAreOrdered | src/ERa/ERaButton.cpp:90-146 | in one pass each event is reported at most once, in the order CHANGE, FALLING, RISING, HOLD, MULTI; a button about to be deleted reports nothing |
| ButtonRuns.EdgesAlternate | src/ERa/ERaButton.cpp:36-57 | between two RISINGs there is a FALLING, and the other way round |
| ButtonRuns.HoldIsReportedOnce | src/ERa/ERaButton.cpp:67-82 | HOLD is reported at a sample if and only if all samples since the press were low, the hold time has passed, and it had not passed at any sample before |
| ButtonRuns.HoldOncePerPress | src/ERa/ERaButton.cpp:67-82 | between two HOLDs the button was released |
| ButtonRuns.HoldLastsAtLeastTheDelay | src/ERa/ERaButton.cpp:73-77 | a reported HOLD lasted at least its delay in real time, across clock wraps |
| ButtonMulti.MultisAreReported | src/ERa/ERaButton.cpp:136-146 | the click detector's outcomes are the MULTIs the callback gets |
| ButtonMulti.MultiConsumesItsEdges | src/ERa/ERaButton.cpp:44-56 | without reload every MULTI has its own group of exactly N falling edges inside one window, groups follow each other in time, and the count is the size of the open group, below N |
| ButtonMulti.EdgesOfAClickAreClose | src/ERa/ERaButton.cpp:47-50 | two edges of one click that are not almost a whole round of the clock apart lie at most the window apart in real time, across clock wraps |
| ButtonMulti.MultiIsPaidFor | src/ERa/ERaButton.cpp:44-56 | N times the number of MULTIs, plus the edges still counted, never exceeds the number of falling edges |
| ButtonClicks.MultiIsTheLastEdgeOfItsWindow | src/ERa/ERaButton.cpp:44-56 | without reload over every run: the readings are cut into windows by times and levels alone, and MULTI is reported at a sample if and only if it is the N-th falling edge of its window |
| ButtonClicks.FastClicksAreRecognised | src/ERa/ERaButton.cpp:44-56 | N falling edges from one that starts a window on, all within the window length of it, are always reported, at the N-th |
| ButtonClicks.DoubleClick | src/ERa/ERaButton.cpp:44-56 | a double click 100 ms apart is reported at its second edge |
| ButtonMulti.BurstIsJudgedOnce | src/ERa/ERaButton.cpp:42-66 | with reload, from any state with no edges counted, held or released: a burst is silent until the first late sample and reported there exactly once or not at all, if and only if its size modulo 256 reaches N; then the count is zero |
| ButtonMulti.MultisAreLargeBursts | src/ERa/ERaButton.cpp:42-66 | with reload over every run: every falling edge is in exactly one burst, and the number of MULTIs is the number of ended bursts whose size modulo 256 reaches N |
| ButtonMulti.MultiEndsItsBurst | src/ERa/ERaButton.cpp:58-66 | MULTI is reported at a sample if and only if this sample ends a burst whose size modulo 256 reaches N |
| ButtonObjects.Button.constructor | src/ERa/ERaButton.cpp:213-256 | what either set-up leaves: nothing registered or called, released, enabled |
| ButtonObjects.Button.Register | src/ERa/ERaButton.cpp:258-280 | adds one event to the registered ones |
| ButtonObjects.Button.OnHold | src/ERa/ERaButton.cpp:282-289 | registers HOLD with its delay |
| ButtonObjects.Button.OnMulti | src/ERa/ERaButton.cpp:291-299 | registers MULTI with its number and window |
| ButtonObjects.Button.TakeCall | src/ERa/ERaButton.hpp:242-250 | true if and only if called and registered; the call is used up either way |
| ButtonObjects.Button.CountEdge | src/ERa/ERaButton.cpp:44-55 | the in-place updates for a falling edge are one count of the click detector |
| ButtonObjects.Button.JudgeCount | src/ERa/ERaButton.cpp:58-66 | the in-place updates for a late sample are one judgement of the click detector |
| ButtonObjects.Button.PressOrRelease | src/ERa/ERaButton.cpp:67-82 | the in-place updates are one step of the hold detector |
| ButtonObjects.Button.DetectEdge | src/ERa/ERaButton.cpp:30-57 | the new level is kept and the edge marked, whichever way it goes |
| ButtonObjects.Button.Poll | src/ERa/ERaButton.cpp:13-82 | the debounce arithmetic on 32 bits and the detectors in sequence make one sample of the model |
| ButtonObjects.Button.Dispatch | src/ERa/ERaButton.cpp:85-147 | the callbacks made, their order, and the state they leave; a button about to be deleted is skipped |
| ButtonObjects.ButtonList.Setup | src/ERa/ERaButton.cpp:213-256 | fails if and only if five buttons exist, otherwise appends a fresh one |
| ButtonObjects.ButtonList.DeleteButton | src/ERa/ERaButton.cpp:317-326 | disables and marks the button; the list stays as it is until the next run |
| ButtonObjects.ButtonList.PollAll | src/ERa/ERaButton.cpp:11-83 | every button is sampled exactly once with its own level |
| ButtonObjects.ButtonList.DispatchAll | src/ERa/ERaButton.cpp:85-147 | the callbacks of all buttons in list order |
| ButtonObjects.CallsReachTheirPins | src/ERa/ERaButton.cpp:85-147 | with different pins, the callbacks made for a pin are exactly the events of its button, in their order |
| ButtonObjects.ButtonList.DeleteHandler | src/ERa/ERaButton.cpp:152-170 | removes one marked button if there is one; the buttons that will be left do not change |
| ButtonObjects.ButtonList.Sweep | src/ERa/ERaButton.cpp:149-149 | removes exactly the marked buttons, in finitely many turns |
| ButtonObjects.ButtonList.Run | src/ERa/ERaButton.cpp:9-150 | all samples, then all callbacks in order, then exactly the marked buttons are gone and the others keep their order |
| Query.UrlDecode | src/Adapters/ERaConnecting.hpp:565-590 | the index loop is the recursive decoding, with an escape only where two more characters follow |
| Query.DecodeNext | src/Adapters/ERaConnecting.hpp:572-587 | one turn of the loop decodes one character and moves past it |
| Query.DecodeInvertsEncode | src/Adapters/ERaConnecting.hpp:565-590 | decoding inverts every conforming percent-encoder on every byte string |
| Query.MalformedEscapes | src/Adapters/ERaConnecting.hpp:573-578 | an escape without hexadecimal digits stands for NUL, one with only the first for that digit |
| Query.PlainTextStays | src/Adapters/ERaConnecting.hpp:573-586 | text without percent and plus signs is unchanged, and so is an escape cut off at the end |
| Query.FindMeaning | src/Adapters/ERaConnecting.hpp:601-604 | the search finds the first match if there is any |
| Query.CutIsSubstring | src/Adapters/ERaConnecting.hpp:605-607 | the unsigned bounds of substring, also for a missing ampersand, cut out the text up to the next ampersand |
| Query.FindArg | src/Adapters/ERaConnecting.hpp:600-608 | the index arithmetic is the lookup of the model |
| Query.ConfigLineExtractsQuery | src/Adapters/ERaConnecting.hpp:397-400 | what is kept of a request line is its query, fenced by ampersands |
| Query.FencedLookup | src/Adapters/ERaConnecting.hpp:600-608 | looking a key up in any printed list of pairs matches at pair boundaries only and gives the first pair with that key |
| Query.LookupInvertsPrinting | src/Adapters/ERaConnecting.hpp:397-608 | round trip: print any pairs with any conforming encoder, cut the request line and look a key up: the original value of its first pair, empty for an absent key |
| ProvisionModel.RunsStayGood | src/Adapters/ERaEthernetClient.hpp:250-318 | over every run with power cycles and for any first content of flash, a foreign image included: all states beyond scanning, resetting and rebooting need a valid configuration, and every image the device writes has the right magic number and is not marked as still to be stored |
| ProvisionModel.CloudNeedsValidConfig | src/Adapters/ERaEthernetClient.hpp:259-277 | for any first content of flash, connecting to the cloud, connected and running imply a valid configuration |
| ProvisionModel.FlashWritten | src/Adapters/ERaConnecting.hpp:477-493 | flash changes exactly on a saving request, on a cloud connection with something to store, and on a reset; what is written is what memory then holds |
| ProvisionModel.BootRestores | src/Adapters/ERaConnecting.hpp:457-475 | starting up restores an image with the right magic number exactly, takes the defaults for a missing or foreign one, and scans exactly when the result is not valid |
| ProvisionModel.LastWriteSurvives | src/Adapters/ERaConnecting.hpp:457-493 | what memory held at the last write comes back after any run without another write and a power cycle |
| ProvisionModel.AcceptedRequestIsDurableIfSaved | src/Adapters/ERaConnecting.hpp:305-311 | an accepted request survives an immediate power cycle if and only if it asked to be saved |
| ProvisionModel.SavedRequestSurvivesPowerCycle | src/Adapters/ERaConnecting.hpp:258-313 | a saved request and a power cycle: flags and every field the device then starts with |
| ProvisionModel.ToIntInvertsPrinting | src/Adapters/ERaConnecting.hpp:268-277 | reading a number inverts printing it, for every number, with or without a sign and whatever follows it |
| ProvisionModel.ProvisioningSucceeds | src/Adapters/ERaEthernetClient.hpp:250-277 | once a device with a network has accepted a request and the cloud accepts it, it is running and connected with that token; if the request had not been saved before, flash now holds exactly its configuration |
| ProvisionModel.ResetForgets | src/Adapters/ERaConnecting.hpp:486-493 | a reset on request, or by the command to erase, leaves the defaults in memory and flash, and the device scans after every power cycle |
| ProvisionModel.RebootRestarts | src/Adapters/ERaConnecting.hpp:358-362 | a reboot on request is a power cycle |
| ProvisionModel.RunningGoesOn | src/ERa/ERaProtocol.hpp:1092-1114 | while running, what each command but the one to erase, and a lost transport, lead to |
| ProvisionModel.RejectedRequestLeavesTraces | src/Adapters/ERaConnecting.hpp:261-297 | every field of the configuration after a rejected request; state and flash are as before |
| ProvisionModel.RejectedRequestMatters | src/Adapters/ERaConnecting.hpp:261-297 | a rejected request makes no difference to the next accepted one if and only if that one gives host and port itself, or the rejected one did not change them |
| ProvisionModel.ValidSticks | src/Adapters/ERaEthernetClient.hpp:250-306 | a valid configuration stays valid until a reset or a restart |
| Provisioner.Provisioner.constructor | src/Adapters/ERaEthernetClient.hpp:80-99 | power-up on any flash content |
| Provisioner.Provisioner.ConfigLoad | src/Adapters/ERaConnecting.hpp:457-470 | memory, state and flash after loading, in all cases |
| Provisioner.Provisioner.ConfigSave | src/Adapters/ERaConnecting.hpp:477-484 | memory and flash after saving, and that nothing happens without the store flag |
| Provisioner.Provisioner.ConfigReset | src/Adapters/ERaConnecting.hpp:486-493 | defaults with the API flag in memory and flash, and scanning again |
| Provisioner.Provisioner.ConnectNetwork | src/Adapters/ERaEthernetClient.hpp:80-99 | the configuration is loaded whether or not the cable answers |
| Provisioner.Provisioner.TakeArguments | src/Adapters/ERaConnecting.hpp:268-290 | the field-by-field updates, with user name and password falling back to the token just set |
| Provisioner.Provisioner.HandleConfig | src/Adapters/ERaConnecting.hpp:258-313 | the whole configuration branch is one served request |
| Provisioner.Provisioner.ServeLine | src/Adapters/ERaConnecting.hpp:261-313 | from the raw request line to the new configuration |
| Provisioner.Provisioner.Lookup | src/Adapters/ERaConnecting.hpp:592-598 | the line wins over the body, the body is asked when the line has nothing |
| Provisioner.Provisioner.Run | src/Adapters/ERaEthernetClient.hpp:250-306 | the switch is one step of the state machine |
| Provisioner.Provisioner.Restart | src/Adapters/ERaEthernetClient.hpp:295-298 | only flash survives a restart |
| Provisioner.PrintedRequestConfigures | src/Adapters/ERaConnecting.hpp:261-267 | a printed request line gives back exactly the six arguments it was printed from |
| Provisioner.PrintedRequestSurvivesPowerCycle | src/Adapters/ERaConnecting.hpp:258-313 | from the client to the next power-up: what was printed into a request line that asks to be saved is what the device starts with |
| Provisioner.PrintedValuesSurvivePowerCycle | src/Adapters/ERaConnecting.hpp:258-313 | strings of 1 to 63 bytes and a port below 65536 that a client prints are, to the letter, what the device starts with after a power cycle |
| Provisioner.BodyFillsIn | src/Adapters/ERaConnecting.hpp:592-598 | for every printed line: an argument comes from the line if it gives one, else from the body |
| ScheduleWord.CreateWeekly | src/Automation/ERaSchedule.hpp:66-77 | the loop over the days builds the word of the model |
| ScheduleWord.FixedDeltaComesBack | src/Automation/ERaSchedule.hpp:54-64 | unit, kind and delta capped to 26 bits come back for every input |
| ScheduleWord.WeeklyComesBack | src/Automation/ERaSchedule.hpp:66-77 | kind and exactly the active days come back |
| ScheduleWord.MonthlyComesBack | src/Automation/ERaSchedule.hpp:79-92 | kind and the day clamped to 1..31 come back |
| ScheduleWord.YearlyHasNoKind | src/Automation/ERaSchedule.hpp:94-101 | day and month come back, but the word satisfies no kind predicate |
| ScheduleWindows.FixedDeltaWindows | src/Automation/ERaSchedule.hpp:129-148 | active if and only if between start and end (no end if 0) and behind compile time, and inside some window from + k*delta .. from + k*delta + len |
| ScheduleWindows.EndlessScheduleGoesOn | src/Automation/ERaSchedule.hpp:255-262 | a schedule without an end is active at every second of every window behind compile time |
| ScheduleWindows.NeverOutside | src/Automation/ERaSchedule.hpp:251-262 | no schedule is active before its start, from its end on, or up to compile time |
| ScheduleWindows.DeltaMeaning | src/Automation/ERaSchedule.hpp:301-323 | the period of a fixed-delta word is unit times repetition modulo 2^32 |
| ScheduleWindows.WhenItDividesByZero | src/Automation/ERaSchedule.hpp:142-143 | inside the period the remainder by zero happens if and only if the repetition is 0, or 2^25 in days |
| ScheduleWindows.OneShotWindow | src/Automation/ERaSchedule.hpp:129-148 | active if and only if between start and end (no end if 0) and behind compile time, and at most len after the start, but for one last second of the time line |
| ScheduleWindows.WeeklyWindows | src/Automation/ERaSchedule.hpp:264-276 | active if and only if between start and end (no end if 0) and behind compile time, on an active weekday and at most len after the daily start |
| ScheduleWindows.WeeklyRepeats | src/Automation/ERaSchedule.hpp:129-148 | inside the period activation repeats every 604800 s |
| ScheduleWindows.WeekdaysComeRound | src/Automation/ERaSchedule.hpp:230-235 | the first day of the clock is a Thursday and each day is followed by the next weekday |
| ScheduleWindows.WeeklyWindowIsServed | src/Automation/ERaSchedule.hpp:264-276 | a window that starts on an active day is served to its end if and only if its end falls on an active day |
| ScheduleWindows.MonthlyWindows | src/Automation/ERaSchedule.hpp:264-285 | active if and only if between start and end (no end if 0) and behind compile time, on the day clamped to 1..31, and at most len after the daily start |
| ScheduleWindows.YearlyIsNeverActive | src/Automation/ERaSchedule.hpp:94-101 | a yearly schedule is never active |
| BleSlots.EnabledIsSize | src/BLE/ERaBLEVerify.hpp:217-218 | the number of enabled slots is the size of the map they stand for |
| BleSlots.TableAfter | src/BLE/ERaBLEVerify.hpp:143-148 | changing one slot changes one entry of the map and no other connection |
| BleSlots.ExpiresAfterAMinute | src/BLE/ERaBLEVerify.hpp:161-163 | in real time, across clock wraps: an unverified entry is expired from 60001 ms on, a verified one never |
| BleSlots.DrainingRemovesTheExpired | src/BLE/ERaBLEVerify.hpp:152-167 | whatever order the scans find them in, a sequence of timeouts up to one that finds nothing removes exactly the unverified entries older than 60000 ms, each once |
| BleVerify.VerifyTable.constructor | src/BLE/ERaBLEVerify.hpp:81-85 | the map is empty |
| BleVerify.VerifyTable.Scan | src/BLE/ERaBLEVerify.hpp:188-198 | finds the slot of a connection if and only if the map has it |
| BleVerify.VerifyTable.IsVerified | src/BLE/ERaBLEVerify.hpp:89-99 | true if and only if the map has a verified entry |
| BleVerify.VerifyTable.SetVerified | src/BLE/ERaBLEVerify.hpp:101-115 | verifies the entry there is, removes it for false, adds none |
| BleVerify.VerifyTable.RemoveVerify | src/BLE/ERaBLEVerify.hpp:117-127 | removes that connection from the map and counts it once |
| BleVerify.VerifyTable.DeleteVerify | src/BLE/ERaBLEVerify.hpp:183-186 | removes the entry of the slot, which keeps its connection number |
| BleVerify.VerifyTable.FindFree | src/BLE/ERaBLEVerify.hpp:200-211 | fails if and only if the map has five entries; the last return is never reached |
| BleVerify.VerifyTable.GetVerifyCode | src/BLE/ERaBLEVerify.hpp:129-150 | the code of the entry; a new unverified entry exactly when there is none, one is wanted and the map is not full |
| BleVerify.VerifyTable.ConnTimeout | src/BLE/ERaBLEVerify.hpp:152-167 | removes one expired entry and names it, or answers -1 and no entry is expired |
| BleVerify.VerifyTable.ConnTimeouts | src/BLE/ERaBLEVerify.hpp:152-167 | calling the timeout until it answers -1 ends, and leaves exactly the entries that are not expired |
| BleVerify.VerifyTable.HasVerify | src/BLE/ERaBLEVerify.hpp:169-171 | whether the map is not empty |
| BleProtocol.RunsAreSound | src/BLE/ERaNimBLETransp.hpp:290-310 | over all interleavings the table never exceeds five entries and its connections are live ones |
| BleProtocol.VerifiedWasConfirmed | src/BLE/ERaNimBLETransp.hpp:474-510 | a verified entry was confirmed by a right answer to its own code, and has been there untouched ever since |
| BleProtocol.CallbackRunsExactly | src/BLE/ERaNimBLETransp.hpp:376-548 | over all interleavings, exactly when the application is called: for a control message if and only if it has the separator and its connection was confirmed since its present entry was made, with no disconnect or removal in between; for a command if and only if its object has type "command", the device's own password and a command of 36 characters, and its token is accepted or encryption is off |
| BleProtocol.RightAnswerGetsControl | src/BLE/ERaNimBLETransp.hpp:290-510 | whenever the table has room, a stranger that connects and answers its challenge controls the device; nobody else is touched |
| BleProtocol.FailuresDropTheEntry | src/BLE/ERaNimBLETransp.hpp:301-310 | a wrong answer, an unverified control message and a disconnect cost a connection its entry; nobody else is touched, and the link is down with its last connection |
| BleProtocol.CommandNeedsNoConfirmation | src/BLE/ERaNimBLETransp.hpp:376-405 | a run in which a command reaches the application and nothing was ever confirmed |
| BleProtocol.ReconnectingStartsUnverified | src/BLE/ERaNimBLETransp.hpp:290-310 | a connection number that is used again starts unverified |
| BleTransport.Transport.OnConnect | src/BLE/ERaNimBLETransp.hpp:290-299 | the callback is the connect step; it hangs up if and only if no entry could be made |
| BleTransport.Transport.OnDisconnect | src/BLE/ERaNimBLETransp.hpp:301-310 | the callback is the disconnect step; the link is down if and only if nobody is left |
| BleTransport.Transport.Turn | src/BLE/ERaNimBLETransp.hpp:176-188 | one turn is the timeout step; no verified connection is dropped, and without a victim no entry is expired |
| BleTransport.Transport.StartAuthorization | src/BLE/ERaNimBLETransp.hpp:457-472 | the challenge sent is the code of the entry; none for a verified connection |
| BleTransport.Transport.ConfirmAuthorization | src/BLE/ERaNimBLETransp.hpp:474-510 | verified afterwards if and only if not hung up; a wrong answer drops the entry |
| BleTransport.Transport.ProgressControl | src/BLE/ERaNimBLETransp.hpp:425-455 | the callback runs if and only if the connection is verified and the message has the separator; an unverified connection loses its entry |
| BleTransport.Transport.ProgressCommand | src/BLE/ERaNimBLETransp.hpp:376-405 | a command runs by its token, unless encryption is off, and its object; the verification table is neither asked nor changed |
| BleTransport.Transport.OnCallback | src/BLE/ERaNimBLETransp.hpp:516-548 | accepts exactly an object of type "command" with the device's password and a command of 36 characters |
| LineStore.WrittenLinesComeBack | linux/Storage/ERaFlashLinux.hpp:53-116 | reading back what was written gives the lines in order, up to the first empty one |
| LineStore.LinesComeBackIffNoneEmpty | linux/Storage/ERaFlashLinux.hpp:53-116 | the whole list comes back if and only if no line is empty |
| LineStore.Store.WriteLine | linux/Storage/ERaFlashLinux.hpp:108-116 | appends the line and a newline |
| LineStore.Store.ReadLine | linux/Storage/ERaFlashLinux.hpp:53-86 | the next line for every line length, with every access inside the growing buffer; nothing for an empty line, at the end, or when memory runs out |
| LineStore.Store.Grow | linux/Storage/ERaFlashLinux.hpp:69-78 | the buffer doubles and keeps its content, or memory has run out |
| LineStore.Store.ReadLines | linux/Storage/ERaFlashLinux.hpp:53-86 | reading until null gives all lines of the file up to the first empty one |
| Timestamps.Timestamper.AddTimestamp | src/ERa/ERaApi.hpp:1512-1540 | the updates of the three references are one stamp of the model |
| Timestamps.StampMeaning | src/ERa/ERaApi.hpp:1525-1538 | never smaller than the last; equal only at the last tick of a second; a bumped stamp is at most one tick later and stays in its second; the second is the reading's unless that is behind |
| Timestamps.FractionIsTimeSinceFirstSeen | src/ERa/ERaApi.hpp:1519-1537 | over any readings: the timestamp is its second and the milliseconds, at most 999, since that second was first seen, unless it has to stay behind the last one |
| Timestamps.NewSecondStartsAtZero | src/ERa/ERaApi.hpp:1520-1530 | the first reading of a second ahead of the last timestamp gets the second itself |
| Timestamps.EmittedAscend | src/ERa/ERaApi.hpp:1512-1540 | over any clock readings the published timestamps never decrease, and neighbours are equal only at the last tick of a second |
| Timestamps.EmittedInTheLatestSecond | src/ERa/ERaApi.hpp:1512-1540 | every published timestamp lies in the largest second read so far |

## Left out

- Boards, pins, sockets, TLS, MQTT, mDNS, OTA, Modbus, Zigbee, memory and thread handling: they only connect the modelled code to hardware and libraries.
- Clocks, random codes, pin levels, the answer to a BLE challenge (an MD5 digest), what a user's function returns, the build settings and what a network delivers: they are parameters, with arbitrary values.
- The order in which the timer's heap holds entries: any due entry may fire next, which allows more runs than the heap does. One automation is looked at with its own timeouts; those of other components are not in the list.
- Callbacks that call back into the engine, and an action that is added to a list twice.
- `Action::play` of the base class: it is `LambdaAction::play` without the user's function. Log lines of actions are not effects.
- AlertRate.AlertsAreRateLimited: for runs in which the clock and the next slots of the alert stay below 2^32 ms. In the last period before a wrap and after it the code does not meet it: AlertRate.DeferredWait, AlertRate.SlotAdvances and AlertDeferral.LimiterIsOffWhenTheSlotWraps say for all readings what one play does, and AlertRate.ThreeAlertsAtOnce and AlertRate.WrappedAlertIsLate are runs.
- AlertRate.WaitingAlertHasItsTimeout: for the same runs; AlertDeferral.AlertIsArmed says what the timer does for all readings.
- AlertRate.DeferredAlertsWaitAtMostOneDelay: the same runs, and without stops; AlertDeferral.EachStopAddsOneDelay has the bound with stops. AlertRate.EveryDeferralIsShort: the same.
- On Linux `unsigned long` has 64 bits; clocks, delays, periods and schedule times are modelled with the 32 bits they have on the boards.
- Floating point: condition values are exact numbers and timestamps are whole ticks of 10 microseconds, so rounding of `double` is not captured.
- Groups inside groups, and schedules as members of a group: SmartRuns.UpdateRearmsOnce and Conditions.AllSettles are about flat groups of value conditions. A user's function may answer differently at each run and again when the run logs, but has no effect of its own.
- Buttons without a callback or without a pin reader, which the code skips, a debounce time of 0, enabling and disabling, and registering an event between two runs of a proved sequence.
- ButtonMulti.EdgesOfAClickAreClose: for edges less than 2^32 - delayMulti ms apart; the code takes a pause of almost a whole round of the clock for a short one.
- ButtonRuns.ReportedMeaning: with all five events registered; what happens to others is in ButtonRuns.DispatchMeaning.
- Reading the HTTP request: the choice of the request by its path, headers, the body's JSON (here a map from names to values), board information and the response. A request line has fewer than 2^32 - 1 characters.
- What a zero byte in a decoded value does to the C functions of a platform; leading white space before a number in `save` and `port`, and numbers too large for a `long` there.
- The flags of the configuration are a set; that a byte of masks is a faithful set is proved once, for buttons.
- The restart by the command `force_reset` is a power cycle.
- Civil dates: day and month of a moment are parameters of a monthly schedule; weekdays are computed from days since 1970.
- The setters, the comparison and the assignment of a schedule, and the conversion of time zones.
- The advertising and the read callback of the BLE transport, encryption, and the one-time tokens of commands: whether a token is accepted is a parameter. Before a topic and a callback have been set, control messages and commands are ignored. What a control message or a command says to the application is not modelled, nor is a failed allocation on the way there.
- File names and failures to open a file in the line store; a failed allocation is modelled.
- ActionList.Action.Play: dispatches on the kind of action where the source has virtual methods.
- The array of timestamp memories, one for each kind of value: each is a Timestamper of its own.
