# Verified model of the pay-as-you-go credit manager

This project models the prepaid-credit machinery of eos-payg in Dafny and proves
what it is for. Codes signed by a vendor become credit; credit is paid for in time
by two clocks; used codes never work again; attempts are limited; everything is
kept in a few state files that are read and written by overlapping asynchronous
operations; and the end of the credit leads to a power-off timer.

`dafny verify dfyconfig.toml` checks all of it.

## How it is organised

Every C file that works by changing fields is a class here (`EpgManager`,
`MultiTask`, `ManagerService`, `JumpDetector`, `FakeStore`) or a method with the
loop of the source (`SelectFirstEnabled`, `ShutdownProvidersAsync`). Each method
is verified against a function on values, and the theorems about whole runs are
about those functions.

| module | what it is about |
|---|---|
| `Codes` | codes as numbers and as text, for any HMAC function |
| `MultiTask` | tasks that wait for a number of operations |
| `RateLimit` | the sliding window over the last ten attempts |
| `UsedCodes` | the sorted list of used codes and its file |
| `Credit` | spans, charging, saving and reloading credit |
| `ManagerState`, `Manager` | every entry point of the manager, as functions and as an object |
| `InitProtocol` | loading, for every order of completion |
| `ShutdownProtocol` | saving and shutting down, for every order of completion |
| `FailedWrites` | what a reported shutdown is worth when writes have failed |
| `PowerCycle` | a shutdown followed by an initialisation from the files it left |
| `ManyBoots` | any number of such cycles: each pair is accepted once |
| `ClockJump` | detection of wall-clock changes |
| `World` | one machine over many boots, with both clocks, jumps that wait to be reported, and all its saves |
| `Attempts` | the rate limiter over runs of `World` |
| `Honesty`, `Meter`, `Lifetime`, `Unlock`, `Durability` | the theorems about credit and used codes over runs of `World` |
| `PowerOff` | manager and service together |
| `ExpiryTimer` | when the expiry is noticed |
| `CreditEnd` | from the end of the credit to the power-off timer |
| `EfiStore`, `ProviderLoader` | the fake variable store; selection of a provider |

## What was found

* **The expiry can be noticed late.** The expiry timer is periodic with the span of
  the code that was added last as its interval, not with the time that is left
  (libeos-payg/manager.c:750-764). `ExpiryTimer.ExpiredTiming` proves when the
  `expired` signal is on time - if and only if the interval divides the time that
  was left - and that it is late by less than one interval otherwise.
  `ExpiryTimer.CodeEntryTiming` states the same condition at code entry, and
  `ExpiryTimer.LateExpiry` is a concrete case: one hour before the end a code for 31
  days is entered, and its end is noticed 31 days minus one hour late.
* **Loading can delete the list of used codes.** If the two files of the credit are loaded
  before the list, a change of the expiry time starts a save while the list in memory is
  still empty, and that save deletes the file (libeos-payg/manager.c:775-790,
  libeos-payg/manager.c:1571-1588; `PowerCycle.LoadingMaySaveEarly`). Until something else
  is saved the list exists in memory only. `Durability.PowerCutKeepsCodesIff` proves that a
  power cut keeps the list if and only if the newest save is not such an early one (or the list
  was empty); `Durability.EarlySaveForgetsCodes` runs the failing case up to a used code that
  is accepted again.
* **A wall clock that is behind after a power cut refunds time.** Loading takes a clock that
  went back to have stood still (libeos-payg/manager.c:1406-1413), so the time between the
  newest save and the cut is not charged. `Durability.PowerCutKeepsCredit` proves that the
  next boot has the credit of a save at the cut if and only if the newest save is still up to
  date, in the sense of `Durability.SaveIsUpToDate`: the clock is not behind the cut, or no time
  passed since the save, or one of three cases in which both come to the same.
  `Durability.ClockBehindRefunds` is the failing case, and `Durability.PowerCutIsFree` puts both
  conditions together.
* **A forward jump that is not reported in time is not paid for.** A code, the final save of a
  shutdown, or the start of jump detection after the files were loaded
  (libeos-payg/service.c:255-277) while a forward jump of the wall clock waits for its report
  lets that credit escape. `Honesty.HonestIffTimely` proves that this condition is exact for
  every single event, and `Honesty.CreditIsPaidInWallClockTime` that it is enough for whole
  runs; `Honesty.UnreportedJumpIsFree` is the failing run. The only exceptions are a machine
  without credit and a code that reaches the end of time anyway.
* **A shutdown can report success without the newest code on disk.** A deferred shutdown
  reports the save that finished last, not the newest (libeos-payg/manager.c:1056-1065).
  `FailedWrites.ReportedSuccessIff` proves that the list is on disk if and only if some save
  started since it last changed has written it; `FailedWrites.SuccessWithoutTheCode` is a run
  in which none has.
* **A clear can leave the power-off timer running.** The timer is cancelled by the announcement
  of a changed expiry time, and there is none if the expiry time was zero already - as it is
  after loading an empty clock-time file together with an expiry-seconds file
  (libeos-payg/manager.c:1010-1014). `PowerOff.ClearDisarms` proves that this is the only case.
* **Without a clock source an extension is lost.** `ManagerState.ExtensionWithoutSource` proves
  that a code adds what it is worth if and only if its timer can be created or none is needed,
  and that without one nothing is left to notice the end of a credit that had not run out
  (libeos-payg/manager.c:758-764).
* **The limiter starts half an hour after the boot clock.** The subtraction at
  libeos-payg/manager.c:622 is unsigned. `RateLimit.EarlyClock` proves that below 1800 s no
  attempt is refused and that at exactly 1800 s every attempt is, and
  `RateLimit.TenPassIffLateWindow` that the bound of ten attempts holds for exactly the
  windows that start no earlier than that.
* **A reload is exact except in one band.** Credit strictly between 5 and 100 years is
  replaced by 31 days; `Credit.SaveThenReload` proves that the credit survives a save
  and a reload at unchanged clocks if and only if it is outside that band.
* **The documentation of the code value says "mod 10^8"** (libeos-payg-codes/codes.c:66).
  The code does not reduce the value, and need not: 26 bits are less than 10^8.

## Model

| member | source | states |
|---|---|---|
| Codes.CodeLayout | libeos-payg-codes/codes.c:228-250 | the bits of a calculated code: period, counter, and the last thirteen bits of the digest of the two |
| Codes.CalculateFailsIff | libeos-payg-codes/codes.c:94-170 | calculation fails exactly for a hole in the periods or a key below 64 bytes, in that order |
| Codes.VerifiesIffSigned | libeos-payg-codes/codes.c:271-321 | for every value and key: verification succeeds if and only if the value has 26 bits, a valid period, and the bits of its own digest; otherwise which error is returned |
| Codes.VerifyIffCalculated | libeos-payg-codes/codes.c:271-321 | a value verifies as a period and a counter if and only if it is the code calculated for them, for any hash and any key |
| Codes.CalculateIncreasing | libeos-payg-codes/codes.c:210-254 | codes grow strictly with (period, counter), so distinct pairs have distinct codes |
| Codes.AcceptedCodesCount | libeos-payg-codes/codes.c:94-139 | exactly 27 * 256 of all 32-bit values verify, whatever the hash and the key |
| Codes.ParseIffFormatted | libeos-payg-codes/codes.c:334-388 | a string parses as a code if and only if it is the formatted text of that valid code: the two are mutually inverse |
| Codes.ParseAcceptsIff | libeos-payg-codes/codes.c:367-382 | the accepted strings are exactly the eight-digit numerals below 2^26 |
| Codes.FormatPreservesOrder | libeos-payg-codes/codes.c:334-343 | codes sort as numbers exactly as their texts sort alphabetically |
| MultiTask.TaskOutcome | libeos-payg/multi-task.c:45-184 | for every interleaving of calls: the first error is returned at once and wins; otherwise the value of the last operation, when all have finished |
| MultiTask.ReturnsAtMostOnce | libeos-payg/multi-task.c:76-184 | even without any discipline of the callers a task returns at most once and never changes its result |
| MultiTask.CountsByOne | libeos-payg/multi-task.c:76-184 | a call moves the count by one, not at all once it is zero, and never past its maximum |
| MultiTask.MultiTask.Attach | libeos-payg/multi-task.c:57-66 | a new task has the given number of pending operations and no result |
| MultiTask.MultiTask.Increment | libeos-payg/multi-task.c:76-87 | one more operation, unless the task has returned or the counter is full |
| MultiTask.MultiTask.ReturnBoolean | libeos-payg/multi-task.c:100-112 | one operation less; the last one returns the value if there was no error |
| MultiTask.MultiTask.ReturnPointer | libeos-payg/multi-task.c:132-147 | the same, and the value is destroyed exactly if it is not returned while operations were pending |
| MultiTask.MultiTask.ReturnError | libeos-payg/multi-task.c:162-184 | one operation less; the first error is returned, later ones are dropped |
| RateLimit.HistoryHoldsLastAttempts | libeos-payg/manager.c:634-643 | the history is always the last ten attempts, newest first, then zeros |
| RateLimit.HistoryIsSorted | libeos-payg/manager.c:634-638 | for a clock that never goes back the history is sorted and its zeros are at the tail, whenever the attempts were made |
| RateLimit.RefusedIffTenthLastIsRecent | libeos-payg/manager.c:618-645 | an attempt after 1800 s is refused if and only if the tenth last attempt is within the closed window of 1800 s, from every reachable history |
| RateLimit.EndTimeIsExact | libeos-payg/manager.c:639-655 | an attempt after 1800 s is refused if and only if it is not after the published end time (inclusive), from every reachable history |
| RateLimit.EarlyClock | libeos-payg/manager.c:622 | at or below 1800 s: nothing is refused below, everything at exactly 1800 s |
| RateLimit.AtMostTenPassInAnyWindow | libeos-payg/manager.c:113-120 | over any run of attempts, at most ten pass in any closed window of 1800 s that starts at 1800 s or later |
| RateLimit.TenPassIffLateWindow | libeos-payg/manager.c:618-624 | the windows for which that bound holds are exactly those (and those that end before the clock starts) |
| RateLimit.PassesPerSpan | libeos-payg/manager.c:113-120 | over any run of attempts, at most ten pass per started stretch of 1801 s from 1800 s on |
| Attempts.RunTracks | libeos-payg/manager.c:937-980 | over any life of the machine the limiter holds exactly the calls since the boot or the last accepted code, and each call passed exactly if that history lets it |
| Attempts.AtMostTenCallsPass | libeos-payg/manager.c:937-939 | over any life of the machine, of the calls between accepted codes at most ten get past the limiter in any closed window of 1800 s that starts at 1800 s or later |
| Attempts.CallsPassPerSpan | libeos-payg/manager.c:937-939 | the same for any number of seconds: ten per started stretch of 1801 s |
| UsedCodes.SortIsUnique | libeos-payg/manager.c:903-917 | the comparison leaves one possible sorted list, so the sorting algorithm does not matter |
| UsedCodes.ComparesByCounterThenPeriod | libeos-payg/manager.c:903-917 | the order is by counter and then by period, upwards, and only equal pairs compare equal |
| UsedCodes.AppendKeepsOrder | libeos-payg/manager.c:970-974 | appending an unused pair keeps the list strictly sorted and valid, gains exactly that pair and loses none |
| UsedCodes.SavedListReloads | libeos-payg/manager.c:1571-1584 | a list of the manager that is saved loads back unchanged |
| UsedCodes.EncodingAt | libeos-payg/manager.c:102-111 | entry i of the file is the counter at byte 2i and the period at byte 2i + 1 |
| UsedCodes.LoadsIffEncoded | libeos-payg/manager.c:1317-1369 | a file loads as a list if and only if it is the encoding, in some order, of valid pairs which sort to that list |
| UsedCodes.DecodeFailsIff | libeos-payg/manager.c:1328-1363 | which files are refused: half an entry, or else a second byte that is no period |
| Credit.LongerPeriodsAddMore | libeos-payg/manager.c:808-892 | spans are positive and grow with the period's number, except for the three periods added later, which lie where their names say |
| Credit.Uint64RoundTrip | libeos-payg/manager.c:1157-1170 | a number written to a state file is read back unchanged |
| Credit.ReloadIsExact | libeos-payg/manager.c:1406-1444 | loading in numbers: saved credit less the time off, nothing taken if the clock went back, 31 days for what would lie strictly between 5 and 100 years |
| Credit.LegacyIsExact | libeos-payg/manager.c:1278-1286 | the credit of an old file lasts until the stored wall-clock time if that lies ahead, and there is none otherwise |
| Credit.ReloadNeverIncreases | libeos-payg/manager.c:1402-1446 | loading never grants credit, and charges at least the time off when the wall clock went forward |
| Credit.SaveThenReload | libeos-payg/manager.c:1555-1566 | save then reload at unchanged clocks restores the credit, expired or not, if and only if it is outside the 5 to 100 years band; inside it 31 days are left |
| Credit.LegacyMigration | libeos-payg/manager.c:1255-1292 | the same for an expiry time that came from the old state file |
| ManagerState.EnteredIffIssued | libeos-payg/manager.c:944-963 | a string stands for a pair if and only if it is the text a vendor with the key would issue for it |
| ManagerState.CodeAcceptedIff | libeos-payg/manager.c:934-967 | when a string is accepted: enabled, not shut down, not limited, issued and unused - both directions |
| ManagerState.AcceptedCodeEffect | libeos-payg/manager.c:970-992 | an accepted code uses up exactly its pair, adds exactly its span (capped), clears the history and saves the resulting state |
| ManagerState.AcceptedCodeFrame | libeos-payg/manager.c:970-992 | an accepted code changes nothing else: key, enabled state and shutdown stay as they were |
| ManagerState.WorthOfCodes | libeos-payg/manager.c:801-901 | the seconds that each of the 27 periods adds and reports; the infinite one reaches the end of time and leaves no timer |
| ManagerState.RefusedCodeChangesOnlyHistory | libeos-payg/manager.c:934-967 | a refused string changes nothing but the attempt history |
| ManagerState.RefusalIff | libeos-payg/manager.c:934-967 | each of the five refusals is returned if and only if its cause is the first that applies |
| ManagerState.LimiterTracksAttempts | libeos-payg/manager.c:937-980 | one call records its attempt, refused or not, or clears the history if the code is accepted |
| ManagerState.ExtensionWithoutSource | libeos-payg/manager.c:750-771 | an extension adds its span (capped) if and only if the clock source is created or no timer is needed; a timer is left if and only if it is needed and created; the signal comes at once if and only if it is needed, not created and no credit was left |
| ManagerState.SaveIsExact | libeos-payg/manager.c:1555-1569 | a save holds the wall clock, the list, and the time to the expiry if that is ahead and zero otherwise |
| ManagerState.ClearIff | libeos-payg/manager.c:995-1029 | when clearing succeeds, that credit and timer are then gone and nothing else, and what is saved |
| ManagerState.ClockChangeIff | libeos-payg/manager.c:1711-1757 | what a change of the wall clock leaves, forward, backward and none: expiry time, timer from now for what is left, save, and nothing else |
| ManagerState.ShutdownIff | libeos-payg/manager.c:1657-1679 | which of the three things a shutdown does, what a final save holds, and that nothing else changes |
| ManagerState.SaveDoneIff | libeos-payg/manager.c:1053-1065 | when a deferred shutdown completes, with whose result, and that nothing but the count changes |
| ManagerState.ExpiredIff | libeos-payg/manager.c:701-718 | the signal comes exactly when an enabled manager has reached its expiry time, and the source stays exactly when it has not |
| ManagerState.AnnouncedIffChanged | libeos-payg/manager.c:772-775 | an enabled manager announces the expiry time exactly when a call changes it |
| Manager.EpgManager.constructor | libeos-payg/manager.c:324-370 | a new object is the state that initialisation starts from |
| Manager.EpgManager.CheckRateLimiting | libeos-payg/manager.c:610-656 | counting loop and in-place shift of the array are the limiter's decision and its recorded history |
| Manager.EpgManager.ClearRateLimiting | libeos-payg/manager.c:661-669 | the limiter is cleared and nothing else changes |
| Manager.EpgManager.CheckIsCounterUnused | libeos-payg/manager.c:673-699 | linear search reports "unused" if and only if the pair is not in the list |
| Manager.EpgManager.CheckExpiredCb | libeos-payg/manager.c:701-718 | the signal is emitted, and the source removed, exactly when the expiry time is reached |
| Manager.EpgManager.SetExpiryTime | libeos-payg/manager.c:729-792 | saturating addition, timer interval or the fallback without a clock source, signal, notification, and the save counted by manager and task |
| Manager.EpgManager.ExtendExpiryTime | libeos-payg/manager.c:801-901 | the span of the period is added to the later of now and the expiry time |
| Manager.EpgManager.AddCode | libeos-payg/manager.c:919-993 | the whole new state, the outcome and the save started, on every path |
| Manager.EpgManager.AcceptCode | libeos-payg/manager.c:970-990 | the accepting part: list, expiry time, history and save |
| Manager.EpgManager.ClearCode | libeos-payg/manager.c:995-1029 | credit and timer are gone, a change is notified, a save is started |
| Manager.EpgManager.InternalSaveStateCb | libeos-payg/manager.c:1031-1066 | the count goes down; at zero a deferred shutdown gets this save's result; the task is told |
| Manager.EpgManager.SaveStateAsync | libeos-payg/manager.c:1540-1589 | what a save writes: wall clock, credit left, used codes |
| Manager.EpgManager.ShutdownAsync | libeos-payg/manager.c:1640-1679 | a second call is rejected; otherwise a final save or a deferred shutdown |
| Manager.EpgManager.WallclockTimeChanged | libeos-payg/manager.c:1711-1757 | a positive change is charged down to zero, a negative one is not, both are saved |
| Manager.EpgManager.FileLoadCb | libeos-payg/manager.c:1173-1449 | the whole callback is one step of the loading machine: fields, task count, operations started, error kept for the deletions |
| Manager.EpgManager.FileRead | libeos-payg/manager.c:1211-1399 | the same for the part that depends on the file |
| Manager.EpgManager.ClockTimeCb | libeos-payg/manager.c:1217-1254 | which expiry file is read next, and the saved wall clock |
| Manager.EpgManager.ExpiryTimeCb | libeos-payg/manager.c:1255-1292 | the old expiry file: absent, malformed or converted |
| Manager.EpgManager.ConvertExpiryTime | libeos-payg/manager.c:1278-1291 | a wall-clock expiry time becomes credit and its file is deleted |
| Manager.EpgManager.ExpirySecondsCb | libeos-payg/manager.c:1293-1316 | the saved credit: absent, malformed or recorded |
| Manager.EpgManager.UsedCodesCb | libeos-payg/manager.c:1317-1369 | the list of used codes: absent, malformed or sorted |
| Manager.EpgManager.ValidateUsedCodes | libeos-payg/manager.c:1328-1363 | length check and loop over the periods accept exactly the files that decode |
| Manager.EpgManager.KeyCb | libeos-payg/manager.c:1370-1387 | a missing key disables the manager |
| Manager.EpgManager.AccountIdCb | libeos-payg/manager.c:1388-1395 | the account is the C string in its file, if there is one |
| Manager.EpgManager.DeduceExpiryTime | libeos-payg/manager.c:1401-1446 | once both numbers are known the expiry time follows from them |
| Manager.EpgManager.CreditAfter | libeos-payg/manager.c:1406-1444 | the nested branches of the source are the reload rule |
| InitProtocol.StepKeepsInvariant | libeos-payg/manager.c:1173-1481 | every callback keeps the pending count equal to running operations plus malformed files, and uses up work |
| InitProtocol.InitCompletesExactlyOnce | libeos-payg/manager.c:1114-1481 | for every order: an exact count, at most ten callbacks, exactly one result, success if and only if every operation succeeded and no file was malformed |
| InitProtocol.InitLoadsTheFiles | libeos-payg/manager.c:1173-1449 | for every order: a successful initialisation loads the same list, key (64 zero bytes without a file), account and expiry time, as a function of the files |
| InitProtocol.LoadedCreditIsWatched | libeos-payg/manager.c:745-770 | for every order: loaded credit that will end has a timer from the reading of its file with the time to its end as interval; credit without an end has none |
| InitProtocol.ErrorIsNeverMade | libeos-payg/manager.c:1192-1209 | for every order: a returned error is that of a malformed file or a failed operation, and never that of a callback that came later |
| InitProtocol.LegacyFileIsDeleted | libeos-payg/manager.c:1288-1291 | for every order: a successful initialisation that converts an old file has deleted it |
| InitProtocol.CStringIsPrefix | libeos-payg/manager.c:1390-1394 | the account read is the data up to the first zero byte |
| ShutdownProtocol.ShutdownCompletesExactlyOnce | libeos-payg/manager.c:1031-1066 | for every interleaving: the counter is the number of internal saves in flight, a deferred shutdown waits for zero, and the shutdown completes exactly once |
| ShutdownProtocol.NothingAcceptedAfterShutdown | libeos-payg/manager.c:1660-1670 | after a shutdown was requested no code is accepted or cleared |
| ShutdownProtocol.SavesAreSnapshots | libeos-payg/manager.c:1540-1589 | every save that any event starts holds the clock, credit and list of that moment, and is counted unless it is the final one |
| ShutdownProtocol.CleanShutdownKeepsUsedCodes | libeos-payg/manager.c:1672-1694 | without failed writes a completed shutdown has succeeded and the used codes on disk are those in memory; after all saves the disk holds the last record |
| FailedWrites.ListOnDiskIff | libeos-payg/manager.c:1594-1623 | at any time and whatever has failed: the list on disk is the current one if and only if some save of the current list has written it, or it was there and nothing has replaced it |
| FailedWrites.ReportedSuccessIff | libeos-payg/manager.c:1056-1065 | whatever has failed: after a reported success the disk holds the current list if and only if some save started since the last change of the list has written it |
| FailedWrites.FinalSaveIsEnough | libeos-payg/manager.c:1672-1694 | a shutdown whose own final save succeeded has the current list on disk, whatever failed before |
| FailedWrites.SuccessWithoutTheCode | libeos-payg/manager.c:1056-1065 | the failing run: newer write fails, older save completes last, success is reported, the code is not on disk |
| PowerCycle.SavedStateLoads | libeos-payg/manager.c:1173-1449 | for every order: files that hold a saved record are never malformed, initialisation succeeds if and only if no operation fails, and yields the saved list, the reloaded expiry time and its timer |
| PowerCycle.LoadingMaySaveEarly | libeos-payg/manager.c:775-790 | from any saved state with credit there is an order of callbacks that starts a save with an empty list while the list is still being read |
| PowerCycle.UsedCodesSurvivePowerCycle | libeos-payg/manager.c:1571-1584 | any run, a clean shutdown, any successful initialisation: the list is the same and every code on it is refused for ever |
| ClockJump.DeltasTelescope | libeos-payg/service.c:228-253 | all reported changes add up to the total change of the offset between the clocks |
| ClockJump.JumpDetector.Init | libeos-payg/service.c:255-261 | detection starts from the current readings |
| ClockJump.JumpDetector.ClockJumpCb | libeos-payg/service.c:228-253 | the reported change, the new reference readings, and their sum so far |
| World.NewSavesAreCurrent | libeos-payg/manager.c:1540-1569 | every save records the credit and wall clock of the state it leaves behind |
| Honesty.StepHonest | libeos-payg/service.c:228-253 | every timely event, with jumps waiting or not, keeps credit and saves within the allowance of the reported wall clock |
| Honesty.HonestIffTimely | libeos-payg/service.c:255-277 | the condition is exact: an event keeps the account honest if and only if no forward jump waits while it accepts a code, makes the final save or starts detection, or there is no credit, or the code reaches the end of time anyway |
| Honesty.CreditIsPaidInWallClockTime | libeos-payg/manager.c:1402-1446 | over any boots and timely events, old saves reloaded, clocks set back and jumps unreported included: credit left is at most the original less the reported wall time passed plus what codes added |
| Honesty.ClockHonesty | libeos-payg/service.c:228-275 | without codes, credit e saved at w leaves at most max(0, e - (T - w)) when the reported wall clock, or the wall clock with no forward jump waiting, shows T |
| Honesty.UnreportedJumpIsFree | libeos-payg/manager.c:1672-1676 | the failing run: jump forward, final save before the report, reboot, and all the credit is still there |
| Honesty.ChargedExactlyOnce | libeos-payg/manager.c:1724-1744 | within a boot in which no code is accepted and nothing is cleared, the credit goes down by exactly the time on the boot clock plus the forward jumps reported, which is at least the reported wall time, and equal to it if and only if no jump went back |
| Meter.ManagerRefinesMeter | libeos-payg/manager.c:729-901 | within a boot, over every interleaving, the credit is the reading of a simple counter with a ceiling |
| Meter.ExactUntilCapped | libeos-payg/manager.c:740-743 | until an addition hits the ceiling the counter needs none |
| Lifetime.UsedIsAccepted | libeos-payg/manager.c:966-977 | over any boots joined by clean shutdowns the list holds exactly the accepted pairs, strictly sorted |
| Lifetime.EachPairAcceptedOnce | libeos-payg/manager.c:966-977 | no (counter, period) pair is ever accepted twice |
| Lifetime.LifetimeBound | libeos-payg/manager.c:808-892 | all finite credit ever granted is at most 256 * 69,240,965 = 17,725,687,040 s |
| Lifetime.NeverSaturates | libeos-payg/manager.c:741-743 | without an infinite code the saturating addition never saturates |
| ManyBoots.EachPairAcceptedOnce | libeos-payg/manager.c:919-993 | over any number of boots, each any run of the shutdown protocol up to a clean shutdown and any run of the loading protocol on the files it left: the list is exactly the accepted pairs, none twice, and the finite credit is within the bound |
| Unlock.PermanentUnlock | libeos-payg/manager.c:1421-1444 | after an infinite code, more than 100 years of credit remain in memory and in every later save, so the 31-day rule never applies and the machine never expires |
| Durability.ChangesAreSaved | libeos-payg/manager.c:982-990 | every event either saves the state it leaves behind or changes neither list nor credit, except by time passing |
| Durability.BootIsDurable | libeos-payg/manager.c:775-790 | a boot that saves leaves a durable state if and only if its save came after the list was read or the list is empty |
| Durability.PowerCutKeepsCodesIff | libeos-payg/manager.c:1571-1588 | after any run of any boot a power cut keeps the list if and only if the newest save is not the early one of loading (or the list was empty) |
| Durability.PowerCutKeepsCredit | libeos-payg/manager.c:1555-1569 | after any run of any boot that has saved, on any clocks: the next boot has the credit of a save at the cut if and only if the newest save is still up to date on its clock |
| Durability.PowerCutBeforeAnySave | libeos-payg/manager.c:1402-1446 | if an enabled machine has not saved since the boot it had no credit, and has none after the cut if and only if the loaded record is used up |
| Durability.PowerCutIsFree | libeos-payg/manager.c:1402-1446 | list and credit survive any run of any boot that has saved if and only if the newest save is not the early one of loading (or the list was empty) and is still up to date on the clock of the next boot |
| Durability.ClockBehindRefunds | libeos-payg/manager.c:1406-1413 | the failing case: a wall clock behind the newest save refunds the time since |
| Durability.EarlySaveForgetsCodes | libeos-payg/manager.c:1571-1588 | the failing run: early save, power cut, boot, and a used code is accepted again |
| PowerOff.ManagerService.constructor | libeos-payg/manager-service.c:357-373 | the power-off timer starts at once if the credit is already used up |
| PowerOff.ManagerService.ExpiredCb | libeos-payg/manager-service.c:380-426 | the timer is armed and announced unless it is already armed |
| PowerOff.ManagerService.NotifyExpiryTimeCb | libeos-payg/manager-service.c:878-920 | an armed timer is cancelled and the cancellation announced if the expiry time moved into the future or is zero |
| PowerOff.PowerOffSafety | libeos-payg/manager-service.c:380-426 | in every reachable state an armed timer means no credit at any moment since it was started, and announcements 600 and -1 strictly alternate from 600 |
| PowerOff.StartArmsIff | libeos-payg/manager-service.c:357-373 | the timer runs from the start exactly if the credit is already used up |
| PowerOff.CreditIsAlwaysWatched | libeos-payg/manager.c:745-770 | over every run of codes, clears and clock changes: credit that will end has a timer started no later than now whose first tick is no later than that end |
| PowerOff.ClearDisarms | libeos-payg/manager.c:1010-1016 | a clear that succeeds leaves no expiry timer, and cancels an armed power-off timer if and only if the expiry time was not zero |
| PowerOff.ClearedStaysQuiet | libeos-payg/manager.c:1010-1016 | after such a clear nothing is announced, armed or cancelled through every run in which no code is accepted |
| PowerOff.AcceptedCodeDisarms | libeos-payg/manager-service.c:886-912 | every accepted code leaves the timer disarmed, with one announcement if it was armed |
| CreditEnd.CreditEndsInPowerOff | libeos-payg/manager-service.c:380-426 | manager, timer and service together: less than one interval after an undisturbed credit ends the power-off timer is armed, and it stays armed while nothing is accepted or cleared |
| CreditEnd.EveryCreditEndsInPowerOff | libeos-payg/manager-service.c:380-426 | the same from every reachable state with credit that will end, whatever came before |
| CreditEnd.LoadedCreditEndsInPowerOff | libeos-payg/manager.c:1401-1446 | from the files, loaded in any order, to the armed power-off timer |
| CreditEnd.OnlyCreditDisarms | libeos-payg/manager-service.c:886-912 | an armed timer is disarmed by an event if and only if that accepts a code or clears an expiry time that was not zero |
| ExpiryTimer.IntervalIsExact | libeos-payg/real-clock.c:56-68 | the conversion to milliseconds never overflows and loses nothing of the clamped interval |
| ExpiryTimer.SplitIsExact | libeos-payg/boottime-source.c:107-121 | the split into seconds and nanoseconds is exact and in range for every interval |
| ExpiryTimer.EmissionCount | libeos-payg/manager.c:701-718 | by the k-th tick: nothing before the first tick at or after the expiry time, exactly one signal from then on |
| ExpiryTimer.ExpiredTiming | libeos-payg/manager.c:701-770 | the signal is never early, never repeated, less than one interval late, and on time if and only if the interval divides the time left |
| ExpiryTimer.CodeEntryTiming | libeos-payg/manager.c:894-899 | at code entry: on time if and only if the interval divides the credit left plus the span of the code |
| ExpiryTimer.ForwardChangeTiming | libeos-payg/manager.c:1738-1744 | after a forward clock change the end of what is left is noticed exactly on time if it fits one interval |
| ExpiryTimer.DisabledNeverExpires | libeos-payg/manager.c:706-707 | a disabled manager never emits the signal and its first tick removes the timer |
| ExpiryTimer.OnTimeWhenSpanFits | libeos-payg/manager.c:750-764 | with no credit before and a span of at most one interval the signal is exactly on time |
| ExpiryTimer.LateExpiry | libeos-payg/manager.c:894-899 | a concrete case that is noticed 31 days minus one hour late |
| EfiStore.ContentsAreStored | libeos-payg/efi.c:453-471 | the map of a table has exactly the stored names, each with the content of its slot |
| EfiStore.ListingIsContents | libeos-payg/efi.c:745-779 | a listing from the start yields every stored name exactly once |
| EfiStore.FakeStore.Write | libeos-payg/efi.c:140-181 | a map update; fails exactly if the name is absent and all 200 slots are taken |
| EfiStore.FakeStore.Delete | libeos-payg/efi.c:307-333 | a map removal; succeeds exactly if the name is present |
| EfiStore.FakeStore.Exists | libeos-payg/efi.c:414-424 | whether the name is in the map |
| EfiStore.FakeStore.Read | libeos-payg/efi.c:453-471 | the content the map has for the name, or nothing |
| EfiStore.FakeStore.ListRewind | libeos-payg/efi.c:745-749 | the cursor goes back to the start |
| EfiStore.FakeStore.ListNext | libeos-payg/efi.c:769-778 | hands out the listing from the cursor on, one name at a time, and ends with it |
| EfiStore.ListAll | libeos-payg/efi.c:745-779 | rewind, then next until the end: every stored name exactly once, and the table unchanged |
| EfiStore.FakeStore.Clear | libeos-payg/efi.c:814-825 | the map is empty afterwards |
| ProviderLoader.RemovalKeepsTheRest | libeos-payg/provider-loader.c:418-427 | removal by moving the last element loses exactly the removed one |
| ProviderLoader.SelectFirstEnabled | libeos-payg/provider-loader.c:414-436 | the first enabled provider or none, and all others exactly once |
| ProviderLoader.ShutdownProvidersAsync | libeos-payg/provider-loader.c:307-329 | every remaining provider is told to shut down, and the task waits for all of them |
| ProviderLoader.ReturnedAfterAllShutdowns | libeos-payg/provider-loader.c:331-464 | for every order and outcome: the chosen provider is returned at most once and only after all other shutdowns, which are all that is waited for |
| ProviderLoader.GetFirstEnabledAsync | libeos-payg/provider-loader.c:396-443 | selection and the start of the shutdowns together leave the first enabled provider waiting for all the others |
| ProviderLoader.FirstEnabledIsReturned | libeos-payg/provider-loader.c:396-464 | from the list to the result, for every order and outcome: the first enabled provider or none, once, given exactly when all the others have finished |
| ProviderLoader.EveryoneEndedGivesResult | libeos-payg/provider-loader.c:331-464 | the callback gives the result if and only if every other provider has ended its shutdown, with success or without |

## Left out

- Codes.VerifyIffCalculated: HMAC-SHA-1 itself (RFC 2104) is an arbitrary function to 20 bytes, so nothing is said about how hard a signature is to guess, and conformance to section 5.3 of RFC 4226 is not claimed.
- RateLimit.AtMostTenPassInAnyWindow: the boot clock never goes back, and windows that start before 1800 s are left to `RateLimit.TenPassIffLateWindow`, which proves that they have no bound.
- Honesty.ClockHonesty: a reboot loads all three files of one save (no crash between them), though it may be any earlier save; runs in which a code, a final save or the start of detection comes while a forward jump waits are excluded, and `Honesty.HonestIffTimely` proves that they must be.
- Lifetime.LifetimeBound: speaks of boots joined by shutdowns that left the used codes of the manager on disk; `ManyBoots.EachPairAcceptedOnce` proves the same of runs of the protocols themselves. After a crash an older list may be loaded, and then a code can be used again.
- Durability.PowerCutIsFree: the newest save is taken to have reached the disk in full when the power is cut.
- Durability.PowerCutBeforeAnySave: says nothing about a disabled machine, whose credit counts for nothing.
- ShutdownProtocol.CleanShutdownKeepsUsedCodes: writes to one file are taken to land in the order in which they were issued, each completely; the sources issue overlapping replacements without ordering them. Calls with a cancelled `GCancellable` are not modelled.
- InitProtocol.InitLoadsTheFiles: each read returns what its file held when initialisation began; a save started while loading does not change what a later read of the same initialisation returns. What such a save may write is `PowerCycle.LoadingMaySaveEarly` and the early boot of `World`.
- ExpiryTimer.ExpiredTiming: ticks are taken to be dispatched at the instants at which they are due, and the clock source to exist. An interval of zero seconds is not modelled.
- CreditEnd.CreditEndsInPowerOff: starts from a timer with an interval above zero; a clock change that uses up all the credit asks for an interval of zero, which is not modelled. That the power-off timer fires after ten minutes is left to the main loop.
- PowerOff.PowerOffSafety: is about an enabled provider, as the service is only started for one. Clearing the credit sets the expiry time to zero and thereby cancels a running power-off timer, as the code does; the timeout itself and the power-off call are outside the model.
- ClockJump.JumpDetector.ClockJumpCb: differences outside the range of a signed 64-bit number are not modelled.
- Manager.EpgManager.SetExpiryTime: the assertion that fewer than 2^64 saves are in flight is not modelled; the count is unbounded. Its callers are modelled with a clock source that can be created.
- Credit.Uint64RoundTrip: state files are in host byte order; the model is little-endian.
- Objects that are disposed of while operations are running, and calls after a shutdown other than those modelled.
- GObject, GTask and GSource plumbing, D-Bus dispatch, property notifications other than the expiry time, log messages and translations.
- The `eos-paygd` daemon (pivot, watchdog, security module), the hardware clock, the clock-jump event source, the `efivarfs` back end and the public short-name wrappers: system calls and naming.
- The command-line tools, provisioning scripts and tests of the repository.
