# DER scheduler: a verified model of the schedule engine

This project models the heart of the DER scheduler, an implementation of the
schedules (FSCH) and schedule controllers (FSCC) of IEC 61850-90-10, and proves
what it does over whole runs. Paths below are relative to the scheduler's
repository. Verify everything with `dafny verify dfyconfig.toml`.

## What is modelled

* **A schedule** (`src/scheduler/schedule.c`) is a state machine over NOT_READY,
  READY and RUNNING. A periodic tick, enable and disable commands, EnaReq and
  DsaReq, and parameter writes drive it. It computes its next start, uses start
  slots up, maps elapsed time to an entry, and tells its controllers about new
  states, values and priorities.
* **A schedule controller** (`src/scheduler/schedule_controller.c`) caches which
  of its running schedules is in charge (`activeSchedule`, `ActSchdRef`) and
  forwards that schedule's values to the controlled object.
* **Storage** (`src/scheduler/storage/storage_json.c`) writes a schedule to a JSON
  object and restores it, and maps object references to file names.
* **The scheduler** (`src/scheduler/der_scheduler.c`) recognises name families,
  resolves references and connects controllers to schedules.

One iteration of a schedule's loop and one handler call are one atomic step.
The clock is a parameter of every step. The model has two layers:

* `Engine.dfy` holds the objects: classes `Schedule`, `ScheduleController` and
  `Scheduler` with mutable fields, whose methods follow the C functions branch by
  branch. Every method is proved equal to a function on its old state. At the
  top, `Scheduler.Execute`, `Scheduler.WriteSetSrcRef` and
  `Scheduler.InitializeScheduleControllers` are proved to be exactly one `Step`,
  one `SetSrcRef` and the `InitializedUpTo` of the system.
* The other files hold those functions (`ScheduleSpec`, `SystemSpec`, `Startup`,
  `StorageSpec`, `Election`, `StartTimes`, `Interval`, `Names`) and the theorems
  about every run of them (`Cache`, `Outputs`, `Timeline`, `Playback`, `OneShot`,
  `Commands`, `Status`, `ScheduleProps`, `ZeroDuration`, `Reserve`, `Registration`,
  `StorageProps`, `Restart`, `SystemRestart`, `Filename`). The theorems therefore hold of the
  objects.

`Example.dfy` follows one small system through four polling rounds with the
timeline result, shows that a reserve schedule exists, and holds the inputs on
which the program misses a property.

A schedule or controller is named by its position in the scheduler's list.
`int`, `uint64_t` and `double` conversions are written out (`CTypes`, `ToDouble`).

## Behaviour the model keeps

Where the code does something a reader may not expect, the model does it too:

* A priority event changes `activeSchedule` and `ActSchdRef` but sends no new
  target value: the target lags behind the schedule in charge
  (`Outputs.PriorityWriteLags`) until the next event that sends
  (`Outputs.SendsExactly`, `LagLasts`, `SendingEndsLag`).
* Re-wiring `SchdNN.setSrcRef` holds no election, so the cache can go stale:
  `Cache.RewireAndCache` says exactly when, `Example.RewiringMakesStale` shows a
  case, and `Cache.StateEventRepairs` says when the next state event puts it
  right. Initializing a controller sets `ActSchdRef` but not `activeSchedule`;
  `Startup.SetUpMeetsInvariants` therefore asks that nothing runs yet.
* Restoring into a schedule that is already running rewrites its priority and
  start time without an event; `Cache.RestoreAndCache` says exactly when the
  cache survives that. Restores happen at start-up, and `Cache.CommandRun` admits
  them into schedules that are not running.
* A restored schedule starts with index 0, so restored inside entry 0 it publishes
  nothing until entry 1 (`Restart.FirstTickAfterRestart`); its controllers get the
  current value with the state event all the same.
* A restart connects members in the order of the attributes, while a re-wiring
  appends at the end: a tie can go to another schedule after a restart
  (`SystemRestart.TiesGoByOrder`).
* Disabling keeps `nextStartTime` and SchdEntr (`Commands.DisablesExactly`). The
  validity check overwrites `numberOfScheduleEntries` even when it fails: an EnaReq
  refused as invalid leaves a running schedule running, with another entry count
  (`Commands.InvalidEnaReq`).
* Enabling a running schedule ends its execution but leaves ActStrTm GOOD
  (`Status.EnableLeavesActStrTm`); without that, ActStrTm is GOOD exactly while the
  schedule runs (`Status.RunGoodMeansRunning`).
* SchdIntv and NumEntr are not checked again before a start, nor before a running
  schedule is restored. An entry duration of zero makes the next look at the
  current entry divide by zero, which C leaves undefined; after it the model ends
  the execution. Two events bring it about, and `ZeroDuration.NeverDividesExactly`
  says that no others do:
  - a start, when the interval reads as a multiple of 2^32 ms
    (`ScheduleProps.ZeroIntervalAttributes`). Enabling does not prevent it
    (`EnablingAdmitsZero`, `Example.TooFineDivides`);
  - a restore of a schedule saved while running with an interval that reads as
    zero (`ZeroDuration.SnapshotDivides`). A client's write of 0 during the
    execution is enough (`ZeroWriteThenRestart`), and it recurs at every start-up.
* The tick that starts an execution publishes nothing. Ticks at most one entry
  apart can therefore skip entry 0 (`Example.FirstEntrySkipped`), and an
  execution of one entry altogether; `Playback.EveryEntryExactly` says exactly
  when every entry is published.
* A start latched before the parameters changed is kept: a reserve schedule
  waits for it (`Example.LatchedStartWaits`, `Reserve.RunsWithinTwoTicks`).
* `handleSetCal` ends without a return value; the model takes that as true.
  Its chained comparison takes a slot whose start is ahead, or whose execution
  is still going on, without comparing it: `StartTimes.LaterSlotWins` says what
  the scan then finds and `StartTimes.EarliestExactly` when that is the earliest.
* `eraseStartTime` and the snapshot writer do not check that a slot or entry has
  the attribute they read; the model skips one that has none.
* A NaN value does not survive a restart (`StorageProps.EntrySurvives`). Nor does
  a time that is not representable as a double (`StartTimeNeedsDouble`); such times
  begin at 2^53 ms, some 285000 years ahead, so that case is theoretical.

## Model

| member | source | states |
|---|---|---|
| `CTypes.Int32` | src/scheduler/schedule.c:1603-1613 | conversion to `int` is the identity exactly on its range and otherwise differs by a multiple of 2^32 |
| `CTypes.UInt64` | src/scheduler/schedule.c:1245-1260 | conversion to `uint64_t` is the identity exactly on its range and otherwise differs by a multiple of 2^64 |
| `Names.CheckIfMultiObjInst` | src/scheduler/der_scheduler.c:21-50 | accepts a name exactly when it is the prefix followed by zero or more digits |
| `Names.SharedInstance` | src/scheduler/der_scheduler.c:21-50 | an object that two families claim forces the longer prefix to end in a digit |
| `Names.FamiliesDisjoint` | src/scheduler/der_scheduler.c:21-50 | families of different prefixes not ending in a digit never share an object |
| `Names.ScansAreSeparate` | src/scheduler/schedule.c:29-33 | the StrTm, Schd and four ValXXX scans never count each other's objects |
| `Names.PaddedValue` | src/scheduler/schedule.c:767-826 | however wide the zero padding, the digits of a positive index spell that index |
| `Names.FoundNameSpellsIndex` | src/scheduler/schedule.c:767-826 | the object found for an index belongs to the value family and its digits spell the index |
| `Names.FamilyIsFound` | src/scheduler/schedule.c:767-826 | an object named ValASG, ValENG, ValING or ValSPG, for a schedule of the kind MV, ENS, INS or SPS, and the index, plain or padded to two, three or four digits, is found for that index |
| `Names.PaddedWidth` | src/scheduler/schedule.c:767-826 | the padded number is exactly as wide as asked for, or as its digits need |
| `Names.LookupInjective` | src/scheduler/schedule.c:767-826 | different positive indices never reach the same data object |
| `Names.CountScheduleEntries` | src/scheduler/schedule.c:640-680 | the loop returns the number of value objects of the target type |
| `Names.FoundFits` | src/scheduler/schedule.c:1081-1102 | the objects found for 1..m are pairwise different and no more than the value objects there are |
| `Names.Pigeonhole` | src/scheduler/schedule.c:1081-1102 | pairwise different objects out of a finite set are no more than the set has |
| `Names.InstallValueHandlers` | src/scheduler/schedule.c:1081-1102 | the unbounded search stops, after at most count+1 lookups, with exactly the longest contiguous run 1..m and m at most the count |
| `Names.RunFitsCount` | src/scheduler/schedule.c:1302-1330 | if all of 1..m can be looked up, m is at most the value count |
| `Names.NumEntrAcceptsRun` | src/scheduler/schedule.c:1302-1330 | the NumEntr check accepts n exactly when 0 < n <= m for the longest run m |
| `Names.NothingElse` | src/scheduler/schedule.c:767-826 | when 1..count are all present and count is the number of value objects, no other index reaches an object (a negative one provided no name holds a minus sign) |
| `Interval.ProductExact` | src/scheduler/schedule.c:1172-1227 | the `int` product of value and unit is exact precisely while it is below 2^31 |
| `Interval.SetAfterGet` | src/scheduler/schedule.c:1120-1227 | writing back what was read restores SchdIntv.setVal exactly when the interval is a whole number of milliseconds |
| `Interval.WholeMilliseconds` | src/scheduler/schedule.c:1172-1227 | from multiplier -3 upward every interval is a whole number of milliseconds, so set-after-get is the identity |
| `Interval.GetIsLinear` | src/scheduler/schedule.c:1172-1227 | in range, reading gives the value times one step; `StepInPlainNumbers` tells the step for hours, minutes and seconds |
| `Interval.StepInPlainNumbers` | src/scheduler/schedule.c:1120-1227 | one step of setVal is 3600*10^(3+m) ms for unit 84 (hour), 60*10^(3+m) ms for unit 85 (minute) and 10^(3+m) ms for any other unit |
| `Interval.ReadsUnits` | src/scheduler/schedule.c:1172-1227 | in range, v hours read as v*3600*10^(3+m) ms, v minutes as v*60*10^(3+m) ms and v seconds as v*10^(3+m) ms, for every multiplier m from -3 on |
| `Interval.ReadsPlainUnits` | src/scheduler/schedule.c:1172-1227 | with multiplier 0: v*3600000 ms, v*60000 ms and v*1000 ms, whenever that is below 2^31 |
| `Interval.WritesUnits` | src/scheduler/schedule.c:1120-1170 | writing an interval stores the number of whole hours, minutes or seconds (times 10^m) in it |
| `Interval.GetAfterSet` | src/scheduler/schedule.c:1120-1227 | reading back what was written gives the greatest multiple of u*10^(3+m) ms not above the input |
| `Interval.ReadsZero` | src/scheduler/schedule.c:1172-1227 | an interval in range reads as zero exactly when setVal is 0 or, with a negative multiplier m, value times unit is below 10^-m |
| `Interval.NarrowsToZero` | src/scheduler/schedule.c:1172-1227 | the attributes whose interval reads as a multiple of 2^32, and so as 0 once it is an `int` |
| `StartTimes.ScanOneShot` | src/scheduler/schedule.c:553-593 | the scan returns 0 when no slot is in the future and otherwise the earliest future slot |
| `StartTimes.NextOneShotIsEarliest` | src/scheduler/schedule.c:424-446 | folding the slots meets the definition of the earliest future slot |
| `StartTimes.EarliestFutureUnique` | src/scheduler/schedule.c:424-446 | that definition has no other solution |
| `StartTimes.EraseReducesPending` | src/scheduler/schedule.c:610-638 | erasing a used start never adds a pending slot and removes one whenever the time was in a slot |
| `StartTimes.ErasesExactly` | src/scheduler/schedule.c:610-638 | slot by slot: one that holds the used time holds 0 afterwards; every other time, and every name and calendar rule, stays |
| `StartTimes.EraseKeepsFuture` | src/scheduler/schedule.c:610-638 | erasing a start that has passed leaves the earliest future slot what it was |
| `StartTimes.ScanSlotOpen` | src/scheduler/schedule.c:1245-1297 | start times are valid exactly when some slot plus the duration is still ahead |
| `StartTimes.SlotOpenExactly` | src/scheduler/schedule.c:1245-1297 | the 64-bit sum of slot and duration, and the plain sum where nothing wraps |
| `StartTimes.ScanPeriodic` | src/scheduler/schedule.c:553-593 | the periodic scan folds the calendar rule over the slots |
| `StartTimes.CalendarStartHourly` | src/scheduler/schedule.c:448-479 | replacing the local minute moves the clock by whole minutes, stays within an hour of it and shows minute mn |
| `StartTimes.HourlyNextStart` | src/scheduler/schedule.c:516-550 | an hourly start has local minute mn, is a whole number of minutes from now, and lies in [now, now+59 min] or less than an hour back with the execution still going on; it is never 0 |
| `StartTimes.HourlyRule` | src/scheduler/schedule.c:481-551 | one slot with an hourly rule gives an hourly start for every day 0-31, hour 0-23 and minute 0-59, and none with one of them out of range |
| `StartTimes.OtherRules` | src/scheduler/schedule.c:481-551 | a rule of another kind than hourly or daily repetition leaves the start found so far alone |
| `StartTimes.CalendarStartDaily` | src/scheduler/schedule.c:448-479 | replacing the local hour moves the clock by whole hours, stays within a day of it and shows hour hr |
| `StartTimes.DailyRule` | src/scheduler/schedule.c:481-551 | one slot with a daily rule gives today's start at hour hr, minute and second of now, when that is ahead or its execution still going on, and otherwise none: never tomorrow's |
| `StartTimes.IdenticalHourlySlots` | src/scheduler/schedule.c:516-593 | any number of identical hourly slots behaves like one |
| `StartTimes.LaterSlotWins` | src/scheduler/schedule.c:516-593 | among any hourly rules the scan finds the earliest start from the last slot on that is taken without a comparison |
| `StartTimes.EarliestExactly` | src/scheduler/schedule.c:516-593 | that is the earliest start of all exactly when every slot in front of that one has a start no earlier than some slot from there on |
| `StartTimes.EarlierOfTwo` | src/scheduler/schedule.c:516-593 | of two rules the smaller start is found unless the second one is taken without a comparison and is the later one |
| `StartTimes.LaterSlotWinsSample` | src/scheduler/schedule.c:525-530 | an input where it is not: on the hour, the rules for minutes 10 and 50 give minute 50 although the start at minute 10 is earlier |
| `Election.ElectFindsMaximum` | src/scheduler/schedule_controller.c:62-92 | the loop finds the first lexicographic maximum of (priority, start time) among the running members, and nothing exactly when none runs |
| `Election.FirstMaximumUnique` | src/scheduler/schedule_controller.c:62-92 | whatever meets the definition of the first maximum is what the loop elects |
| `Election.ElectCongruence` | src/scheduler/schedule_controller.c:62-92 | the election depends on state, priority and start time of the members only |
| `SystemSpec.Resolve` | src/scheduler/der_scheduler.c:314-347 | a reference resolves to the first schedule of that name, with or without IED name, or to nothing exactly when no schedule has it |
| `SystemSpec.ResolvesFull` | src/scheduler/der_scheduler.c:314-347 | a full reference resolves to the schedule whose full reference it is |
| `SystemSpec.ResolvesLocal` | src/scheduler/der_scheduler.c:314-347 | "@" and a reference without IED name resolve to the schedule whose reference without IED name it is |
| `SystemSpec.ResolvesNothing` | src/scheduler/der_scheduler.c:314-347 | the empty reference, and one that no schedule has in either form, resolve to nothing |
| `SystemSpec.StepWellFormed` | src/scheduler/schedule_controller.c:551-603 | no event makes a controller refer to a schedule that does not exist |
| `SystemSpec.InformedKeepsWiring` | src/scheduler/schedule_controller.c:265-349 | state, value and priority events never change what a controller is connected to |
| `Cache.StepKeepsCache` | src/scheduler/schedule_controller.c:265-329 | one command on any schedule keeps every controller's activeSchedule and ActSchdRef in agreement with the election |
| `Cache.RunKeepsCache` | src/scheduler/schedule_controller.c:265-349 | over every interleaving of ticks, enables, disables, EnaReq, DsaReq and writes the cache is right |
| `Cache.CacheMeansMaximum` | src/scheduler/schedule_controller.c:62-92 | in every reachable state activeSchedule is the first maximum of (priority, start time) among the running members, null exactly when none runs, and ActSchdRef names it with GOOD quality or is empty and INVALID |
| `Cache.OnlyWinnerControls` | src/scheduler/schedule_controller.c:298-349 | whatever a command forwards in any reachable state is the current entry of the schedule that wins at that moment, or an INVALID |
| `Cache.OtherTicksIgnored` | src/scheduler/schedule_controller.c:337-349 | in every reachable state a value tick of a schedule that is not the first maximum leaves the controller and its target untouched |
| `Cache.RewireAndCache` | src/scheduler/schedule_controller.c:575-603 | a re-wiring keeps the cache right exactly when it neither takes the active schedule away nor brings in a running one that outranks it |
| `Cache.StateEventRepairs` | src/scheduler/schedule_controller.c:293-329 | a state change of any schedule that informs a controller makes its cache right whatever it held, unless the election confirms the cached schedule while ActSchdRef did not show it |
| `Cache.RestoreAndCache` | src/scheduler/storage/storage_json.c:585-890 | a restore into a running schedule keeps a controller's cache right exactly when it ends the running or the cached schedule still is the first maximum with the restored priority and start time |
| `Outputs.SendsExactly` | src/scheduler/schedule_controller.c:265-349 | a controller sends exactly when the schedule in charge publishes, or a state change elects another schedule or none; any other event leaves the target alone |
| `Outputs.PriorityWriteLags` | src/scheduler/schedule_controller.c:265-290 | a priority write puts the first maximum in charge at once while the target still shows what it showed |
| `Outputs.LagLasts` | src/scheduler/schedule_controller.c:265-349 | over any run of events that send nothing, re-wirings included, the target does not move |
| `Outputs.SendingEndsLag` | src/scheduler/schedule_controller.c:293-349 | the first event that sends makes the target show the first maximum's current entry of that moment, or INVALID if none runs |
| `Cache.ElectWithout` | src/scheduler/schedule_controller.c:586-588 | removing a member that is not elected does not change the election |
| `Cache.PublishingTick` | src/scheduler/schedule.c:1764-1795 | a tick that publishes does so from RUNNING, publishes the entry at the current index and leaves the election alone |
| `ScheduleProps.EnablingDecision` | src/scheduler/schedule.c:1299-1446 | enabling succeeds exactly when the first NumEntr values exist and are not NaN, SchdIntv > 0 and the condition of the kind holds, which for a one-shot schedule is that some slot plus NumEntr times the interval (as a 64-bit sum) is ahead; otherwise SchdEnaErr shows the first failing cause in the order NumEntr, values, SchdIntv, StrTm |
| `ScheduleProps.OpenForWholeDuration` | src/scheduler/schedule.c:1245-1297 | the slot check asks for a slot + NumEntr * interval ahead, and means the plain sum where nothing wraps |
| `ScheduleProps.IntervalFromAttributes` | src/scheduler/schedule.c:1172-1227 | in range, the interval is setVal steps, and the duration a periodic schedule plans with is NumEntr times that |
| `ScheduleProps.NextHourlyStart` | src/scheduler/schedule.c:424-551 | the next start of a schedule with one hourly rule is at minute mn, within the next hour or in an execution of NumEntr intervals still going on |
| `ScheduleProps.CommandFacts` | src/scheduler/schedule.c:828-997 | apart from ticks and restores no command touches the execution in progress, and READY is only given to a schedule that can be enabled |
| `ScheduleProps.TickStates` | src/scheduler/schedule.c:1729-1834 | a tick enters RUNNING only from READY with 0 < startTime < now, and READY only from RUNNING past the last entry with a next start |
| `ScheduleProps.HowStatesAreEntered` | src/scheduler/schedule.c:1387-1446 | over all commands these and a successful enable are the only ways into RUNNING and READY |
| `ScheduleProps.StatesReachable` | src/scheduler/schedule.c:284-338 | without a restore START_TIME_REQUIRED and INVALID are unreachable in any run |
| `ScheduleProps.OneShotTick` | src/scheduler/schedule.c:1729-1762 | a tick never moves a start back, and a new execution starts strictly later than the last one |
| `ScheduleProps.StartsIncrease` | src/scheduler/schedule.c:1729-1762 | under a monotone clock the successive executions of a one-shot schedule start at strictly increasing times over any run without restore |
| `ScheduleProps.StartsBounded` | src/scheduler/schedule.c:610-638 | over a run without start time writes the number of starts plus the slots left is at most the slots there were |
| `OneShot.StartSchedulesNext` | src/scheduler/schedule.c:1742-1762 | a start uses the latched start, or the earliest slot ahead, and the next start is the earliest slot ahead in the slot list from before the start |
| `OneShot.EndOfExecution` | src/scheduler/schedule.c:1797-1824 | the tick that ends a one-shot execution leaves READY exactly when some slot is ahead, NOT_READY otherwise, and the next start is the earliest such slot |
| `OneShot.EndOfPeriodicExecution` | src/scheduler/schedule.c:1797-1824 | the tick that ends a periodic execution leaves READY exactly when the calendar rules give a next start |
| `OneShot.TickOnSchedule` | src/scheduler/schedule.c:1711-1838 | one tick starts the first start time ahead exactly when that has passed, and keeps the schedule waiting for it or playing otherwise |
| `OneShot.EveryStartTimeStarts` | src/scheduler/schedule.c:1711-1838 | over a run with start times far enough apart for an execution and two polling gaps, the executions start at exactly the start times before the last tick: every one of them, once, in order |
| `OneShot.FirstTickWaits` | src/scheduler/schedule.c:1729-1740 | the first tick after enabling latches the earliest start time ahead, the state that run starts from |
| `Commands.EnaReqAnswer` | src/scheduler/schedule.c:1518-1601 | EnaReq answers OK exactly when the schedule can be enabled, and then it is READY without error; invalid exactly when NumEntr, values or SchdIntv fail; failed exactly when only the start condition does, leaving NOT_READY; denied without the right, and nothing changes then or for a test |
| `Commands.InvalidEnaReq` | src/scheduler/schedule.c:1299-1385 | an EnaReq refused as invalid reports the cause and overwrites the entry count; state and execution, running or not, stay |
| `Commands.EnableShows` | src/scheduler/schedule.c:1387-1446 | enabling gives READY exactly when it can, and NxtStrTm shows the next start, for a one-shot schedule the earliest slot ahead |
| `Commands.DisablesExactly` | src/scheduler/schedule.c:1502-1601 | disabling, by the API or by DsaReq with the right, leaves NOT_READY, value and ActStrTm quality INVALID and no NxtStrTm, and changes nothing else; DsaReq without the right, a test, and the API on a NOT_READY schedule change nothing |
| `Commands.DisabledLosesControl` | src/scheduler/schedule_controller.c:293-329 | a disabled schedule is in charge of no controller; the target of one it was in charge of shows the next winner's current entry, or INVALID, and the target of one that has another schedule in charge stays |
| `Commands.RightsDecide` | src/scheduler/schedule.c:2129-2184 | each Allow call decides exactly the access it is named after: control, priority, start time and calendar, reuse |
| `Commands.RightsAreSeparate` | src/scheduler/schedule.c:2129-2184 | and changes no other right and nothing else of the schedule |
| `Commands.StrTmWrite` | src/scheduler/schedule.c:828-870 | a start time is accepted exactly with the right and in the future; then its slot holds it, and nothing else changes |
| `Commands.StrTmWriteIsConsidered` | src/scheduler/schedule.c:828-870 | the tick of a READY one-shot schedule with no start latched takes the written time or an earlier slot ahead |
| `Commands.NextStartReadsWrites` | src/scheduler/schedule.c:931-983 | a permitted SchdIntv and any NumEntr are what the next start plays with; without the right SchdIntv stays |
| `Commands.RunningKeepsItsTiming` | src/scheduler/schedule.c:1603-1613 | neither write moves the index of an execution in progress |
| `Commands.ValueWrite` | src/scheduler/schedule.c:985-997 | a written value is the entry of every index that reaches its object, and no other entry changes |
| `Commands.PlainWrites` | src/scheduler/schedule.c:872-963 | priority, reuse and calendar rules take the written value exactly with the right, and nothing else changes |
| `Status.StartShows` | src/scheduler/schedule.c:1742-1762 | a start shows the running and the next start, each GOOD exactly when there is one |
| `Status.PlaybackShows` | src/scheduler/schedule.c:1764-1795 | a tick inside the execution that finds entry floor((now-start)/d) not published shows its number, its value and quality GOOD, and changes no other status |
| `Status.MissingEntryIsSkipped` | src/scheduler/schedule.c:1764-1795 | an entry without a value object publishes and shows nothing, and is passed over once |
| `Status.EndShows` | src/scheduler/schedule.c:1797-1834 | the end shows no ActStrTm, SchdEntr 0, an INVALID value and the next start |
| `Status.RunShowsStarts` | src/scheduler/schedule.c:371-422 | over every run without restore, a running schedule shows its start in ActStrTm and the next one in NxtStrTm, GOOD exactly when there is one |
| `Status.RunGoodMeansRunning` | src/scheduler/schedule.c:371-422 | over every such run in which it is not enabled while running, ActStrTm is GOOD exactly while the schedule runs |
| `Status.EnableLeavesActStrTm` | src/scheduler/schedule.c:1387-1446 | an enable that ends an execution, and no other, leaves ActStrTm GOOD for a schedule that does not run |
| `ScheduleProps.ZeroInterval` | src/scheduler/schedule.c:1603-1613 | a start leads to a division by zero exactly when the interval reads as a multiple of 2^32 ms |
| `ScheduleProps.ZeroIntervalAttributes` | src/scheduler/schedule.c:1172-1227 | the same condition on value, unit and multiplier of SchdIntv |
| `ScheduleProps.EnablingAdmitsZero` | src/scheduler/schedule.c:1387-1446 | a schedule that passed all checks of enabling divides by zero at its start exactly under that condition; enabling rules out the value 0 only |
| `ScheduleProps.ZeroWriteDivides` | src/scheduler/schedule.c:965-983 | writing 0 to SchdIntv of a schedule that is about to start makes its start divide by zero |
| `ZeroDuration.RestoreDivides` | src/scheduler/storage/storage_json.c:585-890 | restoring any JSON object makes a schedule divide by zero exactly when it was read up to the interval, the interval is 0 and the schedule ends up RUNNING |
| `ZeroDuration.SnapshotDivides` | src/scheduler/storage/storage_json.c:293-418 | a snapshot restores to a schedule that divides by zero exactly when it was taken while running with an attribute that reads as zero |
| `ZeroDuration.SnapshotDividesAttributes` | src/scheduler/schedule.c:1172-1227 | the same on value, unit and multiplier of SchdIntv |
| `ZeroDuration.ZeroWriteThenRestart` | src/scheduler/schedule.c:965-983 | writing 0 to SchdIntv of any running schedule leaves its execution alone, and its snapshot restores to one that divides by zero |
| `ZeroDuration.NeverDividesExactly` | src/scheduler/schedule.c:1603-1613 | over every run, restores included, a schedule never divides by zero exactly when no start latches a zero interval and no restore brings one into a running schedule |
| `ScheduleProps.SaneIntervalNeverZero` | src/scheduler/schedule.c:1172-1227 | a positive interval in range with multiplier -3 or more never does that |
| `Timeline.EnablingArms` | src/scheduler/schedule.c:1387-1446 | enabling a one-shot schedule with one slot ahead puts it into the state the timeline starts from |
| `Timeline.IndexExact` | src/scheduler/schedule.c:1603-1613 | polled within one more execution length, the index is floor((now-start)/d) until the end and none afterwards, all C conversions included |
| `Timeline.PhaseTick` | src/scheduler/schedule.c:1711-1838 | one tick keeps a schedule on its plan and publishes only what the plan wants at that time |
| `Timeline.PlanTick` | src/scheduler/schedule_controller.c:293-349 | one tick anywhere in a polling round keeps all schedules and all targets on plan |
| `Timeline.PlanRounds` | src/scheduler/schedule.c:1711-1838 | any number of rounds, in any order within a round, keeps the system on plan |
| `Timeline.TimelineRefinement` | src/scheduler/schedule.c:1711-1838 | after each polling round at t the target is exactly entry floor((t-s)/d) of the schedule with the largest (priority, s), first in list on ties, among those with s < t < s+n*d, and INVALID exactly when there is none |
| `Playback.StartBeginsExecution` | src/scheduler/schedule.c:1742-1762 | a start latches start time, interval and entry count of that moment and has published nothing yet |
| `Playback.SlotIsIndex` | src/scheduler/schedule.c:1603-1613 | the index is floor((now-start)/d) exactly until start + n*d |
| `Playback.EndsOnTime` | src/scheduler/schedule.c:1797-1824 | an execution ends exactly at a tick with now >= start + n*d |
| `Playback.PlaybackTick` | src/scheduler/schedule.c:1764-1795 | a tick inside the execution publishes the entry of the moment exactly when it was not published yet, and shows its number in SchdEntr |
| `Playback.PlaybackOrder` | src/scheduler/schedule.c:1764-1824 | within one execution the published entries strictly increase, lie in [0,n) and are floor((now-start)/d); with ticks at most d apart they are exactly the entries from the first to the last tick that finds the schedule running, up to n-1 when the run ends with the ending tick |
| `Playback.StartEntryPublished` | src/scheduler/schedule.c:1742-1795 | the entry the starting tick falls in is published exactly when the next tick falls in it too |
| `Playback.EveryEntryExactly` | src/scheduler/schedule.c:1742-1824 | an execution polled at least every d ms from its starting to its ending tick publishes all entries 0..n-1 exactly when the first tick behind the starting one comes before start + d |
| `Playback.FastPollingSkipsNothing` | src/scheduler/schedule.c:1742-1824 | polled more than twice per entry, an execution publishes all entries 0..n-1 in order |
| `Reserve.ReserveNextStart` | src/scheduler/schedule.c:516-550 | the next start of an on-the-hour schedule lasting an hour or more is never missing and never in the future |
| `Reserve.EnablingMakesReserve` | src/scheduler/schedule.c:1387-1446 | a successful enable of an hourly schedule lasting an hour or more, closed to remote control and start time writes, makes it a reserve schedule |
| `Reserve.NeverDropsOut` | src/scheduler/schedule.c:1729-1818 | from any READY or RUNNING state, over every run of ticks and remote commands, a reserve schedule stays READY or RUNNING |
| `Reserve.RunsWithinTwoTicks` | src/scheduler/schedule.c:1729-1762 | from READY it runs within two ticks exactly when no start is latched for the second one or later |
| `Reserve.NextStartStaysDue` | src/scheduler/schedule.c:1729-1834 | over every run under a monotone clock its next start never gets ahead of the clock |
| `Reserve.RunsAgainWithinTwoTicks` | src/scheduler/schedule.c:1729-1834 | so at any point of such a run it is RUNNING within two more ticks |
| `Registration.InitialMembersMatch` | src/scheduler/schedule_controller.c:611-641 | connecting distinct resolvable references gives a duplicate-free list equal as a set to what they name |
| `Registration.RewiredMatches` | src/scheduler/schedule_controller.c:575-603 | an accepted setSrcRef write keeps the list duplicate-free and equal as a set to what the attributes name |
| `Registration.RewireOutcome` | src/scheduler/schedule_controller.c:551-603 | a setSrcRef write is accepted exactly when it names a schedule that is not a member; then the one named before is gone, the others keep their order, the new one comes last and informs the controller, and nothing else changes |
| `Registration.RewireKeepsRegistration` | src/scheduler/schedule_controller.c:551-603 | any setSrcRef write, accepted or refused, keeps the registration of every controller |
| `Registration.RunKeepsRegistration` | src/scheduler/schedule_controller.c:551-603 | over every run of commands and re-wirings each member informs its controller, in duplicate-free listener lists |
| `Startup.ListenToAdds` | src/scheduler/schedule.c:21-27 | connecting adds the controller to each member's listeners, keeps the others and makes no duplicate |
| `Startup.ConnectedNext` | src/scheduler/schedule_controller.c:611-641 | connecting all references at once is connecting them one after the other |
| `Startup.SetUpMeetsInvariants` | src/scheduler/der_scheduler.c:52-65 | setting up all controllers before anything runs establishes the registration and the cache invariants |
| `Startup.EveryRunFromSetUp` | src/scheduler/der_scheduler.c:67-134 | from set-up on, registration holds after every run and the cache is right after every run of commands |
| `StorageSpec.DoubleExact` | src/scheduler/storage/storage_json.c:293-418 | an unsigned 64-bit time survives as a double exactly when it is a multiple of the spacing there, so always below 2^53 |
| `StorageProps.StateSurvives` | src/scheduler/storage/storage_json.c:169-200 | reading a state string undoes writing it, for every state |
| `StorageProps.StateNames` | src/scheduler/storage/storage_json.c:169-200 | which string stands for which state, and what an unknown string is read as |
| `StorageProps.RestoresComplete` | src/scheduler/storage/storage_json.c:585-890 | a restore succeeds exactly for an object with all required items of the right types, and only then touches state, values and start times |
| `StorageProps.RestoresPrefix` | src/scheduler/storage/storage_json.c:585-728 | each parameter is restored exactly when it and all required items in front of it are there; ActStrTm then shows the restored start, GOOD unless it is 0 |
| `StorageProps.ForeignItem` | src/scheduler/storage/storage_json.c:730-769 | a value item of another type: a number is true from 1 in size on and is truncated and clamped to `int`, true is 1, anything else 0 |
| `StorageProps.SlotItem` | src/scheduler/storage/storage_json.c:774-880 | what a restored start time item does to its slot, with or without a time, a rule, or parts of one |
| `StorageProps.ConvertedBack` | src/scheduler/storage/storage_json.c:293-418 | a value comes back exactly when it is not NaN |
| `StorageProps.PutValuesAt` | src/scheduler/storage/storage_json.c:585-890 | restoring n values converts the first n entries and leaves the others alone |
| `StorageProps.EntrySurvives` | src/scheduler/storage/storage_json.c:585-890 | an entry saved and restored is unchanged exactly when it is not NaN |
| `StorageProps.SlotsSurvive` | src/scheduler/storage/storage_json.c:585-890 | all start times and calendar rules come back |
| `StorageProps.SnapshotRoundTrip` | src/scheduler/storage/storage_json.c:585-890 | restoring a snapshot into a schedule of the same model reproduces state, reuse, priority, NumEntr, SchdIntv, start time, all values, all slots and calendar rules |
| `StorageProps.IndexSurvives` | src/scheduler/schedule.c:1603-1613 | a schedule that runs with the interval and entry count of its attributes is restored to the same index at every time |
| `Restart.RunKeepsOwn` | src/scheduler/schedule.c:1742-1749 | over every run without writes to SchdIntv and NumEntr a running schedule runs with the interval and entry count of its attributes |
| `Restart.EntriesSurvive` | src/scheduler/storage/storage_json.c:585-890 | every entry comes back, whatever its number (a negative one provided no name holds a minus sign) |
| `Restart.PlaybackSurvivesRestart` | src/scheduler/schedule.c:1603-1613 | take any run that finds the schedule not running and writes neither SchdIntv nor NumEntr, such as one that begins with its starting tick: saved while it runs and restored, the schedule is RUNNING at the same entry, with the same value, at every time |
| `Restart.FirstTickAfterRestart` | src/scheduler/schedule.c:1764-1795 | the first tick after a restart publishes the entry of the moment exactly when that is not the index the fresh schedule holds, which is 0; SchdEntr is not restored |
| `SystemRestart.NewcomerWins` | src/scheduler/schedule_controller.c:62-92 | a schedule that was not running changes an election only by winning it |
| `SystemRestart.RestartRestoresControl` | src/scheduler/der_scheduler.c:154-222 | all schedules saved and restored, at whatever times, into a system just set up: each controller has the active schedule and ActSchdRef of the system that never stopped and shows the entry that schedule had reached when it was restored |
| `SystemRestart.RestartFromSetUp` | src/scheduler/der_scheduler.c:154-222 | the same from the data model: with the same references and no ties among running members, in whatever order they were connected |
| `SystemRestart.TiesGoByOrder` | src/scheduler/schedule_controller.c:62-92 | of two running schedules that tie, the first one connected is in charge, so a different order after a restart changes control |
| `StorageProps.StartTimeNeedsDouble` | src/scheduler/storage/storage_json.c:585-890 | the start time of an execution survives exactly when it is representable as a double |
| `Filename.ConvertObjRefToFilename` | src/scheduler/storage/storage_json.c:89-117 | the loop fills the buffer with the file name and a terminator and touches nothing behind it |
| `Filename.FileNameOf` | src/scheduler/storage/storage_json.c:89-117 | the file of LD/LN is named LD__LN.json |
| `Filename.FileNameLength` | src/scheduler/storage/storage_json.c:89-137 | with terminator the name is seven characters longer than the reference, so 129 characters fit 200 bytes |
| `Filename.FileNamesDiffer` | src/scheduler/storage/storage_json.c:89-137 | references whose node names have no double and no leading underscore never share a file |
| `Filename.FileNamesCanCollide` | src/scheduler/storage/storage_json.c:89-137 | both restrictions are needed: every plain node name without one of them shares its file with a node of another device |
| `Engine.ScheduleController.constructor` | src/scheduler/schedule_controller.c:351-366 | a new controller knows no schedule, shows an empty invalid ActSchdRef and has sent nothing |
| `Engine.ScheduleController.GetActiveSchedule` | src/scheduler/schedule_controller.c:62-92 | the loop over the list returns the elected schedule |
| `Engine.ScheduleController.SchedulePrioUpdated` | src/scheduler/schedule_controller.c:265-290 | re-elects and shows the winner, and sends no value |
| `Engine.ScheduleController.ScheduleStateUpdated` | src/scheduler/schedule_controller.c:293-329 | re-elects; a new winner's current value is sent, an empty election sends INVALID |
| `Engine.ScheduleController.ScheduleValueUpdated` | src/scheduler/schedule_controller.c:337-349 | forwards the value of the active schedule and of no other |
| `Engine.Schedule.constructor` | src/scheduler/schedule.c:1840-2003 | a new schedule is NOT_READY with no start and no listener, and all client accesses are allowed |
| `Engine.Schedule.GetCurrentIdx` | src/scheduler/schedule.c:1603-1613 | is the index function the timeline and playback results are about |
| `Engine.Schedule.GetCurrentValue` | src/scheduler/schedule.c:1678-1695 | returns the entry at the current index, or nothing past the end |
| `Engine.Schedule.GetNextStartTime` | src/scheduler/schedule.c:553-593 | chooses the calendar rule for periodic schedules and the earliest future slot for the others |
| `Engine.Schedule.EraseStartTime` | src/scheduler/schedule.c:610-638 | a slot that holds the used time is zeroed; every other time, and every name and calendar rule, stays |
| `Engine.Schedule.NotifyState` | src/scheduler/schedule.c:284-328 | each known controller handles the state event exactly once, whatever their order |
| `Engine.Schedule.NotifyPrio` | src/scheduler/schedule.c:898-929 | each known controller handles the priority event exactly once |
| `Engine.Schedule.NotifyValue` | src/scheduler/schedule.c:1662-1676 | each known controller handles the value event exactly once |
| `Engine.Schedule.UpdateState` | src/scheduler/schedule.c:330-338 | controllers hear of a state change and of nothing else |
| `Engine.Schedule.StartExecution` | src/scheduler/schedule.c:1742-1762 | everything a start does before the state changes |
| `Engine.Schedule.TickReady` | src/scheduler/schedule.c:1729-1762 | a READY tick latches the next start and starts once it has passed |
| `Engine.Schedule.TickRunning` | src/scheduler/schedule.c:1764-1818 | a RUNNING tick publishes each new entry to all controllers, or ends: READY exactly when there is a next start, which is latched, and NOT_READY otherwise |
| `Engine.Schedule.Tick` | src/scheduler/schedule.c:1711-1838 | one loop iteration is the tick of the model, and each controller is informed as the model says |
| `Engine.Schedule.PerformGenericScheduleValidityChecks` | src/scheduler/schedule.c:1299-1385 | valid exactly when no generic error is found; the entry count is overwritten in either case |
| `Engine.Schedule.CheckForValidStartTimes` | src/scheduler/schedule.c:1245-1297 | valid exactly when a slot plus NumEntr times the interval, as a 64-bit sum, is still ahead |
| `Engine.Schedule.EnabledSchedule` | src/scheduler/schedule.c:1387-1446 | enables exactly when the model says it can, and informs controllers of a state change only |
| `Engine.Schedule.DisableSchedule` | src/scheduler/schedule.c:1502-1516 | leaves NOT_READY with invalid qualities and no next start shown, keeps nextStartTime and SchdEntr, and informs every controller of a change of state |
| `Engine.Schedule.EnableSchedule` | src/scheduler/schedule.c:2135-2148 | the API call enables, disables what is not NOT_READY, or does nothing |
| `Engine.Schedule.ControlEnaReq` | src/scheduler/schedule.c:1518-1601 | check and control handler of EnaReq together: denied, invalid, failed or accepted, with the state each leaves |
| `Engine.Schedule.ControlDsaReq` | src/scheduler/schedule.c:1518-1601 | check and control handler of DsaReq together |
| `Engine.Schedule.WriteSchdPrio` | src/scheduler/schedule.c:898-929 | a permitted write sets the priority and raises the priority event; a refused one changes nothing |
| `Engine.Schedule.CreateSnapshot` | src/scheduler/storage/storage_json.c:293-418 | the two appending loops build the JSON object of the round trip |
| `Engine.Schedule.RestoreParameters` | src/scheduler/storage/storage_json.c:585-728 | parameters are written one by one until the first missing item |
| `Engine.Schedule.RestoreLists` | src/scheduler/storage/storage_json.c:730-880 | the two loops put values and start times back |
| `Engine.Schedule.RestoreSnapshot` | src/scheduler/storage/storage_json.c:585-890 | restoring is the inverse the round trip speaks of, a partial restore included, and raises the state event last |
| `Engine.Schedule.SetListeningController` | src/scheduler/schedule.c:21-27 | adds a controller at most once |
| `Engine.Schedule.Perform` | src/scheduler/schedule.c:828-1601 | every command has the effect the run theorems assume, on the schedule and on each of its controllers |
| `Engine.Scheduler.constructor` | src/scheduler/der_scheduler.c:67-152 | a freshly parsed model is valid and meets what set-up starts from |
| `Engine.Scheduler.GetScheduleByObjRef` | src/scheduler/der_scheduler.c:314-347 | the search resolves a reference as specified |
| `Engine.Scheduler.InitializeController` | src/scheduler/schedule_controller.c:611-691 | connects what the attributes name, in order, and shows the election's winner |
| `Engine.Scheduler.InitializeScheduleControllers` | src/scheduler/der_scheduler.c:52-65 | sets up all controllers, reaching the state the run theorems start from |
| `Engine.Scheduler.WriteSetSrcRef` | src/scheduler/schedule_controller.c:551-603 | refuses unknown and already connected schedules, else replaces the one named so far and appends the new one; the system changes in no other way |
| `Engine.Scheduler.Execute` | src/scheduler/schedule.c:1711-1838 | one event on one schedule changes the whole system as one step of the model, for every event and every system |
| `Example.FirstEntrySkipped` | src/scheduler/schedule.c:1742-1762 | ticks exactly one entry apart, of which the second starts the execution: entry 0 is never published |
| `Example.LatchedStartWaits` | src/scheduler/schedule.c:1729-1740 | a reserve schedule with a start latched for later does not run within two ticks |
| `Example.TooFineDivides` | src/scheduler/schedule.c:1603-1613 | setVal 1 with multiplier -4 is enabled without an error, and its start divides by zero |
| `Example.RewiringMakesStale` | src/scheduler/schedule_controller.c:586-592 | a reachable state in which a setSrcRef write leaves activeSchedule naming a schedule that is no longer a member |

## Left out

- TimelineRefinement: stated for at most 2^30 entries per schedule and clock values below 2^64, so that the `int` index of the program does not wrap; schedules start with exactly one slot ahead.
- HourlyNextStart: from one hour after the epoch on, and before the clock arithmetic reaches 2^64; the offset of local time is fixed.
- EnablingDecision: a failed event-driven schedule, and one without any StrTm object, leaves SchdEnaErr as it was, as the program does.
- LaterSlotWins, EarliestExactly: hourly rules, and slots the scan passes over; no daily rule among them.
- PlaybackOrder: no EnaReq, enabling or restore of the schedule during the run, and a clock at which the index fits an `int`.
- PlaybackSurvivesRestart, RestartRestoresControl: at an index below -1, to which the program's `int` can wrap, the values are compared provided no value object's name holds a minus sign, as in every IEC 61850 name.
- RestartFromSetUp: the references of the saved system and of the new one agree, so no re-wiring is lost; the program restores a re-wired reference as an attribute only.
- NeverDropsOut, RunsWithinTwoTicks, RunsAgainWithinTwoTicks: ticks between one hour after the epoch and 2^64 - 2^32 ms, where no clock arithmetic wraps.
- ReadsZero, ZeroIntervalAttributes: values whose product with the unit is below 2^31 and whose interval is below 2^64 ms; ZeroInterval has no such bound.
- RunKeepsCache: runs without setSrcRef writes and without restores into a running schedule; RewireAndCache and RestoreAndCache treat one such event.
- SnapshotRoundTrip: values of the attribute's own type, integers that fit `int`, interval and times that fit the number types of the format.
- InitializeController: every Schd attribute has to resolve; the program dereferences a null schedule otherwise.
- GetMs, SetVal: the program multiplies doubles; the model computes exactly and truncates once.
- Threads, locks, sleeping and the interleaving of a tick with a client command inside one step.
- libiec61850: data model nodes, MMS encoding and precision of time stamps, connections, reports.
- JSON text, files and the storage semaphore; the snapshot is a JSON value. Saving is not triggered by writes in the model.
- Rounding of float values on their way through the format: a float is NaN or a number.
- Time zones and daylight saving time: local time is the clock plus a fixed offset.
- Type checks on setCal fields and attributes missing inside a calendar rule; a rule has all of its fields.
- DailyRule: one rule alone; a daily rule among others goes through the same scan and has no theorem.
- EveryStartTimeStarts: start times spaced by an execution and two polling gaps, the index within `int`, and no enable, disable, restore or write of start times, interval, entry count or values during the run; StartSchedulesNext has no such limits, and EndOfExecution only needs the index to fit an `int`.
- RunShowsStarts, RunGoodMeansRunning: runs without restore, which writes ActStrTm from the file.
- How EvTrg, InSyn and StrTm objects are recognised in a data model; a schedule's configuration says what was found.
- The periodic part of checkForValidStartTimes, which no schedule reaches.
- Schedule_getStartTimes, an unused loop that makes no progress.
- Event-triggered execution: nothing in the program starts such a schedule.
- A controller's own ValXX attributes, quality and time stamp attributes of the target, and resolving or re-writing CtlEnt.
- A Schd attribute without any value, which initialization skips.
- Saving and restoring a controller, which only writes attributes.
- The example program, the test client and the conformance tests.
