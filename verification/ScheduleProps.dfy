// Properties of one schedule over whole runs of the system.
module ScheduleProps {
  import opened CTypes
  import opened Types
  import opened Names
  import opened Interval
  import opened StartTimes
  import opened ScheduleSpec
  import opened SystemSpec

  /** Schedule `i` before and after an event. */
  ghost function Next(sys: System, ev: Event, i: nat): Sched
    requires WellFormed(sys) && i < |sys.scheds|
  {
    if ev.OnSched? && ev.i == i then After(sys.scheds[i], ev.cmd, ev.now) else sys.scheds[i]
  }

  lemma StepOnSchedule(sys: System, ev: Event, i: nat)
    requires WellFormed(sys) && i < |sys.scheds|
    ensures WellFormed(Step(sys, ev)) && |Step(sys, ev).scheds| == |sys.scheds|
    ensures Step(sys, ev).scheds[i] == Next(sys, ev, i)
  {
    hide After, Informed;
    StepWellFormed(sys, ev);
  }

  // ---- Enabling ----

  /** Value `k` is present and is not NaN. */
  predicate GoodEntry(s: Sched, k: int) {
    Entry(s, k).Some? && !IsNaN(Entry(s, k).value)
  }

  /** What must hold for a schedule to be enabled. */
  ghost predicate Enableable(s: Sched, m: nat, now: nat) {
    && 0 < s.numEntr <= m
    && (forall k :: 1 <= k <= s.numEntr ==> GoodEntry(s, k))
    && s.schdIntv > 0
    && (if s.cfg.eventDriven then s.cfg.syncInputValid
        else s.cfg.periodic ||
             (s.cfg.timeTriggered &&
              exists k :: 0 <= k < |s.strTms| && (SlotTime(s.strTms[k]) + s.numEntr * IntervalMs(s)) % TWO_64 > now))
  }

  lemma NaNIsBadEntry(s: Sched)
    requires AllPresent(s.values, s.cfg.targetType, s.numEntr)
    ensures SomeNaN(s) <==> !(forall k :: 1 <= k <= s.numEntr ==> GoodEntry(s, k))
  {
    hide ValueAttr;
    if k :| 1 <= k <= s.numEntr && !GoodEntry(s, k) {
      assert ValueAttr(s.values, s.cfg.targetType, k).Some?;
      assert Entry(s, k).Some? && IsNaN(Entry(s, k).value);
    }
    if SomeNaN(s) {
      var k :| 1 <= k <= s.numEntr && Entry(s, k).Some? && IsNaN(Entry(s, k).value);
      assert !GoodEntry(s, k);
    }
  }

  /** The duration added to each slot is that of all entries. */
  lemma OpenForWholeDuration(s: Sched, now: nat)
    requires s.numEntr > 0
    ensures SomeSlotOpen(s.strTms, DurationMs(s), now)
            <==> exists k :: 0 <= k < |s.strTms| && (SlotTime(s.strTms[k]) + s.numEntr * IntervalMs(s)) % TWO_64 > now
    ensures (forall k :: 0 <= k < |s.strTms| ==> SlotTime(s.strTms[k]) + s.numEntr * IntervalMs(s) < TWO_64) ==>
      (SomeSlotOpen(s.strTms, DurationMs(s), now)
       <==> exists k :: 0 <= k < |s.strTms| && SlotTime(s.strTms[k]) + s.numEntr * IntervalMs(s) > now)
  {
    hide GetMs, SomeSlotOpen;
    assert IntervalMs(s) * s.numEntr == s.numEntr * IntervalMs(s);
    Monotone(0, s.numEntr, IntervalMs(s));
    SlotOpenExactly(s.strTms, s.numEntr * IntervalMs(s), now);
  }

  /** Enabling succeeds exactly under these conditions; otherwise the first failing one is reported. */
  lemma EnablingDecision(s: Sched, m: nat, now: nat)
    requires IsLongestRun(s.values, s.cfg.targetType, m)
    ensures Enabled(s, now).state == (if Enableable(s, m, now) then Ready else NotReady)
    ensures Enableable(s, m, now) ==> Enabled(s, now).shown.enaErr == NoError
    ensures !(0 < s.numEntr <= m) ==> Enabled(s, now).shown.enaErr == MissingValidNumEntr
    ensures 0 < s.numEntr <= m && !(forall k :: 1 <= k <= s.numEntr ==> GoodEntry(s, k))
            ==> Enabled(s, now).shown.enaErr == MissingValidScheduleValues
    ensures 0 < s.numEntr <= m && (forall k :: 1 <= k <= s.numEntr ==> GoodEntry(s, k)) && s.schdIntv <= 0
            ==> Enabled(s, now).shown.enaErr == MissingValidSchdIntv
    ensures GenericError(s) == NoError && !Enableable(s, m, now) && !s.cfg.eventDriven && s.cfg.timeTriggered
            ==> Enabled(s, now).shown.enaErr == MissingValidStrTm
  {
    hide ValueAttr, NextStart, DurationMs, SomeSlotOpen;
    NumEntrAcceptsRun(s.values, s.cfg.targetType, m, s.numEntr);
    if 0 < s.numEntr <= m {
      OpenForWholeDuration(s, now);
      assert AllPresent(s.values, s.cfg.targetType, s.numEntr);
      NaNIsBadEntry(s);
    }
  }

  // ---- What a command leaves alone ----

  lemma EnablingFacts(s: Sched, now: nat)
    ensures
      var s' := Enabled(s, now);
      && s'.cfg == s.cfg && s'.startTime == s.startTime && s'.nextStartTime == s.nextStartTime
      && s'.entryDurationInMs == s.entryDurationInMs && s'.currentEntryIdx == s.currentEntryIdx
      && s'.strTms == s.strTms
      && s'.state == if CanEnable(s, now) then Ready else NotReady
  {
    hide CanEnable, GenericError, NextStart, ShowNext, ShowAct;
  }

  /** Apart from a tick and a restore, no command touches the execution in progress. */
  lemma CommandFacts(s: Sched, cmd: Cmd, now: nat)
    requires !cmd.Tick? && !cmd.Restore?
    ensures
      var s' := After(s, cmd, now);
      && s'.cfg == s.cfg && s'.startTime == s.startTime && s'.nextStartTime == s.nextStartTime
      && s'.entryDurationInMs == s.entryDurationInMs && s'.currentEntryIdx == s.currentEntryIdx
      && (!cmd.SetStrTm? && !cmd.SetCalendar? ==> s'.strTms == s.strTms)
      && (s'.state == s.state || s'.state == NotReady
          || (s'.state == Ready && CanEnable(s, now) && (cmd == Enable(true) || cmd == EnaReqCmd(true, false))))
  {
    hide Enabled, GenericError, CanEnable;
    match cmd
    case Enable(_) => EnablingFacts(s, now);
    case EnaReqCmd(_, _) => EnablingFacts(s, now);
    case _ =>
  }

  // ---- State discipline ----

  lemma TickStates(s: Sched, now: nat)
    ensures
      var s' := TickSched(s, now).sched;
      && (s'.state == Running && s.state != Running ==> s.state == Ready && 0 < s'.startTime < now)
      && (s'.state == Ready && s.state != Ready ==>
            s.state == Running && CurrentIdx(s, now) == -1 && NextStart(s, now) != 0)
      && (s'.state != s.state ==> s'.state in {NotReady, Ready, Running})
  {
    hide NextStart, CurrentIdx, Entry, ShowNext, ShowAct, Erase, IntervalMs;
  }

  /** The only ways into RUNNING and READY. */
  lemma HowStatesAreEntered(s: Sched, cmd: Cmd, now: nat)
    requires !cmd.Restore?
    ensures
      var s' := After(s, cmd, now);
      && (s'.state == Running && s.state != Running ==>
            cmd.Tick? && s.state == Ready && 0 < s'.startTime < now)
      && (s'.state == Ready && s.state != Ready ==>
            || ((cmd == Enable(true) || cmd == EnaReqCmd(true, false)) && CanEnable(s, now))
            || (cmd.Tick? && s.state == Running && CurrentIdx(s, now) == -1 && NextStart(s, now) != 0))
      && (s'.state != s.state ==> s'.state in {NotReady, Ready, Running})
  {
    hide TickSched, CanEnable, CurrentIdx, NextStart;
    if cmd.Tick? {
      TickStates(s, now);
      assert After(s, cmd, now) == TickSched(s, now).sched;
    } else {
      hide After;
      CommandFacts(s, cmd, now);
    }
  }

  ghost predicate NoRestore(evs: seq<Event>) {
    forall k :: 0 <= k < |evs| ==> !(evs[k].OnSched? && evs[k].cmd.Restore?)
  }

  ghost predicate Disciplined(sys: System) {
    forall i :: 0 <= i < |sys.scheds| ==> sys.scheds[i].state in {NotReady, Ready, Running}
  }

  /** Without a restore, START_TIME_REQUIRED and the invalid state are unreachable. */
  lemma {:induction false} StatesReachable(sys: System, evs: seq<Event>)
    requires WellFormed(sys) && Disciplined(sys) && NoRestore(evs)
    ensures Disciplined(Run(sys, evs))
    decreases |evs|
  {
    hide After, Informed;
    if evs != [] {
      forall i | 0 <= i < |sys.scheds| ensures Step(sys, evs[0]).scheds[i].state in {NotReady, Ready, Running} {
        StepOnSchedule(sys, evs[0], i);
        if evs[0].OnSched? && evs[0].i == i {
          HowStatesAreEntered(sys.scheds[i], evs[0].cmd, evs[0].now);
        }
      }
      StepWellFormed(sys, evs[0]);
      StatesReachable(Step(sys, evs[0]), evs[1..]);
    }
  }

  // ---- Clocks ----

  /** The clock never runs backwards over a run that begins at `t0`. */
  predicate ClockMonotone(evs: seq<Event>, t0: nat) {
    && (forall k :: 0 <= k < |evs| ==> t0 <= evs[k].now)
    && (forall j, k :: 0 <= j < k < |evs| ==> evs[j].now <= evs[k].now)
  }

  // ---- One-shot starts ----

  /** The command makes schedule `s` start an execution. */
  ghost predicate Starts(s: Sched, cmd: Cmd, now: nat) {
    s.state != Running && After(s, cmd, now).state == Running
  }

  /** The start times of the executions of schedule `i` that begin during a run. */
  ghost function StartsOf(sys: System, evs: seq<Event>, i: nat): seq<nat>
    requires WellFormed(sys) && i < |sys.scheds|
    decreases |evs|
  {
    if evs == [] then []
    else
      StepWellFormed(sys, evs[0]);
      var next := Step(sys, evs[0]);
      (if evs[0].OnSched? && evs[0].i == i && Starts(sys.scheds[i], evs[0].cmd, evs[0].now)
       then [next.scheds[i].startTime] else [])
      + StartsOf(next, evs[1..], i)
  }

  /** A pending start lies behind the last one; the last one lies behind the clock. */
  predicate StartsInOrder(s: Sched, clock: nat) {
    && !s.cfg.periodic
    && (s.nextStartTime != 0 ==> s.nextStartTime > s.startTime)
    && (s.startTime != 0 ==> s.startTime < clock)
  }

  lemma NextIsFutureSlot(slots: seq<StrTm>, now: nat)
    ensures
      var r := NextOneShot(slots, now);
      r != 0 ==> r > now && exists k :: 0 <= k < |slots| && SlotTime(slots[k]) == r
  {
    NextOneShotIsEarliest(slots, now);
  }

  lemma OneShotTick(s: Sched, now: nat, clock: nat)
    requires StartsInOrder(s, clock) && clock <= now
    ensures
      var s' := TickSched(s, now).sched;
      && StartsInOrder(s', now)
      && s'.startTime >= s.startTime
      && (s.state != Running && s'.state == Running ==> s'.startTime > s.startTime)
  {
    hide CurrentIdx, Entry, NextOneShot, Erase, IntervalMs, ShowNext, ShowAct;
    var used := if s.nextStartTime == 0 then NextOneShot(s.strTms, now) else s.nextStartTime;
    NextIsFutureSlot(s.strTms, now);
    NextIsFutureSlot(Erase(s.strTms, used), now);
  }

  lemma OneShotCommand(s: Sched, cmd: Cmd, now: nat, clock: nat)
    requires StartsInOrder(s, clock) && clock <= now && !cmd.Restore?
    ensures
      var s' := After(s, cmd, now);
      && StartsInOrder(s', now)
      && s'.startTime >= s.startTime
      && (Starts(s, cmd, now) ==> s'.startTime > s.startTime)
  {
    hide TickSched, CanEnable;
    if cmd.Tick? {
      OneShotTick(s, now, clock);
      assert After(s, cmd, now) == TickSched(s, now).sched;
    } else {
      hide After;
      CommandFacts(s, cmd, now);
    }
  }

  /** Strictly increasing, and above a lower bound. */
  predicate IncreasingAbove(xs: seq<nat>, low: nat) {
    && (forall k :: 0 <= k < |xs| ==> xs[k] > low)
    && (forall j, k :: 0 <= j < k < |xs| ==> xs[j] < xs[k])
  }

  lemma IncreasingCons(x: nat, xs: seq<nat>, low: nat)
    requires IncreasingAbove(xs, x) && x >= low
    ensures IncreasingAbove(xs, low) && (x > low ==> IncreasingAbove([x] + xs, low))
  {
  }

  /**
    * Under a monotone clock and without a restore, successive executions of a
    * one-shot schedule start at strictly increasing times.
    */
  lemma {:induction false} StartsIncrease(sys: System, evs: seq<Event>, i: nat, clock: nat)
    requires WellFormed(sys) && i < |sys.scheds| && NoRestore(evs) && ClockMonotone(evs, clock)
    requires StartsInOrder(sys.scheds[i], clock)
    ensures IncreasingAbove(StartsOf(sys, evs, i), sys.scheds[i].startTime)
    decreases |evs|
  {
    hide After, Informed, StartsInOrder, IncreasingAbove;
    if evs != [] {
      var ev := evs[0];
      StepOnSchedule(sys, ev, i);
      if ev.OnSched? && ev.i == i {
        OneShotCommand(sys.scheds[i], ev.cmd, ev.now, clock);
      } else {
        LaterClock(sys.scheds[i], clock, ev.now);
      }
      var rest := StartsOf(Step(sys, ev), evs[1..], i);
      StartsIncrease(Step(sys, ev), evs[1..], i, ev.now);
      IncreasingCons(Next(sys, ev, i).startTime, rest, sys.scheds[i].startTime);
      assert [] + rest == rest;
    } else {
      NothingIncreases(sys.scheds[i].startTime);
    }
  }

  lemma NothingIncreases(low: nat)
    ensures IncreasingAbove([], low)
  {
  }

  lemma LaterClock(s: Sched, clock: nat, later: nat)
    requires StartsInOrder(s, clock) && clock <= later
    ensures StartsInOrder(s, later)
  {
  }

  ghost predicate NoStrTmWrites(evs: seq<Event>, i: nat) {
    forall k :: 0 <= k < |evs| && evs[k].OnSched? && evs[k].i == i ==> !evs[k].cmd.SetStrTm? && !evs[k].cmd.Restore?
  }

  /** A pending start is one of the slots. */
  predicate StartFromSlot(s: Sched) {
    && !s.cfg.periodic
    && (s.nextStartTime != 0 ==> exists k :: 0 <= k < |s.strTms| && SlotTime(s.strTms[k]) == s.nextStartTime)
  }

  lemma TickConsumes(s: Sched, now: nat)
    requires StartFromSlot(s)
    ensures
      var s' := TickSched(s, now).sched;
      && StartFromSlot(s')
      && Pending(s'.strTms) <= Pending(s.strTms)
      && (s.state != Running && s'.state == Running ==> Pending(s'.strTms) < Pending(s.strTms))
  {
    hide CurrentIdx, Entry, NextOneShot, Pending, Erase, IntervalMs, ShowNext, ShowAct;
    var used := if s.nextStartTime == 0 then NextOneShot(s.strTms, now) else s.nextStartTime;
    NextIsFutureSlot(s.strTms, now);
    NextIsFutureSlot(Erase(s.strTms, used), now);
    EraseReducesPending(s.strTms, used);
  }

  lemma CalendarConsumesNothing(s: Sched, cmd: Cmd, now: nat)
    requires StartFromSlot(s) && cmd.SetCalendar?
    ensures StartFromSlot(After(s, cmd, now)) && Pending(After(s, cmd, now).strTms) == Pending(s.strTms)
  {
    hide Pending;
    if cmd.slot < |s.strTms| {
      CalendarKeepsPending(s.strTms, cmd.slot, cmd.cal);
      var s' := After(s, cmd, now);
      assert forall k :: 0 <= k < |s.strTms| ==> SlotTime(s'.strTms[k]) == SlotTime(s.strTms[k]);
    }
  }

  lemma OneShotConsumes(s: Sched, cmd: Cmd, now: nat)
    requires StartFromSlot(s) && !cmd.SetStrTm? && !cmd.Restore?
    ensures
      var s' := After(s, cmd, now);
      && StartFromSlot(s')
      && Pending(s'.strTms) <= Pending(s.strTms)
      && (Starts(s, cmd, now) ==> Pending(s'.strTms) < Pending(s.strTms))
  {
    hide TickSched, Pending, CanEnable;
    if cmd.Tick? {
      TickConsumes(s, now);
      assert After(s, cmd, now) == TickSched(s, now).sched;
    } else {
      hide After;
      CommandFacts(s, cmd, now);
      if cmd.SetCalendar? {
        CalendarConsumesNothing(s, cmd, now);
      }
    }
  }

  lemma {:induction false} CalendarKeepsPending(slots: seq<StrTm>, k: nat, cal: SetCal)
    requires k < |slots|
    ensures Pending(slots[k := slots[k].(setCal := Some(cal))]) == Pending(slots)
  {
    var n := |slots| - 1;
    var changed := slots[k := slots[k].(setCal := Some(cal))];
    if k < n {
      CalendarKeepsPending(slots[..n], k, cal);
      assert changed[..n] == slots[..n][k := slots[..n][k].(setCal := Some(cal))];
    } else {
      assert changed[..n] == slots[..n];
    }
  }

  /**
    * Without start time writes a one-shot schedule starts at most as often as it
    * has pending slots, beginning with no start already latched.
    */
  lemma {:induction false} StartsBounded(sys: System, evs: seq<Event>, i: nat)
    requires WellFormed(sys) && i < |sys.scheds| && NoStrTmWrites(evs, i) && StartFromSlot(sys.scheds[i])
    ensures |StartsOf(sys, evs, i)| + Pending(Run(sys, evs).scheds[i].strTms) <= Pending(sys.scheds[i].strTms)
    decreases |evs|
  {
    hide After, Informed, StartFromSlot, Pending;
    if evs != [] {
      var ev := evs[0];
      StepOnSchedule(sys, ev, i);
      if ev.OnSched? && ev.i == i {
        OneShotConsumes(sys.scheds[i], ev.cmd, ev.now);
      }
      StartsBounded(Step(sys, ev), evs[1..], i);
    }
  }

  // ---- Division by the interval ----

  /** The tick starts the schedule, and the interval it latches is zero: C divides by zero. */
  predicate StartDividesByZero(s: Sched, now: nat) {
    s.state == Ready && TickSched(s, now).sched.state == Running && TickSched(s, now).sched.entryDurationInMs == 0
  }

  /** A start divides by zero exactly when the interval reads as a multiple of 2^32 milliseconds. */
  lemma ZeroInterval(s: Sched, now: nat)
    requires s.state == Ready && TickSched(s, now).sched.state == Running
    ensures StartDividesByZero(s, now) <==> IntervalMs(s) % TWO_32 == 0
  {
    hide NextStart, GetMs;
    var latched := TickSched(s, now).sched.entryDurationInMs;
    assert latched == Int32(IntervalMs(s));
    assert (IntervalMs(s) - latched) % TWO_32 == 0;
  }

  /** The same, told from SchdIntv alone: value, unit and multiplier. */
  lemma ZeroIntervalAttributes(s: Sched, now: nat)
    requires s.state == Ready && TickSched(s, now).sched.state == Running
    requires s.schdIntv >= 0 && InRange(s.schdIntv, s.cfg.siUnit, s.cfg.multiplier)
    ensures
      var x := s.schdIntv * UnitMs(s.cfg.siUnit);
      StartDividesByZero(s, now)
      <==> if s.cfg.multiplier >= 0 then (x * Pow10(s.cfg.multiplier)) % TWO_32 == 0 else x < Pow10(-s.cfg.multiplier)
  {
    hide TickSched, GetMs, StartDividesByZero;
    ZeroInterval(s, now);
    NarrowsToZero(s.schdIntv, s.cfg.siUnit, s.cfg.multiplier);
  }

  /** Writing 0 to SchdIntv of a schedule that is about to start makes its start divide by zero. */
  lemma ZeroWriteDivides(s: Sched, written: nat, now: nat)
    requires s.state == Ready && s.rights.intv && 0 < s.nextStartTime < now
    ensures StartDividesByZero(After(s, SetIntv(0), written), now)
  {
    hide NextStart, Erase;
    ZeroReads(s.cfg.siUnit, s.cfg.multiplier);
  }

  lemma ZeroReads(siUnit: int, multiplier: int)
    ensures GetMs(0, siUnit, multiplier) == 0
  {
    assert 0 * UnitMs(siUnit) == 0;
  }

  /**
    * Enabling rules out the value 0 only: the start of a schedule that passed all
    * its checks divides by zero exactly under the same condition.
    */
  lemma EnablingAdmitsZero(s: Sched, enabled: nat, now: nat)
    requires CanEnable(s, enabled) && TickSched(Enabled(s, enabled), now).sched.state == Running
    requires InRange(s.schdIntv, s.cfg.siUnit, s.cfg.multiplier)
    ensures s.schdIntv > 0
    ensures
      var x := s.schdIntv * UnitMs(s.cfg.siUnit);
      StartDividesByZero(Enabled(s, enabled), now)
      <==> if s.cfg.multiplier >= 0 then (x * Pow10(s.cfg.multiplier)) % TWO_32 == 0 else x < Pow10(-s.cfg.multiplier)
  {
    hide TickSched, StartDividesByZero, TriggerValid, Enabled, NextStart, ShowNext, GetMs;
    EnabledWhenReady(s, enabled);
    ZeroIntervalAttributes(Enabled(s, enabled), now);
  }

  /** It cannot happen for a positive interval of whole milliseconds that fits an `int`. */
  lemma SaneIntervalNeverZero(s: Sched, now: nat)
    requires s.schdIntv > 0 && s.cfg.multiplier >= -3
    requires InRange(s.schdIntv, s.cfg.siUnit, s.cfg.multiplier) && IntervalMs(s) < TWO_32
    ensures !StartDividesByZero(s, now)
  {
    hide TickSched, GetMs;
    GetIsLinear(s.schdIntv, s.cfg.siUnit, s.cfg.multiplier);
    Monotone(1, s.schdIntv, StepMs(s.cfg.siUnit, s.cfg.multiplier));
    if s.state == Ready && TickSched(s, now).sched.state == Running {
      ZeroInterval(s, now);
    }
  }

  // ---- Intervals and durations in plain numbers ----

  /** What a schedule plays with, told from its attributes. */
  lemma IntervalFromAttributes(s: Sched)
    requires s.schdIntv >= 0 && s.cfg.multiplier >= -3 && InRange(s.schdIntv, s.cfg.siUnit, s.cfg.multiplier)
    ensures IntervalMs(s) == s.schdIntv * StepMs(s.cfg.siUnit, s.cfg.multiplier)
    ensures s.numEntr >= 0 && s.numEntr * IntervalMs(s) < TWO_31 && IntervalMs(s) < TWO_31 ==>
      ProductMs(s) == s.numEntr * (s.schdIntv * StepMs(s.cfg.siUnit, s.cfg.multiplier))
  {
    hide GetMs;
    GetIsLinear(s.schdIntv, s.cfg.siUnit, s.cfg.multiplier);
    if s.numEntr >= 0 {
      Monotone(0, s.numEntr, IntervalMs(s));
      assert IntervalMs(s) * s.numEntr == s.numEntr * IntervalMs(s);
    }
  }

  /**
    * The next start of a periodic schedule with one hourly rule: at minute mn,
    * within the next hour, or in an execution of NumEntr intervals still going on.
    */
  lemma NextHourlyStart(s: Sched, cal: SetCal, now: nat)
    requires s.cfg.periodic && s.strTms != [] && Hourly(cal)
    requires forall k :: 0 <= k < |s.strTms| ==> s.strTms[k].setCal == Some(cal)
    requires s.numEntr >= 0 && s.numEntr * IntervalMs(s) < TWO_31 && IntervalMs(s) < TWO_31
    requires HOUR_MS <= now < TWO_64 - TWO_32
    ensures IsHourlyStart(NextStart(s, now), cal, now, s.cfg.utcOffset, s.numEntr * IntervalMs(s))
  {
    hide GetMs, NextPeriodic, IsHourlyStart;
    Monotone(0, s.numEntr, IntervalMs(s));
    assert IntervalMs(s) * s.numEntr == s.numEntr * IntervalMs(s);
    IdenticalHourlySlots(s.strTms, cal, now, s.cfg.utcOffset, s.numEntr * IntervalMs(s));
  }
}
