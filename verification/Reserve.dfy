// The reserve schedule: hourly, at least an hour long, and out of reach of
// remote control. It never drops out of READY and RUNNING.
module Reserve {
  import opened CTypes
  import opened Types
  import opened Interval
  import opened StartTimes
  import opened ScheduleSpec
  import opened SystemSpec
  import opened ScheduleProps

  /** Every start time rule is "each hour, at minute 0". */
  ghost predicate OnTheHour(slots: seq<StrTm>) {
    && slots != []
    && exists cal :: Hourly(cal) && cal.mn == 0 && forall k :: 0 <= k < |slots| ==> slots[k].setCal == Some(cal)
  }

  /** A reserve schedule that is up. */
  ghost predicate IsReserve(s: Sched) {
    && s.cfg.periodic && OnTheHour(s.strTms)
    && !s.rights.control && !s.rights.strTm
    && HOUR_MS <= ProductMs(s)
    && s.state in {Ready, Running}
  }

  /** Enabling such a schedule, out of reach of remote control, makes it a reserve schedule. */
  lemma EnablingMakesReserve(s: Sched, now: nat)
    requires CanEnable(s, now) && s.cfg.periodic && OnTheHour(s.strTms)
    requires !s.rights.control && !s.rights.strTm
    requires HOUR_MS <= ProductMs(s)
    ensures IsReserve(Enabled(s, now))
  {
    hide CanEnable, Enabled, NextStart, ShowNext, GetMs, OnTheHour;
    EnabledWhenReady(s, now);
  }

  /** The clock is in a range where no time arithmetic wraps. */
  predicate ClockSane(now: nat) {
    HOUR_MS <= now < TWO_64 - TWO_32
  }

  /** The next start of a reserve schedule is never in the future, and never missing. */
  lemma ReserveNextStart(s: Sched, now: nat)
    requires s.cfg.periodic && OnTheHour(s.strTms) && HOUR_MS <= ProductMs(s) && ClockSane(now)
    ensures 0 < NextStart(s, now) <= now
  {
    hide CalendarStart, LocalMinute, ProductMs, NextPeriodic;
    var cal :| Hourly(cal) && cal.mn == 0 && forall k :: 0 <= k < |s.strTms| ==> s.strTms[k].setCal == Some(cal);
    assert ProductMs(s) < TWO_31 by { ProductBelow(s); }
    IdenticalHourlySlots(s.strTms, cal, now, s.cfg.utcOffset, ProductMs(s));
    CalendarStartHourly(cal, now, s.cfg.utcOffset);
    assert LocalMinute(now, s.cfg.utcOffset) >= 0 by { MinuteNonNegative(now, s.cfg.utcOffset); }
  }

  lemma ProductBelow(s: Sched)
    ensures ProductMs(s) < TWO_31
  {
    hide IntervalMs;
  }

  lemma MinuteNonNegative(t: nat, offset: int)
    ensures LocalMinute(t, offset) >= 0
  {
  }

  lemma ErasedOnTheHour(slots: seq<StrTm>, used: nat)
    requires OnTheHour(slots)
    ensures OnTheHour(Erase(slots, used))
  {
    var cal :| Hourly(cal) && cal.mn == 0 && forall k :: 0 <= k < |slots| ==> slots[k].setCal == Some(cal);
    assert forall k :: 0 <= k < |slots| ==> Erase(slots, used)[k].setCal == Some(cal);
  }

  lemma ReserveStart(s: Sched, now: nat)
    requires IsReserve(s) && ClockSane(now)
    ensures IsReserve(Started(s, now)) && Started(s, now).nextStartTime <= now
  {
    hide NextStart, Erase, OnTheHour, GetMs, ShowNext, ShowAct;
    var latched := s.(startTime := s.nextStartTime, entryDurationInMs := Int32(IntervalMs(s)),
                      numberOfScheduleEntries := s.numEntr, currentEntryIdx := -2,
                      strTms := Erase(s.strTms, s.nextStartTime));
    ErasedOnTheHour(s.strTms, s.nextStartTime);
    assert ProductMs(latched) == ProductMs(s);
    ReserveNextStart(latched, now);
  }

  lemma ReserveEnd(s: Sched, now: nat)
    requires IsReserve(s) && ClockSane(now)
    ensures IsReserve(Ended(s, now)) && Ended(s, now).state == Ready && Ended(s, now).nextStartTime <= now
  {
    hide NextStart, OnTheHour, GetMs, ShowNext, ShowAct;
    ReserveNextStart(s, now);
    assert ProductMs(Ended(s, now)) == ProductMs(s);
  }

  lemma ReserveRunningTick(s: Sched, now: nat)
    requires IsReserve(s) && s.state == Running && ClockSane(now)
    ensures IsReserve(TickSched(s, now).sched)
    ensures s.nextStartTime <= now ==> TickSched(s, now).sched.nextStartTime <= now
  {
    hide NextStart, CurrentIdx, Entry, OnTheHour, GetMs, Ended;
    ReserveEnd(s, now);
    assert ProductMs(TickSched(s, now).sched) == ProductMs(s) || CurrentIdx(s, now) == -1;
  }

  /** A tick in READY starts a start that has passed, and waits for any other. */
  lemma ReserveReadyTick(s: Sched, now: nat)
    requires IsReserve(s) && s.state == Ready && ClockSane(now)
    ensures
      var s' := TickSched(s, now).sched;
      && IsReserve(s')
      && (s.nextStartTime <= now ==> s'.nextStartTime <= now)
      && (0 < s.nextStartTime < now ==> s'.state == Running)
      && (s'.state == Ready ==>
            now <= s'.nextStartTime && (s'.nextStartTime == s.nextStartTime || s.nextStartTime == 0))
      && (now <= s.nextStartTime && s.nextStartTime > 0 ==> s' == s)
  {
    hide NextStart, OnTheHour, GetMs, Started;
    var armed := if s.nextStartTime == 0 then s.(nextStartTime := NextStart(s, now)) else s;
    ReserveNextStart(s, now);
    assert ProductMs(armed) == ProductMs(s);
    ReserveStart(armed, now);
    StartedRuns(armed, now);
  }

  lemma ReserveTick(s: Sched, now: nat)
    requires IsReserve(s) && ClockSane(now)
    ensures IsReserve(TickSched(s, now).sched)
    ensures s.nextStartTime <= now ==> TickSched(s, now).sched.nextStartTime <= now
  {
    hide TickSched, OnTheHour, ProductMs;
    if s.state == Ready { ReserveReadyTick(s, now); } else { ReserveRunningTick(s, now); }
  }

  /** Events a reserve schedule `i` is exposed to: ticks, remote commands, and writes it refuses or does not mind. */
  predicate ReserveEvent(ev: Event, i: nat) {
    ev.OnSched? && ev.i == i ==>
      && ClockSane(ev.now)
      && match ev.cmd {
           case Tick | EnaReqCmd(_, _) | DsaReqCmd(_, _) => true
           case SetStrTm(_, _) | SetCalendar(_, _) => true
           case SetPrio(_) | SetReuse(_) | SetValue(_, _) | AllowPrio(_) | AllowReuse(_) => true
           case _ => false
         }
  }

  lemma ReserveCommand(s: Sched, ev: Event, i: nat)
    requires IsReserve(s) && ev.OnSched? && ev.i == i && ReserveEvent(ev, i)
    ensures IsReserve(After(s, ev.cmd, ev.now))
    ensures s.nextStartTime <= ev.now ==> After(s, ev.cmd, ev.now).nextStartTime <= ev.now
  {
    hide OnTheHour, GetMs, TickSched;
    if ev.cmd.Tick? {
      ReserveTick(s, ev.now);
    } else {
      assert ProductMs(After(s, ev.cmd, ev.now)) == ProductMs(s);
    }
  }

  /**
    * Main result: from READY or RUNNING, whatever ticks, remote commands and
    * harmless writes happen to it, and whatever happens to other schedules, a
    * reserve schedule stays READY or RUNNING.
    */
  lemma {:induction false} NeverDropsOut(sys: System, evs: seq<Event>, i: nat)
    requires WellFormed(sys) && i < |sys.scheds| && IsReserve(sys.scheds[i])
    requires forall k :: 0 <= k < |evs| ==> ReserveEvent(evs[k], i)
    ensures Run(sys, evs).scheds[i].state in {Ready, Running} && IsReserve(Run(sys, evs).scheds[i])
    decreases |evs|
  {
    hide After, Informed, ReserveEvent, IsReserve;
    if evs == [] {
      ReserveIsUp(sys.scheds[i]);
    } else {
      var ev := evs[0];
      StepOnSchedule(sys, ev, i);
      if ev.OnSched? && ev.i == i {
        ReserveCommand(sys.scheds[i], ev, i);
      }
      NeverDropsOut(Step(sys, ev), evs[1..], i);
    }
  }

  lemma ReserveIsUp(s: Sched)
    requires IsReserve(s)
    ensures s.state in {Ready, Running}
  {
  }

  function ClockAfter(evs: seq<Event>, clock: nat): nat {
    if evs == [] then clock else evs[|evs| - 1].now
  }

  /** Once its next start is not ahead of the clock, it never gets ahead of it. */
  lemma {:induction false} NextStartStaysDue(sys: System, evs: seq<Event>, i: nat, clock: nat)
    requires WellFormed(sys) && i < |sys.scheds| && IsReserve(sys.scheds[i]) && sys.scheds[i].nextStartTime <= clock
    requires ClockMonotone(evs, clock) && forall k :: 0 <= k < |evs| ==> ReserveEvent(evs[k], i)
    ensures Run(sys, evs).scheds[i].nextStartTime <= ClockAfter(evs, clock)
    decreases |evs|
  {
    hide After, Informed, ReserveEvent, IsReserve;
    if evs != [] {
      var ev := evs[0];
      StepOnSchedule(sys, ev, i);
      if ev.OnSched? && ev.i == i {
        ReserveCommand(sys.scheds[i], ev, i);
      }
      NextStartStaysDue(Step(sys, ev), evs[1..], i, ev.now);
    }
  }

  /** From READY it runs within two ticks exactly when its latched start, if any, lies before the second one. */
  lemma RunsWithinTwoTicks(s: Sched, t1: nat, t2: nat)
    requires IsReserve(s) && s.state == Ready && t1 < t2 && ClockSane(t1) && ClockSane(t2)
    ensures
      var first := TickSched(s, t1).sched;
      first.state == Running || TickSched(first, t2).sched.state == Running <==> s.nextStartTime < t2
  {
    hide NextStart, CurrentIdx, Entry, OnTheHour, GetMs, TickSched;
    ReserveReadyTick(s, t1);
    var first := TickSched(s, t1).sched;
    if first.state == Ready {
      ReserveReadyTick(first, t2);
    }
  }

  /** So it is up again within two ticks at any point of a run that began with no start ahead. */
  lemma RunsAgainWithinTwoTicks(sys: System, evs: seq<Event>, i: nat, clock: nat, t1: nat, t2: nat)
    requires WellFormed(sys) && i < |sys.scheds| && IsReserve(sys.scheds[i]) && sys.scheds[i].nextStartTime <= clock
    requires ClockMonotone(evs, clock) && forall k :: 0 <= k < |evs| ==> ReserveEvent(evs[k], i)
    requires ClockAfter(evs, clock) <= t1 < t2 && ClockSane(t1) && ClockSane(t2)
    ensures
      var s := Run(sys, evs).scheds[i];
      var first := TickSched(s, t1).sched;
      s.state == Running || first.state == Running || TickSched(first, t2).sched.state == Running
  {
    hide IsReserve, TickSched, ReserveEvent, Run, ClockMonotone;
    NeverDropsOut(sys, evs, i);
    NextStartStaysDue(sys, evs, i, clock);
    var s := Run(sys, evs).scheds[i];
    if s.state == Ready {
      RunsWithinTwoTicks(s, t1, t2);
    }
  }
}
