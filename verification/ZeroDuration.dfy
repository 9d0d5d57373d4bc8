// Division by zero beyond a start: which running schedules divide by a zero
// entry duration when their current entry is computed next, over whole runs with
// starts, writes and restores.
module ZeroDuration {
  import opened CTypes
  import opened Types
  import opened Names
  import opened Interval
  import opened StartTimes
  import opened ScheduleSpec
  import opened StorageSpec
  import opened StorageProps
  import opened SystemSpec
  import opened ScheduleProps

  /** schedule_getCurrentIdx divides by zero for this schedule. */
  predicate Divides(s: Sched) {
    s.state == Running && UInt64(s.entryDurationInMs) == 0
  }

  // ---- Restoring ----

  /** The interval and the state of a JSON object make the schedule run with a zero duration. */
  predicate RestoresZero(s: Sched, j: Json) {
    && RestoreHead(s, j).1 && ValueInt(Item(j, "schdIntv").value) == 0
    && (if Restored(s, j).1 then StateFromString(Item(j, "state").value.s) == Running else s.state == Running)
  }

  lemma ValueIntIsInt(j: Json)
    ensures INT_MIN <= ValueInt(j) <= INT_MAX
  {
  }

  /** Restoring any JSON object, a broken one included, into a schedule that does not divide yet. */
  lemma RestoreDivides(s: Sched, j: Json)
    requires !Divides(s)
    ensures Divides(Restored(s, j).0) <==> RestoresZero(s, j)
  {
    hide HasArr, ValueInt, PutValues, PutStartTimes, SetVal, StateFromString, ValueUInt64, ShowAct;
    if RestoreHead(s, j).1 {
      ValueIntIsInt(Item(j, "schdIntv").value);
    }
  }

  /**
    * A snapshot restores to a schedule that divides by zero exactly when it was
    * taken while running, with an attribute that reads as zero - whatever interval
    * the execution itself had latched.
    */
  lemma SnapshotDivides(s: Sched, into: Sched)
    requires SameModel(s, into) && Storable(s)
    ensures Divides(Restored(into, Snapshot(s)).0) <==> s.state == Running && IntervalMs(s) == 0
  {
    hide Snapshot, Restored, Storable, SameModel, GetMs;
    SnapshotRoundTrip(s, into);
    StorableInterval(s);
  }

  /** The attributes for which it does. */
  lemma SnapshotDividesAttributes(s: Sched, into: Sched)
    requires SameModel(s, into) && Storable(s)
    ensures Divides(Restored(into, Snapshot(s)).0)
            <==> s.state == Running
                 && (s.schdIntv == 0
                     || (s.cfg.multiplier < 0 && s.schdIntv * UnitMs(s.cfg.siUnit) < Pow10(-s.cfg.multiplier)))
  {
    hide Snapshot, Restored, SameModel, GetMs, Divides, ValueCount, SlotStorable;
    SnapshotDivides(s, into);
    ReadsZero(s.schdIntv, s.cfg.siUnit, s.cfg.multiplier);
  }

  /** Writing 0 to SchdIntv of a running schedule leaves the execution alone; saved and restored, it divides by zero. */
  lemma ZeroWriteThenRestart(s: Sched, written: nat, into: Sched)
    requires s.state == Running && s.rights.intv && SameModel(s, into) && Storable(s)
    ensures
      var t := After(s, SetIntv(0), written);
      && t.state == Running && t.entryDurationInMs == s.entryDurationInMs
      && SameModel(t, into) && Storable(t)
      && Divides(Restored(into, Snapshot(t)).0)
  {
    hide Snapshot, Restored, GetMs, Divides, ValueAttr, ValueCount, SlotStorable, DistinctSlots;
    ZeroReads(s.cfg.siUnit, s.cfg.multiplier);
    ZeroFits(s.cfg.siUnit, s.cfg.multiplier);
    var t := After(s, SetIntv(0), written);
    assert forall k :: Entry(t, k) == Entry(s, k);
    SnapshotDivides(t, into);
  }

  lemma ZeroFits(siUnit: int, multiplier: int)
    ensures InRange(0, siUnit, multiplier)
    ensures multiplier < 0 ==> (0 * UnitMs(siUnit)) % Pow10(-multiplier) == 0
  {
    assert 0 * UnitMs(siUnit) == 0;
  }

  // ---- Every event ----

  /** The two events that make a schedule divide by zero: a start and a restore. */
  predicate ZeroEvent(s: Sched, cmd: Cmd, now: nat) {
    match cmd
    case Tick => StartDividesByZero(s, now)
    case Restore(j) => RestoresZero(s, j)
    case _ => false
  }

  lemma TickDivides(s: Sched, now: nat)
    requires !Divides(s)
    ensures Divides(TickSched(s, now).sched) <==> StartDividesByZero(s, now)
  {
    hide NextStart, CurrentIdx, Entry, Erase, GetMs, ShowNext, ShowAct;
  }

  lemma EventDivides(s: Sched, cmd: Cmd, now: nat)
    requires !Divides(s)
    ensures Divides(After(s, cmd, now)) <==> ZeroEvent(s, cmd, now)
  {
    hide TickSched, Restored, StartDividesByZero, RestoresZero, Enabled, GenericError, CanEnable;
    match cmd {
      case Tick => TickDivides(s, now);
      case Restore(j) => RestoreDivides(s, j);
      case _ => CommandFacts(s, cmd, now);
    }
  }

  // ---- Every run ----

  /** No state of the run, the first and the last included, divides by zero. */
  ghost predicate NeverDivides(sys: System, evs: seq<Event>, i: nat)
    requires WellFormed(sys) && i < |sys.scheds|
    decreases |evs|
  {
    && !Divides(sys.scheds[i])
    && (evs != [] ==> (StepWellFormed(sys, evs[0]); NeverDivides(Step(sys, evs[0]), evs[1..], i)))
  }

  ghost predicate NoZeroEvent(sys: System, evs: seq<Event>, i: nat)
    requires WellFormed(sys) && i < |sys.scheds|
    decreases |evs|
  {
    evs != [] ==>
      && (evs[0].OnSched? && evs[0].i == i ==> !ZeroEvent(sys.scheds[i], evs[0].cmd, evs[0].now))
      && (StepWellFormed(sys, evs[0]); NoZeroEvent(Step(sys, evs[0]), evs[1..], i))
  }

  /**
    * Main result: over every run, restores included, a schedule never divides by
    * zero exactly when no start latches a zero interval and no restore brings one
    * into a running schedule.
    */
  lemma {:induction false} NeverDividesExactly(sys: System, evs: seq<Event>, i: nat)
    requires WellFormed(sys) && i < |sys.scheds| && !Divides(sys.scheds[i])
    ensures NeverDivides(sys, evs, i) <==> NoZeroEvent(sys, evs, i)
    decreases |evs|
  {
    hide After, Informed, ZeroEvent, Divides, Step;
    if evs != [] {
      var ev, next := evs[0], Step(sys, evs[0]);
      StepOnSchedule(sys, ev, i);
      if ev.OnSched? && ev.i == i {
        EventDivides(sys.scheds[i], ev.cmd, ev.now);
      }
      if !Divides(next.scheds[i]) {
        NeverDividesExactly(next, evs[1..], i);
      }
    }
  }
}
