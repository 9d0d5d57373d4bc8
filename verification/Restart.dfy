// A restart in the middle of an execution: which entry the restored schedule is
// at, told from what happened to the schedule since it started.
module Restart {
  import opened CTypes
  import opened Types
  import opened Names
  import opened Interval
  import opened StartTimes
  import opened ScheduleSpec
  import opened StorageSpec
  import opened StorageProps
  import opened SystemSpec
  import opened ScheduleProps

  /** SchdIntv and NumEntr of schedule `i` are not written, neither by a client nor by a restore. */
  ghost predicate NoParameterWrites(evs: seq<Event>, i: nat) {
    forall k :: 0 <= k < |evs| && evs[k].OnSched? && evs[k].i == i ==>
      !evs[k].cmd.SetIntv? && !evs[k].cmd.SetNumEntr? && !evs[k].cmd.Restore?
  }

  /** While it runs, it runs with the interval and the entry count of its attributes. */
  ghost predicate OwnParameters(s: Sched) {
    s.state == Running ==> s.entryDurationInMs == Int32(IntervalMs(s)) && s.numberOfScheduleEntries == s.numEntr
  }

  /** A start latches the parameters; the rest of a tick leaves them alone. */
  lemma TickKeepsOwn(s: Sched, now: nat)
    requires OwnParameters(s)
    ensures OwnParameters(TickSched(s, now).sched)
  {
    hide NextStart, CurrentIdx, Entry, Erase, GetMs, ShowNext, ShowAct;
  }

  lemma EnablingKeepsOwn(s: Sched, now: nat)
    requires OwnParameters(s)
    ensures OwnParameters(Enabled(s, now)) && OwnParameters(GenericChecked(s))
  {
    hide CanEnable, GenericError, NextStart, GetMs;
  }

  lemma CommandKeepsOwn(s: Sched, cmd: Cmd, now: nat)
    requires OwnParameters(s) && !cmd.SetIntv? && !cmd.SetNumEntr? && !cmd.Restore?
    ensures OwnParameters(After(s, cmd, now))
  {
    hide TickSched, Enabled, GenericError, CanEnable, GetMs;
    TickKeepsOwn(s, now);
    EnablingKeepsOwn(s, now);
  }

  lemma {:induction false} RunKeepsOwn(sys: System, evs: seq<Event>, i: nat)
    requires WellFormed(sys) && i < |sys.scheds| && NoParameterWrites(evs, i) && OwnParameters(sys.scheds[i])
    ensures OwnParameters(Run(sys, evs).scheds[i])
    decreases |evs|
  {
    hide After, Informed, OwnParameters;
    if evs != [] {
      StepOnSchedule(sys, evs[0], i);
      if evs[0].OnSched? && evs[0].i == i {
        CommandKeepsOwn(sys.scheds[i], evs[0].cmd, evs[0].now);
      }
      RunKeepsOwn(Step(sys, evs[0]), evs[1..], i);
    }
  }

  /** Restoring touches values only; which names there are stays as it was. */
  lemma RestoredNames(s: Sched, into: Sched)
    requires SameModel(s, into) && Storable(s)
    ensures
      var r := Restored(into, Snapshot(s)).0;
      r.cfg == s.cfg && SameNames(s.values, r.values)
  {
    hide Snapshot, RestoreHead, PutStartTimes, ValueItems, SlotItems, StateString, StateFromString;
    hide ToDouble, ValueUInt64, ValueCount, GetMs, Storable;
    SnapshotItems(s);
    HeadSurvives(s, into);
  }

  /** Every entry, whatever its number, is the one that was saved. */
  lemma EntriesSurvive(s: Sched, into: Sched, k: int)
    requires SameModel(s, into) && Storable(s) && (k >= 0 || Unsigned(s.values))
    ensures Entry(Restored(into, Snapshot(s)).0, k) == Entry(s, k)
  {
    hide Snapshot, Restored, ValueCount, LookupIdx, SameModel, GetMs, IsInt, SlotStorable, DistinctSlots;
    var count := ValueCount(s.values, s.cfg.targetType);
    var r := Restored(into, Snapshot(s)).0;
    RestoredNames(s, into);
    if 1 <= k <= count {
      SnapshotRoundTrip(s, into);
    } else if !s.cfg.targetType.UnknownTarget? {
      NothingElse(s.values, s.cfg.targetType, k);
      LookupByName(s.values, r.values, ValuePrefix(s.cfg.targetType), k);
    }
  }

  /** What a snapshot of a running schedule brings back of its execution. */
  lemma ExecutionSurvives(s: Sched, into: Sched, now: nat)
    requires s.state == Running && OwnParameters(s) && SameModel(s, into) && Storable(s)
    ensures
      var r := Restored(into, Snapshot(s)).0;
      && r.state == Running && r.prio == s.prio && r.startTime == s.startTime
      && r.currentEntryIdx == into.currentEntryIdx
      && CurrentIdx(r, now) == CurrentIdx(s, now)
      && (CurrentIdx(s, now) >= -1 || Unsigned(s.values) ==> CurrentValue(r, now) == CurrentValue(s, now))
  {
    hide Snapshot, Restored, Storable, SameModel, GetMs, CurrentIdx, Entry, ValueCount, Unsigned;
    SnapshotRoundTrip(s, into);
    IndexSurvives(s, into, now);
    IndexKept(s, into);
    if CurrentIdx(s, now) >= -1 || Unsigned(s.values) {
      EntriesSurvive(s, into, CurrentIdx(s, now) + 1);
    }
  }

  lemma IndexKept(s: Sched, into: Sched)
    ensures Restored(into, Snapshot(s)).0.currentEntryIdx == into.currentEntryIdx
    ensures Restored(into, Snapshot(s)).0.shown.schdEntr == into.shown.schdEntr
  {
    hide Snapshot, PutValues, PutStartTimes, StateFromString, ValueInt, ValueUInt64, SetVal;
  }

  /**
    * Main result: take any run that finds the schedule not running and in which
    * SchdIntv and NumEntr are not written - for example one that begins with the
    * tick that starts it. Saved at the end, while it runs, and restored into a
    * schedule of the same model, it runs, and at every time it is at the entry,
    * and has the value, of the schedule that never stopped.
    */
  lemma {:induction false} PlaybackSurvivesRestart(sys: System, evs: seq<Event>, i: nat, into: Sched, now: nat)
    requires WellFormed(sys) && i < |sys.scheds|
    requires sys.scheds[i].state != Running && NoParameterWrites(evs, i)
    requires
      var s := Run(sys, evs).scheds[i];
      s.state == Running && SameModel(s, into) && Storable(s)
    ensures
      var s := Run(sys, evs).scheds[i];
      var r := Restored(into, Snapshot(s)).0;
      && r.state == Running && r.startTime == s.startTime
      && CurrentIdx(r, now) == CurrentIdx(s, now)
      && (CurrentIdx(s, now) >= -1 || Unsigned(s.values) ==> CurrentValue(r, now) == CurrentValue(s, now))
  {
    hide Run, Snapshot, Restored, Storable, SameModel, GetMs, CurrentIdx, CurrentValue, ValueCount, Unsigned;
    RunKeepsOwn(sys, evs, i);
    ExecutionSurvives(Run(sys, evs).scheds[i], into, now);
  }

  /**
    * What the first tick after a restart publishes: the entry of the moment, and
    * exactly when it is not the one the fresh schedule counts as published - entry
    * 0, since a new schedule starts with index 0. SchdEntr is not restored either.
    */
  lemma FirstTickAfterRestart(s: Sched, into: Sched, now: nat)
    requires s.state == Running && OwnParameters(s) && SameModel(s, into) && Storable(s)
    requires CurrentIdx(s, now) >= 0
    ensures
      var r := Restored(into, Snapshot(s)).0;
      var out := TickSched(r, now);
      && r.shown.schdEntr == into.shown.schdEntr
      && (out.published.Some? <==> CurrentIdx(s, now) != into.currentEntryIdx && CurrentValue(s, now).Some?)
      && (out.published.Some? ==>
            out.published == CurrentValue(s, now) && out.sched.shown.schdEntr == CurrentIdx(s, now) + 1)
      && (CurrentIdx(s, now) == into.currentEntryIdx ==> out.sched == r)
  {
    hide Snapshot, Restored, Storable, SameModel, GetMs, CurrentIdx, Entry, ValueCount;
    ExecutionSurvives(s, into, now);
    EntriesSurvive(s, into, CurrentIdx(s, now) + 1);
    IndexKept(s, into);
  }
}
