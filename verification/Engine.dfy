// The scheduler's objects. Each method is proved to do what the functions of
// ScheduleSpec and SystemSpec say, so the theorems about those functions are
// theorems about these objects.
module Engine {
  import opened CTypes
  import opened Types
  import opened Names
  import opened Interval
  import opened StartTimes
  import opened ScheduleSpec
  import opened StorageSpec
  import opened Election
  import Sys = SystemSpec
  import Registration
  import ScheduleProps
  import Startup

  // ---- The scheduler's list of schedules, as seen from a handler ----

  /** A schedule's `id` is its position in the scheduler's list. */
  ghost predicate Numbered(world: seq<Schedule>) {
    forall k :: 0 <= k < |world| ==> world[k].id == k
  }

  ghost predicate Listed(world: seq<Schedule>, s: Schedule) {
    s.id < |world| && world[s.id] == s
  }

  ghost function Views(world: seq<Schedule>): (r: seq<Sched>)
    reads world
    ensures |r| == |world|
    ensures forall k :: 0 <= k < |world| ==> r[k] == world[k].View()
  {
    seq(|world|, k requires 0 <= k < |world| reads world => world[k].View())
  }

  // ---- Schedule controllers ----

  class ScheduleController {
    const id: nat
    var activeSchedule: Schedule?
    var schedules: seq<Schedule>
    var schdRefs: seq<string>
    var hasControlEntity: bool
    var actSchdRef: string
    var actSchdRefQ: Quality
    var target: Option<MmsValue>
    var outputs: seq<Sys.Output>

    constructor (id: nat, schdRefs: seq<string>, hasControlEntity: bool)
      ensures this.id == id && View() == Sys.Ctl(hasControlEntity, [], schdRefs, None, "", InvalidQ, None, [])
    {
      this.id := id;
      this.activeSchedule := null;
      this.schedules := [];
      this.schdRefs := schdRefs;
      this.hasControlEntity := hasControlEntity;
      this.actSchdRef := "";
      this.actSchdRefQ := InvalidQ;
      this.target := None;
      this.outputs := [];
    }

    ghost function Members(): (r: seq<nat>)
      reads this`schedules
      ensures |r| == |schedules|
      ensures forall k :: 0 <= k < |schedules| ==> r[k] == schedules[k].id
    {
      Ids(schedules)
    }

    ghost function View(): Sys.Ctl
      reads this
    {
      Sys.Ctl(hasControlEntity, Members(), schdRefs, if activeSchedule == null then None else Some(activeSchedule.id),
              actSchdRef, actSchdRefQ, target, outputs)
    }

    /** The schedules this controller knows are the scheduler's. */
    ghost predicate Wired(world: seq<Schedule>)
      reads this
    {
      && (forall k :: 0 <= k < |schedules| ==> Listed(world, schedules[k]))
      && (activeSchedule != null ==> Listed(world, activeSchedule))
    }

    /** scheduleController_getActiveSchedule */
    method GetActiveSchedule(ghost world: seq<Schedule>) returns (best: Schedule?)
      requires Wired(world)
      ensures MembersExist(Views(world), Members())
      ensures Elect(Views(world), Members()) == if best == null then None else Some(best.id)
      ensures best != null ==> Listed(world, best)
    {
      best := null;
      ghost var ss, members := Views(world), Members();
      for k := 0 to |schedules|
        invariant best != null ==> Listed(world, best)
        invariant Elect(ss, members[..k]) == if best == null then None else Some(best.id)
      {
        assert members[..k + 1][..k] == members[..k];
        var schedule := schedules[k];
        assert Listed(world, schedule) && ss[members[k]] == schedule.View();
        if schedule.state == Running {
          if best == null {
            best := schedule;
          } else if schedule.prio > best.prio {
            best := schedule;
          } else if schedule.prio == best.prio {
            if schedule.startTime > best.startTime {
              best := schedule;
            }
          }
        }
      }
      assert members[..|members|] == members;
    }

    /** scheduleController_updateActSchdRef */
    method UpdateActSchdRef(schedule: Schedule?)
      modifies this`actSchdRef, this`actSchdRefQ
      ensures View() == old(View()).(actSchdRef := if schedule == null then "" else schedule.cfg.ref,
                                     actSchdRefQ := if schedule == null then InvalidQ else GoodQ)
    {
      if schedule != null {
        actSchdRef := schedule.cfg.ref;
        actSchdRefQ := GoodQ;
      } else {
        actSchdRef := "";
        actSchdRefQ := InvalidQ;
      }
    }

    method InitializeActSchdRef(ghost world: seq<Schedule>)
      requires Wired(world)
      modifies this`actSchdRef, this`actSchdRefQ
      ensures MembersExist(Views(world), Members())
      ensures View() == Sys.ShowRef(old(View()), Views(world), Elect(Views(world), Members()))
    {
      hide Elect, Views, Ids;
      var active := GetActiveSchedule(world);
      UpdateActSchdRef(active);
    }

    /** scheduleController_updateTargetValue */
    method UpdateTargetValue(val: Option<MmsValue>, now: nat)
      modifies this`target, this`outputs
      ensures View() == Sys.Forward(old(View()), val, now)
    {
      if hasControlEntity {
        target := val;
        outputs := outputs + [Sys.Output(val, now)];
      }
    }

    method SchedulePrioUpdated(ghost world: seq<Schedule>)
      requires Wired(world)
      modifies this
      ensures MembersExist(Views(world), old(View()).members)
      ensures View() == Sys.PrioUpdated(old(View()), Views(world))
      ensures Wired(world) && schedules == old(schedules)
    {
      hide Elect;
      var best := GetActiveSchedule(world);
      if best != null {
        if best != activeSchedule {
          activeSchedule := best;
          UpdateActSchdRef(activeSchedule);
        }
      } else {
        UpdateActSchdRef(null);
      }
    }

    method ScheduleStateUpdated(now: nat, ghost world: seq<Schedule>)
      requires Wired(world)
      modifies this
      ensures MembersExist(Views(world), old(View()).members)
      ensures View() == Sys.StateUpdated(old(View()), Views(world), now)
      ensures Wired(world) && schedules == old(schedules)
    {
      hide Elect, CurrentValue, Sys.Forward, Sys.StateUpdated, Views, Ids;
      ghost var before, ss := View(), Views(world);
      var best := GetActiveSchedule(world);
      StateUpdatedIs(before, ss, if best == null then None else Some(best.id), now);
      if best != null {
        if best != activeSchedule {
          activeSchedule := best;
          assert View() == before.(active := Some(best.id));
          var outputValue := best.GetCurrentValue(now);
          UpdateActSchdRef(activeSchedule);
          UpdateTargetValue(outputValue, now);
        } else {
          assert before.active == Some(best.id);
        }
      } else {
        UpdateActSchdRef(null);
        UpdateTargetValue(None, now);
        activeSchedule := null;
      }
      assert Views(world) == ss;
      assert View() == Sys.StateUpdated(before, ss, now);
    }

    method ScheduleValueUpdated(sched: Schedule, val: MmsValue, now: nat, ghost world: seq<Schedule>)
      requires Wired(world) && Listed(world, sched)
      modifies this
      ensures View() == Sys.ValueUpdated(old(View()), sched.id, val, now)
      ensures Wired(world) && schedules == old(schedules)
    {
      if sched == activeSchedule {
        UpdateTargetValue(Some(val), now);
      }
    }
  }

  ghost function Ids(schedules: seq<Schedule>): (r: seq<nat>)
    ensures |r| == |schedules|
    ensures forall k :: 0 <= k < |schedules| ==> r[k] == schedules[k].id
  {
    seq(|schedules|, k requires 0 <= k < |schedules| => schedules[k].id)
  }

  ghost function ControllerIds(controllers: seq<ScheduleController>): (r: seq<nat>)
    ensures |r| == |controllers|
    ensures forall k :: 0 <= k < |controllers| ==> r[k] == controllers[k].id
  {
    seq(|controllers|, k requires 0 <= k < |controllers| => controllers[k].id)
  }

  // ---- Schedules ----

  class Schedule {
    const id: nat
    const cfg: Config
    var state: ScheduleState
    var nextStartTime: nat
    var startTime: nat
    var entryDurationInMs: int
    var numberOfScheduleEntries: int
    var currentEntryIdx: int
    var prio: int
    var reuse: bool
    var numEntr: int
    var schdIntv: int
    var strTms: seq<StrTm>
    var values: seq<ValueObj>
    var rights: Rights
    var shown: Shown
    var knownScheduleControllers: seq<ScheduleController>

    /** Schedule_create: the attributes come from the data model, the rest starts cleared. */
    constructor (id: nat, cfg: Config, prio: int, reuse: bool, numEntr: int, schdIntv: int,
                 strTms: seq<StrTm>, values: seq<ValueObj>, shown: Shown)
      ensures this.id == id && knownScheduleControllers == []
      ensures View() == Sched(cfg, NotReady, 0, 0, 0, 0, 0, prio, reuse, numEntr, schdIntv, strTms, values,
                              Rights(true, true, true, true, true), ShowNext(shown, 0))
    {
      this.id := id;
      this.cfg := cfg;
      this.state := NotReady;
      this.nextStartTime := 0;
      this.startTime := 0;
      this.entryDurationInMs := 0;
      this.numberOfScheduleEntries := 0;
      this.currentEntryIdx := 0;
      this.prio := prio;
      this.reuse := reuse;
      this.numEntr := numEntr;
      this.schdIntv := schdIntv;
      this.strTms := strTms;
      this.values := values;
      this.rights := Rights(true, true, true, true, true);
      this.shown := ShowNext(shown, 0);
      this.knownScheduleControllers := [];
    }

    ghost function View(): Sched
      reads this
    {
      Sched(cfg, state, nextStartTime, startTime, entryDurationInMs, numberOfScheduleEntries, currentEntryIdx,
            prio, reuse, numEntr, schdIntv, strTms, values, rights, shown)
    }

    /** schedule_getCurrentIdx */
    method GetCurrentIdx(now: nat) returns (idx: int)
      ensures idx == CurrentIdx(View(), now)
    {
      var d := UInt64(entryDurationInMs);
      if d == 0 {
        return -1;
      }
      idx := Int32(UInt64(now - startTime) / d);
      if idx >= numberOfScheduleEntries {
        idx := -1;
      }
    }

    /** Schedule_getCurrentValue */
    method GetCurrentValue(now: nat) returns (val: Option<MmsValue>)
      ensures val == CurrentValue(View(), now)
    {
      hide CurrentIdx, ValueAttr;
      var idx := GetCurrentIdx(now);
      val := None;
      if idx != -1 {
        val := ValueAttr(values, cfg.targetType, idx + 1);
      }
    }

    /** schedule_getNextStartTime */
    method GetNextStartTime(now: nat) returns (next: nat)
      ensures next == NextStart(View(), now)
    {
      hide GetMs, NextOneShot, NextPeriodic;
      if cfg.periodic {
        var interval := Int32(GetMs(schdIntv, cfg.siUnit, cfg.multiplier));
        next := ScanPeriodic(strTms, now, cfg.utcOffset, Int32(interval * numEntr));
      } else {
        next := ScanOneShot(strTms, now);
      }
    }

    /** eraseStartTime */
    method EraseStartTime(used: nat)
      modifies this`strTms
      ensures strTms == Erase(old(strTms), used)
      ensures |strTms| == |old(strTms)| && forall k :: 0 <= k < |strTms| ==>
        && strTms[k].name == old(strTms)[k].name && strTms[k].setCal == old(strTms)[k].setCal
        && (SlotTime(old(strTms)[k]) == used ==> SlotTime(strTms[k]) == 0)
        && (SlotTime(old(strTms)[k]) != used ==> strTms[k] == old(strTms)[k])
    {
      var k := 0;
      while k < |strTms|
        invariant 0 <= k <= |strTms| == |old(strTms)|
        invariant forall j :: 0 <= j < k ==> strTms[j] == EraseSlot(old(strTms)[j], used)
        invariant forall j :: k <= j < |strTms| ==> strTms[j] == old(strTms)[j]
      {
        if strTms[k].setTm == Some(used) {
          strTms := strTms[k := strTms[k].(setTm := Some(0))];
        }
        k := k + 1;
      }
    }

    // ---- Events to the controllers ----

    /** The controllers this schedule informs belong to the system, each once. */
    ghost predicate Listening(world: seq<Schedule>)
      reads this, knownScheduleControllers
    {
      && Numbered(world) && Listed(world, this)
      && (forall j, k :: 0 <= j < k < |knownScheduleControllers| ==>
            knownScheduleControllers[j] != knownScheduleControllers[k])
      && (forall k :: 0 <= k < |knownScheduleControllers| ==> knownScheduleControllers[k].Wired(world))
    }

    method NotifyState(now: nat, ghost world: seq<Schedule>)
      requires Listening(world)
      modifies knownScheduleControllers
      ensures Listening(world)
      ensures forall c :: c in knownScheduleControllers ==>
        && c.schedules == old(c.schedules) && MembersExist(Views(world), c.Members())
        && c.View() == Sys.StateUpdated(old(c.View()), Views(world), now)
    {
      hide Sys.StateUpdated;
      for k := 0 to |knownScheduleControllers|
        invariant Views(world) == old(Views(world)) && Listening(world)
        invariant forall j :: 0 <= j < |knownScheduleControllers| ==>
          knownScheduleControllers[j].schedules == old(knownScheduleControllers[j].schedules)
        invariant forall j :: k <= j < |knownScheduleControllers| ==>
          knownScheduleControllers[j].View() == old(knownScheduleControllers[j].View())
        invariant forall j :: 0 <= j < k ==>
          && MembersExist(Views(world), old(knownScheduleControllers[j].View()).members)
          && knownScheduleControllers[j].View()
             == Sys.StateUpdated(old(knownScheduleControllers[j].View()), Views(world), now)
      {
        knownScheduleControllers[k].ScheduleStateUpdated(now, world);
      }
    }

    method NotifyPrio(ghost world: seq<Schedule>)
      requires Listening(world)
      modifies knownScheduleControllers
      ensures Listening(world)
      ensures forall c :: c in knownScheduleControllers ==>
        && c.schedules == old(c.schedules) && MembersExist(Views(world), c.Members())
        && c.View() == Sys.PrioUpdated(old(c.View()), Views(world))
    {
      hide Sys.PrioUpdated;
      for k := 0 to |knownScheduleControllers|
        invariant Views(world) == old(Views(world)) && Listening(world)
        invariant forall j :: 0 <= j < |knownScheduleControllers| ==>
          knownScheduleControllers[j].schedules == old(knownScheduleControllers[j].schedules)
        invariant forall j :: k <= j < |knownScheduleControllers| ==>
          knownScheduleControllers[j].View() == old(knownScheduleControllers[j].View())
        invariant forall j :: 0 <= j < k ==>
          && MembersExist(Views(world), old(knownScheduleControllers[j].View()).members)
          && knownScheduleControllers[j].View()
             == Sys.PrioUpdated(old(knownScheduleControllers[j].View()), Views(world))
      {
        knownScheduleControllers[k].SchedulePrioUpdated(world);
      }
    }

    /** notifyControllers */
    method NotifyValue(val: MmsValue, now: nat, ghost world: seq<Schedule>)
      requires Listening(world)
      modifies knownScheduleControllers
      ensures Listening(world)
      ensures forall c :: c in knownScheduleControllers ==>
        && c.schedules == old(c.schedules)
        && c.View() == Sys.ValueUpdated(old(c.View()), id, val, now)
    {
      hide Sys.ValueUpdated;
      for k := 0 to |knownScheduleControllers|
        invariant Listening(world)
        invariant forall j :: 0 <= j < |knownScheduleControllers| ==>
          knownScheduleControllers[j].schedules == old(knownScheduleControllers[j].schedules)
        invariant forall j :: k <= j < |knownScheduleControllers| ==>
          knownScheduleControllers[j].View() == old(knownScheduleControllers[j].View())
        invariant forall j :: 0 <= j < k ==>
          knownScheduleControllers[j].View() == Sys.ValueUpdated(old(knownScheduleControllers[j].View()), id, val, now)
      {
        knownScheduleControllers[k].ScheduleValueUpdated(this, val, now, world);
      }
    }

    /** schedule_udpateState: controllers hear of a change only. */
    method UpdateState(newState: ScheduleState, now: nat, ghost world: seq<Schedule>)
      requires Listening(world)
      modifies this`state, knownScheduleControllers
      ensures Listening(world) && state == newState
      ensures forall c :: c in knownScheduleControllers ==>
        && c.schedules == old(c.schedules) && MembersExist(Views(world), c.Members())
        && c.View() == StateNews(old(c.View()), Views(world), newState != old(state), now)
    {
      hide Sys.StateUpdated, Elect;
      if state != newState {
        state := newState;
        NotifyState(now, world);
      } else {
        forall c | c in knownScheduleControllers ensures MembersExist(Views(world), c.Members()) {
          WiredMembersExist(c, world);
        }
      }
    }

    // ---- The tick ----

    /** The parameters of the execution are those of this moment. */
    method LatchParameters()
      modifies this`startTime, this`entryDurationInMs, this`numberOfScheduleEntries, this`currentEntryIdx
      ensures startTime == nextStartTime && entryDurationInMs == Int32(IntervalMs(View()))
      ensures numberOfScheduleEntries == numEntr && currentEntryIdx == -2
    {
      hide GetMs;
      startTime := nextStartTime;
      entryDurationInMs := Int32(GetMs(schdIntv, cfg.siUnit, cfg.multiplier));
      numberOfScheduleEntries := numEntr;
      currentEntryIdx := -2;
    }

    /** READY with the start time reached: everything a start does before the state changes. */
    method StartExecution(now: nat)
      modifies this
      ensures knownScheduleControllers == old(knownScheduleControllers) && state == old(state)
      ensures View().(state := Running) == Started(old(View()), now)
    {
      hide NextStart, Erase, GetMs, ShowNext, ShowAct, Int32;
      ghost var before := View();
      LatchParameters();
      shown := ShowAct(shown, startTime);
      EraseStartTime(startTime);
      ghost var latched := View();
      nextStartTime := GetNextStartTime(now);
      shown := ShowNext(shown, nextStartTime);
      StartedFrom(before, latched, now);
    }

    /** A tick in READY: latch the next start time, and start when it has passed. */
    method TickReady(now: nat) returns (newState: ScheduleState)
      requires state == Ready
      modifies this
      ensures knownScheduleControllers == old(knownScheduleControllers)
      ensures TickSched(old(View()), now).published == None
      ensures View().(state := newState) == TickSched(old(View()), now).sched
      ensures state == Ready
    {
      hide NextStart, Started;
      newState := state;
      if nextStartTime == 0 {
        nextStartTime := GetNextStartTime(now);
      }
      if nextStartTime != 0 && now > nextStartTime {
        ghost var armed := View();
        StartExecution(now);
        newState := Running;
        StartedRuns(armed, now);
      }
    }

    /** A tick in RUNNING: publish the entry of the moment once, or wind up after the last one. */
    method TickRunning(now: nat, ghost world: seq<Schedule>) returns (newState: ScheduleState)
      requires state == Running && Listening(world)
      modifies this, knownScheduleControllers
      ensures Listening(world) && knownScheduleControllers == old(knownScheduleControllers)
      ensures state == Running
      ensures View().(state := newState, shown := if newState == Running then shown else shown.(schdEntr := 0))
              == TickSched(old(View()), now).sched
      ensures TickSched(old(View()), now).published.Some? ==> newState == Running
      ensures newState != Running ==>
        nextStartTime == NextStart(old(View()), now) && newState == if nextStartTime != 0 then Ready else NotReady
      ensures forall c :: c in knownScheduleControllers ==>
        && c.schedules == old(c.schedules)
        && c.View() == match TickSched(old(View()), now).published
                       case Some(v) => Sys.ValueUpdated(old(c.View()), id, v, now)
                       case None => old(c.View())
    {
      hide NextOneShot, NextPeriodic, CurrentIdx, ValueAttr, GetMs, Sys.ValueUpdated;
      newState := state;
      var currentIdx := GetCurrentIdx(now);
      if currentIdx != -1 && currentIdx != currentEntryIdx {
        var val := ValueAttr(values, cfg.targetType, currentIdx + 1);
        if val.Some? {
          shown := shown.(val := val, valQ := GoodQ);
          shown := shown.(schdEntr := currentIdx + 1);
          NotifyValue(val.value, now, world);
        }
        currentEntryIdx := currentIdx;
      } else if currentIdx == -1 {
        shown := shown.(valQ := InvalidQ, actStrTmQ := InvalidQ);
        nextStartTime := GetNextStartTime(now);
        shown := ShowNext(shown, nextStartTime);
        newState := if nextStartTime != 0 then Ready else NotReady;
        shown := ShowAct(shown, 0);
      }
    }

    /** The end of an iteration: switch state, and clear SchdEntr when the schedule stops running. */
    method SwitchState(newState: ScheduleState, now: nat, ghost world: seq<Schedule>)
      requires Listening(world)
      modifies this`state, this`shown, knownScheduleControllers
      ensures Listening(world)
      ensures state == newState
      ensures shown == if old(state) == Running && newState != Running then old(shown).(schdEntr := 0) else old(shown)
      ensures forall c :: c in knownScheduleControllers ==>
        && c.schedules == old(c.schedules) && MembersExist(Views(world), c.Members())
        && c.View() == StateNews(old(c.View()), Views(world), newState != old(state), now)
    {
      hide Sys.StateUpdated, Elect, Views, Ids;
      var wasRunning := state == Running;
      UpdateState(newState, now, world);
      if wasRunning && newState != Running {
        ghost var told := Views(world);
        shown := shown.(schdEntr := 0);
        assert SameButShown(told, Views(world));
        forall c | c in knownScheduleControllers
          ensures MembersExist(Views(world), c.Members())
          ensures c.View() == Sys.StateUpdated(old(c.View()), Views(world), now)
        {
          StateUpdatedShown(old(c.View()), told, Views(world), now);
        }
      }
    }

    /** One iteration of schedule_thread. */
    method Tick(now: nat, ghost world: seq<Schedule>)
      requires Listening(world)
      modifies this, knownScheduleControllers
      ensures Listening(world) && knownScheduleControllers == old(knownScheduleControllers)
      ensures View() == TickSched(old(View()), now).sched
      ensures forall c :: c in knownScheduleControllers ==>
        && c.schedules == old(c.schedules) && MembersExist(Views(world), c.Members())
        && c.View() == Sys.Informed(old(c.View()), Views(world), id, old(View()), Sys.Tick, now)
    {
      hide TickSched, Sys.StateUpdated, Sys.ValueUpdated, Elect;
      ghost var before := View();
      if state == Ready {
        var newState := TickReady(now);
        SwitchState(newState, now, world);
      } else if state == Running {
        var newState := TickRunning(now, world);
        SwitchState(newState, now, world);
      } else {
        IdleTick(before, now);
      }
    }

    // ---- Enabling and disabling ----

    /** performGenericScheduleValidityChecks */
    method PerformGenericScheduleValidityChecks() returns (valid: bool)
      modifies this`numberOfScheduleEntries, this`shown
      ensures valid <==> GenericError(old(View())) == NoError
      ensures View() == GenericChecked(old(View()))
    {
      hide ValueAttr, ValueCount;
      ghost var before := View();
      var t := cfg.targetType;
      var numEntrValid := false;
      if numEntr > 0 {
        var count := CountScheduleEntries(values, t);
        if numEntr <= count {
          numEntrValid := true;
          var i := 1;
          while i <= numEntr
            invariant 1 <= i <= numEntr + 1
            invariant numEntrValid
            invariant AllPresent(values, t, i - 1)
          {
            if ValueAttr(values, t, i).None? {
              numEntrValid := false;
              break;
            }
            i := i + 1;
          }
        }
      }
      assert numEntrValid <==> NumEntrValid(values, t, numEntr);
      numberOfScheduleEntries := numEntr;
      if !numEntrValid {
        shown := shown.(enaErr := MissingValidNumEntr);
        return false;
      }
      var i := 1;
      while i <= numEntr
        invariant 1 <= i <= numEntr + 1
        invariant forall k :: 1 <= k < i && ValueAttr(values, t, k).Some? ==> !IsNaN(ValueAttr(values, t, k).value)
      {
        var da := ValueAttr(values, t, i);
        if da.Some? && IsNaN(da.value) {
          assert Entry(before, i).Some? && IsNaN(Entry(before, i).value);
          shown := shown.(enaErr := MissingValidScheduleValues);
          return false;
        }
        i := i + 1;
      }
      assert forall k :: 1 <= k <= numEntr ==> Entry(before, k) == ValueAttr(values, t, k);
      assert !SomeNaN(before);
      if schdIntv <= 0 {
        shown := shown.(enaErr := MissingValidSchdIntv);
        return false;
      }
      return true;
    }

    /** checkForValidStartTimes; only one-shot schedules get here. */
    method CheckForValidStartTimes(now: nat) returns (valid: bool)
      ensures valid <==> SomeSlotOpen(strTms, DurationMs(View()), now)
      ensures numEntr > 0 ==>
        (valid <==>
           exists k :: 0 <= k < |strTms| && (SlotTime(strTms[k]) + numEntr * IntervalMs(View())) % TWO_64 > now)
    {
      hide GetMs;
      var scheduleDurationMs := 0;
      if numEntr > 0 {
        scheduleDurationMs := UInt64(GetMs(schdIntv, cfg.siUnit, cfg.multiplier) * numEntr);
      }
      valid := ScanSlotOpen(strTms, scheduleDurationMs, now);
      if numEntr > 0 {
        ScheduleProps.OpenForWholeDuration(View(), now);
      }
    }

    /** The decision part of enabledSchedule. */
    method DecideState(now: nat) returns (newState: ScheduleState)
      modifies this`numberOfScheduleEntries, this`shown
      ensures newState == if CanEnable(old(View()), now) then Ready else NotReady
      ensures newState == Ready ==> shown == old(shown) && numberOfScheduleEntries == numEntr
      ensures newState != Ready ==> View().(state := NotReady) == Enabled(old(View()), now)
    {
      hide GenericError, SomeSlotOpen, NextStart, GetMs, ShowNext;
      newState := NotReady;
      ghost var before := View();
      var valid := PerformGenericScheduleValidityChecks();
      if valid {
        if cfg.eventDriven {
          if cfg.syncInputValid {
            newState := Ready;
          }
        } else if cfg.periodic {
          newState := Ready;
        } else if cfg.timeTriggered {
          var open := CheckForValidStartTimes(now);
          assert DurationMs(View()) == DurationMs(before);
          if open {
            newState := Ready;
          } else {
            shown := shown.(enaErr := MissingValidStrTm);
          }
        }
      }
    }

    /** What enabledSchedule shows when it succeeded. */
    method ShowEnabled(ghost s: Sched, now: nat)
      requires s.cfg == cfg && s.schdIntv == schdIntv && s.numEntr == numEntr && s.strTms == strTms
      modifies this`shown
      ensures shown == ShowNext(old(shown), NextStart(s, now)).(enaErr := NoError)
    {
      hide NextStart, ShowNext;
      var next := GetNextStartTime(now);
      EnabledNextStart(s, View(), now);
      shown := ShowNext(shown, next);
      shown := shown.(enaErr := NoError);
    }

    /** A successful enabledSchedule: switch to READY, then show the next start. */
    method EnterReady(now: nat, ghost world: seq<Schedule>)
      requires Listening(world)
      modifies this`state, this`shown, knownScheduleControllers
      ensures Listening(world) && state == Ready
      ensures shown == ShowNext(old(shown), NextStart(old(View()), now)).(enaErr := NoError)
      ensures forall c :: c in knownScheduleControllers ==>
        && c.schedules == old(c.schedules) && MembersExist(Views(world), c.Members())
        && c.View() == StateNews(old(c.View()), Views(world), Ready != old(state), now)
    {
      hide NextStart, ShowNext, Sys.StateUpdated, Elect;
      ghost var before := View();
      UpdateState(Ready, now, world);
      ghost var told := Views(world);
      ghost var changed := Ready != old(state);
      assert forall c :: c in knownScheduleControllers ==> c.View() == StateNews(old(c.View()), told, changed, now);
      ShowEnabled(before, now);
      StatusPlaysNoPart(told, Views(world), now);
    }

    /** enabledSchedule */
    method EnabledSchedule(now: nat, ghost world: seq<Schedule>) returns (ok: bool)
      requires Listening(world)
      modifies this, knownScheduleControllers
      ensures Listening(world) && knownScheduleControllers == old(knownScheduleControllers)
      ensures ok == CanEnable(old(View()), now)
      ensures View() == Enabled(old(View()), now)
      ensures forall c :: c in knownScheduleControllers ==>
        && c.schedules == old(c.schedules) && MembersExist(Views(world), c.Members())
        && c.View() == StateNews(old(c.View()), Views(world), state != old(state), now)
    {
      hide CanEnable, Enabled, NextStart, ShowNext, StateNews, Elect;
      ghost var before := View();
      var newState := DecideState(now);
      ok := newState == Ready;
      if newState == Ready {
        EnabledNextStart(before, View(), now);
        EnterReady(now, world);
        EnabledWhenReady(before, now);
      } else {
        UpdateState(newState, now, world);
      }
    }

    /** disableSchedule */
    method DisableSchedule(now: nat, ghost world: seq<Schedule>)
      requires Listening(world)
      modifies this, knownScheduleControllers
      ensures Listening(world) && knownScheduleControllers == old(knownScheduleControllers)
      ensures View() == Disabled(old(View())) && state == NotReady
      ensures shown.valQ == InvalidQ && shown.actStrTmQ == InvalidQ
      ensures shown.nxtStrTm == 0 && shown.nxtStrTmQ == InvalidQ
      ensures nextStartTime == old(nextStartTime) && shown.schdEntr == old(shown.schdEntr)
      ensures forall c :: c in knownScheduleControllers ==>
        && c.schedules == old(c.schedules) && MembersExist(Views(world), c.Members())
        && c.View() == StateNews(old(c.View()), Views(world), state != old(state), now)
    {
      hide Sys.StateUpdated, Elect, StateNews;
      shown := shown.(valQ := InvalidQ);
      shown := shown.(actStrTmQ := InvalidQ);
      shown := ShowNext(shown, 0);
      UpdateState(NotReady, now, world);
    }

    /** Schedule_enableSchedule */
    method EnableSchedule(enable: bool, now: nat, ghost world: seq<Schedule>) returns (ok: bool)
      requires Listening(world)
      modifies this, knownScheduleControllers
      ensures Listening(world) && knownScheduleControllers == old(knownScheduleControllers)
      ensures ok == (enable ==> CanEnable(old(View()), now))
      ensures View() == EnableSched(old(View()), enable, now)
      ensures forall c :: c in knownScheduleControllers ==>
        && c.schedules == old(c.schedules) && MembersExist(Views(world), c.Members())
        && c.View() == StateNews(old(c.View()), Views(world), state != old(state), now)
    {
      hide CanEnable, Enabled, Disabled, Sys.StateUpdated, Elect;
      ok := true;
      if enable {
        ok := EnabledSchedule(now, world);
      } else if state != NotReady {
        DisableSchedule(now, world);
      } else {
        AllMembersExist(knownScheduleControllers, world);
      }
    }

    // ---- Remote control ----

    /** schedule_performCheckHandler, then schedule_controlHandler if it accepts, for EnaReq. */
    method ControlEnaReq(ctlVal: bool, test: bool, now: nat, ghost world: seq<Schedule>) returns (r: ControlResult)
      requires Listening(world)
      modifies this, knownScheduleControllers
      ensures Listening(world) && knownScheduleControllers == old(knownScheduleControllers)
      ensures (View(), r) == EnaReq(old(View()), ctlVal, test, now)
      ensures forall c :: c in knownScheduleControllers ==>
        && c.schedules == old(c.schedules) && MembersExist(Views(world), c.Members())
        && c.View() == StateNews(old(c.View()), Views(world), state != old(state), now)
    {
      hide CanEnable, Enabled, GenericError, Sys.StateUpdated, Elect;
      AllMembersExist(knownScheduleControllers, world);
      if test || !ctlVal {
        return ControlOk;
      }
      if !rights.control {
        return ControlDenied;
      }
      ghost var before := View();
      var valid := PerformGenericScheduleValidityChecks();
      AllMembersExist(knownScheduleControllers, world);
      if !valid {
        return ControlInvalid;
      }
      CheckedTwice(before, now);
      var ok := EnabledSchedule(now, world);
      r := if ok then ControlOk else ControlFailed;
    }

    /** The same for DsaReq. */
    method ControlDsaReq(ctlVal: bool, test: bool, now: nat, ghost world: seq<Schedule>) returns (r: ControlResult)
      requires Listening(world)
      modifies this, knownScheduleControllers
      ensures Listening(world) && knownScheduleControllers == old(knownScheduleControllers)
      ensures (View(), r) == DsaReq(old(View()), ctlVal, test)
      ensures forall c :: c in knownScheduleControllers ==>
        && c.schedules == old(c.schedules) && MembersExist(Views(world), c.Members())
        && c.View() == StateNews(old(c.View()), Views(world), state != old(state), now)
    {
      hide Disabled, Sys.StateUpdated, Elect;
      AllMembersExist(knownScheduleControllers, world);
      if test || !ctlVal {
        return ControlOk;
      }
      if !rights.control {
        return ControlDenied;
      }
      DisableSchedule(now, world);
      r := ControlOk;
    }

    // ---- Parameter writes ----

    /** schdPrio_writeAccessHandler */
    method WriteSchdPrio(v: int, ghost world: seq<Schedule>) returns (r: WriteResult)
      requires Listening(world)
      modifies this`prio, knownScheduleControllers
      ensures Listening(world)
      ensures (View(), r) == WritePrio(old(View()), v)
      ensures forall c :: c in knownScheduleControllers ==>
        && c.schedules == old(c.schedules) && MembersExist(Views(world), c.Members())
        && c.View() == if r == Accepted then Sys.PrioUpdated(old(c.View()), Views(world)) else old(c.View())
    {
      hide Sys.PrioUpdated, Elect;
      AllMembersExist(knownScheduleControllers, world);
      if !rights.prio {
        return AccessDenied;
      }
      prio := v;
      NotifyPrio(world);
      r := Accepted;
    }

    /** strTm_writeAccessHandler */
    method WriteSetTm(k: nat, t: nat, now: nat) returns (r: WriteResult)
      requires k < |strTms|
      modifies this`strTms
      ensures (View(), r) == WriteStrTm(old(View()), k, t, now)
    {
      if !rights.strTm {
        return AccessDenied;
      }
      if t > now {
        strTms := strTms[k := strTms[k].(setTm := Some(t))];
        return Accepted;
      }
      return ValueInvalid;
    }

    /** strTm_setCal_writeAccessHandler */
    method WriteStrTmSetCal(k: nat, cal: SetCal) returns (r: WriteResult)
      requires k < |strTms|
      modifies this`strTms
      ensures (View(), r) == WriteSetCal(old(View()), k, cal)
    {
      if !rights.strTm {
        return AccessDenied;
      }
      strTms := strTms[k := strTms[k].(setCal := Some(cal))];
      return Accepted;
    }

    /** schdReuse_writeAccessHandler */
    method WriteSchdReuse(b: bool) returns (r: WriteResult)
      modifies this`reuse
      ensures (View(), r) == WriteReuse(old(View()), b)
    {
      if !rights.reuse {
        return AccessDenied;
      }
      reuse := b;
      return Accepted;
    }

    /** schdIntv_writeAccessHandler */
    method WriteSchdIntv(v: int) returns (r: WriteResult)
      modifies this`schdIntv
      ensures (View(), r) == WriteIntv(old(View()), v)
    {
      if !rights.intv {
        return AccessDenied;
      }
      schdIntv := v;
      return Accepted;
    }

    // ---- Storage ----

    /** createSchedule */
    method CreateSnapshot() returns (json: Json)
      ensures json == Snapshot(View())
    {
      hide ValueAttr, GetMs, ValueCount, ToDouble, StateString, ValueJson, SlotJson;
      var valueItems: seq<Json> := [];
      var valueCount := CountScheduleEntries(values, cfg.targetType);
      for idx := 0 to valueCount
        invariant valueItems == ValueItems(View(), idx)
      {
        var value := ValueAttr(values, cfg.targetType, idx + 1);
        if value.Some? {
          valueItems := valueItems + [ValueJson(value.value)];
        }
      }
      var slotItems: seq<Json> := [];
      for k := 0 to |strTms|
        invariant |slotItems| == k
        invariant forall j :: 0 <= j < k ==> slotItems[j] == SlotJson(strTms[j])
      {
        slotItems := slotItems + [SlotJson(strTms[k])];
      }
      assert slotItems == SlotItems(strTms);
      json := JObj(map["objRef" := JStr(cfg.ref),
                       "state" := JStr(StateString(state)),
                       "reuse" := JBool(reuse),
                       "prio" := JNum(prio as real),
                       "numEntr" := JNum(numEntr as real),
                       "schdIntv" := JNum(Int32(GetMs(schdIntv, cfg.siUnit, cfg.multiplier)) as real),
                       "ActStrTm" := JNum(ToDouble(startTime) as real),
                       "values" := JArr(valueItems),
                       "startTimes" := JArr(slotItems)]);
    }

    /** The first part of getScheduleData: each parameter is written as soon as it was read. */
    method RestoreParameters(json: Json) returns (ok: bool)
      modifies this`reuse, this`prio, this`numEntr, this`numberOfScheduleEntries, this`schdIntv, this`entryDurationInMs
      ensures (View(), ok) == RestoreHead(old(View()), json)
    {
      hide HasStr, HasBool, HasNum, ValueInt, SetVal;
      if !HasStr(json, "objRef") { return false; }
      if !HasStr(json, "state") { return false; }
      if !HasBool(json, "reuse") { return false; }
      BoolItem(json, "reuse");
      reuse := ValueInt(Item(json, "reuse").value) != 0;
      if !HasNum(json, "prio") { return false; }
      NumItem(json, "prio");
      prio := ValueInt(Item(json, "prio").value);
      if !HasNum(json, "numEntr") { return false; }
      NumItem(json, "numEntr");
      numEntr := ValueInt(Item(json, "numEntr").value);
      numberOfScheduleEntries := numEntr;
      if !HasNum(json, "schdIntv") { return false; }
      NumItem(json, "schdIntv");
      var ms := ValueInt(Item(json, "schdIntv").value);
      schdIntv := SetVal(UInt64(ms), cfg.siUnit, cfg.multiplier);
      entryDurationInMs := ms;
      return true;
    }

    /** The loops of getScheduleData over the values and the start times. */
    method RestoreLists(valueItems: seq<Json>, slotItems: seq<Json>)
      modifies this`values, this`strTms
      ensures values == PutValues(old(values), cfg.targetType, valueItems)
      ensures strTms == PutStartTimes(old(strTms), slotItems)
    {
      hide PutValue, PutStartTime;
      assert valueItems[..0] == [] && slotItems[..0] == [];
      for i := 0 to |valueItems|
        invariant values == PutValues(old(values), cfg.targetType, valueItems[..i]) && strTms == old(strTms)
      {
        assert valueItems[..i + 1][..i] == valueItems[..i];
        values := PutValue(values, cfg.targetType, i + 1, valueItems[i]);
      }
      assert valueItems[..|valueItems|] == valueItems;
      for i := 0 to |slotItems|
        invariant values == PutValues(old(values), cfg.targetType, valueItems)
        invariant strTms == PutStartTimes(old(strTms), slotItems[..i])
      {
        assert slotItems[..i + 1][..i] == slotItems[..i];
        strTms := PutStartTime(strTms, slotItems[i]);
      }
      assert slotItems[..|slotItems|] == slotItems;
    }

    /** getScheduleData up to the state. */
    method RestoreData(json: Json) returns (ok: bool)
      modifies this
      ensures knownScheduleControllers == old(knownScheduleControllers) && state == old(state)
      ensures ok == Restored(old(View()), json).1
      ensures ok ==> Item(json, "state").Some? && Item(json, "state").value.JStr?
      ensures View().(state := if ok then StateFromString(Item(json, "state").value.s) else state)
              == Restored(old(View()), json).0
    {
      hide HasArr, HasStr, HasBool, ValueInt, ValueUInt64, SetVal, PutValues, PutStartTimes, ShowAct, StateFromString;
      hide RestoreHead;
      RestoreHeadKeeps(View(), json);
      ok := RestoreParameters(json);
      if !ok {
        return;
      }
      if HasNum(json, "ActStrTm") {
        NumItem(json, "ActStrTm");
        startTime := ValueUInt64(Item(json, "ActStrTm").value);
        shown := ShowAct(shown, startTime);
      }
      if !HasArr(json, "values") {
        return false;
      }
      ArrItem(json, "values");
      var slotItems: seq<Json> := [];
      if HasArr(json, "startTimes") {
        ArrItem(json, "startTimes");
        slotItems := Item(json, "startTimes").value.items;
      }
      NoStartTimes(strTms);
      RestoreLists(Item(json, "values").value.items, slotItems);
    }

    /** getScheduleData */
    method RestoreSnapshot(json: Json, now: nat, ghost world: seq<Schedule>) returns (ok: bool)
      requires Listening(world)
      modifies this, knownScheduleControllers
      ensures Listening(world) && knownScheduleControllers == old(knownScheduleControllers)
      ensures (View(), ok) == Restored(old(View()), json)
      ensures forall c :: c in knownScheduleControllers ==>
        && c.schedules == old(c.schedules) && MembersExist(Views(world), c.Members())
        && c.View() == StateNews(old(c.View()), Views(world), state != old(state), now)
    {
      hide Restored, StateFromString, Sys.StateUpdated, Elect;
      ok := RestoreData(json);
      AllMembersExist(knownScheduleControllers, world);
      if ok {
        UpdateState(StateFromString(Item(json, "state").value.s), now, world);
      }
    }

    /** Schedule_setListeningController */
    method SetListeningController(controller: ScheduleController)
      modifies this`knownScheduleControllers
      ensures knownScheduleControllers
              == if controller in old(knownScheduleControllers) then old(knownScheduleControllers)
                 else old(knownScheduleControllers) + [controller]
    {
      if controller !in knownScheduleControllers {
        knownScheduleControllers := knownScheduleControllers + [controller];
      }
    }

    // ---- Dispatch ----

    /** The commands that can change the state, apart from a tick. */
    method PerformStateChange(cmd: Sys.Cmd, now: nat, ghost world: seq<Schedule>)
      requires Listening(world)
      requires cmd.Enable? || cmd.EnaReqCmd? || cmd.DsaReqCmd? || cmd.Restore?
      modifies this, knownScheduleControllers
      ensures Listening(world) && knownScheduleControllers == old(knownScheduleControllers)
      ensures View() == Sys.After(old(View()), cmd, now)
      ensures forall c :: c in knownScheduleControllers ==>
        && c.schedules == old(c.schedules) && MembersExist(Views(world), c.Members())
        && c.View() == StateNews(old(c.View()), Views(world), state != old(state), now)
    {
      hide EnableSched, EnaReq, DsaReq, Restored, StateNews, Elect;
      match cmd {
        case Enable(on) =>
          var ok := EnableSchedule(on, now, world);
        case EnaReqCmd(ctlVal, test) =>
          var r := ControlEnaReq(ctlVal, test, now, world);
        case DsaReqCmd(ctlVal, test) =>
          var r := ControlDsaReq(ctlVal, test, now, world);
        case Restore(json) =>
          var ok := RestoreSnapshot(json, now, world);
      }
    }

    /** A tick, an API call or a client request, handed to its handler. */
    method Perform(cmd: Sys.Cmd, now: nat, ghost world: seq<Schedule>)
      requires Listening(world)
      modifies this, knownScheduleControllers
      ensures Listening(world) && knownScheduleControllers == old(knownScheduleControllers)
      ensures View() == Sys.After(old(View()), cmd, now)
      ensures forall c :: c in knownScheduleControllers ==>
        && c.schedules == old(c.schedules) && MembersExist(Views(world), c.Members())
        && c.View() == Sys.Informed(old(c.View()), Views(world), id, old(View()), cmd, now)
    {
      hide Sys.Informed, Sys.After, TickSched, StateNews, Elect, Sys.PrioUpdated;
      ghost var before := View();
      if cmd.Tick? {
        Tick(now, world);
        AfterTickAndPrio(before, cmd, now);
      } else if cmd.SetPrio? {
        var r := WriteSchdPrio(cmd.prio, world);
        AfterTickAndPrio(before, cmd, now);
        forall c | c in knownScheduleControllers
          ensures c.View() == Sys.Informed(old(c.View()), Views(world), id, before, cmd, now)
        {
          InformedNews(old(c.View()), Views(world), id, before, cmd, now);
        }
      } else if cmd.Enable? || cmd.EnaReqCmd? || cmd.DsaReqCmd? || cmd.Restore? {
        PerformStateChange(cmd, now, world);
        forall c | c in knownScheduleControllers
          ensures c.View() == Sys.Informed(old(c.View()), Views(world), id, before, cmd, now)
        {
          InformedNews(old(c.View()), Views(world), id, before, cmd, now);
        }
      } else {
        PerformQuietly(cmd, now);
        AllMembersExist(knownScheduleControllers, world);
        forall c | c in knownScheduleControllers
          ensures c.View() == Sys.Informed(old(c.View()), Views(world), id, before, cmd, now)
        {
          InformedNews(old(c.View()), Views(world), id, before, cmd, now);
        }
      }
    }

    /** The writes that raise no event. */
    method PerformQuietly(cmd: Sys.Cmd, now: nat)
      requires !cmd.Tick? && !cmd.Enable? && !cmd.EnaReqCmd? && !cmd.DsaReqCmd? && !cmd.Restore? && !cmd.SetPrio?
      modifies this`strTms, this`reuse, this`schdIntv, this`numEntr, this`values, this`rights
      ensures View() == Sys.After(old(View()), cmd, now)
    {
      match cmd {
        case SetStrTm(k, t) =>
          if k < |strTms| && strTms[k].setTm.Some? { var r := WriteSetTm(k, t, now); }
        case SetCalendar(k, cal) =>
          if k < |strTms| && strTms[k].setCal.Some? { var r := WriteStrTmSetCal(k, cal); }
        case SetReuse(b) =>
          var r := WriteSchdReuse(b);
        case SetIntv(v) =>
          var r := WriteSchdIntv(v);
        case SetNumEntr(n) =>
          numEntr := n;
        case SetValue(k, v) =>
          if k < |values| { values := values[k := values[k].(value := Some(v))]; }
        case AllowControl(b) =>
          rights := rights.(control := b);
        case AllowPrio(b) =>
          rights := rights.(prio := b);
        case AllowStrTm(b) =>
          rights := rights.(strTm := b);
        case AllowReuse(b) =>
          rights := rights.(reuse := b);
      }
    }
  }

  lemma BoolItem(j: Json, key: string)
    requires HasBool(j, key)
    ensures Item(j, key).Some? && Item(j, key).value.JBool?
  {
  }

  lemma NumItem(j: Json, key: string)
    requires HasNum(j, key)
    ensures Item(j, key).Some? && Item(j, key).value.JNum?
  {
  }

  lemma ArrItem(j: Json, key: string)
    requires HasArr(j, key)
    ensures Item(j, key).Some? && Item(j, key).value.JArr?
  {
  }

  lemma RestoreHeadKeeps(s: Sched, j: Json)
    ensures
      var r := RestoreHead(s, j).0;
      r.cfg == s.cfg && r.values == s.values && r.strTms == s.strTms && r.state == s.state
    ensures RestoreHead(s, j).1 ==> Item(j, "state").Some? && Item(j, "state").value.JStr?
  {
    hide HasBool, HasNum, ValueInt, SetVal;
  }

  lemma NoStartTimes(slots: seq<StrTm>)
    ensures PutStartTimes(slots, []) == slots
  {
  }

  /** Checking twice is the same as checking once. */
  lemma CheckedTwice(s: Sched, now: nat)
    requires GenericError(s) == NoError
    ensures Enabled(GenericChecked(s), now) == Enabled(s, now)
    ensures CanEnable(GenericChecked(s), now) == CanEnable(s, now)
  {
    hide ValueAttr, GetMs, NextOneShot, NextPeriodic, SomeSlotOpen, ShowNext;
    var t := GenericChecked(s);
    assert SomeNaN(t) == SomeNaN(s) by {
      assert forall k :: Entry(t, k) == Entry(s, k);
    }
  }

  /** The next start shown after enabling does not depend on the state just entered. */
  lemma EnabledNextStart(s: Sched, t: Sched, now: nat)
    requires t.cfg == s.cfg && t.schdIntv == s.schdIntv && t.numEntr == s.numEntr && t.strTms == s.strTms
    ensures NextStart(t, now) == NextStart(s, now)
  {
    hide NextOneShot, NextPeriodic, GetMs;
  }

  lemma AllMembersExist(controllers: seq<ScheduleController>, world: seq<Schedule>)
    requires forall k :: 0 <= k < |controllers| ==> controllers[k].Wired(world)
    ensures forall c :: c in controllers ==> MembersExist(Views(world), c.Members())
  {
  }

  lemma StatusPlaysNoPart(ss: seq<Sched>, tt: seq<Sched>, now: nat)
    requires SameButShown(ss, tt)
    ensures forall c: Sys.Ctl :: MembersExist(ss, c.members) ==>
      MembersExist(tt, c.members) && Sys.StateUpdated(c, ss, now) == Sys.StateUpdated(c, tt, now)
  {
    hide Sys.StateUpdated;
    forall c: Sys.Ctl | MembersExist(ss, c.members)
      ensures MembersExist(tt, c.members) && Sys.StateUpdated(c, ss, now) == Sys.StateUpdated(c, tt, now)
    {
      StateUpdatedShown(c, ss, tt, now);
    }
  }

  /** A start computed step by step, through an intermediate state that differs in the status only. */
  lemma StartedFrom(s: Sched, latched: Sched, now: nat)
    requires latched.cfg == s.cfg && latched.schdIntv == s.schdIntv && latched.numEntr == s.numEntr
    requires latched.strTms == Erase(s.strTms, s.nextStartTime)
    ensures
      var next := NextStart(latched, now);
      Started(s, now)
      == s.(startTime := s.nextStartTime, entryDurationInMs := Int32(IntervalMs(s)),
            numberOfScheduleEntries := s.numEntr, currentEntryIdx := -2, strTms := latched.strTms,
            nextStartTime := next, shown := ShowNext(ShowAct(s.shown, s.nextStartTime), next), state := Running)
  {
    hide NextOneShot, NextPeriodic, Erase, GetMs, ShowNext, ShowAct;
  }

  /** The state event as a controller sees it, if the state changed at all. */
  ghost function StateNews(c: Sys.Ctl, ss: seq<Sched>, changed: bool, now: nat): Sys.Ctl
    requires MembersExist(ss, c.members)
  {
    if changed then Sys.StateUpdated(c, ss, now) else c
  }

  /** Two snapshots of the schedules that differ in the status attributes only. */
  ghost predicate SameButShown(ss: seq<Sched>, tt: seq<Sched>) {
    |ss| == |tt| && forall k :: 0 <= k < |ss| ==> ss[k] == tt[k].(shown := ss[k].shown)
  }

  /** The status attributes play no part in a state event. */
  lemma StateUpdatedShown(c: Sys.Ctl, ss: seq<Sched>, tt: seq<Sched>, now: nat)
    requires SameButShown(ss, tt)
    ensures MembersExist(ss, c.members) ==>
      MembersExist(tt, c.members) && Sys.StateUpdated(c, ss, now) == Sys.StateUpdated(c, tt, now)
  {
    hide Elect, ValueAttr;
    if MembersExist(ss, c.members) {
      ElectCongruence(ss, tt, c.members);
    }
  }

  /** The three outcomes of a state event. */
  lemma StateUpdatedIs(c: Sys.Ctl, ss: seq<Sched>, w: Option<nat>, now: nat)
    requires MembersExist(ss, c.members) && Elect(ss, c.members) == w
    ensures w.None? ==>
      Sys.StateUpdated(c, ss, now)
      == Sys.Forward(c.(actSchdRef := "", actSchdRefQ := InvalidQ), None, now).(active := None)
    ensures w.Some? ==> w.value < |ss|
    ensures w.Some? && w != c.active ==>
      Sys.StateUpdated(c, ss, now)
      == Sys.Forward(c.(active := w, actSchdRef := ss[w.value].cfg.ref, actSchdRefQ := GoodQ),
                     CurrentValue(ss[w.value], now), now)
    ensures w.Some? && w == c.active ==> Sys.StateUpdated(c, ss, now) == c
  {
    hide Elect, CurrentValue, Sys.Forward;
  }

  lemma WiredMembersExist(c: ScheduleController, world: seq<Schedule>)
    requires c.Wired(world)
    ensures MembersExist(Views(world), c.Members())
  {
  }

  lemma AfterTickAndPrio(s: Sched, cmd: Sys.Cmd, now: nat)
    ensures cmd.Tick? ==> Sys.After(s, cmd, now) == TickSched(s, now).sched
    ensures cmd.SetPrio? ==> Sys.After(s, cmd, now) == WritePrio(s, cmd.prio).0
  {
    hide TickSched;
  }

  /** Which of the three events a command raises. */
  lemma InformedNews(c: Sys.Ctl, ss: seq<Sched>, i: nat, s: Sched, cmd: Sys.Cmd, now: nat)
    requires MembersExist(ss, c.members) && i < |ss|
    ensures !cmd.Tick? && !cmd.SetPrio? ==>
      Sys.Informed(c, ss, i, s, cmd, now) == StateNews(c, ss, ss[i].state != s.state, now)
    ensures cmd.SetPrio? && ss[i].state == s.state ==>
      Sys.Informed(c, ss, i, s, cmd, now) == if s.rights.prio then Sys.PrioUpdated(c, ss) else c
    ensures !cmd.Tick? && !cmd.SetPrio? && ss[i].state == s.state ==> Sys.Informed(c, ss, i, s, cmd, now) == c
  {
    hide TickSched, Sys.StateUpdated, Sys.PrioUpdated;
  }

  // ---- The scheduler ----

  ghost function CtlViews(controllers: seq<ScheduleController>): (r: seq<Sys.Ctl>)
    reads controllers
    ensures |r| == |controllers|
    ensures forall k :: 0 <= k < |controllers| ==> r[k] == controllers[k].View()
  {
    seq(|controllers|, k requires 0 <= k < |controllers| reads controllers => controllers[k].View())
  }

  ghost function ListenerIds(schedules: seq<Schedule>): (r: seq<seq<nat>>)
    reads schedules
    ensures |r| == |schedules|
    ensures forall k :: 0 <= k < |schedules| ==> r[k] == ControllerIds(schedules[k].knownScheduleControllers)
  {
    seq(|schedules|, k requires 0 <= k < |schedules| reads schedules =>
      ControllerIds(schedules[k].knownScheduleControllers))
  }

  class Scheduler {
    var schedules: seq<Schedule>
    var controllers: seq<ScheduleController>

    /** What scheduler_parseModel found, before anything is connected. */
    constructor (schedules: seq<Schedule>, controllers: seq<ScheduleController>)
      requires Numbered(schedules)
      requires forall i :: 0 <= i < |schedules| ==>
        schedules[i].knownScheduleControllers == [] && schedules[i].state != Running
      requires forall c :: 0 <= c < |controllers| ==>
        controllers[c].id == c && controllers[c].schedules == [] && controllers[c].activeSchedule == null
      ensures this.schedules == schedules && this.controllers == controllers && Valid()
      ensures (forall c :: 0 <= c < |controllers| ==> Registration.RefsDistinct(View().scheds, controllers[c].schdRefs))
              ==> Startup.Fresh(View()) && Startup.NoneRunning(View().scheds)
    {
      this.schedules := schedules;
      this.controllers := controllers;
      new;
      hide Sys.Resolve, Registration.RefsDistinct;
    }

    ghost predicate Known(c: ScheduleController)
      reads this`controllers
    {
      c.id < |controllers| && controllers[c.id] == c
    }

    /** Objects are listed once, and refer to listed objects only. */
    ghost predicate Valid()
      reads this, schedules, controllers
    {
      && Numbered(schedules)
      && (forall c :: 0 <= c < |controllers| ==> controllers[c].id == c && controllers[c].Wired(schedules))
      && (forall i :: 0 <= i < |schedules| ==>
            && (forall k :: 0 <= k < |schedules[i].knownScheduleControllers| ==>
                  Known(schedules[i].knownScheduleControllers[k]))
            && (forall j, k :: 0 <= j < k < |schedules[i].knownScheduleControllers| ==>
                  schedules[i].knownScheduleControllers[j] != schedules[i].knownScheduleControllers[k]))
    }

    /** The state of the whole system. */
    ghost function View(): (sys: Sys.System)
      requires Valid()
      reads this, schedules, controllers
      ensures Sys.WellFormed(sys)
    {
      forall c | 0 <= c < |controllers| ensures MembersExist(Views(schedules), CtlViews(controllers)[c].members) {
        WiredMembersExist(controllers[c], schedules);
      }
      Sys.System(Views(schedules), ListenerIds(schedules), CtlViews(controllers))
    }

    /** Scheduler_getScheduleByObjRef */
    method GetScheduleByObjRef(objRef: string) returns (schedule: Schedule?)
      requires Valid()
      ensures Sys.Resolve(View().scheds, objRef) == if schedule == null then None else Some(schedule.id)
      ensures schedule != null ==> Listed(schedules, schedule)
    {
      schedule := null;
      if objRef == "" {
        ResolveIs(Views(schedules), objRef, None);
        return;
      }
      var withoutIedName := objRef[0] == '@';
      var name := if withoutIedName then objRef[1..] else objRef;
      var k := 0;
      while k < |schedules|
        invariant 0 <= k <= |schedules|
        invariant forall j :: 0 <= j < k ==> !Sys.RefNames(objRef, schedules[j].cfg)
      {
        var candidate := if withoutIedName then schedules[k].cfg.shortRef else schedules[k].cfg.ref;
        if name == candidate {
          schedule := schedules[k];
          ResolveIs(Views(schedules), objRef, Some(k));
          return;
        }
        k := k + 1;
      }
      ResolveIs(Views(schedules), objRef, None);
    }

    /** The end of connecting: LinkedList_add and Schedule_setListeningController. */
    method ConnectSchedule(controller: ScheduleController, sched: Schedule)
      requires Valid() && Known(controller) && Listed(schedules, sched)
      modifies controller`schedules, sched`knownScheduleControllers
      ensures Valid() && controller.schedules == old(controller.schedules) + [sched]
      ensures ControllerIds(sched.knownScheduleControllers)
              == Sys.AddListener(old(ControllerIds(sched.knownScheduleControllers)), controller.id)
    {
      hide Sys.AddListener, Sys.RemoveFirst, Views, CtlViews, ListenerIds, ControllerIds, Ids;
      ListenerAdded(sched.knownScheduleControllers, controllers, controller);
      controller.schedules := controller.schedules + [sched];
      sched.SetListeningController(controller);
    }

    /** Compared with `before`, only `controller` and the listeners of `sched` changed. */
    lemma OnlyTheLink(before: Sys.System, controller: ScheduleController, sched: Schedule)
      requires Valid() && Known(controller) && Listed(schedules, sched)
      requires |before.scheds| == |before.listeners| == |schedules| && |before.ctls| == |controllers|
      requires forall k :: 0 <= k < |schedules| ==> schedules[k].View() == before.scheds[k]
      requires forall k :: 0 <= k < |schedules| && k != sched.id ==>
        ControllerIds(schedules[k].knownScheduleControllers) == before.listeners[k]
      requires forall c :: 0 <= c < |controllers| && c != controller.id ==> controllers[c].View() == before.ctls[c]
      ensures View() == Sys.System(before.scheds,
                                   before.listeners[sched.id := ControllerIds(sched.knownScheduleControllers)],
                                   before.ctls[controller.id := controller.View()])
    {
    }

    /** Connecting, as seen from outside. */
    method LinkSchedule(controller: ScheduleController, sched: Schedule)
      requires Valid() && Known(controller) && Listed(schedules, sched)
      modifies controller`schedules, sched`knownScheduleControllers
      ensures Valid() && controller.schedules == old(controller.schedules) + [sched]
      ensures View() == Startup.Linked(old(View()), controller.id, sched.id)
    {
      hide Sys.AddListener, Sys.RemoveFirst, Views, CtlViews, ListenerIds, ControllerIds;
      ghost var before, members := View(), controller.Members();
      ConnectSchedule(controller, sched);
      assert controller.Members() == members + [sched.id];
      OnlyTheLink(before, controller, sched);
    }

    /** One Schd object in ScheduleController_initialize. */
    method ConnectReference(controller: ScheduleController, j: nat, ghost start: Sys.System)
      requires Valid() && Known(controller) && j < |controller.schdRefs|
      requires Sys.WellFormed(start) && controller.id < |start.ctls|
      requires start.scheds == View().scheds && start.ctls[controller.id].refs == controller.schdRefs
      requires Startup.RefsResolve(start.scheds, controller.schdRefs)
      requires View() == Startup.ConnectedUpTo(start, controller.id, j)
      modifies controller`schedules, schedules
      ensures Valid()
      ensures View() == Startup.ConnectedUpTo(start, controller.id, j + 1)
    {
      hide Sys.Resolve, Sys.WellFormed, Startup.ListenTo, Startup.Linked, Startup.ConnectedUpTo;
      hide Views, CtlViews, ListenerIds, ControllerIds, Ids;
      var sched := GetScheduleByObjRef(controller.schdRefs[j]);
      LinkSchedule(controller, sched);
      Startup.ConnectedNext(start, controller.id, j);
    }

    lemma ControllerInView(controller: ScheduleController)
      requires Valid() && Known(controller)
      ensures controller.id < |View().ctls| && View().ctls[controller.id].refs == controller.schdRefs
    {
    }

    /** The loop of ScheduleController_initialize over the Schd objects. */
    method ConnectAll(controller: ScheduleController)
      requires Valid() && Known(controller) && Startup.RefsResolve(View().scheds, controller.schdRefs)
      modifies controller`schedules, schedules
      ensures Valid() && controller.id < |old(View()).ctls|
      ensures old(View()).ctls[controller.id].refs == controller.schdRefs
      ensures View() == Startup.ConnectedUpTo(old(View()), controller.id, |controller.schdRefs|)
    {
      hide *;
      ghost var start := View();
      ControllerInView(controller);
      Startup.NothingConnected(start, controller.id);
      for j := 0 to |controller.schdRefs|
        invariant Valid() && View() == Startup.ConnectedUpTo(start, controller.id, j)
      {
        ConnectReference(controller, j, start);
      }
    }

    /** Compared with `before`, only `controller` changed. */
    lemma OnlyTheController(before: Sys.System, controller: ScheduleController)
      requires Valid() && Known(controller)
      requires |before.scheds| == |before.listeners| == |schedules| && |before.ctls| == |controllers|
      requires forall k :: 0 <= k < |schedules| ==>
        && schedules[k].View() == before.scheds[k]
        && ControllerIds(schedules[k].knownScheduleControllers) == before.listeners[k]
      requires forall c :: 0 <= c < |controllers| && c != controller.id ==> controllers[c].View() == before.ctls[c]
      ensures View() == before.(ctls := before.ctls[controller.id := controller.View()])
    {
    }

    /** The end of ScheduleController_initialize: ActSchdRef is set, activeSchedule is not. */
    method ShowActive(controller: ScheduleController)
      requires Valid() && Known(controller)
      modifies controller`actSchdRef, controller`actSchdRefQ
      ensures Valid()
      ensures
        var before, c := old(View()), controller.id;
        var w := Elect(before.scheds, before.ctls[c].members);
        View() == before.(ctls := before.ctls[c := Sys.ShowRef(before.ctls[c], before.scheds, w)])
    {
      hide Elect, Sys.ShowRef, Views, CtlViews, ListenerIds, ControllerIds, Ids;
      ghost var before := View();
      controller.InitializeActSchdRef(schedules);
      OnlyTheController(before, controller);
    }

    /** ScheduleController_initialize */
    method InitializeController(controller: ScheduleController)
      requires Valid() && Known(controller) && Startup.RefsResolve(View().scheds, controller.schdRefs)
      modifies controller, schedules
      ensures Valid()
      ensures View() == Startup.Initialized(old(View()), controller.id)
    {
      hide Sys.Resolve, Sys.WellFormed, Sys.ShowRef, Elect;
      hide Startup.RefsResolve, Startup.ListenTo, Startup.ConnectedUpTo;
      hide Views, CtlViews, ListenerIds, ControllerIds, Ids;
      ConnectAll(controller);
      ShowActive(controller);
    }

    /** scheduler_initializeScheduleControllers */
    method InitializeScheduleControllers()
      requires Valid() && Startup.AllResolve(View().scheds, View().ctls)
      modifies schedules, controllers
      ensures Valid()
      ensures View() == Startup.InitializedUpTo(old(View()), |controllers|)
    {
      hide Sys.WellFormed, Startup.RefsResolve, Startup.Initialized, Startup.AllResolve, Startup.InitializedUpTo;
      hide Views, CtlViews, ListenerIds, ControllerIds, Ids;
      ghost var start := View();
      Startup.NoneInitialized(start);
      for k := 0 to |controllers|
        invariant Valid() && View() == Startup.InitializedUpTo(start, k)
      {
        Startup.EachResolves(start, k);
        InitializeController(controllers[k]);
        Startup.InitializedOnce(start, k + 1);
      }
    }

    /** An accepted SchdNN.setSrcRef write: disconnect the schedule named so far, connect the new one. */
    method ReplaceSchedule(controller: ScheduleController, j: nat, ref: string, previous: Schedule?, sched: Schedule)
      requires Valid() && Known(controller) && j < |controller.schdRefs| && Listed(schedules, sched)
      requires previous != null ==> Listed(schedules, previous)
      modifies controller`schedules, controller`schdRefs, sched`knownScheduleControllers
      ensures Valid()
      ensures
        var members := if previous == null then old(controller.Members())
                       else Sys.RemoveFirst(old(controller.Members()), previous.id);
        controller.View() == old(controller.View()).(members := members + [sched.id],
                                                     refs := old(controller.schdRefs)[j := ref])
      ensures ControllerIds(sched.knownScheduleControllers)
              == Sys.AddListener(old(ControllerIds(sched.knownScheduleControllers)), controller.id)
    {
      hide Sys.AddListener, Sys.RemoveFirst, ControllerIds;
      if previous != null {
        var gone: Schedule := previous;
        RemovedIds(controller.schedules, gone);
        RemovedListed(schedules, controller.schedules, gone);
        controller.schedules := Sys.RemoveFirst(controller.schedules, gone);
      }
      ConnectSchedule(controller, sched);
      controller.schdRefs := controller.schdRefs[j := ref];
    }

    /** The same, as seen from outside. */
    method Reconnect(controller: ScheduleController, j: nat, ref: string, previous: Schedule?, sched: Schedule)
      requires Valid() && Known(controller) && j < |controller.schdRefs| && Listed(schedules, sched)
      requires previous != null ==> Listed(schedules, previous)
      modifies controller`schedules, controller`schdRefs, sched`knownScheduleControllers
      ensures Valid()
      ensures
        var before, c, i := old(View()), controller.id, sched.id;
        var members := if previous == null then before.ctls[c].members
                       else Sys.RemoveFirst(before.ctls[c].members, previous.id);
        var ctl := before.ctls[c].(members := members + [i], refs := before.ctls[c].refs[j := ref]);
        View() == Sys.System(before.scheds, before.listeners[i := Sys.AddListener(before.listeners[i], c)],
                             before.ctls[c := ctl])
    {
      hide Sys.AddListener, Sys.RemoveFirst, Views, CtlViews, ListenerIds, ControllerIds, Ids, Sys.WellFormed;
      ghost var before := View();
      ReplaceSchedule(controller, j, ref, previous, sched);
      OnlyTheLink(before, controller, sched);
    }

    /** schd_setSrcRef_writeAccessHandler, once the write is accepted. */
    method AcceptSetSrcRef(controller: ScheduleController, j: nat, ref: string, sched: Schedule)
      requires Valid() && Known(controller) && j < |controller.schdRefs| && Listed(schedules, sched)
      requires Sys.Resolve(View().scheds, ref) == Some(sched.id) && sched !in controller.schedules
      modifies controller`schedules, controller`schdRefs, sched`knownScheduleControllers
      ensures Valid()
      ensures Sys.RewireTarget(old(View()), controller.id, j, ref) == Some(sched.id)
      ensures View() == Sys.SetSrcRef(old(View()), controller.id, j, ref)
    {
      hide Sys.AddListener, Sys.RemoveFirst, Sys.Resolve, Views, CtlViews, ListenerIds, ControllerIds, Ids;
      hide Sys.SetSrcRef, Sys.RewireTarget, Sys.WellFormed;
      ghost var before := View();
      InMembers(schedules, controller.schedules, sched);
      var previous := GetScheduleByObjRef(controller.schdRefs[j]);
      Reconnect(controller, j, ref, previous, sched);
      RewireDone(before, controller.id, j, ref, sched.id);
    }

    /** schd_setSrcRef_writeAccessHandler */
    method WriteSetSrcRef(controller: ScheduleController, j: nat, ref: string) returns (r: WriteResult)
      requires Valid() && Known(controller) && j < |controller.schdRefs|
      modifies controller`schedules, controller`schdRefs, schedules
      ensures Valid()
      ensures View() == Sys.SetSrcRef(old(View()), controller.id, j, ref)
      ensures r == if Sys.RewireTarget(old(View()), controller.id, j, ref).Some? then Accepted else ValueInvalid
    {
      hide Sys.AddListener, Sys.RemoveFirst, Sys.Resolve, Views, CtlViews, ListenerIds, ControllerIds, Ids;
      hide Sys.SetSrcRef, Sys.RewireTarget, Sys.WellFormed;
      var sched := GetScheduleByObjRef(ref);
      if sched == null {
        RewireRefused(View(), controller.id, j, ref);
        return ValueInvalid;
      }
      InMembers(schedules, controller.schedules, sched);
      if sched in controller.schedules {
        RewireRefused(View(), controller.id, j, ref);
        return ValueInvalid;
      }
      AcceptSetSrcRef(controller, j, ref, sched);
      return Accepted;
    }

    /** What one event does, object by object: nobody but the schedule and its listeners is touched. */
    method Dispatch(i: nat, now: nat, cmd: Sys.Cmd)
      requires Valid() && i < |schedules|
      modifies schedules[i], schedules[i].knownScheduleControllers
      ensures Valid()
      ensures schedules[i].View() == Sys.After(old(schedules[i].View()), cmd, now)
      ensures schedules[i].knownScheduleControllers == old(schedules[i].knownScheduleControllers)
      ensures forall c :: c in schedules[i].knownScheduleControllers ==>
        && MembersExist(Views(schedules), old(c.View()).members)
        && c.View() == Sys.Informed(old(c.View()), Views(schedules), i, old(schedules[i].View()), cmd, now)
    {
      hide Sys.After, Sys.Informed, Views, Ids;
      schedules[i].Perform(cmd, now, schedules);
    }

    /** Compared with `before`, schedule `i` performed a command and its listeners were informed. */
    lemma OnlyThatEvent(before: Sys.System, i: nat, now: nat, cmd: Sys.Cmd)
      requires Valid() && Sys.WellFormed(before) && i < |schedules|
      requires |before.scheds| == |schedules| && |before.ctls| == |controllers|
      requires schedules[i].View() == Sys.After(before.scheds[i], cmd, now)
      requires forall k :: 0 <= k < |schedules| && k != i ==> schedules[k].View() == before.scheds[k]
      requires forall k :: 0 <= k < |schedules| ==>
        ControllerIds(schedules[k].knownScheduleControllers) == before.listeners[k]
      requires forall c :: 0 <= c < |controllers| && controllers[c] in schedules[i].knownScheduleControllers ==>
        && MembersExist(Views(schedules), before.ctls[c].members)
        && controllers[c].View() == Sys.Informed(before.ctls[c], Views(schedules), i, before.scheds[i], cmd, now)
      requires forall c :: 0 <= c < |controllers| && controllers[c] !in schedules[i].knownScheduleControllers ==>
        controllers[c].View() == before.ctls[c]
      ensures View() == Sys.Step(before, Sys.OnSched(i, now, cmd))
    {
      hide Sys.After, Sys.Informed, Sys.Step, Views, CtlViews, ListenerIds, ControllerIds, Ids;
      forall c | 0 <= c < |controllers|
        ensures c in before.listeners[i] <==> controllers[c] in schedules[i].knownScheduleControllers
      {
        InTold(schedules[i].knownScheduleControllers, controllers, c);
      }
      assert View().scheds == before.scheds[i := Sys.After(before.scheds[i], cmd, now)];
      assert View().listeners == before.listeners;
      SameStep(before, View(), i, now, cmd);
    }

    /** One event on one schedule is one step of the system. */
    method Execute(i: nat, now: nat, cmd: Sys.Cmd)
      requires Valid() && i < |schedules|
      modifies schedules, controllers
      ensures Valid() && schedules == old(schedules) && controllers == old(controllers)
      ensures View() == Sys.Step(old(View()), Sys.OnSched(i, now, cmd))
    {
      hide Sys.After, Sys.Informed, Sys.Step, Sys.WellFormed, Views, CtlViews, ListenerIds, ControllerIds, Ids;
      ghost var before := View();
      Dispatch(i, now, cmd);
      OnlyThatEvent(before, i, now, cmd);
    }
  }

  /** The controllers a schedule informs, by object and by number. */
  lemma InTold(told: seq<ScheduleController>, controllers: seq<ScheduleController>, c: nat)
    requires c < |controllers|
    requires forall k :: 0 <= k < |controllers| ==> controllers[k].id == k
    requires forall k :: 0 <= k < |told| ==> told[k].id < |controllers| && controllers[told[k].id] == told[k]
    ensures c in ControllerIds(told) <==> controllers[c] in told
  {
    if controllers[c] in told {
      var k :| 0 <= k < |told| && told[k] == controllers[c];
      assert ControllerIds(told)[k] == c;
    }
  }

  lemma RewireRefused(sys: Sys.System, c: nat, j: nat, ref: string)
    requires Sys.WellFormed(sys) && c < |sys.ctls|
    requires var i := Sys.Resolve(sys.scheds, ref); i.Some? ==> i.value in sys.ctls[c].members
    ensures Sys.RewireTarget(sys, c, j, ref).None? && Sys.SetSrcRef(sys, c, j, ref) == sys
  {
    hide Sys.Resolve;
  }

  lemma RewireDone(sys: Sys.System, c: nat, j: nat, ref: string, i: nat)
    requires Sys.WellFormed(sys) && c < |sys.ctls| && j < |sys.ctls[c].refs| && i < |sys.scheds|
    requires Sys.Resolve(sys.scheds, ref) == Some(i) && i !in sys.ctls[c].members
    ensures Sys.RewireTarget(sys, c, j, ref) == Some(i)
    ensures
      var ctl := sys.ctls[c].(members := Sys.Rewired(sys.ctls[c], sys.scheds, j, i),
                              refs := sys.ctls[c].refs[j := ref]);
      Sys.SetSrcRef(sys, c, j, ref)
      == Sys.System(sys.scheds, sys.listeners[i := Sys.AddListener(sys.listeners[i], c)], sys.ctls[c := ctl])
  {
    hide Sys.Resolve, Sys.Rewired, Sys.AddListener;
  }

  lemma InMembers(world: seq<Schedule>, xs: seq<Schedule>, x: Schedule)
    requires Listed(world, x) && forall k :: 0 <= k < |xs| ==> Listed(world, xs[k])
    ensures x in xs <==> x.id in Ids(xs)
  {
    if x in xs {
      var k :| 0 <= k < |xs| && xs[k] == x;
      assert Ids(xs)[k] == x.id;
    }
  }

  lemma {:induction false} RemovedIds(xs: seq<Schedule>, x: Schedule)
    requires forall k :: 0 <= k < |xs| && xs[k].id == x.id ==> xs[k] == x
    ensures Ids(Sys.RemoveFirst(xs, x)) == Sys.RemoveFirst(Ids(xs), x.id)
  {
    if xs != [] {
      IdsOfTail(xs);
      if xs[0] != x {
        RemovedIds(xs[1..], x);
        IdsOfTail(Sys.RemoveFirst(xs, x));
      }
    }
  }

  lemma IdsOfTail(xs: seq<Schedule>)
    requires xs != []
    ensures Ids(xs) == [xs[0].id] + Ids(xs[1..]) && Ids(xs)[1..] == Ids(xs[1..])
  {
  }

  lemma RemovedListed(world: seq<Schedule>, xs: seq<Schedule>, x: Schedule)
    requires forall k :: 0 <= k < |xs| ==> Listed(world, xs[k])
    ensures forall k :: 0 <= k < |Sys.RemoveFirst(xs, x)| ==> Listed(world, Sys.RemoveFirst(xs, x)[k])
  {
    hide Listed;
    var rest := Sys.RemoveFirst(xs, x);
    forall k | 0 <= k < |rest| ensures Listed(world, rest[k]) {
      assert rest[k] in xs;
    }
  }

  lemma ListenerAdded(told: seq<ScheduleController>, controllers: seq<ScheduleController>, c: ScheduleController)
    requires forall k :: 0 <= k < |controllers| ==> controllers[k].id == k
    requires c.id < |controllers| && controllers[c.id] == c
    requires forall k :: 0 <= k < |told| ==> told[k].id < |controllers| && controllers[told[k].id] == told[k]
    ensures Sys.AddListener(ControllerIds(told), c.id) == ControllerIds(if c in told then told else told + [c])
  {
    InTold(told, controllers, c.id);
    assert c !in told ==> ControllerIds(told + [c]) == ControllerIds(told) + [c.id];
  }

  /** A step of the system, told from its parts. */
  lemma SameStep(before: Sys.System, after: Sys.System, i: nat, now: nat, cmd: Sys.Cmd)
    requires Sys.WellFormed(before) && i < |before.scheds|
    requires after.scheds == before.scheds[i := Sys.After(before.scheds[i], cmd, now)]
    requires after.listeners == before.listeners && |after.ctls| == |before.ctls|
    requires forall c :: 0 <= c < |before.ctls| ==>
      && MembersExist(after.scheds, before.ctls[c].members)
      && after.ctls[c] == if c in before.listeners[i]
                          then Sys.Informed(before.ctls[c], after.scheds, i, before.scheds[i], cmd, now)
                          else before.ctls[c]
    ensures after == Sys.Step(before, Sys.OnSched(i, now, cmd))
  {
    hide Sys.After, Sys.Informed;
    var r := Sys.StepSched(before, i, now, cmd);
    assert after.ctls == r.ctls;
  }

  lemma ResolveIs(ss: seq<Sched>, objRef: string, r: Option<nat>)
    requires r.Some? ==> r.value < |ss| && Sys.RefNames(objRef, ss[r.value].cfg)
    requires forall i :: 0 <= i < |ss| && (r.Some? ==> i < r.value) ==> !Sys.RefNames(objRef, ss[i].cfg)
    ensures Sys.Resolve(ss, objRef) == r
  {
  }
}
