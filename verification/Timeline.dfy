// The timeline: what the controlled object shows after each polling round,
// computed from the schedules' parameters alone, without any state.
module Timeline {
  import opened CTypes
  import opened Types
  import opened Names
  import opened Interval
  import opened StartTimes
  import opened ScheduleSpec
  import opened Election
  import opened SystemSpec
  import opened Cache

  const MAX_ENTRIES: int := 0x4000_0000

  // ---- The plan of one schedule ----
  // Throughout, the plan is read off the schedule as it was before the first round.

  /** Milliseconds per entry, as the schedule latches it. */
  function EntryMs(s: Sched): (d: int)
    ensures d <= INT_MAX
  {
    Int32(IntervalMs(s))
  }

  /** Duration of a whole execution. */
  function LengthMs(s: Sched): int {
    s.numEntr * EntryMs(s)
  }

  /** The schedule was enabled, and the execution that begins at `start` is going on at time `t`. */
  predicate Open(s: Sched, start: nat, t: nat) {
    s.state == Ready && EntryMs(s) > 0 && start < t < start + LengthMs(s)
  }

  /** What the schedule asks for at time `t`: entry floor((t-start)/d), or nothing. */
  function Wanted(s: Sched, start: nat, t: nat): Option<MmsValue> {
    if Open(s, start, t) then Entry(s, (t - start) / EntryMs(s) + 1) else None
  }

  /** A valid one-shot schedule with one start ahead of `t0`, enabled and not yet started. */
  ghost predicate Armed(s: Sched, start: nat, t0: nat) {
    && s.state == Ready && !s.cfg.periodic
    && (s.nextStartTime == 0 || s.nextStartTime == start)
    && (exists k :: 0 <= k < |s.strTms| && SlotTime(s.strTms[k]) == start)
    && (forall k :: 0 <= k < |s.strTms| ==> SlotTime(s.strTms[k]) == start || SlotTime(s.strTms[k]) <= t0)
    && t0 < start
    && 0 < s.numEntr <= MAX_ENTRIES && EntryMs(s) > 0
    && (forall k :: 1 <= k <= s.numEntr ==> Entry(s, k).Some?)
  }

  /** Every schedule is armed or not enabled at all. */
  ghost predicate Planned(s: Sched, start: nat, t0: nat) {
    s.state == NotReady || Armed(s, start, t0)
  }

  /** Enabling a one-shot schedule that has one slot ahead and no stale start arms it. */
  lemma EnablingArms(s: Sched, start: nat, now: nat)
    requires CanEnable(s, now) && !s.cfg.periodic && s.nextStartTime == 0
    requires s.numEntr <= MAX_ENTRIES && EntryMs(s) > 0 && now < start
    requires exists k :: 0 <= k < |s.strTms| && SlotTime(s.strTms[k]) == start
    requires forall k :: 0 <= k < |s.strTms| ==> SlotTime(s.strTms[k]) == start || SlotTime(s.strTms[k]) <= now
    ensures Armed(Enabled(s, now), start, now)
  {
    hide NextOneShot, ValueAttr, GetMs, ShowNext;
    assert AllPresent(s.values, s.cfg.targetType, s.numEntr);
    assert EntryMs(Enabled(s, now)) == EntryMs(s);
    forall k | 1 <= k <= s.numEntr ensures Entry(Enabled(s, now), k).Some? {
      assert ValueAttr(s.values, s.cfg.targetType, k).Some?;
    }
  }

  // ---- The index arithmetic ----

  lemma QuotientBounds(x: nat, d: int, n: nat)
    requires d > 0
    ensures x / d >= 0 && (x / d < n <==> x < n * d)
  {
    DivBounds(x, d);
    if x / d < n { Monotone(x / d + 1, n, d); }
    if x < n * d && x / d >= n { Monotone(n, x / d, d); }
  }

  /** A running schedule polled within one more execution length has an exact index. */
  lemma IndexExact(s: Sched, now: nat)
    requires s.startTime <= now < TWO_64 && s.entryDurationInMs > 0 && s.entryDurationInMs <= INT_MAX
    requires 0 < s.numberOfScheduleEntries <= MAX_ENTRIES
    requires now - s.startTime < 2 * s.numberOfScheduleEntries * s.entryDurationInMs
    ensures
      CurrentIdx(s, now)
      == if now < s.startTime + s.numberOfScheduleEntries * s.entryDurationInMs
         then (now - s.startTime) / s.entryDurationInMs else -1
  {
    QuotientBounds(now - s.startTime, s.entryDurationInMs, s.numberOfScheduleEntries);
    QuotientBounds(now - s.startTime, s.entryDurationInMs, 2 * s.numberOfScheduleEntries);
  }

  // ---- One schedule, tick by tick ----

  /** The parameters are still those of the plan. */
  predicate SamePlan(s: Sched, s0: Sched) {
    && s.cfg == s0.cfg && s.prio == s0.prio && s.numEntr == s0.numEntr
    && s.schdIntv == s0.schdIntv && s.values == s0.values
  }

  /** The schedule is in the middle of the planned execution; `tau` was its last tick. */
  ghost predicate PhaseRunning(s: Sched, s0: Sched, start: nat, tau: nat) {
    && s.state == Running && s.startTime == start
    && s.entryDurationInMs == EntryMs(s0) && s.numberOfScheduleEntries == s0.numEntr
    && EntryMs(s0) > 0
    && (s.currentEntryIdx == -2 || s.currentEntryIdx == (tau - start) / EntryMs(s0))
    && (forall k :: 0 <= k < |s.strTms| ==> SlotTime(s.strTms[k]) <= start)
  }

  /** Where a planned schedule is when its last tick was at `tau`. */
  ghost predicate Phase(s: Sched, s0: Sched, start: nat, tau: nat, unticked: bool) {
    && SamePlan(s, s0)
    && (if s0.state == NotReady then s.state == NotReady
        else if tau <= start then
          s.state == Ready && s.strTms == s0.strTms
          && (s.nextStartTime == start || (unticked && s.nextStartTime == 0))
        else if tau < start + LengthMs(s0) then PhaseRunning(s, s0, start, tau)
        else s.state == NotReady)
  }

  /** The tick times fit together: the schedule is polled before a whole execution has passed. */
  predicate Polled(s0: Sched, t0: nat, prev: nat, t: nat) {
    t0 <= prev <= t < TWO_64 && (s0.state == Ready ==> t - prev < LengthMs(s0))
  }

  lemma NoFutureSlot(slots: seq<StrTm>, now: nat)
    requires forall k :: 0 <= k < |slots| ==> SlotTime(slots[k]) <= now
    ensures NextOneShot(slots, now) == 0
  {
    NextOneShotIsEarliest(slots, now);
  }

  lemma OneFutureSlot(s0: Sched, start: nat, t0: nat, now: nat)
    requires Armed(s0, start, t0) && t0 <= now < start
    ensures NextOneShot(s0.strTms, now) == start
  {
    NextOneShotIsEarliest(s0.strTms, now);
  }

  lemma ErasedSlots(s0: Sched, start: nat, t0: nat)
    requires Armed(s0, start, t0)
    ensures forall k :: 0 <= k < |s0.strTms| ==> SlotTime(Erase(s0.strTms, start)[k]) <= t0
  {
  }

  lemma ReadyTick(s: Sched, s0: Sched, start: nat, t0: nat, prev: nat, t: nat, unticked: bool)
    requires Armed(s0, start, t0) && Phase(s, s0, start, prev, unticked) && Polled(s0, t0, prev, t)
    requires prev <= start && (unticked ==> t < start)
    ensures Phase(TickSched(s, t).sched, s0, start, t, false)
    ensures TickSched(s, t).published.None?
    ensures t > start ==> TickSched(s, t).sched.state == Running
  {
    hide Entry, GetMs, Erase, NextOneShot, ShowNext, ShowAct;
    if t < start {
      OneFutureSlot(s0, start, t0, t);
    } else if t > start {
      ErasedSlots(s0, start, t0);
      NoFutureSlot(Erase(s0.strTms, start), t);
      assert IntervalMs(s) == IntervalMs(s0);
    }
  }

  lemma RunningIndex(s: Sched, s0: Sched, start: nat, tau: nat, t: nat)
    requires PhaseRunning(s, s0, start, tau) && s0.state == Ready && 0 < s0.numEntr <= MAX_ENTRIES
    requires start < tau < start + LengthMs(s0) && Polled(s0, 0, tau, t)
    ensures CurrentIdx(s, t) == if t < start + LengthMs(s0) then (t - start) / EntryMs(s0) else -1
    ensures (t - start) / EntryMs(s0) >= 0
  {
    hide EntryMs, CurrentIdx;
    IndexExact(s, t);
    QuotientBounds(t - start, EntryMs(s0), s0.numEntr);
  }

  lemma RunningTick(s: Sched, s0: Sched, start: nat, t0: nat, prev: nat, t: nat)
    requires Armed(s0, start, t0) && Phase(s, s0, start, prev, false) && Polled(s0, t0, prev, t)
    requires start < prev < start + LengthMs(s0)
    ensures Phase(TickSched(s, t).sched, s0, start, t, false)
    ensures TickSched(s, t).published.Some? ==> TickSched(s, t).published == Wanted(s0, start, t)
    ensures TickSched(s, t).published.None? && Open(s0, start, t) ==> Wanted(s0, start, t) == Wanted(s0, start, prev)
  {
    hide ValueAttr, GetMs, NextOneShot, ShowNext, ShowAct, EntryMs, CurrentIdx;
    RunningIndex(s, s0, start, prev, t);
    NoFutureSlot(s.strTms, t);
    if t < start + LengthMs(s0) {
      QuotientBounds(t - start, EntryMs(s0), s0.numEntr);
      assert Entry(s0, (t - start) / EntryMs(s0) + 1).Some?;
    }
  }

  /** One tick of a planned schedule. */
  lemma PhaseTick(s: Sched, s0: Sched, start: nat, t0: nat, prev: nat, t: nat, unticked: bool)
    requires Planned(s0, start, t0) && Phase(s, s0, start, prev, unticked) && Polled(s0, t0, prev, t)
    requires unticked ==> BeforeStart(s0, start, t)
    ensures Phase(TickSched(s, t).sched, s0, start, t, false)
    ensures TickSched(s, t).published.Some? ==> TickSched(s, t).published == Wanted(s0, start, t)
    ensures TickSched(s, t).published.None? && s.state == Running && TickSched(s, t).sched.state == Running
            ==> Wanted(s0, start, t) == Wanted(s0, start, prev)
  {
    hide TickSched, EntryMs;
    if s0.state == NotReady {
      IdleTick(s, t);
    } else if prev <= start {
      ReadyTick(s, s0, start, t0, prev, t, unticked);
    } else if prev < start + LengthMs(s0) {
      RunningTick(s, s0, start, t0, prev, t);
    } else {
      IdleTick(s, t);
    }
  }

  /** The value a controller reads from a running schedule at election time. */
  lemma ElectedValue(s: Sched, s0: Sched, start: nat, t0: nat, tau: nat, t: nat, unticked: bool)
    requires Planned(s0, start, t0) && Phase(s, s0, start, tau, unticked) && Polled(s0, t0, tau, t)
    requires s.state == Running
    ensures CurrentValue(s, t) == Wanted(s0, start, t)
  {
    hide ValueAttr, CurrentIdx, EntryMs;
    RunningIndex(s, s0, start, tau, t);
  }

  // ---- The whole system during a round ----

  ghost predicate AllPlanned(sys0: System, starts: seq<nat>, t0: nat) {
    && |starts| == |sys0.scheds|
    && (forall i :: 0 <= i < |starts| ==> Planned(sys0.scheds[i], starts[i], t0))
  }

  ghost predicate AllPolled(sys0: System, t0: nat, prev: nat, t: nat) {
    forall i :: 0 <= i < |sys0.scheds| ==> Polled(sys0.scheds[i], t0, prev, t)
  }

  predicate BeforeStart(s0: Sched, start: nat, t: nat) {
    s0.state == Ready ==> t < start
  }

  /** In a round at `t`, the schedules in `done` have been ticked; the others were ticked at `prev`. */
  function LastTick(prev: nat, t: nat, done: set<nat>, i: nat): nat {
    if i in done then t else prev
  }

  ghost predicate SchedulesOnPlan(sys: System, sys0: System, starts: seq<nat>, prev: nat, t: nat,
                                  done: set<nat>, first: bool)
    requires |starts| == |sys0.scheds|
  {
    && |sys.scheds| == |sys0.scheds|
    && (forall i :: 0 <= i < |sys.scheds| ==>
          Phase(sys.scheds[i], sys0.scheds[i], starts[i], LastTick(prev, t, done, i), first && i !in done))
  }

  /** The target shows what the active schedule wants now, or wanted at its last tick. */
  ghost predicate TargetOnPlan(c: Ctl, sys0: System, starts: seq<nat>, prev: nat, t: nat, done: set<nat>)
    requires |starts| == |sys0.scheds|
  {
    match c.active
    case None => c.target == None
    case Some(w) =>
      && w < |starts|
      && (c.target == Wanted(sys0.scheds[w], starts[w], t)
          || (w !in done && c.target == Wanted(sys0.scheds[w], starts[w], prev)))
  }

  ghost predicate OnPlan(sys: System, sys0: System, starts: seq<nat>, prev: nat, t: nat, done: set<nat>, first: bool)
    requires |starts| == |sys0.scheds|
  {
    && WellFormed(sys) && AllRight(sys)
    && SchedulesOnPlan(sys, sys0, starts, prev, t, done, first)
    && |sys.ctls| == |sys0.ctls|
    && (forall c :: 0 <= c < |sys.ctls| ==>
          && sys.ctls[c].hasEntity && sys.ctls[c].members == sys0.ctls[c].members
          && TargetOnPlan(sys.ctls[c], sys0, starts, prev, t, done))
  }

  /** A target that was not touched stays on plan unless it belongs to the ticked schedule. */
  lemma TargetKept(c: Ctl, sys0: System, starts: seq<nat>, prev: nat, t: nat, done: set<nat>, i: nat)
    requires |starts| == |sys0.scheds| && i < |starts|
    requires TargetOnPlan(c, sys0, starts, prev, t, done)
    requires c.active == Some(i) ==>
      Wanted(sys0.scheds[i], starts[i], t) == Wanted(sys0.scheds[i], starts[i], LastTick(prev, t, done, i))
    ensures TargetOnPlan(c, sys0, starts, prev, t, done + {i})
  {
    hide Wanted;
  }

  /** A controller that elects afresh at time `t` shows what the winner wants at `t`. */
  lemma TargetElected(c: Ctl, ss: seq<Sched>, sys0: System, starts: seq<nat>, t0: nat, prev: nat, t: nat,
                      done: set<nat>, first: bool)
    requires AllPlanned(sys0, starts, t0) && AllPolled(sys0, t0, prev, t)
    requires SchedulesOnPlan(System(ss, [], []), sys0, starts, prev, t, done, first)
    requires MembersExist(ss, c.members) && c.hasEntity && Elect(ss, c.members) != c.active
    ensures TargetOnPlan(StateUpdated(c, ss, t), sys0, starts, prev, t, done)
  {
    hide Elect, Phase, Wanted, CurrentValue;
    var w := Elect(ss, c.members);
    if w.Some? {
      var u := w.value;
      assert Planned(sys0.scheds[u], starts[u], t0) && Polled(sys0.scheds[u], t0, prev, t);
      ElectedValue(ss[u], sys0.scheds[u], starts[u], t0, LastTick(prev, t, done, u), t, first && u !in done);
    }
  }

  /** A controller's target after a tick of schedule `i` at time `t`, if it listens to that schedule. */
  lemma TargetInformed(c: Ctl, ss: seq<Sched>, sys0: System, starts: seq<nat>, t0: nat, prev: nat, t: nat,
                       done: set<nat>, first: bool, i: nat)
    requires AllPlanned(sys0, starts, t0) && AllPolled(sys0, t0, prev, t) && i < |starts|
    requires SchedulesOnPlan(System(ss, [], []), sys0, starts, prev, t, done, first)
    requires first ==> BeforeStart(sys0.scheds[i], starts[i], t)
    requires MembersExist(ss, c.members) && c.active == Elect(ss, c.members)
    requires c.hasEntity && TargetOnPlan(c, sys0, starts, prev, t, done)
    requires
      var tt := ss[i := TickSched(ss[i], t).sched];
      SchedulesOnPlan(System(tt, [], []), sys0, starts, prev, t, done + {i}, first)
    ensures
      var tt := ss[i := TickSched(ss[i], t).sched];
      TargetOnPlan(Informed(c, tt, i, ss[i], Tick, t), sys0, starts, prev, t, done + {i})
  {
    hide TickSched, Elect, Phase, Wanted, StateUpdated, Polled;
    var s, out := ss[i], TickSched(ss[i], t);
    var tt := ss[i := out.sched];
    assert Planned(sys0.scheds[i], starts[i], t0) && Polled(sys0.scheds[i], t0, prev, t);
    assert Phase(s, sys0.scheds[i], starts[i], LastTick(prev, t, done, i), first && i !in done);
    PolledAgain(sys0.scheds[i], t0, prev, t);
    PhaseTick(s, sys0.scheds[i], starts[i], t0, LastTick(prev, t, done, i), t, first && i !in done);
    if out.published.Some? {
      if c.active != Some(i) {
        TargetKept(c, sys0, starts, prev, t, done, i);
      }
    } else if out.sched.state != s.state {
      if Elect(tt, c.members) != c.active {
        TargetElected(c, tt, sys0, starts, t0, prev, t, done + {i}, first);
      } else {
        TargetKept(c, sys0, starts, prev, t, done, i);
        StateUpdatedSame(c, tt, t);
      }
    } else {
      TargetKept(c, sys0, starts, prev, t, done, i);
    }
  }

  lemma PolledAgain(s0: Sched, t0: nat, prev: nat, t: nat)
    requires Polled(s0, t0, prev, t)
    ensures Polled(s0, t0, t, t)
  {
  }

  lemma StateUpdatedSame(c: Ctl, ss: seq<Sched>, t: nat)
    requires MembersExist(ss, c.members) && Elect(ss, c.members) == c.active
    ensures c.active.Some? ==> StateUpdated(c, ss, t) == c
    ensures c.active.None? ==> StateUpdated(c, ss, t).target == (if c.hasEntity then None else c.target)
    ensures StateUpdated(c, ss, t).active == c.active
  {
  }

  /** One tick anywhere in a round. */
  lemma PlanTick(sys: System, sys0: System, starts: seq<nat>, t0: nat, prev: nat, t: nat,
                 done: set<nat>, first: bool, i: nat)
    requires AllPlanned(sys0, starts, t0) && AllPolled(sys0, t0, prev, t) && i < |starts|
    requires OnPlan(sys, sys0, starts, prev, t, done, first) && (first ==> BeforeStart(sys0.scheds[i], starts[i], t))
    ensures OnPlan(StepSched(sys, i, t, Tick), sys0, starts, prev, t, done + {i}, first)
  {
    hide TickSched, Elect, Phase, Informed, TargetOnPlan;
    var after := StepSched(sys, i, t, Tick);
    StepKeepsCache(sys, i, t, Tick);
    TickIsAfter(sys.scheds[i], t);
    assert Planned(sys0.scheds[i], starts[i], t0) && Polled(sys0.scheds[i], t0, prev, t);
    PolledAgain(sys0.scheds[i], t0, prev, t);
    PhaseTick(sys.scheds[i], sys0.scheds[i], starts[i], t0, LastTick(prev, t, done, i), t, first && i !in done);
    assert SchedulesOnPlan(System(sys.scheds, [], []), sys0, starts, prev, t, done, first);
    assert SchedulesOnPlan(System(after.scheds, [], []), sys0, starts, prev, t, done + {i}, first);
    forall c | 0 <= c < |sys.ctls|
      ensures after.ctls[c].hasEntity && after.ctls[c].members == sys0.ctls[c].members
      ensures TargetOnPlan(after.ctls[c], sys0, starts, prev, t, done + {i})
    {
      var ctl := sys.ctls[c];
      assert Connected(sys, c) && CacheRight(sys, c);
      InformedKeepsWiring(ctl, after.scheds, i, sys.scheds[i], Tick, t);
      if c in sys.listeners[i] {
        TargetInformed(ctl, sys.scheds, sys0, starts, t0, prev, t, done, first, i);
      } else {
        assert i !in ctl.members;
        TargetKept(ctl, sys0, starts, prev, t, done, i);
      }
    }
  }

  // ---- Rounds ----

  /** One polling round: every schedule is ticked at the same time, in any order, some perhaps repeatedly. */
  datatype Round = Round(time: nat, order: seq<nat>)

  ghost predicate Complete(r: Round, n: nat) {
    && (forall k :: 0 <= k < |r.order| ==> r.order[k] < n)
    && (forall i :: 0 <= i < n ==> i in r.order)
  }

  function Ticks(order: seq<nat>, t: nat): seq<Event> {
    seq(|order|, k requires 0 <= k < |order| => OnSched(order[k], t, Tick))
  }

  function Ticked(order: seq<nat>): set<nat> {
    set i | i in order
  }

  ghost function RunRounds(sys: System, rounds: seq<Round>): (r: System)
    requires WellFormed(sys)
    ensures WellFormed(r) && |r.ctls| == |sys.ctls| && |r.scheds| == |sys.scheds|
    decreases |rounds|
  {
    if rounds == [] then sys
    else
      var n := |rounds| - 1;
      Run(RunRounds(sys, rounds[..n]), Ticks(rounds[n].order, rounds[n].time))
  }

  lemma {:induction false} PlanTicks(sys: System, sys0: System, starts: seq<nat>, t0: nat, prev: nat, t: nat,
                                     done: set<nat>, first: bool, order: seq<nat>)
    requires AllPlanned(sys0, starts, t0) && AllPolled(sys0, t0, prev, t)
    requires OnPlan(sys, sys0, starts, prev, t, done, first)
    requires first ==> forall i :: 0 <= i < |starts| ==> BeforeStart(sys0.scheds[i], starts[i], t)
    requires forall k :: 0 <= k < |order| ==> order[k] < |starts|
    ensures OnPlan(Run(sys, Ticks(order, t)), sys0, starts, prev, t, done + Ticked(order), first)
    decreases |order|
  {
    hide OnPlan, Planned, AllPolled, StepSched;
    if order == [] {
      assert done + Ticked(order) == done;
    } else {
      var i := order[0];
      assert WellFormed(sys) && i < |sys.scheds| by { OnPlanSizes(sys, sys0, starts, prev, t, done, first); }
      PlanTick(sys, sys0, starts, t0, prev, t, done, first, i);
      PlanTicks(StepSched(sys, i, t, Tick), sys0, starts, t0, prev, t, done + {i}, first, order[1..]);
      assert Ticks(order, t)[1..] == Ticks(order[1..], t);
      assert Ticks(order, t)[0] == OnSched(i, t, Tick);
      assert done + {i} + Ticked(order[1..]) == done + Ticked(order) by {
        assert order == [i] + order[1..];
      }
    }
  }

  lemma OnPlanSizes(sys: System, sys0: System, starts: seq<nat>, prev: nat, t: nat, done: set<nat>, first: bool)
    requires |starts| == |sys0.scheds| && OnPlan(sys, sys0, starts, prev, t, done, first)
    ensures WellFormed(sys) && |sys.scheds| == |starts| && |sys.ctls| == |sys0.ctls|
  {
  }

  /** The rounds are complete and at increasing times, and no gap is as long as an execution. */
  ghost predicate RoundsFit(sys0: System, rounds: seq<Round>) {
    && (forall k :: 0 <= k < |rounds| ==> Complete(rounds[k], |sys0.scheds|) && rounds[k].time < TWO_64)
    && (forall k :: 0 < k < |rounds| ==> rounds[k - 1].time < rounds[k].time)
    && (forall k, i :: 0 < k < |rounds| && 0 <= i < |sys0.scheds| && sys0.scheds[i].state == Ready ==>
          rounds[k].time - rounds[k - 1].time < LengthMs(sys0.scheds[i]))
  }

  /** Idle controllers that show nothing. */
  ghost predicate Idle(sys0: System)
    requires WellFormed(sys0)
  {
    && AllRight(sys0)
    && (forall c :: 0 <= c < |sys0.ctls| ==>
          sys0.ctls[c].hasEntity && sys0.ctls[c].active == None && sys0.ctls[c].target == None)
  }

  /** A finished round is the starting point of the next one. */
  lemma RoundOver(sys: System, sys0: System, starts: seq<nat>, prev: nat, t: nat, later: nat,
                  done: set<nat>, first: bool)
    requires |starts| == |sys0.scheds| && OnPlan(sys, sys0, starts, prev, t, done, first)
    requires forall i :: 0 <= i < |starts| ==> i in done
    ensures OnPlan(sys, sys0, starts, t, later, {}, false)
  {
    hide Phase, Wanted, AllRight;
    forall c | 0 <= c < |sys.ctls| ensures TargetOnPlan(sys.ctls[c], sys0, starts, t, later, {}) {
      assert TargetOnPlan(sys.ctls[c], sys0, starts, prev, t, done);
    }
  }

  lemma {:induction false} PlanRounds(sys0: System, starts: seq<nat>, rounds: seq<Round>)
    returns (prev: nat, done: set<nat>)
    requires WellFormed(sys0) && Idle(sys0) && rounds != []
    requires AllPlanned(sys0, starts, rounds[0].time) && RoundsFit(sys0, rounds)
    ensures OnPlan(RunRounds(sys0, rounds), sys0, starts, prev, rounds[|rounds| - 1].time, done, |rounds| == 1)
    ensures forall i :: 0 <= i < |starts| ==> i in done
    decreases |rounds|
  {
    hide OnPlan, Planned, Run, AllPolled, LengthMs;
    var n := |rounds| - 1;
    var t0, t := rounds[0].time, rounds[n].time;
    var before := RunRounds(sys0, rounds[..n]);
    if n == 0 {
      prev := t;
      StartOnPlan(sys0, starts, t);
    } else {
      prev := rounds[n - 1].time;
      var earlier, all := PlanRounds(sys0, starts, rounds[..n]);
      assert rounds[..n][n - 1] == rounds[n - 1];
      RoundOver(before, sys0, starts, earlier, prev, t, all, n == 1);
      RoundPolled(sys0, starts, rounds);
    }
    assert Complete(rounds[n], |starts|);
    PlanTicks(before, sys0, starts, t0, prev, t, {}, n == 0, rounds[n].order);
    done := {} + Ticked(rounds[n].order);
  }

  lemma StartOnPlan(sys0: System, starts: seq<nat>, t: nat)
    requires WellFormed(sys0) && Idle(sys0) && AllPlanned(sys0, starts, t) && t < TWO_64
    ensures OnPlan(sys0, sys0, starts, t, t, {}, true)
    ensures AllPolled(sys0, t, t, t)
    ensures forall i :: 0 <= i < |starts| ==> BeforeStart(sys0.scheds[i], starts[i], t)
  {
    hide Wanted, AllRight, EntryMs;
    forall i | 0 <= i < |starts|
      ensures Phase(sys0.scheds[i], sys0.scheds[i], starts[i], t, true) && Polled(sys0.scheds[i], t, t, t)
    {
      assert Planned(sys0.scheds[i], starts[i], t);
      if sys0.scheds[i].state == Ready {
        Monotone(1, sys0.scheds[i].numEntr, EntryMs(sys0.scheds[i]));
      }
    }
  }

  lemma RoundPolled(sys0: System, starts: seq<nat>, rounds: seq<Round>)
    requires |rounds| > 1 && RoundsFit(sys0, rounds)
    ensures AllPolled(sys0, rounds[0].time, rounds[|rounds| - 2].time, rounds[|rounds| - 1].time)
  {
    hide LengthMs;
    TimesIncrease(sys0, rounds, |rounds| - 2);
  }

  lemma {:induction false} TimesIncrease(sys0: System, rounds: seq<Round>, k: nat)
    requires k < |rounds| && RoundsFit(sys0, rounds)
    ensures rounds[0].time <= rounds[k].time
  {
    if k > 0 { TimesIncrease(sys0, rounds, k - 1); }
  }

  // ---- The timeline ----

  /** Schedule a outranks schedule b on the timeline: higher priority, or equal priority and later start. */
  predicate Before(sys0: System, starts: seq<nat>, a: nat, b: nat)
    requires |starts| == |sys0.scheds| && a < |starts| && b < |starts|
  {
    sys0.scheds[a].prio > sys0.scheds[b].prio
    || (sys0.scheds[a].prio == sys0.scheds[b].prio && starts[a] > starts[b])
  }

  /** Member p is open at time t, no open member outranks it, and it outranks the open ones listed before it. */
  ghost predicate TimelineWinner(sys0: System, starts: seq<nat>, members: seq<nat>, t: nat, p: int)
    requires |starts| == |sys0.scheds| && MembersExist(sys0.scheds, members)
  {
    && 0 <= p < |members|
    && Open(sys0.scheds[members[p]], starts[members[p]], t)
    && (forall q :: 0 <= q < |members| && Open(sys0.scheds[members[q]], starts[members[q]], t) ==>
          !Before(sys0, starts, members[q], members[p]))
    && (forall q :: 0 <= q < p && Open(sys0.scheds[members[q]], starts[members[q]], t) ==>
          Before(sys0, starts, members[p], members[q]))
  }

  ghost predicate NoneOpen(sys0: System, starts: seq<nat>, members: seq<nat>, t: nat)
    requires |starts| == |sys0.scheds| && MembersExist(sys0.scheds, members)
  {
    forall q :: 0 <= q < |members| ==> !Open(sys0.scheds[members[q]], starts[members[q]], t)
  }

  /**
    * At time t the target is invalid exactly when no member is open, and
    * otherwise shows entry floor((t-s)/d) of the one and only winner.
    */
  ghost predicate ShowsPlan(target: Option<MmsValue>, sys0: System, starts: seq<nat>, members: seq<nat>, t: nat)
    requires |starts| == |sys0.scheds| && MembersExist(sys0.scheds, members)
  {
    && (target == None <==> NoneOpen(sys0, starts, members, t))
    && (target != None ==> exists p :: TimelineWinner(sys0, starts, members, t, p))
    && (forall p :: TimelineWinner(sys0, starts, members, t, p) ==>
          ShowsEntry(target, sys0.scheds[members[p]], starts[members[p]], t))
  }

  predicate ShowsEntry(target: Option<MmsValue>, s: Sched, start: nat, t: nat) {
    EntryMs(s) > 0 && target == Entry(s, (t - start) / EntryMs(s) + 1)
  }

  /**
    * Main result: after every polling round at time t the controlled object
    * shows exactly entry floor((t-s)/d) of the schedule that, among those with
    * s < t < s + n*d, has the largest (priority, s), the first in the list on
    * ties; and it is invalid exactly when there is none.
    */
  lemma {:induction false} TimelineRefinement(sys0: System, starts: seq<nat>, rounds: seq<Round>, c: nat)
    requires WellFormed(sys0) && Idle(sys0) && rounds != [] && c < |sys0.ctls|
    requires AllPlanned(sys0, starts, rounds[0].time) && RoundsFit(sys0, rounds)
    ensures
      var target := RunRounds(sys0, rounds).ctls[c].target;
      ShowsPlan(target, sys0, starts, sys0.ctls[c].members, rounds[|rounds| - 1].time)
  {
    hide OnPlan, Planned, Idle, RoundsFit, RunRounds, ShowsPlan;
    var prev, done := PlanRounds(sys0, starts, rounds);
    var t := rounds[|rounds| - 1].time;
    RoundShowsPlan(RunRounds(sys0, rounds), sys0, starts, rounds[0].time, prev, t, done, |rounds| == 1, c);
  }

  lemma {:induction false} RoundShowsPlan(sys: System, sys0: System, starts: seq<nat>, t0: nat, prev: nat, t: nat,
                                          done: set<nat>, first: bool, c: nat)
    requires WellFormed(sys0) && c < |sys0.ctls| && AllPlanned(sys0, starts, t0)
    requires OnPlan(sys, sys0, starts, prev, t, done, first) && forall i :: 0 <= i < |starts| ==> i in done
    ensures ShowsPlan(sys.ctls[c].target, sys0, starts, sys0.ctls[c].members, t)
  {
    hide OnPlan, Planned, Entry, EntryMs, Open, NoneOpen, TimelineWinner;
    OnPlanSizes(sys, sys0, starts, prev, t, done, first);
    var w := RoundWinner(sys, sys0, starts, t0, prev, t, done, first, c);
    forall p | TimelineWinner(sys0, starts, sys0.ctls[c].members, t, p)
      ensures sys.ctls[c].target != None && p == w
    {
      WinnerUnique(sys0, starts, sys0.ctls[c].members, t, p, w);
    }
  }

  lemma WinnerUnique(sys0: System, starts: seq<nat>, members: seq<nat>, t: nat, p: int, q: int)
    requires |starts| == |sys0.scheds| && MembersExist(sys0.scheds, members)
    requires TimelineWinner(sys0, starts, members, t, p)
    ensures !NoneOpen(sys0, starts, members, t)
    ensures TimelineWinner(sys0, starts, members, t, q) ==> p == q
  {
    hide Open;
  }

  lemma RunsWhenOpen(s: Sched, s0: Sched, start: nat, t: nat, unticked: bool)
    requires Phase(s, s0, start, t, unticked) && s0.state in {Ready, NotReady}
    ensures s.state == Running <==> Open(s0, start, t)
    ensures s.state == Running ==> s.startTime == start
    ensures s.prio == s0.prio
  {
    hide LengthMs, EntryMs;
  }

  lemma RoundWinner(sys: System, sys0: System, starts: seq<nat>, t0: nat, prev: nat, t: nat,
                    done: set<nat>, first: bool, c: nat)
    returns (p: int)
    requires WellFormed(sys0) && c < |sys0.ctls| && AllPlanned(sys0, starts, t0)
    requires OnPlan(sys, sys0, starts, prev, t, done, first) && forall i :: 0 <= i < |starts| ==> i in done
    ensures
      var target := sys.ctls[c].target;
      var members := sys0.ctls[c].members;
      && (target == None <==> NoneOpen(sys0, starts, members, t))
      && (target != None ==>
            TimelineWinner(sys0, starts, members, t, p)
            && ShowsEntry(target, sys0.scheds[members[p]], starts[members[p]], t))
  {
    hide Phase, Elect, EntryMs, LengthMs, Entry;
    var members := sys0.ctls[c].members;
    p := ElectFindsMaximum(sys.scheds, members);
    assert CacheRight(sys, c);
    forall i | 0 <= i < |starts|
      ensures sys.scheds[i].state == Running <==> Open(sys0.scheds[i], starts[i], t)
      ensures sys.scheds[i].state == Running ==> sys.scheds[i].startTime == starts[i]
      ensures sys.scheds[i].prio == sys0.scheds[i].prio
    {
      assert Planned(sys0.scheds[i], starts[i], t0);
      RunsWhenOpen(sys.scheds[i], sys0.scheds[i], starts[i], t, first && i !in done);
    }
    assert TargetOnPlan(sys.ctls[c], sys0, starts, prev, t, done);
    if p != -1 {
      var w := members[p];
      WantedEntry(sys0.scheds[w], starts[w], t0, t);
    }
  }

  lemma WantedEntry(s0: Sched, start: nat, t0: nat, t: nat)
    requires Planned(s0, start, t0) && Open(s0, start, t)
    ensures EntryMs(s0) > 0 && Wanted(s0, start, t) == Entry(s0, (t - start) / EntryMs(s0) + 1)
    ensures Wanted(s0, start, t).Some?
  {
    hide Entry, EntryMs;
    QuotientBounds(t - start, EntryMs(s0), s0.numEntr);
  }
}
