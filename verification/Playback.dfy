// One execution of a schedule: which entries are published, and when it ends.
module Playback {
  import opened CTypes
  import opened Types
  import opened Names
  import opened Interval
  import opened StartTimes
  import opened ScheduleSpec
  import opened SystemSpec
  import opened ScheduleProps
  import opened Timeline
  import opened Cache

  /** The execution in progress: start time, milliseconds per entry, number of entries. */
  datatype Execution = Execution(start: nat, d: int, n: int)

  /** The entry the clock is in. */
  function Slot(x: Execution, now: nat): int
    requires x.d > 0
  {
    (now - x.start) / x.d
  }

  ghost predicate ValidExecution(x: Execution) {
    0 < x.d <= INT_MAX && 0 < x.n <= INT_MAX
  }

  /** Schedule `s` is running execution `x`, all of whose entries exist. */
  ghost predicate Runs(s: Sched, x: Execution) {
    && ValidExecution(x)
    && s.state == Running && s.startTime == x.start
    && s.entryDurationInMs == x.d && s.numberOfScheduleEntries == x.n
    && AllPresent(s.values, s.cfg.targetType, x.n)
  }

  /** The clock is past the start, and the index still fits an `int`. */
  predicate InTime(x: Execution, now: nat) {
    x.start <= now < TWO_64 && now - x.start < TWO_31 * x.d
  }

  lemma SlotIsIndex(s: Sched, x: Execution, now: nat)
    requires Runs(s, x) && InTime(x, now)
    ensures CurrentIdx(s, now) == if now < x.start + x.n * x.d then Slot(x, now) else -1
    ensures Slot(x, now) >= 0 && (Slot(x, now) < x.n <==> now < x.start + x.n * x.d)
  {
    QuotientBounds(now - x.start, x.d, x.n);
    QuotientBounds(now - x.start, x.d, TWO_31);
  }

  lemma SlotMonotone(x: Execution, a: nat, b: nat)
    requires x.d > 0 && x.start <= a <= b
    ensures Slot(x, a) <= Slot(x, b)
    ensures b - a <= x.d ==> Slot(x, b) <= Slot(x, a) + 1
  {
    DivBounds(a - x.start, x.d);
    DivBounds(b - x.start, x.d);
    var p, q := Slot(x, a), Slot(x, b);
    if q < p { Monotone(q + 1, p, x.d); }
    if q > p + 1 { Monotone(p + 2, q, x.d); }
    assert (p + 2) * x.d == (p + 1) * x.d + x.d;
  }

  /** A start begins an execution with the parameters of that moment, none of its entries published yet. */
  lemma StartBeginsExecution(s: Sched, now: nat)
    requires s.state == Ready && TickSched(s, now).sched.state == Running
    requires 0 < s.numEntr <= INT_MAX && EntryMs(s) > 0 && AllPresent(s.values, s.cfg.targetType, s.numEntr)
    ensures
      var s' := TickSched(s, now).sched;
      && Runs(s', Execution(s'.startTime, EntryMs(s), s.numEntr))
      && s'.currentEntryIdx == -2 && 0 < s'.startTime < now
  {
    hide NextStart, AllPresent, GetMs, Erase;
    TickStates(s, now);
  }

  /** The execution ends exactly at the first tick with now >= start + n*d. */
  lemma EndsOnTime(s: Sched, x: Execution, now: nat)
    requires Runs(s, x) && InTime(x, now)
    ensures TickSched(s, now).sched.state != Running <==> now >= x.start + x.n * x.d
  {
    hide CurrentIdx, NextStart, Entry, AllPresent;
    SlotIsIndex(s, x, now);
  }

  /** One tick: publish the slot of the clock, unless it was published already. */
  lemma PlaybackTick(s: Sched, x: Execution, now: nat)
    requires Runs(s, x) && InTime(x, now) && now < x.start + x.n * x.d
    ensures
      var out := TickSched(s, now);
      && Runs(out.sched, x)
      && out.sched.currentEntryIdx == Slot(x, now)
      && 0 <= Slot(x, now) < x.n && CurrentIdx(s, now) == Slot(x, now)
      && (out.published.Some? <==> s.currentEntryIdx != Slot(x, now))
      && (out.published.Some? ==>
            out.published == Entry(s, Slot(x, now) + 1) && out.sched.shown.schdEntr == Slot(x, now) + 1)
  {
    hide CurrentIdx, NextStart, ValueAttr, Slot;
    SlotIsIndex(s, x, now);
    assert ValueAttr(s.values, s.cfg.targetType, Slot(x, now) + 1).Some?;
  }

  // ---- A run during one execution ----

  /** An entry (counted from 0) and the time at which it was published. */
  datatype Published = Published(idx: int, time: nat)

  predicate IsTick(ev: Event, i: nat) {
    ev.OnSched? && ev.i == i && ev.cmd.Tick?
  }

  /** What schedule `i` publishes during a run. */
  ghost function PublishedBy(sys: System, evs: seq<Event>, i: nat): seq<Published>
    requires WellFormed(sys) && i < |sys.scheds|
    decreases |evs|
  {
    if evs == [] then []
    else
      StepWellFormed(sys, evs[0]);
      PublishedNow(sys.scheds[i], evs[0], i) + PublishedBy(Step(sys, evs[0]), evs[1..], i)
  }

  ghost function PublishedNow(s: Sched, ev: Event, i: nat): seq<Published> {
    if IsTick(ev, i) && TickSched(s, ev.now).published.Some?
    then [Published(CurrentIdx(s, ev.now), ev.now)] else []
  }

  /** No EnaReq, restore or enabling of schedule `i`; anything else may happen to it and to the others. */
  predicate Undisturbed(evs: seq<Event>, i: nat) {
    forall k :: 0 <= k < |evs| && evs[k].OnSched? && evs[k].i == i ==>
      !evs[k].cmd.EnaReqCmd? && !evs[k].cmd.Restore? && !evs[k].cmd.Enable?
  }

  /** Schedule `i` runs whenever an event of the run happens: the run lies within one execution. */
  ghost predicate WithinExecution(sys: System, evs: seq<Event>, i: nat)
    requires WellFormed(sys) && i < |sys.scheds|
    decreases |evs|
  {
    evs != [] ==>
      sys.scheds[i].state == Running &&
      (StepWellFormed(sys, evs[0]); WithinExecution(Step(sys, evs[0]), evs[1..], i))
  }

  ghost predicate AllInTime(evs: seq<Event>, x: Execution) {
    forall k :: 0 <= k < |evs| ==> InTime(x, evs[k].now)
  }

  /** Consecutive ticks of schedule `i`, the last one before the run at `last`, are at most `gap` apart. */
  predicate Dense(evs: seq<Event>, i: nat, last: nat, gap: int)
    decreases |evs|
  {
    evs == [] ||
    (if IsTick(evs[0], i)
     then evs[0].now - last <= gap && Dense(evs[1..], i, evs[0].now, gap)
     else Dense(evs[1..], i, last, gap))
  }

  /** Published entries: the slot of their time, inside the execution, strictly increasing from above `low`. */
  ghost predicate InOrder(pubs: seq<Published>, x: Execution, low: int)
    requires ValidExecution(x)
  {
    && (forall k :: 0 <= k < |pubs| ==>
          low < pubs[k].idx && 0 <= pubs[k].idx < x.n && pubs[k].idx == Slot(x, pubs[k].time))
    && (forall j, k :: 0 <= j < k < |pubs| ==> pubs[j].idx < pubs[k].idx)
  }

  /** The times of the ticks of schedule `i` that find it running and leave it running. */
  ghost function RunningTicks(sys: System, evs: seq<Event>, i: nat): seq<nat>
    requires WellFormed(sys) && i < |sys.scheds|
    decreases |evs|
  {
    if evs == [] then []
    else
      StepWellFormed(sys, evs[0]);
      RunningTickNow(sys.scheds[i], evs[0], i) + RunningTicks(Step(sys, evs[0]), evs[1..], i)
  }

  ghost function RunningTickNow(s: Sched, ev: Event, i: nat): seq<nat> {
    if IsTick(ev, i) && s.state == Running && TickSched(s, ev.now).sched.state == Running then [ev.now] else []
  }

  /** The run ends with the tick that ends the execution of schedule `i`. */
  ghost predicate EndedByTick(sys: System, evs: seq<Event>, i: nat)
    requires WellFormed(sys) && i < |sys.scheds|
    decreases |evs|
  {
    && evs != []
    && if |evs| == 1 then
         IsTick(evs[0], i) && TickSched(sys.scheds[i], evs[0].now).sched.state != Running
       else
         (StepWellFormed(sys, evs[0]); EndedByTick(Step(sys, evs[0]), evs[1..], i))
  }

  /** Exactly the entries lo..hi, one after the other. */
  ghost predicate Consecutive(pubs: seq<Published>, lo: int, hi: int) {
    |pubs| == hi + 1 - lo && forall k :: 0 <= k < |pubs| ==> pubs[k].idx == lo + k
  }

  /**
    * What the ticks of a dense run publish: nothing without a running tick, and
    * else every entry up to that of the last running tick. They begin with the
    * entry of the first running tick after a start, and behind the entry of the
    * tick before the run (`last`) otherwise.
    */
  ghost predicate PublishesAll(pubs: seq<Published>, ticks: seq<nat>, x: Execution, current: int, last: nat)
    requires ValidExecution(x)
  {
    if ticks == [] then pubs == []
    else Consecutive(pubs, if current == -2 then Slot(x, ticks[0]) else Slot(x, last) + 1, Slot(x, ticks[|ticks| - 1]))
  }

  /** The last running tick, or the tick before the run if there is none, falls in the last entry or behind it. */
  ghost predicate ReachesEnd(ticks: seq<nat>, x: Execution, last: nat)
    requires ValidExecution(x)
  {
    if ticks == [] then Slot(x, last) >= x.n - 1 else Slot(x, ticks[|ticks| - 1]) == x.n - 1
  }

  lemma InOrderCons(p: Published, pubs: seq<Published>, x: Execution, low: int)
    requires ValidExecution(x) && InOrder(pubs, x, p.idx)
    requires low < p.idx && 0 <= p.idx < x.n && p.idx == Slot(x, p.time)
    ensures InOrder([p] + pubs, x, low)
  {
    hide Slot;
  }

  /** One more running tick in front of a run that goes on from it. */
  lemma PublishesAllCons(t: nat, pubs: seq<Published>, ticks: seq<nat>, x: Execution, current: int, last: nat)
    requires ValidExecution(x) && PublishesAll(pubs, ticks, x, Slot(x, t), t) && Slot(x, t) >= 0
    requires current == -2 || (current == Slot(x, last) && Slot(x, last) <= Slot(x, t) <= Slot(x, last) + 1)
    ensures
      var now := if current == Slot(x, t) then [] else [Published(Slot(x, t), t)];
      PublishesAll(now + pubs, [t] + ticks, x, current, last)
  {
    hide Slot;
    assert ticks != [] ==> ([t] + ticks)[|ticks|] == ticks[|ticks| - 1];
  }

  /** A tick at or past the end, at most one entry after the tick before it. */
  lemma EndIsNear(x: Execution, last: nat, now: nat)
    requires ValidExecution(x) && x.start <= last <= now && now - last <= x.d && now >= x.start + x.n * x.d
    ensures Slot(x, last) >= x.n - 1
  {
    SlotMonotone(x, last, now);
    QuotientBounds(now - x.start, x.d, x.n);
  }

  /** What any other command leaves of the execution. */
  lemma OtherCommand(s: Sched, x: Execution, cmd: Cmd, now: nat)
    requires Runs(s, x) && !cmd.Tick? && !cmd.EnaReqCmd? && !cmd.Restore? && !cmd.Enable?
    ensures
      var s' := After(s, cmd, now);
      && s'.currentEntryIdx == s.currentEntryIdx
      && (s'.state == Running ==> Runs(s', x))
  {
    hide AllPresent, ValueAttr;
    if cmd.SetValue? && cmd.k < |s.values| {
      ValueWriteKeepsPresence(s, cmd.k, cmd.value, x.n);
    }
  }

  lemma ValueWriteKeepsPresence(s: Sched, k: nat, v: MmsValue, n: int)
    requires k < |s.values| && AllPresent(s.values, s.cfg.targetType, n)
    ensures AllPresent(WriteValue(s, k, v).0.values, s.cfg.targetType, n)
  {
    hide LookupIdx;
    var values := WriteValue(s, k, v).0.values;
    forall j | 1 <= j <= n ensures ValueAttr(values, s.cfg.targetType, j).Some? {
      assert ValueAttr(s.values, s.cfg.targetType, j).Some?;
      LookupByName(s.values, values, ValuePrefix(s.cfg.targetType), j);
    }
  }

  /** A tick that finds the execution over publishes nothing. */
  lemma EndPublishesNothing(s: Sched, now: nat)
    requires s.state == Running && TickSched(s, now).sched.state != Running
    ensures TickSched(s, now).published == None
  {
    hide CurrentIdx, NextStart, Entry;
  }

  /** One event on the running schedule: what it publishes and what it leaves behind. */
  lemma PlaybackEvent(s: Sched, ev: Event, i: nat, x: Execution, last: nat)
    requires Runs(s, x) && ev.OnSched? && ev.i == i && Undisturbed([ev], i)
    requires InTime(x, ev.now) && x.start <= last <= ev.now
    requires s.currentEntryIdx == -2 || s.currentEntryIdx == Slot(x, last)
    ensures
      var s' := After(s, ev.cmd, ev.now);
      var now := PublishedNow(s, ev, i);
      var ticks := RunningTickNow(s, ev, i);
      && (s'.state == Running ==> Runs(s', x))
      && (!ev.cmd.Tick? ==> now == [] && ticks == [] && s'.currentEntryIdx == s.currentEntryIdx)
      && (ev.cmd.Tick? && s'.state != Running ==> now == [] && ticks == [] && ev.now >= x.start + x.n * x.d)
      && (ev.cmd.Tick? && s'.state == Running ==>
            && ticks == [ev.now]
            && s'.currentEntryIdx == Slot(x, ev.now) && 0 <= Slot(x, ev.now) < x.n
            && Slot(x, last) <= Slot(x, ev.now) && (ev.now - last <= x.d ==> Slot(x, ev.now) <= Slot(x, last) + 1)
            && now == if s.currentEntryIdx == Slot(x, ev.now) then [] else [Published(Slot(x, ev.now), ev.now)])
  {
    hide After, TickSched, Slot, InTime, CurrentIdx, AllPresent;
    assert Undisturbed([ev], i) && [ev][0] == ev;
    if ev.cmd.Tick? {
      TickIsAfter(s, ev.now);
      EndsOnTime(s, x, ev.now);
      SlotMonotone(x, last, ev.now);
      if ev.now < x.start + x.n * x.d {
        PlaybackTick(s, x, ev.now);
      } else {
        EndPublishesNothing(s, ev.now);
      }
    } else {
      OtherCommand(s, x, ev.cmd, ev.now);
    }
  }

  lemma ElsewherePublishesNothing(s: Sched, ev: Event, i: nat)
    requires !(ev.OnSched? && ev.i == i)
    ensures PublishedNow(s, ev, i) == [] && RunningTickNow(s, ev, i) == []
  {
  }

  lemma NothingPublished(x: Execution, current: int, last: nat)
    requires ValidExecution(x)
    ensures InOrder([], x, current) && PublishesAll([], [], x, current, last)
  {
  }

  lemma UndisturbedParts(evs: seq<Event>, i: nat)
    requires evs != [] && Undisturbed(evs, i)
    ensures Undisturbed([evs[0]], i) && Undisturbed(evs[1..], i)
  {
  }

  /** A running tick in front of a run: the parts of PlaybackOrder. */
  lemma TickInFront(t: nat, pubs: seq<Published>, ticks: seq<nat>, x: Execution, current: int, last: nat)
    requires ValidExecution(x) && 0 <= Slot(x, t) < x.n && Slot(x, last) <= Slot(x, t)
    requires current == -2 || current == Slot(x, last)
    requires InOrder(pubs, x, Slot(x, t))
    ensures
      var now := if current == Slot(x, t) then [] else [Published(Slot(x, t), t)];
      && InOrder(now + pubs, x, current)
      && (Slot(x, t) <= Slot(x, last) + 1 && PublishesAll(pubs, ticks, x, Slot(x, t), t) ==>
            PublishesAll(now + pubs, [t] + ticks, x, current, last))
      && (ReachesEnd(ticks, x, t) ==> ReachesEnd([t] + ticks, x, last))
  {
    hide Slot, PublishesAll, InOrder;
    var now := if current == Slot(x, t) then [] else [Published(Slot(x, t), t)];
    if current == Slot(x, t) {
      assert now + pubs == pubs;
    } else {
      InOrderCons(Published(Slot(x, t), t), pubs, x, current);
    }
    if Slot(x, t) <= Slot(x, last) + 1 && PublishesAll(pubs, ticks, x, Slot(x, t), t) {
      PublishesAllCons(t, pubs, ticks, x, current, last);
    }
    assert ticks != [] ==> ([t] + ticks)[|ticks|] == ticks[|ticks| - 1];
  }

  /**
    * Main result: within one execution the published entries strictly increase
    * and each is the entry floor((now-start)/d) of the time it was published. If
    * the ticks are at most d apart, they are exactly the entries between the
    * first and the last tick that finds the schedule running, and the last one
    * is n-1 when the run ends with the ending tick.
    */
  lemma {:induction false} PlaybackOrder(sys: System, evs: seq<Event>, i: nat, x: Execution, last: nat)
    requires WellFormed(sys) && i < |sys.scheds| && ValidExecution(x)
    requires evs != [] ==> Runs(sys.scheds[i], x)
    requires WithinExecution(sys, evs, i) && Undisturbed(evs, i) && ClockMonotone(evs, last) && AllInTime(evs, x)
    requires x.start <= last
    requires sys.scheds[i].currentEntryIdx == -2 || sys.scheds[i].currentEntryIdx == Slot(x, last)
    ensures InOrder(PublishedBy(sys, evs, i), x, sys.scheds[i].currentEntryIdx)
    ensures Dense(evs, i, last, x.d) ==>
      PublishesAll(PublishedBy(sys, evs, i), RunningTicks(sys, evs, i), x, sys.scheds[i].currentEntryIdx, last)
    ensures Dense(evs, i, last, x.d) && EndedByTick(sys, evs, i) ==> ReachesEnd(RunningTicks(sys, evs, i), x, last)
    decreases |evs|
  {
    hide After, Informed, TickSched, Slot, InOrder, InTime, CurrentIdx, Runs, Step, PublishedNow, RunningTickNow;
    hide PublishesAll, ReachesEnd, Undisturbed;
    var s := sys.scheds[i];
    if evs == [] {
      NothingPublished(x, s.currentEntryIdx, last);
    } else {
      var ev, next := evs[0], Step(sys, evs[0]);
      StepOnSchedule(sys, ev, i);
      UndisturbedParts(evs, i);
      var pubs, ticks := PublishedBy(next, evs[1..], i), RunningTicks(next, evs[1..], i);
      if !(ev.OnSched? && ev.i == i) {
        ElsewherePublishesNothing(s, ev, i);
        PlaybackOrder(next, evs[1..], i, x, last);
        assert PublishedBy(sys, evs, i) == pubs && RunningTicks(sys, evs, i) == ticks;
      } else {
        PlaybackEvent(s, ev, i, x, last);
        if next.scheds[i].state != Running {
          assert evs[1..] == [] && PublishedBy(sys, evs, i) == [] && RunningTicks(sys, evs, i) == [];
          NothingPublished(x, s.currentEntryIdx, last);
          OverAtEnd(sys, evs, i, x, last);
        } else if ev.cmd.Tick? {
          PlaybackOrder(next, evs[1..], i, x, ev.now);
          TickIsAfter(s, ev.now);
          TickInFront(ev.now, pubs, ticks, x, s.currentEntryIdx, last);
        } else {
          PlaybackOrder(next, evs[1..], i, x, last);
          assert PublishedBy(sys, evs, i) == pubs && RunningTicks(sys, evs, i) == ticks;
        }
      }
    }
  }

  lemma OverAtEnd(sys: System, evs: seq<Event>, i: nat, x: Execution, last: nat)
    requires WellFormed(sys) && i < |sys.scheds| && |evs| == 1 && Runs(sys.scheds[i], x)
    requires InTime(x, evs[0].now) && x.start <= last <= evs[0].now
    ensures Dense(evs, i, last, x.d) && EndedByTick(sys, evs, i) ==> ReachesEnd([], x, last)
  {
    hide InTime, TickSched, Slot, AllPresent;
    if Dense(evs, i, last, x.d) && EndedByTick(sys, evs, i) {
      EndsOnTime(sys.scheds[i], x, evs[0].now);
      EndIsNear(x, last, evs[0].now);
    }
  }

  // ---- Which entries a start costs ----

  /** The run lies within execution `x`; `last` is the time of the tick before it. */
  ghost predicate OneExecution(sys: System, evs: seq<Event>, i: nat, x: Execution, last: nat)
    requires WellFormed(sys) && i < |sys.scheds|
  {
    && ValidExecution(x) && x.start <= last
    && (evs != [] ==> Runs(sys.scheds[i], x))
    && WithinExecution(sys, evs, i) && Undisturbed(evs, i) && ClockMonotone(evs, last) && AllInTime(evs, x)
  }

  lemma {:induction false} TicksComeLater(sys: System, evs: seq<Event>, i: nat, last: nat)
    requires WellFormed(sys) && i < |sys.scheds| && ClockMonotone(evs, last)
    ensures
      var ticks := RunningTicks(sys, evs, i);
      && (forall k :: 0 <= k < |ticks| ==> ticks[k] >= last)
      && (ticks != [] ==> ticks[0] <= ticks[|ticks| - 1])
    decreases |evs|
  {
    hide Step, TickSched;
    if evs != [] {
      StepWellFormed(sys, evs[0]);
      TicksComeLater(Step(sys, evs[0]), evs[1..], i, evs[0].now);
    }
  }

  predicate PublishesEntry(pubs: seq<Published>, idx: int) {
    exists k :: 0 <= k < |pubs| && pubs[k].idx == idx
  }

  /** Each of the n entries, in order and once. */
  ghost predicate AllEntries(pubs: seq<Published>, n: int) {
    Consecutive(pubs, 0, n - 1)
  }

  /**
    * The tick that starts an execution publishes nothing, so the entry it falls
    * in is published exactly when the next tick falls in the same entry.
    */
  lemma StartEntryPublished(sys: System, evs: seq<Event>, i: nat, x: Execution, last: nat)
    requires WellFormed(sys) && i < |sys.scheds| && OneExecution(sys, evs, i, x, last)
    requires sys.scheds[i].currentEntryIdx == -2 && Dense(evs, i, last, x.d)
    ensures
      var ticks := RunningTicks(sys, evs, i);
      PublishesEntry(PublishedBy(sys, evs, i), Slot(x, last)) <==> ticks != [] && Slot(x, ticks[0]) == Slot(x, last)
  {
    hide PublishedBy, RunningTicks, WithinExecution, AllInTime, Undisturbed, Runs, Dense, InOrder, WellFormed;
    PlaybackOrder(sys, evs, i, x, last);
    TicksComeLater(sys, evs, i, last);
    var pubs, ticks := PublishedBy(sys, evs, i), RunningTicks(sys, evs, i);
    if ticks != [] {
      SlotMonotone(x, last, ticks[0]);
      SlotMonotone(x, ticks[0], ticks[|ticks| - 1]);
      FirstOf(pubs, ticks, x, last);
    }
  }

  lemma FirstOf(pubs: seq<Published>, ticks: seq<nat>, x: Execution, last: nat)
    requires ValidExecution(x) && ticks != [] && PublishesAll(pubs, ticks, x, -2, last)
    ensures forall k :: 0 <= k < |pubs| ==> pubs[k].idx >= Slot(x, ticks[0])
    ensures Slot(x, ticks[0]) <= Slot(x, ticks[|ticks| - 1]) ==> PublishesEntry(pubs, Slot(x, ticks[0]))
  {
    hide Slot;
    if Slot(x, ticks[0]) <= Slot(x, ticks[|ticks| - 1]) {
      assert pubs[0].idx == Slot(x, ticks[0]);
    }
  }

  /** The tick that starts the schedule, and the execution it begins. */
  ghost predicate StartTick(sys: System, ev: Event, i: nat)
    requires WellFormed(sys) && i < |sys.scheds|
  {
    var s := sys.scheds[i];
    && IsTick(ev, i) && s.state == Ready && TickSched(s, ev.now).sched.state == Running
    && 0 < s.numEntr <= INT_MAX && EntryMs(s) > 0 && AllPresent(s.values, s.cfg.targetType, s.numEntr)
  }

  ghost function Begun(sys: System, ev: Event, i: nat): (x: Execution)
    requires WellFormed(sys) && i < |sys.scheds| && StartTick(sys, ev, i)
    ensures ValidExecution(x)
  {
    Execution(TickSched(sys.scheds[i], ev.now).sched.startTime, EntryMs(sys.scheds[i]), sys.scheds[i].numEntr)
  }

  /**
    * A run from the starting to the ending tick of one execution, with ticks at
    * most `gap` apart.
    */
  ghost predicate WholeExecution(sys: System, evs: seq<Event>, i: nat, gap: int)
    requires WellFormed(sys) && i < |sys.scheds|
  {
    && evs != [] && StartTick(sys, evs[0], i)
    && (StepWellFormed(sys, evs[0]);
        var next := Step(sys, evs[0]);
        && OneExecution(next, evs[1..], i, Begun(sys, evs[0], i), evs[0].now)
        && Dense(evs[1..], i, evs[0].now, gap)
        && EndedByTick(next, evs[1..], i))
  }

  lemma AfterStart(sys: System, evs: seq<Event>, i: nat)
    requires WellFormed(sys) && i < |sys.scheds| && evs != [] && StartTick(sys, evs[0], i)
    ensures WellFormed(Step(sys, evs[0])) && |Step(sys, evs[0]).scheds| == |sys.scheds|
    ensures
      var next := Step(sys, evs[0]);
      && next.scheds[i].currentEntryIdx == -2
      && PublishedBy(sys, evs, i) == PublishedBy(next, evs[1..], i)
      && RunningTicks(sys, evs, i) == RunningTicks(next, evs[1..], i)
  {
    hide TickSched, After, OneExecution, AllPresent, GetMs;
    var s, now := sys.scheds[i], evs[0].now;
    StepOnSchedule(sys, evs[0], i);
    StartBeginsExecution(s, now);
    TickIsAfter(s, now);
    StartPublishesNothing(s, now);
  }

  lemma StartPublishesNothing(s: Sched, now: nat)
    requires s.state == Ready
    ensures TickSched(s, now).published == None
  {
    hide NextStart, Started;
  }

  /**
    * Main result: an execution that is polled at least every d milliseconds from
    * its starting to its ending tick publishes every entry 0..n-1 exactly when
    * the first tick behind the starting one still falls in entry 0.
    */
  lemma EveryEntryExactly(sys: System, evs: seq<Event>, i: nat)
    requires WellFormed(sys) && i < |sys.scheds| && evs != [] && StartTick(sys, evs[0], i)
    requires WholeExecution(sys, evs, i, Begun(sys, evs[0], i).d)
    ensures
      var x := Begun(sys, evs[0], i);
      var ticks := RunningTicks(sys, evs, i);
      AllEntries(PublishedBy(sys, evs, i), x.n) <==> ticks != [] && ticks[0] < x.start + x.d
  {
    hide TickSched, PublishedBy, RunningTicks, WithinExecution, AllInTime, Undisturbed, Runs, Dense, InOrder;
    hide Begun, StartTick, Slot, Step, EndedByTick;
    AfterStart(sys, evs, i);
    StepWellFormed(sys, evs[0]);
    var x, next, last := Begun(sys, evs[0], i), Step(sys, evs[0]), evs[0].now;
    var pubs, ticks := PublishedBy(sys, evs, i), RunningTicks(sys, evs, i);
    PlaybackOrder(next, evs[1..], i, x, last);
    TicksComeLater(next, evs[1..], i, last);
    if ticks != [] {
      FirstEntry(x, ticks[0]);
    }
  }

  lemma FirstEntry(x: Execution, t: nat)
    requires ValidExecution(x) && t >= x.start
    ensures Slot(x, t) == 0 <==> t < x.start + x.d
  {
    QuotientBounds(t - x.start, x.d, 1);
  }

  // ---- Polling fast enough ----

  lemma {:induction false} DenseWeaker(evs: seq<Event>, i: nat, last: nat, gap: int, wider: int)
    requires Dense(evs, i, last, gap) && gap <= wider
    ensures Dense(evs, i, last, wider)
    decreases |evs|
  {
    if evs != [] {
      DenseWeaker(evs[1..], i, if IsTick(evs[0], i) then evs[0].now else last, gap, wider);
    }
  }

  /** With a deadline inside the first entry, the first tick of the run is a running one. */
  lemma {:induction false} FirstTickSoon(sys: System, evs: seq<Event>, i: nat, x: Execution, last: nat, gap: int)
    requires WellFormed(sys) && i < |sys.scheds| && OneExecution(sys, evs, i, x, last)
    requires Dense(evs, i, last, gap) && EndedByTick(sys, evs, i) && last + gap < x.start + x.d
    ensures RunningTicks(sys, evs, i) != [] && RunningTicks(sys, evs, i)[0] <= last + gap
    decreases |evs|
  {
    hide After, Informed, TickSched, Slot, InTime, CurrentIdx, Runs, Step, Undisturbed;
    var s, ev, next := sys.scheds[i], evs[0], Step(sys, evs[0]);
    StepOnSchedule(sys, ev, i);
    UndisturbedParts(evs, i);
    if IsTick(ev, i) {
      RunningAtTick(s, x, ev.now);
    } else {
      if ev.OnSched? && ev.i == i {
        OtherCommandRuns(s, x, ev, i);
      }
      assert WithinExecution(next, evs[1..], i);
      assert AllInTime(evs[1..], x) && ClockMonotone(evs[1..], last);
      assert evs[1..] != [] ==> Runs(next.scheds[i], x);
      FirstTickSoon(next, evs[1..], i, x, last, gap);
    }
  }

  lemma RunningAtTick(s: Sched, x: Execution, now: nat)
    requires Runs(s, x) && InTime(x, now) && now < x.start + x.d
    ensures s.state == Running && TickSched(s, now).sched.state == Running
  {
    hide TickSched, AllPresent;
    Monotone(1, x.n, x.d);
    EndsOnTime(s, x, now);
  }

  lemma OtherCommandRuns(s: Sched, x: Execution, ev: Event, i: nat)
    requires Runs(s, x) && ev.OnSched? && ev.i == i && !ev.cmd.Tick? && Undisturbed([ev], i)
    ensures After(s, ev.cmd, ev.now).state == Running ==> Runs(After(s, ev.cmd, ev.now), x)
  {
    hide After, Runs;
    assert [ev][0] == ev;
    OtherCommand(s, x, ev.cmd, ev.now);
  }

  /** Polling more than twice per entry loses none. */
  lemma FastPollingSkipsNothing(sys: System, evs: seq<Event>, i: nat, gap: nat)
    requires WellFormed(sys) && i < |sys.scheds| && evs != [] && StartTick(sys, evs[0], i)
    requires WholeExecution(sys, evs, i, gap)
    requires 2 * gap < Begun(sys, evs[0], i).d && evs[0].now <= Begun(sys, evs[0], i).start + gap
    ensures AllEntries(PublishedBy(sys, evs, i), Begun(sys, evs[0], i).n)
  {
    hide TickSched, PublishedBy, RunningTicks, OneExecution, Dense, Begun, StartTick, Step, EndedByTick, AllEntries;
    AfterStart(sys, evs, i);
    StepWellFormed(sys, evs[0]);
    var x, next, last := Begun(sys, evs[0], i), Step(sys, evs[0]), evs[0].now;
    DenseWeaker(evs[1..], i, last, gap, x.d);
    FirstTickSoon(next, evs[1..], i, x, last, gap);
    EveryEntryExactly(sys, evs, i);
  }
}
