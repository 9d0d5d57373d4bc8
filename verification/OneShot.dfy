// One-shot schedules with several start times: what follows an execution, and
// which of the start times get their execution over a whole run.
module OneShot {
  import opened CTypes
  import opened Types
  import opened Names
  import opened Interval
  import opened StartTimes
  import opened ScheduleSpec
  import opened SystemSpec
  import opened Cache
  import opened ScheduleProps
  import opened Playback

  // ---- One tick ----

  /** After a start the next start is the earliest one ahead, of all the start times there were before it. */
  lemma StartSchedulesNext(s: Sched, now: nat)
    requires !s.cfg.periodic && s.state == Ready && TickSched(s, now).sched.state == Running
    ensures
      var s' := TickSched(s, now).sched;
      && 0 < s'.startTime < now
      && (if s.nextStartTime != 0 then s'.startTime == s.nextStartTime
          else IsEarliestFuture(s.strTms, now, s'.startTime))
      && IsEarliestFuture(s.strTms, now, s'.nextStartTime)
  {
    hide GetMs, Erase, NextOneShot, ShowNext, ShowAct;
    var used := TickSched(s, now).sched.startTime;
    NextOneShotIsEarliest(s.strTms, now);
    NextOneShotIsEarliest(Erase(s.strTms, used), now);
    EraseKeepsFuture(s.strTms, used, now, TickSched(s, now).sched.nextStartTime);
  }

  /**
    * The tick that ends an execution leaves READY exactly when a start time lies
    * ahead, with the earliest one latched, and NOT_READY otherwise.
    */
  lemma EndOfExecution(s: Sched, x: Execution, now: nat)
    requires Runs(s, x) && InTime(x, now) && now >= x.start + x.n * x.d && !s.cfg.periodic
    ensures
      var s' := TickSched(s, now).sched;
      && s'.state == (if exists k :: 0 <= k < |s.strTms| && SlotTime(s.strTms[k]) > now then Ready else NotReady)
      && IsEarliestFuture(s.strTms, now, s'.nextStartTime)
      && s'.strTms == s.strTms
  {
    hide CurrentIdx, Entry, AllPresent, NextOneShot, ShowNext, ShowAct;
    SlotIsIndex(s, x, now);
    NextOneShotIsEarliest(s.strTms, now);
  }

  /** A periodic schedule is READY after an execution exactly when its rules give a start. */
  lemma EndOfPeriodicExecution(s: Sched, x: Execution, now: nat)
    requires Runs(s, x) && InTime(x, now) && now >= x.start + x.n * x.d && s.cfg.periodic
    ensures
      var s' := TickSched(s, now).sched;
      && s'.nextStartTime == NextStart(s, now)
      && s'.state == (if s'.nextStartTime != 0 then Ready else NotReady)
  {
    hide CurrentIdx, Entry, AllPresent, NextPeriodic, ShowNext, ShowAct;
    SlotIsIndex(s, x, now);
  }

  // ---- Every start time ----

  /** How a schedule plays: milliseconds per entry and number of entries, not written during the run. */
  datatype Timing = Timing(d: int, n: int)

  ghost predicate Plays(s: Sched, y: Timing) {
    && !s.cfg.periodic && 0 < y.d <= INT_MAX && 0 < y.n <= INT_MAX
    && s.numEntr == y.n && Int32(IntervalMs(s)) == y.d && AllPresent(s.values, s.cfg.targetType, y.n)
  }

  predicate Increasing(ahead: seq<nat>) {
    forall j, k :: 0 <= j < k < |ahead| ==> ahead[j] < ahead[k]
  }

  /** `ahead` are the start times later than `t`, in order and each once. */
  ghost predicate Ahead(slots: seq<StrTm>, t: int, ahead: seq<nat>) {
    && Increasing(ahead)
    && (forall k :: 0 <= k < |slots| && SlotTime(slots[k]) > t ==> SlotTime(slots[k]) in ahead)
    && (forall a :: a in ahead ==> a > t && exists k :: 0 <= k < |slots| && SlotTime(slots[k]) == a)
  }

  /** Between two start times there is room for an execution and two polling gaps. */
  ghost predicate Spaced(ahead: seq<nat>, y: Timing, gap: nat) {
    forall k :: 0 < k < |ahead| ==> ahead[k] - ahead[k - 1] > y.n * y.d + 2 * gap
  }

  /** READY with the first of `ahead` latched, and the clock not behind it yet. */
  ghost predicate Waiting(s: Sched, y: Timing, last: nat, ahead: seq<nat>) {
    && Plays(s, y) && s.state == Ready && ahead != [] && s.nextStartTime == ahead[0] && ahead[0] > 0
    && last <= ahead[0] && Ahead(s.strTms, ahead[0] - 1, ahead)
  }

  /** RUNNING, with `ahead` far enough behind the end of the execution. */
  ghost predicate Playing(s: Sched, y: Timing, last: nat, ahead: seq<nat>, gap: nat) {
    && Plays(s, y) && Runs(s, Execution(s.startTime, y.d, y.n))
    && s.startTime < last < s.startTime + y.n * y.d + gap
    && (ahead != [] ==> ahead[0] - s.startTime > y.n * y.d + 2 * gap)
    && Ahead(s.strTms, s.startTime, ahead)
  }

  ghost predicate OnSchedule(s: Sched, y: Timing, last: nat, ahead: seq<nat>, gap: nat) {
    || Waiting(s, y, last, ahead)
    || Playing(s, y, last, ahead, gap)
    || (s.state == NotReady && ahead == [])
  }

  /** The polling gap is short enough for the index to fit an `int` until the end is noticed. */
  predicate GapFits(y: Timing, gap: nat) {
    y.n * y.d + 2 * gap < TWO_31 * y.d
  }

  lemma FirstOfAhead(slots: seq<StrTm>, t: int, ahead: seq<nat>, now: nat, r: nat)
    requires Ahead(slots, t, ahead) && t <= now && (ahead != [] ==> now < ahead[0]) && IsEarliestFuture(slots, now, r)
    ensures r == if ahead == [] then 0 else ahead[0]
  {
    if ahead != [] {
      assert ahead[0] in ahead;
      var k :| 0 <= k < |slots| && SlotTime(slots[k]) == ahead[0];
    }
  }

  lemma AheadAfterErase(slots: seq<StrTm>, ahead: seq<nat>)
    requires ahead != [] && ahead[0] > 0 && Ahead(slots, ahead[0] - 1, ahead)
    ensures Ahead(Erase(slots, ahead[0]), ahead[0], ahead[1..])
  {
    ErasesExactly(slots, ahead[0]);
    hide Erase;
    var rest, erased := ahead[1..], Erase(slots, ahead[0]);
    forall a | a in rest ensures a > ahead[0] && exists k :: 0 <= k < |slots| && SlotTime(erased[k]) == a {
      assert a in ahead;
      var k :| 0 <= k < |slots| && SlotTime(slots[k]) == a;
      assert SlotTime(erased[k]) == a;
    }
  }

  /** The tick that starts the first start time ahead. */
  lemma WaitingStarts(s: Sched, y: Timing, last: nat, ahead: seq<nat>, gap: nat, now: nat)
    requires Waiting(s, y, last, ahead) && Spaced(ahead, y, gap) && ahead[0] < now <= last + gap
    ensures TickSched(s, now).sched.state == Running && TickSched(s, now).sched.startTime == ahead[0]
    ensures Playing(TickSched(s, now).sched, y, now, ahead[1..], gap)
  {
    hide NextStart, Erase, AllPresent, GetMs, ShowNext, ShowAct, Ahead;
    AheadAfterErase(s.strTms, ahead);
    Monotone(1, y.n, y.d);
  }

  lemma WaitingWaits(s: Sched, y: Timing, last: nat, ahead: seq<nat>, now: nat)
    requires Waiting(s, y, last, ahead) && now <= ahead[0]
    ensures TickSched(s, now).sched == s && Waiting(s, y, now, ahead)
  {
    hide NextStart, Plays, Ahead;
  }

  lemma PlayingGoesOn(s: Sched, y: Timing, last: nat, ahead: seq<nat>, gap: nat, now: nat)
    requires Playing(s, y, last, ahead, gap) && last <= now <= last + gap && now < TWO_64 && GapFits(y, gap)
    requires now < s.startTime + y.n * y.d
    ensures TickSched(s, now).sched.state == Running && Playing(TickSched(s, now).sched, y, now, ahead, gap)
  {
    hide CurrentIdx, Ahead, AllPresent, NextStart, GetMs, ValueAttr;
    PlaybackTick(s, Execution(s.startTime, y.d, y.n), now);
  }

  lemma PlayingEnds(s: Sched, y: Timing, last: nat, ahead: seq<nat>, gap: nat, now: nat)
    requires Playing(s, y, last, ahead, gap) && last <= now <= last + gap && now < TWO_64 && GapFits(y, gap)
    requires now >= s.startTime + y.n * y.d
    ensures TickSched(s, now).sched.state != Running && OnSchedule(TickSched(s, now).sched, y, now, ahead, gap)
  {
    hide CurrentIdx, AllPresent, NextOneShot, GetMs, Entry, ShowNext, ShowAct, Ahead, Runs;
    var s' := TickSched(s, now).sched;
    RunsIsRunning(s, Execution(s.startTime, y.d, y.n));
    EndOfExecution(s, Execution(s.startTime, y.d, y.n), now);
    FirstOfAhead(s.strTms, s.startTime, ahead, now, s'.nextStartTime);
    EndKeepsPlan(s, now);
    if ahead != [] {
      AheadFromFirst(s.strTms, s.startTime, ahead);
    }
  }

  lemma EndKeepsPlan(s: Sched, now: nat)
    requires s.state == Running && TickSched(s, now).sched.state != Running
    ensures
      var s' := TickSched(s, now).sched;
      && s'.cfg == s.cfg && s'.numEntr == s.numEntr && s'.schdIntv == s.schdIntv && s'.values == s.values
      && s'.strTms == s.strTms
      && (s'.state == Ready <==> s'.nextStartTime != 0) && s'.state in {Ready, NotReady}
  {
    hide CurrentIdx, NextStart, Entry, ShowNext, ShowAct;
  }

  lemma AheadFromFirst(slots: seq<StrTm>, t: nat, ahead: seq<nat>)
    requires Ahead(slots, t, ahead) && ahead != []
    ensures ahead[0] > t && Ahead(slots, ahead[0] - 1, ahead)
  {
    assert ahead[0] in ahead;
  }

  /** One tick on schedule: it starts the first start time exactly when that has passed. */
  lemma TickOnSchedule(s: Sched, y: Timing, last: nat, ahead: seq<nat>, gap: nat, now: nat)
    requires OnSchedule(s, y, last, ahead, gap) && Spaced(ahead, y, gap) && GapFits(y, gap)
    requires last <= now <= last + gap && now < TWO_64
    ensures
      var s' := TickSched(s, now).sched;
      if ahead != [] && ahead[0] < now
      then s.state != Running && s'.state == Running && s'.startTime == ahead[0]
           && OnSchedule(s', y, now, ahead[1..], gap)
      else !(s.state != Running && s'.state == Running) && OnSchedule(s', y, now, ahead, gap)
  {
    hide TickSched, Plays, Runs, Ahead;
    if Waiting(s, y, last, ahead) {
      if ahead[0] < now {
        WaitingStarts(s, y, last, ahead, gap, now);
      } else {
        WaitingWaits(s, y, last, ahead, now);
      }
    } else if Playing(s, y, last, ahead, gap) {
      RunsIsRunning(s, Execution(s.startTime, y.d, y.n));
      if now < s.startTime + y.n * y.d {
        PlayingGoesOn(s, y, last, ahead, gap, now);
      } else {
        PlayingEnds(s, y, last, ahead, gap, now);
      }
    } else {
      IdleTick(s, now);
    }
  }

  lemma RunsIsRunning(s: Sched, x: Execution)
    requires Runs(s, x)
    ensures s.state == Running
  {
  }

  // ---- Over a run ----

  /** Ticks, and writes of priority, reuse and rights; anything may happen to other schedules. */
  predicate Polling(evs: seq<Event>, i: nat) {
    forall k :: 0 <= k < |evs| && evs[k].OnSched? && evs[k].i == i ==>
      && evs[k].now < TWO_64
      && match evs[k].cmd
         case Tick | SetPrio(_) | SetReuse(_) => true
         case AllowControl(_) | AllowPrio(_) | AllowStrTm(_) | AllowReuse(_) => true
         case _ => false
  }

  lemma PollingParts(evs: seq<Event>, i: nat)
    requires evs != [] && Polling(evs, i)
    ensures Polling([evs[0]], i) && Polling(evs[1..], i)
  {
  }

  lemma OtherEventOnSchedule(s: Sched, y: Timing, last: nat, ahead: seq<nat>, gap: nat, ev: Event, i: nat)
    requires OnSchedule(s, y, last, ahead, gap) && ev.OnSched? && ev.i == i && !ev.cmd.Tick? && Polling([ev], i)
    ensures After(s, ev.cmd, ev.now).state == s.state
    ensures OnSchedule(After(s, ev.cmd, ev.now), y, last, ahead, gap)
  {
    hide Ahead, AllPresent, GetMs;
    assert [ev][0] == ev;
  }

  /** The time of the last tick of schedule `i`; `last` if there is none. */
  function LastTickOf(evs: seq<Event>, i: nat, last: nat): nat
    decreases |evs|
  {
    if evs == [] then last else LastTickOf(evs[1..], i, if IsTick(evs[0], i) then evs[0].now else last)
  }

  lemma {:induction false} LastTickIsLater(evs: seq<Event>, i: nat, last: nat)
    requires ClockMonotone(evs, last)
    ensures LastTickOf(evs, i, last) >= last
    decreases |evs|
  {
    if evs != [] {
      LastTickIsLater(evs[1..], i, if IsTick(evs[0], i) then evs[0].now else last);
    }
  }

  /** How many of the leading times lie before `t`. */
  function Before(ahead: seq<nat>, t: nat): (k: nat)
    ensures k <= |ahead|
    ensures forall j :: 0 <= j < k ==> ahead[j] < t
    ensures k < |ahead| ==> ahead[k] >= t
  {
    if ahead == [] || ahead[0] >= t then 0 else 1 + Before(ahead[1..], t)
  }

  /**
    * Main result: with start times far enough apart for an execution and two
    * polling gaps, the executions of a run start at exactly those start times that
    * lie before the last tick - every one of them, once, and in order.
    */
  lemma {:induction false} EveryStartTimeStarts(sys: System, evs: seq<Event>, i: nat, y: Timing, ahead: seq<nat>,
                                                gap: nat, last: nat)
    requires WellFormed(sys) && i < |sys.scheds| && OnSchedule(sys.scheds[i], y, last, ahead, gap)
    requires Spaced(ahead, y, gap) && GapFits(y, gap)
    requires Polling(evs, i) && ClockMonotone(evs, last) && Dense(evs, i, last, gap)
    ensures StartsOf(sys, evs, i) == ahead[..Before(ahead, LastTickOf(evs, i, last))]
    decreases |evs|
  {
    hide After, Informed, Step, TickSched, OnSchedule, Polling;
    if evs == [] {
      NothingPassed(sys.scheds[i], y, last, ahead, gap);
    } else {
      var s, ev, next := sys.scheds[i], evs[0], Step(sys, evs[0]);
      StepOnSchedule(sys, ev, i);
      PollingParts(evs, i);
      if IsTick(ev, i) {
        TickIsAfter(s, ev.now);
        TimeFits(ev, i);
        TickOnSchedule(s, y, last, ahead, gap, ev.now);
        LastTickIsLater(evs[1..], i, ev.now);
        if ahead != [] && ahead[0] < ev.now {
          EveryStartTimeStarts(next, evs[1..], i, y, ahead[1..], gap, ev.now);
        } else {
          EveryStartTimeStarts(next, evs[1..], i, y, ahead, gap, ev.now);
        }
      } else {
        if ev.OnSched? && ev.i == i {
          OtherEventOnSchedule(s, y, last, ahead, gap, ev, i);
        }
        EveryStartTimeStarts(next, evs[1..], i, y, ahead, gap, last);
      }
    }
  }

  lemma TimeFits(ev: Event, i: nat)
    requires ev.OnSched? && ev.i == i && Polling([ev], i)
    ensures ev.now < TWO_64
  {
    assert [ev][0] == ev;
  }

  lemma NothingPassed(s: Sched, y: Timing, last: nat, ahead: seq<nat>, gap: nat)
    requires OnSchedule(s, y, last, ahead, gap)
    ensures Before(ahead, last) == 0
  {
    hide Plays, Ahead, Runs;
  }

  /** The state an enabled schedule is in after its first tick, if that comes before its first start time. */
  lemma FirstTickWaits(s: Sched, y: Timing, now: nat, ahead: seq<nat>)
    requires Plays(s, y) && s.state == Ready && s.nextStartTime == 0 && ahead != [] && Ahead(s.strTms, now, ahead)
    ensures Waiting(TickSched(s, now).sched, y, now, ahead)
  {
    hide NextOneShot, AllPresent, GetMs, Ahead;
    AheadFromFirst(s.strTms, now, ahead);
    NextOneShotIsEarliest(s.strTms, now);
    FirstOfAhead(s.strTms, now, ahead, now, NextOneShot(s.strTms, now));
  }
}
