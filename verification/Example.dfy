// Small systems: one that meets the assumptions of the timeline and of the
// reserve results, and the inputs on which the program misses a property.
module Example {
  import opened CTypes
  import opened Types
  import opened Names
  import opened Interval
  import opened StartTimes
  import opened ScheduleSpec
  import opened Election
  import opened SystemSpec
  import opened ScheduleProps
  import opened Cache
  import opened Timeline
  import opened Reserve

  /** Two entries of one second each, 7 and 8, starting at 5 s. */
  function Sample(): Sched {
    Sched(Config("LD/FSCH1", "FSCH1", INS, 4, 0, false, false, true, false, 0),
          Ready, 0, 0, 0, 2, 0, 10, false, 2, 1,
          [StrTm("StrTm1", Some(5000), None)],
          [ValueObj("ValING1", Some(IntVal(7))), ValueObj("ValING2", Some(IntVal(8)))],
          Rights(true, true, true, true, true),
          Shown(None, InvalidQ, 0, 0, InvalidQ, 5000, GoodQ, NoError))
  }

  /** One controller in charge of it. */
  function SampleSystem(): System {
    System([Sample()], [[0]], [Ctl(true, [0], ["LD/FSCH1"], None, "", InvalidQ, None, [])])
  }

  /** Polled before the start, in the first entry, in the second one and after the end. */
  function SampleRounds(): seq<Round> {
    [Round(4000, [0]), Round(5500, [0]), Round(6500, [0]), Round(7200, [0])]
  }

  lemma SampleLength()
    ensures EntryMs(Sample()) == 1000 && LengthMs(Sample()) == 2000
  {
    assert Scale(1000, 0) == 1000;
    assert IntervalMs(Sample()) == 1000;
  }

  lemma SampleOpen(t: nat)
    ensures Open(Sample(), 5000, t) <==> 5000 < t < 7000
    ensures !Before(SampleSystem(), [5000], 0, 0)
  {
    SampleLength();
    hide EntryMs, LengthMs;
  }

  lemma SampleEntry(k: int)
    requires k == 1 || k == 2
    ensures Entry(Sample(), k) == Some(IntVal(6 + k))
  {
    var values := Sample().values;
    assert Decimal(k) == [if k == 1 then '1' else '2'];
    var name := ValuePrefix(INS) + Padded(k, 0);
    assert name == values[k - 1].name && name != values[2 - k].name;
    assert FindChild(values, name) == Some(k - 1);
    assert [0, 2, 3, 4][0] == 0;
    assert LookupIdx(values, "ValING", k) == FindChild(values, name);
  }

  lemma SampleArmed()
    ensures Armed(Sample(), 5000, 4000)
  {
    SampleLength();
    SampleEntry(1);
    SampleEntry(2);
    assert SlotTime(Sample().strTms[0]) == 5000;
  }

  lemma SampleMeetsAssumptions(n: nat)
    requires 0 < n <= 4
    ensures
      var rounds := SampleRounds()[..n];
      && WellFormed(SampleSystem()) && Idle(SampleSystem())
      && AllPlanned(SampleSystem(), [5000], rounds[0].time) && RoundsFit(SampleSystem(), rounds)
  {
    SampleArmed();
    SampleLength();
    hide Armed, LengthMs, EntryMs;
    var sys := SampleSystem();
    assert Elect(sys.scheds, [0]) == None by { assert [0][..0] == []; }
    assert CacheRight(sys, 0) && Connected(sys, 0);
    forall k | 0 <= k < 4 ensures Complete(SampleRounds()[k], 1) {
      assert 0 in SampleRounds()[k].order;
    }
  }

  function Expected(n: nat): Option<MmsValue> {
    if n == 2 then Some(IntVal(7)) else if n == 3 then Some(IntVal(8)) else None
  }

  /** The sample wins the timeline exactly while it is open. */
  lemma SampleWins(t: nat)
    ensures TimelineWinner(SampleSystem(), [5000], [0], t, 0) <==> 5000 < t < 7000
    ensures NoneOpen(SampleSystem(), [5000], [0], t) <==> !(5000 < t < 7000)
  {
    SampleOpen(t);
    hide Open, Before, Sample;
  }

  lemma PlanAt(target: Option<MmsValue>, t: nat)
    requires ShowsPlan(target, SampleSystem(), [5000], [0], t)
    ensures target == if 5000 < t < 7000 then Entry(Sample(), (t - 5000) / 1000 + 1) else None
  {
    SampleLength();
    SampleWins(t);
    hide EntryMs, Entry, Sample, TimelineWinner, NoneOpen;
    assert SampleSystem().scheds[0] == Sample();
  }

  /** What the plan of the sample shows at the n-th polling. */
  lemma PlanOfSample(target: Option<MmsValue>, n: nat)
    requires 0 < n <= 4 && ShowsPlan(target, SampleSystem(), [5000], [0], SampleRounds()[n - 1].time)
    ensures target == Expected(n)
  {
    hide ShowsPlan, Entry, Sample, SampleSystem;
    PlanAt(target, SampleRounds()[n - 1].time);
    if n == 2 {
      assert SampleRounds()[n - 1].time == 5500;
      SampleEntry(1);
    } else if n == 3 {
      assert SampleRounds()[n - 1].time == 6500;
      SampleEntry(2);
    }
  }

  /** The controlled object shows nothing before the start, then 7, then 8, then nothing again. */
  lemma {:induction false} SampleTimeline(n: nat)
    requires 0 < n <= 4
    ensures WellFormed(SampleSystem())
    ensures RunRounds(SampleSystem(), SampleRounds()[..n]).ctls[0].target == Expected(n)
  {
    SampleMeetsAssumptions(n);
    var rounds := SampleRounds()[..n];
    hide RunRounds, ShowsPlan, Idle, AllPlanned, RoundsFit, Expected, WellFormed;
    TimelineRefinement(SampleSystem(), [5000], rounds, 0);
    PlanOfSample(RunRounds(SampleSystem(), rounds).ctls[0].target, n);
  }

  /** Each hour on the hour, for one hour, and closed to remote control. */
  function SampleReserve(nextStartTime: nat): Sched {
    Sample().(cfg := Sample().cfg.(periodic := true), nextStartTime := nextStartTime, schdIntv := 3600, numEntr := 1,
              strTms := [StrTm("StrTm1", None, Some(SetCal(0, 0, 0, 0, 0, 1, 0, 0)))],
              rights := Rights(false, true, false, true, true))
  }

  lemma SampleIsReserve(nextStartTime: nat)
    ensures IsReserve(SampleReserve(nextStartTime))
  {
    var s := SampleReserve(nextStartTime);
    assert Hourly(SetCal(0, 0, 0, 0, 0, 1, 0, 0)) && OnTheHour(s.strTms);
    assert Scale(3_600_000, 0) == 3_600_000;
    assert IntervalMs(s) == 3_600_000;
    assert ProductMs(s) == 3_600_000;
  }

  /** A start latched for later, when the schedule was still shorter than an hour, keeps it from running. */
  lemma LatchedStartWaits()
    ensures
      var s := SampleReserve(12 * HOUR_MS);
      var first := TickSched(s, 10 * HOUR_MS).sched;
      IsReserve(s) && s.state == Ready
      && first.state == Ready && TickSched(first, 11 * HOUR_MS).sched.state == Ready
  {
    SampleIsReserve(12 * HOUR_MS);
  }

  /** Ticks exactly one entry apart: the second one starts the execution, and entry 0 is never published. */
  lemma FirstEntrySkipped()
    ensures
      var armed := TickSched(Sample(), 4100).sched;
      var started := TickSched(armed, 5100);
      var later := TickSched(started.sched, 6100);
      && armed.state == Ready && armed.nextStartTime == 5000
      && started.sched.state == Running && started.published == None
      && later.sched.state == Running && later.published == Some(IntVal(8))
  {
    SampleTicks();
    SampleEntry(2);
    hide GetMs, ValueAttr, Erase, NextOneShot;
    var started := TickSched(TickSched(Sample(), 4100).sched, 5100).sched;
    assert Entry(started, 2) == Entry(Sample(), 2);
    assert CurrentIdx(started, 6100) == 1;
  }

  /** The sample up to its start. */
  lemma SampleTicks()
    ensures
      var armed := TickSched(Sample(), 4100).sched;
      var started := TickSched(armed, 5100).sched;
      && armed == Sample().(nextStartTime := 5000)
      && started == Started(armed, 5100) && TickSched(armed, 5100).published == None
      && started.entryDurationInMs == 1000 && started.numberOfScheduleEntries == 2 && started.startTime == 5000
      && started.cfg == Sample().cfg && started.currentEntryIdx == -2 && started.state == Running
  {
    SampleLength();
    hide GetMs;
    assert Sample().strTms[..0] == [] && SlotTime(Sample().strTms[0]) == 5000;
    assert NextOneShot(Sample().strTms, 4100) == 5000;
    assert IntervalMs(Sample()) == IntervalMs(Sample().(nextStartTime := 5000));
    assert Int32(IntervalMs(Sample())) == EntryMs(Sample());
  }

  // ---- An interval below a millisecond ----

  /** A tenth of a millisecond per entry. */
  function TooFine(): Sched {
    Sample().(cfg := Sample().cfg.(multiplier := -4), state := NotReady)
  }

  lemma TooFineIsValid()
    ensures GenericError(TooFine()) == NoError
  {
    SampleEntry(1);
    SampleEntry(2);
    hide ValueAttr, ValueCount;
    var s := TooFine();
    forall k | 1 <= k <= 2 ensures Entry(s, k) == ValueAttr(s.values, INS, k) == Some(IntVal(6 + k)) {
      assert Entry(Sample(), k) == ValueAttr(s.values, INS, k);
    }
    assert AllPresent(s.values, INS, 2);
    var found := RunFitsCount(s.values, INS, 2);
  }

  lemma TooFineCanBeEnabled()
    ensures CanEnable(TooFine(), 4000)
  {
    hide GenericError, SomeSlotOpen, DurationMs;
    TooFineIsValid();
    SlotIsOpen(TooFine());
  }

  lemma SlotIsOpen(s: Sched)
    requires s.cfg == TooFine().cfg && s.schdIntv == 1 && s.numEntr == 2 && s.strTms == Sample().strTms
    ensures IntervalMs(s) == 0 && SomeSlotOpen(s.strTms, DurationMs(s), 4000)
  {
    Pow10Of3();
    assert Pow10(4) == 10000;
    assert InRange(1, 4, -4);
    ReadsZero(1, 4, -4);
    assert SlotTime(s.strTms[0]) == 5000;
  }

  /** It is enabled without an error, and its start divides by zero. */
  lemma TooFineDivides()
    ensures
      var ready := Enabled(TooFine(), 4000);
      && CanEnable(TooFine(), 4000) && ready.state == Ready && ready.shown.enaErr == NoError
      && StartDividesByZero(TickSched(ready, 4100).sched, 5100)
  {
    TooFineCanBeEnabled();
    EnabledWhenReady(TooFine(), 4000);
    var ready := Enabled(TooFine(), 4000);
    hide CanEnable, Enabled, GetMs, ShowNext;
    SlotIsOpen(ready);
    assert NextOneShot(ready.strTms, 4100) == 5000 by { assert SlotTime(ready.strTms[0]) == 5000; }
    var armed := TickSched(ready, 4100).sched;
    assert armed == ready.(nextStartTime := 5000);
    SlotIsOpen(armed);
  }

  // ---- A stale cache ----

  /** Two schedules, and a controller connected to the first. */
  function TwoSchedules(): System {
    var second := Sample().(cfg := Sample().cfg.(ref := "LD/FSCH2", shortRef := "FSCH2"));
    SampleSystem().(scheds := [Sample(), second], listeners := [[0], []])
  }

  function StartFirst(): seq<Event> {
    [OnSched(0, 4100, Tick), OnSched(0, 5100, Tick)]
  }

  lemma BothAtRest()
    ensures WellFormed(TwoSchedules()) && AllRight(TwoSchedules())
  {
    var sys := TwoSchedules();
    assert Elect(sys.scheds, [0]) == None by { assert [0][..0] == []; }
    assert CacheRight(sys, 0) && Connected(sys, 0);
  }

  /** One tick of the first schedule. */
  lemma FirstTicked(sys: System, now: nat)
    requires WellFormed(sys) && |sys.scheds| == 2 && |sys.ctls| == 1
    ensures
      var after := StepSched(sys, 0, now, Tick);
      && WellFormed(after) && after.scheds == [TickSched(sys.scheds[0], now).sched, sys.scheds[1]]
      && |after.ctls| == 1
      && after.ctls[0].members == sys.ctls[0].members && after.ctls[0].refs == sys.ctls[0].refs
  {
    hide TickSched, Elect, Informed, After;
    StepWellFormed(sys, OnSched(0, now, Tick));
    Cache.TickIsAfter(sys.scheds[0], now);
    var ss := sys.scheds[0 := After(sys.scheds[0], Tick, now)];
    InformedKeepsWiring(sys.ctls[0], ss, 0, sys.scheds[0], Tick, now);
  }

  lemma {:induction false} FirstIsStarted()
    ensures WellFormed(TwoSchedules()) && AllRight(TwoSchedules()) && CommandRun(TwoSchedules(), StartFirst())
    ensures
      var now := Run(TwoSchedules(), StartFirst());
      && now.scheds == [TickSched(TickSched(Sample(), 4100).sched, 5100).sched, TwoSchedules().scheds[1]]
      && now.ctls[0].members == [0] && now.ctls[0].refs == ["LD/FSCH1"] && |now.ctls| == 1
  {
    BothAtRest();
    hide TickSched, Elect, StepSched, Sample;
    var sys, evs := TwoSchedules(), StartFirst();
    FirstTicked(sys, 4100);
    var one := StepSched(sys, 0, 4100, Tick);
    assert Step(sys, evs[0]) == one;
    FirstTicked(one, 5100);
    var two := StepSched(one, 0, 5100, Tick);
    assert Step(one, evs[1]) == two;
    assert evs[1..] == [evs[1]] && evs[1..][1..] == [];
    assert CommandRun(two, []) && Run(two, []) == two;
    assert CommandRun(one, evs[1..]) && Run(one, evs[1..]) == two;
  }

  /** The running schedule is replaced by one that is ready: activeSchedule still names the old one. */
  lemma {:induction false} RewiringMakesStale()
    ensures WellFormed(TwoSchedules()) && AllRight(TwoSchedules()) && CommandRun(TwoSchedules(), StartFirst())
    ensures
      var now := Run(TwoSchedules(), StartFirst());
      var after := Step(now, Rewire(0, 0, "LD/FSCH2", 5200));
      && |now.ctls| == 1 && CacheRight(now, 0) && now.ctls[0].active == Some(0)
      && WellFormed(after) && |after.ctls| == 1 && !CacheRight(after, 0)
  {
    FirstIsStarted();
    SampleTicks();
    hide Run, StartFirst, TickSched, AllRight, CommandRun, Started;
    RunKeepsCache(TwoSchedules(), StartFirst());
    var now := Run(TwoSchedules(), StartFirst());
    RightAt(now, 0);
    assert [0][..0] == [];
    assert now.ctls[0].active == Some(0);
    Replaced(now);
  }

  /** Writing the reference of the second schedule over that of the first, which is in charge. */
  lemma Replaced(now: System)
    requires WellFormed(now) && |now.scheds| == 2 && |now.ctls| == 1 && CacheRight(now, 0)
    requires now.scheds[0].cfg == Sample().cfg && now.scheds[1] == TwoSchedules().scheds[1]
    requires now.ctls[0].members == [0] && now.ctls[0].refs == ["LD/FSCH1"] && now.ctls[0].active == Some(0)
    ensures
      var after := Step(now, Rewire(0, 0, "LD/FSCH2", 5200));
      WellFormed(after) && |after.ctls| == 1 && !CacheRight(after, 0)
  {
    hide Elect, CacheRight;
    assert "LD/FSCH1"[7] != "LD/FSCH2"[7];
    assert Resolve(now.scheds, "LD/FSCH1") == Some(0);
    assert Resolve(now.scheds, "LD/FSCH2") == Some(1);
    assert 1 !in now.ctls[0].members;
    StepWellFormed(now, Rewire(0, 0, "LD/FSCH2", 5200));
    RewireAndCache(now, 0, 0, "LD/FSCH2");
  }
}
