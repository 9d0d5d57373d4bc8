// What the status attributes of a schedule show: start times, qualities, the
// current entry and its value.
module Status {
  import opened Types
  import opened Names
  import opened Interval
  import opened StartTimes
  import opened ScheduleSpec
  import opened SystemSpec
  import opened ScheduleProps
  import opened Playback

  /** A time attribute that shows `t`, with quality GOOD exactly when there is one. */
  predicate ShowsTime(shown: nat, q: Quality, t: nat) {
    shown == t && (q == GoodQ <==> t != 0)
  }

  // ---- One tick ----

  /** A start shows the running and the next start time. */
  lemma StartShows(s: Sched, now: nat)
    requires s.state == Ready && TickSched(s, now).sched.state == Running
    ensures
      var s' := TickSched(s, now).sched;
      && ShowsTime(s'.shown.actStrTm, s'.shown.actStrTmQ, s'.startTime) && s'.startTime > 0
      && ShowsTime(s'.shown.nxtStrTm, s'.shown.nxtStrTmQ, s'.nextStartTime)
  {
    hide NextStart, Erase, GetMs;
  }

  /** A tick inside the execution shows the entry of the moment: its number, its value and quality GOOD. */
  lemma PlaybackShows(s: Sched, x: Execution, now: nat)
    requires Runs(s, x) && InTime(x, now) && now < x.start + x.n * x.d
    ensures
      var s' := TickSched(s, now).sched;
      if s.currentEntryIdx != (now - x.start) / x.d
      then s'.shown == s.shown.(val := Entry(s, (now - x.start) / x.d + 1), valQ := GoodQ,
                                schdEntr := (now - x.start) / x.d + 1)
           && s'.shown.val.Some?
      else s' == s
  {
    hide CurrentIdx, NextStart, ValueAttr;
    SlotIsIndex(s, x, now);
    assert ValueAttr(s.values, s.cfg.targetType, Slot(x, now) + 1).Some?;
  }

  /** An entry without a value object is passed over once: nothing is published or shown, and its index is kept. */
  lemma MissingEntryIsSkipped(s: Sched, now: nat)
    requires s.state == Running && CurrentIdx(s, now) != -1 && Entry(s, CurrentIdx(s, now) + 1).None?
    ensures
      var r := TickSched(s, now);
      && r.published == None && r.sched == s.(currentEntryIdx := CurrentIdx(s, now))
      && TickSched(r.sched, now) == TickResult(r.sched, None)
  {
    hide Entry;
  }

  /** The end shows no running start and no entry, an invalid value, and the next start time. */
  lemma EndShows(s: Sched, now: nat)
    requires s.state == Running && TickSched(s, now).sched.state != Running
    ensures
      var s' := TickSched(s, now).sched;
      && ShowsTime(s'.shown.actStrTm, s'.shown.actStrTmQ, 0)
      && ShowsTime(s'.shown.nxtStrTm, s'.shown.nxtStrTmQ, s'.nextStartTime)
      && s'.shown.valQ == InvalidQ && s'.shown.schdEntr == 0 && s'.shown.val == s.shown.val
  {
    hide CurrentIdx, NextStart, Entry;
  }

  // ---- Over runs ----

  /** While it runs, ActStrTm shows the start of the execution and NxtStrTm the start after it. */
  predicate ShowsStarts(s: Sched) {
    s.state == Running ==>
      && s.startTime > 0
      && ShowsTime(s.shown.actStrTm, s.shown.actStrTmQ, s.startTime)
      && ShowsTime(s.shown.nxtStrTm, s.shown.nxtStrTmQ, s.nextStartTime)
  }

  /** ActStrTm is good while the schedule runs, and at no other time. */
  predicate GoodMeansRunning(s: Sched) {
    s.shown.actStrTmQ == GoodQ <==> s.state == Running
  }

  lemma TickShows(s: Sched, now: nat)
    ensures ShowsStarts(s) ==> ShowsStarts(TickSched(s, now).sched)
    ensures GoodMeansRunning(s) ==> GoodMeansRunning(TickSched(s, now).sched)
  {
    hide NextStart, CurrentIdx, Entry, Erase, GetMs;
  }

  /** An enable, by the API or by a client, that reaches a running schedule. */
  ghost predicate EnablesRunning(s: Sched, cmd: Cmd) {
    s.state == Running && (cmd == Enable(true) || (cmd == EnaReqCmd(true, false) && s.rights.control))
  }

  lemma EnabledShows(s: Sched, now: nat)
    ensures Enabled(s, now).state != Running
    ensures Enabled(s, now).shown.actStrTmQ == s.shown.actStrTmQ && Enabled(s, now).shown.actStrTm == s.shown.actStrTm
  {
    hide CanEnable, GenericError, NextStart;
  }

  lemma CommandShows(s: Sched, cmd: Cmd, now: nat)
    requires !cmd.Restore?
    ensures ShowsStarts(s) ==> ShowsStarts(After(s, cmd, now))
    ensures GoodMeansRunning(s) && !EnablesRunning(s, cmd) ==> GoodMeansRunning(After(s, cmd, now))
  {
    hide TickSched, GenericError, CanEnable, Enabled, NextStart;
    TickShows(s, now);
    EnabledShows(s, now);
  }

  /** Over every run without restore, a running schedule shows the start of its execution and the next one. */
  lemma {:induction false} RunShowsStarts(sys: System, evs: seq<Event>, i: nat)
    requires WellFormed(sys) && i < |sys.scheds| && NoRestore(evs) && ShowsStarts(sys.scheds[i])
    ensures ShowsStarts(Run(sys, evs).scheds[i])
    decreases |evs|
  {
    hide After, Informed, ShowsStarts;
    if evs != [] {
      StepOnSchedule(sys, evs[0], i);
      if evs[0].OnSched? && evs[0].i == i {
        CommandShows(sys.scheds[i], evs[0].cmd, evs[0].now);
      }
      RunShowsStarts(Step(sys, evs[0]), evs[1..], i);
    }
  }

  /** Nobody enables schedule `i` while it runs. */
  ghost predicate EnabledAtRest(sys: System, evs: seq<Event>, i: nat)
    requires WellFormed(sys) && i < |sys.scheds|
    decreases |evs|
  {
    evs != [] ==>
      && (evs[0].OnSched? && evs[0].i == i ==> !EnablesRunning(sys.scheds[i], evs[0].cmd))
      && (StepWellFormed(sys, evs[0]); EnabledAtRest(Step(sys, evs[0]), evs[1..], i))
  }

  /** ... and if it is not enabled while running, ActStrTm is good exactly while it runs. */
  lemma {:induction false} RunGoodMeansRunning(sys: System, evs: seq<Event>, i: nat)
    requires WellFormed(sys) && i < |sys.scheds| && NoRestore(evs) && EnabledAtRest(sys, evs, i)
    requires GoodMeansRunning(sys.scheds[i])
    ensures GoodMeansRunning(Run(sys, evs).scheds[i])
    decreases |evs|
  {
    hide After, Informed, GoodMeansRunning, EnablesRunning;
    if evs != [] {
      StepOnSchedule(sys, evs[0], i);
      if evs[0].OnSched? && evs[0].i == i {
        CommandShows(sys.scheds[i], evs[0].cmd, evs[0].now);
      }
      RunGoodMeansRunning(Step(sys, evs[0]), evs[1..], i);
    }
  }

  /**
    * Enabling a running schedule ends its execution, or leaves it alone when EnaReq
    * is refused as invalid, and never touches ActStrTm: exactly then it stays good
    * for a schedule that no longer runs.
    */
  lemma EnableLeavesActStrTm(s: Sched, cmd: Cmd, now: nat)
    requires EnablesRunning(s, cmd) && GoodMeansRunning(s)
    ensures
      var s' := After(s, cmd, now);
      && s'.shown.actStrTmQ == GoodQ && s'.shown.actStrTm == s.shown.actStrTm
      && (!GoodMeansRunning(s') <==> cmd == Enable(true) || GenericError(s) == NoError)
  {
    hide GenericError, CanEnable, Enabled, NextStart;
    EnabledShows(s, now);
  }
}
