// The controller's cached activeSchedule and ActSchdRef agree with the
// definition of the active schedule in every reachable state, and only the
// active schedule ever reaches the controlled object.
module Cache {
  import opened Types
  import opened ScheduleSpec
  import opened StorageSpec
  import opened Interval
  import opened Names
  import opened StartTimes
  import opened Election
  import opened SystemSpec

  // ---- What one command does to a schedule ----

  lemma StartKeepsConfig(s: Sched, now: nat)
    ensures Started(s, now).cfg == s.cfg && Ended(s, now).cfg == s.cfg
  {
    hide NextStart, ShowNext, ShowAct, Erase, IntervalMs;
  }

  lemma TickKeepsConfig(s: Sched, now: nat)
    ensures TickSched(s, now).sched.cfg == s.cfg
  {
    hide NextStart, CurrentIdx, Entry, Started, Ended;
    StartKeepsConfig(s, now);
    StartKeepsConfig(s.(nextStartTime := NextStart(s, now)), now);
  }

  lemma EnablingKeepsConfig(s: Sched, on: bool, now: nat)
    ensures EnableSched(s, on, now).cfg == s.cfg && Enabled(s, now).cfg == s.cfg
  {
    hide GenericError, CanEnable, NextStart;
  }

  lemma RestoreKeepsConfig(s: Sched, j: Json)
    ensures Restored(s, j).0.cfg == s.cfg
  {
    hide HasStr, HasBool, HasNum, HasArr, ValueInt, PutValues, PutStartTimes, SetVal;
  }

  lemma AfterKeepsConfig(s: Sched, cmd: Cmd, now: nat)
    ensures After(s, cmd, now).cfg == s.cfg
  {
    hide TickSched, Enabled, EnableSched, Restored, GenericError;
    match cmd
    case Tick => TickKeepsConfig(s, now);
    case Enable(on) => EnablingKeepsConfig(s, on, now);
    case EnaReqCmd(_, _) => EnablingKeepsConfig(s, true, now);
    case Restore(j) => RestoreKeepsConfig(s, j);
    case _ =>
  }

  /** A tick that publishes a value leaves the election alone. */
  lemma PublishingTick(s: Sched, now: nat)
    requires TickSched(s, now).published.Some?
    ensures s.state == Running && TickSched(s, now).sched.state == Running
    ensures SameCandidate(s, TickSched(s, now).sched)
    ensures CurrentIdx(s, now) >= 0 || CurrentIdx(s, now) < -1
    ensures TickSched(s, now).published == Entry(s, CurrentIdx(s, now) + 1)
    ensures CurrentIdx(TickSched(s, now).sched, now) == CurrentIdx(s, now)
    ensures CurrentValue(TickSched(s, now).sched, now) == TickSched(s, now).published
  {
    hide NextStart, ValueAttr;
  }

  /** An accepted priority write changes nothing but the priority. */
  predicate ChangesPrio(s: Sched, cmd: Cmd) {
    cmd.SetPrio? && s.rights.prio
  }

  /** Without a state change or a priority write a schedule stays the same candidate. */
  lemma QuietCommand(s: Sched, cmd: Cmd, now: nat)
    requires cmd.Restore? ==> s.state != Running
    requires After(s, cmd, now).state == s.state && !ChangesPrio(s, cmd)
    ensures SameCandidate(s, After(s, cmd, now))
  {
    hide GenericError, SomeNaN, NextStart, CurrentIdx, Entry;
  }

  // ---- The invariant ----

  /** Every schedule a controller is connected to informs it. */
  ghost predicate Connected(sys: System, c: nat)
    requires WellFormed(sys) && c < |sys.ctls|
  {
    forall p :: 0 <= p < |sys.ctls[c].members| ==> c in sys.listeners[sys.ctls[c].members[p]]
  }

  /** ActSchdRef names the cached schedule, or is empty and invalid. */
  predicate ShowsActive(c: Ctl, ss: seq<Sched>) {
    match c.active
    case Some(w) => w < |ss| && c.actSchdRef == ss[w].cfg.ref && c.actSchdRefQ == GoodQ
    case None => c.actSchdRef == "" && c.actSchdRefQ == InvalidQ
  }

  ghost predicate CacheRight(sys: System, c: nat)
    requires WellFormed(sys) && c < |sys.ctls|
  {
    sys.ctls[c].active == Elect(sys.scheds, sys.ctls[c].members) && ShowsActive(sys.ctls[c], sys.scheds)
  }

  ghost predicate AllRight(sys: System)
    requires WellFormed(sys)
  {
    forall c :: 0 <= c < |sys.ctls| ==> Connected(sys, c) && CacheRight(sys, c)
  }

  lemma OthersSameElection(ss: seq<Sched>, i: nat, s': Sched, members: seq<nat>)
    requires i < |ss| && MembersExist(ss, members)
    requires i !in members || SameCandidate(ss[i], s')
    ensures Elect(ss[i := s'], members) == Elect(ss, members)
  {
    ElectCongruence(ss, ss[i := s'], members);
  }

  lemma PrioWriteKeepsRunning(ss: seq<Sched>, i: nat, prio: int, members: seq<nat>)
    requires i < |ss| && MembersExist(ss, members)
    ensures Elect(ss[i := ss[i].(prio := prio)], members).None? <==> Elect(ss, members).None?
  {
    var p := ElectFindsMaximum(ss, members);
    var q := ElectFindsMaximum(ss[i := ss[i].(prio := prio)], members);
    assert NoneRuns(ss[i := ss[i].(prio := prio)], members) <==> NoneRuns(ss, members);
  }

  /** What a listening controller holds after the event that a command raises. */
  lemma InformedIsRight(c: Ctl, ss: seq<Sched>, i: nat, cmd: Cmd, now: nat)
    requires i < |ss| && MembersExist(ss, c.members)
    requires c.active == Elect(ss, c.members) && ShowsActive(c, ss)
    requires cmd.Restore? ==> ss[i].state != Running
    ensures
      var tt := ss[i := After(ss[i], cmd, now)];
      var r := Informed(c, tt, i, ss[i], cmd, now);
      r.active == Elect(tt, c.members) && ShowsActive(r, tt)
  {
    hide After, TickSched, CurrentValue, Elect;
    var s := ss[i];
    var s' := After(s, cmd, now);
    AfterKeepsConfig(s, cmd, now);
    if cmd.Tick? && TickSched(s, now).published.Some? {
      PublishingTick(s, now);
      TickIsAfter(s, now);
      OthersSameElection(ss, i, s', c.members);
    } else if ChangesPrio(s, cmd) {
      PrioIsAfter(s, cmd, now);
      PrioWriteKeepsRunning(ss, i, cmd.prio, c.members);
    } else if s'.state == s.state {
      QuietCommand(s, cmd, now);
      OthersSameElection(ss, i, s', c.members);
    }
  }

  lemma TickIsAfter(s: Sched, now: nat)
    ensures After(s, Tick, now) == TickSched(s, now).sched
  {
    hide TickSched;
  }

  lemma PrioIsAfter(s: Sched, cmd: Cmd, now: nat)
    requires ChangesPrio(s, cmd)
    ensures After(s, cmd, now) == s.(prio := cmd.prio)
  {
  }

  /** One command on any schedule keeps every controller's cache right. */
  lemma StepKeepsCache(sys: System, i: nat, now: nat, cmd: Cmd)
    requires WellFormed(sys) && AllRight(sys) && i < |sys.scheds|
    requires cmd.Restore? ==> sys.scheds[i].state != Running
    ensures WellFormed(StepSched(sys, i, now, cmd)) && AllRight(StepSched(sys, i, now, cmd))
  {
    hide After, Informed, Elect;
    StepWellFormed(sys, OnSched(i, now, cmd));
    var after := StepSched(sys, i, now, cmd);
    forall c | 0 <= c < |after.ctls| ensures Connected(after, c) && CacheRight(after, c) {
      var ctl := sys.ctls[c];
      assert Connected(sys, c) && CacheRight(sys, c);
      InformedKeepsWiring(ctl, after.scheds, i, sys.scheds[i], cmd, now);
      if c in sys.listeners[i] {
        InformedIsRight(ctl, sys.scheds, i, cmd, now);
      } else {
        assert i !in ctl.members;
        OthersSameElection(sys.scheds, i, after.scheds[i], ctl.members);
        AfterKeepsConfig(sys.scheds[i], cmd, now);
      }
    }
  }

  /** Runs of commands; a snapshot is restored only into a schedule that is not running. */
  ghost predicate CommandRun(sys: System, evs: seq<Event>)
    requires WellFormed(sys)
    decreases |evs|
  {
    evs != [] ==>
      && evs[0].OnSched?
      && (evs[0].cmd.Restore? && evs[0].i < |sys.scheds| ==> sys.scheds[evs[0].i].state != Running)
      && (StepWellFormed(sys, evs[0]); CommandRun(Step(sys, evs[0]), evs[1..]))
  }

  /**
    * Main result: under every interleaving of ticks, commands, parameter writes
    * and restores of idle schedules, every controller's activeSchedule is the
    * first maximum of (priority, start time) among its running schedules, and
    * ActSchdRef shows it.
    */
  lemma {:induction false} RunKeepsCache(sys: System, evs: seq<Event>)
    requires WellFormed(sys) && AllRight(sys) && CommandRun(sys, evs)
    ensures AllRight(Run(sys, evs))
    decreases |evs|
  {
    hide AllRight;
    if evs != [] {
      var ev := evs[0];
      StepWellFormed(sys, ev);
      if ev.i < |sys.scheds| {
        StepKeepsCache(sys, ev.i, ev.now, ev.cmd);
      }
      RunKeepsCache(Step(sys, ev), evs[1..]);
    }
  }

  /** ... spelled out with the definition of the first maximum. */
  lemma CacheMeansMaximum(sys: System, evs: seq<Event>, c: nat)
    requires WellFormed(sys) && AllRight(sys) && CommandRun(sys, evs) && c < |sys.ctls|
    ensures
      var now := Run(sys, evs);
      var ctl := now.ctls[c];
      && (ctl.active.None? <==> NoneRuns(now.scheds, ctl.members))
      && (ctl.active.Some? ==>
            (exists p :: IsFirstMaximum(now.scheds, ctl.members, p) && ctl.active == Some(ctl.members[p]))
            && ctl.actSchdRef == now.scheds[ctl.active.value].cfg.ref && ctl.actSchdRefQ == GoodQ)
      && (ctl.active.None? ==> ctl.actSchdRef == "" && ctl.actSchdRefQ == InvalidQ)
  {
    RunKeepsCache(sys, evs);
    var now := Run(sys, evs);
    assert CacheRight(now, c);
    var p := ElectFindsMaximum(now.scheds, now.ctls[c].members);
  }

  // ---- Only the winner controls ----

  /** `v` is the current entry of the schedule that wins the election. */
  predicate IsWinnersEntry(v: Option<MmsValue>, ss: seq<Sched>, members: seq<nat>, now: nat)
    requires MembersExist(ss, members)
  {
    match Elect(ss, members)
    case Some(w) => CurrentIdx(ss[w], now) != -1 && v == Entry(ss[w], CurrentIdx(ss[w], now) + 1)
    case None => false
  }

  /**
    * What one command forwards to the controlled object: nothing, which leaves
    * the target alone, or one output, stamped with the current time and shown by
    * the target; a value is the current entry of the schedule that is the first
    * maximum at that moment.
    */
  ghost predicate ForwardsOnlyWinner(before: Ctl, after: Ctl, ss: seq<Sched>, now: nat)
    requires MembersExist(ss, after.members)
  {
    (after.outputs == before.outputs && after.target == before.target) ||
    exists v :: after.outputs == before.outputs + [Output(v, now)] && after.target == v
      && (v.Some? ==> IsWinnersEntry(v, ss, after.members, now))
  }

  lemma StateUpdatedForwards(c: Ctl, ss: seq<Sched>, now: nat)
    requires MembersExist(ss, c.members)
    ensures ForwardsOnlyWinner(c, StateUpdated(c, ss, now), ss, now)
  {
    hide Elect, Entry, CurrentIdx;
    var r := StateUpdated(c, ss, now);
    var w := Elect(ss, c.members);
    if r.outputs != c.outputs {
      var v := if w.Some? then CurrentValue(ss[w.value], now) else None;
      assert r.outputs == c.outputs + [Output(v, now)];
    }
  }

  lemma ValueUpdatedForwards(c: Ctl, ss: seq<Sched>, i: nat, v: MmsValue, now: nat)
    requires i < |ss| && MembersExist(ss, c.members) && c.active == Elect(ss, c.members)
    requires CurrentValue(ss[i], now) == Some(v)
    ensures ForwardsOnlyWinner(c, ValueUpdated(c, i, v, now), ss, now)
  {
    hide Elect, Entry, CurrentIdx;
    var r := ValueUpdated(c, i, v, now);
    if r.outputs != c.outputs {
      assert r.outputs == c.outputs + [Output(Some(v), now)];
    }
  }

  lemma InformedForwards(c: Ctl, ss: seq<Sched>, i: nat, cmd: Cmd, now: nat)
    requires i < |ss| && MembersExist(ss, c.members)
    requires c.active == Elect(ss, c.members)
    ensures
      var tt := ss[i := After(ss[i], cmd, now)];
      ForwardsOnlyWinner(c, Informed(c, tt, i, ss[i], cmd, now), tt, now)
  {
    hide After, TickSched, Elect, CurrentValue, StateUpdated, ValueUpdated;
    var s := ss[i];
    var tt := ss[i := After(s, cmd, now)];
    if cmd.Tick? && TickSched(s, now).published.Some? {
      PublishingTick(s, now);
      TickIsAfter(s, now);
      OthersSameElection(ss, i, tt[i], c.members);
      ValueUpdatedForwards(c, tt, i, TickSched(s, now).published.value, now);
    } else {
      StateUpdatedForwards(c, tt, now);
    }
  }

  /** Over every run, from every state on it: a command forwards nothing but the winner's current entry. */
  lemma OnlyWinnerControls(sys: System, evs: seq<Event>, i: nat, now: nat, cmd: Cmd, c: nat)
    requires WellFormed(sys) && AllRight(sys) && CommandRun(sys, evs)
    requires i < |sys.scheds| && c < |sys.ctls|
    ensures
      var before := Run(sys, evs);
      var after := StepSched(before, i, now, cmd);
      && MembersExist(after.scheds, after.ctls[c].members)
      && ForwardsOnlyWinner(before.ctls[c], after.ctls[c], after.scheds, now)
  {
    hide After, Informed, Elect;
    RunKeepsCache(sys, evs);
    var before := Run(sys, evs);
    assert CacheRight(before, c);
    StepWellFormed(before, OnSched(i, now, cmd));
    var ss := before.scheds[i := After(before.scheds[i], cmd, now)];
    InformedKeepsWiring(before.ctls[c], ss, i, before.scheds[i], cmd, now);
    InformedForwards(before.ctls[c], before.scheds, i, cmd, now);
  }

  /**
    * Over every run, from every state on it: a value tick of any schedule other
    * than the first maximum leaves the controller, its target included, alone.
    */
  lemma OtherTicksIgnored(sys: System, evs: seq<Event>, i: nat, now: nat, c: nat)
    requires WellFormed(sys) && AllRight(sys) && CommandRun(sys, evs)
    requires i < |sys.scheds| && c < |sys.ctls|
    requires
      var before := Run(sys, evs);
      && TickSched(before.scheds[i], now).published.Some?
      && forall p :: IsFirstMaximum(before.scheds, before.ctls[c].members, p) ==> before.ctls[c].members[p] != i
    ensures StepSched(Run(sys, evs), i, now, Tick).ctls[c] == Run(sys, evs).ctls[c]
  {
    hide TickSched, Run, AllRight, IsFirstMaximum;
    RunKeepsCache(sys, evs);
    var before := Run(sys, evs);
    RightAt(before, c);
    var p := ElectFindsMaximum(before.scheds, before.ctls[c].members);
    assert before.ctls[c].active != Some(i);
  }

  lemma RightAt(sys: System, c: nat)
    requires WellFormed(sys) && AllRight(sys) && c < |sys.ctls|
    ensures CacheRight(sys, c)
  {
  }

  // ---- Re-wiring ----

  /** The write takes the active schedule away, or brings in one that outranks it. */
  predicate RewireDisturbs(c: Ctl, ss: seq<Sched>, j: nat, i: nat)
    requires j < |c.refs| && i < |ss| && (c.active.Some? ==> c.active.value < |ss|)
  {
    || (c.active.Some? && Resolve(ss, c.refs[j]) == c.active)
    || (ss[i].state == Running && (c.active.None? || Outranks(ss[i], ss[c.active.value])))
  }

  predicate Distinct<T(==)>(xs: seq<T>) {
    forall p, q :: 0 <= p < q < |xs| ==> xs[p] != xs[q]
  }

  lemma DistinctTail<T>(xs: seq<T>)
    requires Distinct(xs) && xs != []
    ensures Distinct(xs[1..]) && xs[0] !in xs[1..]
    ensures forall y :: y in xs <==> y == xs[0] || y in xs[1..]
  {
    assert forall p :: 0 <= p < |xs| - 1 ==> xs[1..][p] == xs[p + 1];
  }

  lemma DistinctCons<T>(x: T, xs: seq<T>)
    requires Distinct(xs) && x !in xs
    ensures Distinct([x] + xs)
    ensures forall y :: y in [x] + xs <==> y == x || y in xs
  {
  }

  lemma {:induction false} RemoveFirstDistinct<T>(xs: seq<T>, x: T)
    requires Distinct(xs)
    ensures Distinct(RemoveFirst(xs, x))
    ensures forall y :: y in RemoveFirst(xs, x) <==> y in xs && y != x
  {
    if xs != [] {
      DistinctTail(xs);
      if xs[0] != x {
        RemoveFirstDistinct(xs[1..], x);
        DistinctCons(xs[0], RemoveFirst(xs[1..], x));
      }
    }
  }

  /** Dropping a member that was not elected keeps the election. */
  lemma {:induction false} ElectWithout(ss: seq<Sched>, members: seq<nat>, x: nat)
    requires MembersExist(ss, members) && Distinct(members) && Elect(ss, members) != Some(x)
    ensures MembersExist(ss, RemoveFirst(members, x))
    ensures Elect(ss, RemoveFirst(members, x)) == Elect(ss, members)
  {
    var rest := RemoveFirst(members, x);
    forall p | 0 <= p < |rest| ensures rest[p] < |ss| {
      assert rest[p] in members;
    }
    RemoveFirstDistinct(members, x);
    var p := ElectFindsMaximum(ss, members);
    var q := ElectFindsMaximum(ss, rest);
    if Elect(ss, members).None? {
      forall k | 0 <= k < |rest| ensures ss[rest[k]].state != Running {
        assert rest[k] in members;
      }
    } else {
      RemoveFirstOrder(members, x, p);
      var k := if x in members[..p] then p - 1 else p;
      forall h | 0 <= h < |rest| && ss[rest[h]].state == Running
        ensures !Outranks(ss[rest[h]], ss[rest[k]])
        ensures h < k ==> Outranks(ss[rest[k]], ss[rest[h]])
      {
        assert rest[h] in members;
        var g :| 0 <= g < |members| && members[g] == rest[h];
        if h < k {
          RemoveFirstEarlier(members, x, p, h);
        }
      }
      FirstMaximumUnique(ss, rest, k);
    }
  }

  /** Where element p ends up when another element is removed. */
  lemma {:induction false} RemoveFirstOrder<T>(xs: seq<T>, x: T, p: nat)
    requires p < |xs| && xs[p] != x
    ensures
      var k := if x in xs[..p] then p - 1 else p;
      0 <= k < |RemoveFirst(xs, x)| && RemoveFirst(xs, x)[k] == xs[p]
  {
    if xs[0] != x && p > 0 {
      RemoveFirstOrder(xs[1..], x, p - 1);
      assert xs[..p] == [xs[0]] + xs[1..][..p - 1];
    } else if p > 0 {
      assert x in xs[..p] by { assert xs[..p][0] == x; }
    }
  }

  /** Elements in front of it stay in front of it. */
  lemma {:induction false} RemoveFirstEarlier<T>(xs: seq<T>, x: T, p: nat, h: nat)
    requires p < |xs| && xs[p] != x
    requires h < if x in xs[..p] then p - 1 else p
    ensures h < |RemoveFirst(xs, x)| && exists g :: 0 <= g < p && xs[g] == RemoveFirst(xs, x)[h]
  {
    RemoveFirstOrder(xs, x, p);
    if xs[0] == x {
      assert xs[h + 1] == RemoveFirst(xs, x)[h];
    } else if h == 0 {
      assert xs[0] == RemoveFirst(xs, x)[0];
    } else {
      assert xs[..p] == [xs[0]] + xs[1..][..p - 1];
      RemoveFirstEarlier(xs[1..], x, p - 1, h - 1);
      var g :| 0 <= g < p - 1 && xs[1..][g] == RemoveFirst(xs[1..], x)[h - 1];
      assert xs[g + 1] == RemoveFirst(xs, x)[h];
    }
  }

  /**
    * A SchdNN.setSrcRef write does not hold an election. The cache stays right
    * exactly when the write neither disconnects the active schedule nor
    * connects a running one that outranks it.
    */
  lemma RewireAndCache(sys: System, c: nat, j: nat, ref: string)
    requires WellFormed(sys) && c < |sys.ctls| && CacheRight(sys, c) && Distinct(sys.ctls[c].members)
    requires RewireTarget(sys, c, j, ref).Some?
    ensures WellFormed(SetSrcRef(sys, c, j, ref))
    ensures CacheRight(SetSrcRef(sys, c, j, ref), c)
            <==> !RewireDisturbs(sys.ctls[c], sys.scheds, j, RewireTarget(sys, c, j, ref).value)
  {
    var ctl, ss := sys.ctls[c], sys.scheds;
    var i := RewireTarget(sys, c, j, ref).value;
    StepWellFormed(sys, Rewire(c, j, ref, 0));
    RewiredElection(ctl, ss, j, i);
  }

  /** An election among the re-wired members, compared with the schedule still cached. */
  lemma RewiredElection(ctl: Ctl, ss: seq<Sched>, j: nat, i: nat)
    requires j < |ctl.refs| && i < |ss| && i !in ctl.members
    requires MembersExist(ss, ctl.members) && Distinct(ctl.members) && ctl.active == Elect(ss, ctl.members)
    ensures MembersExist(ss, Rewired(ctl, ss, j, i))
    ensures Elect(ss, Rewired(ctl, ss, j, i)) == ctl.active <==> !RewireDisturbs(ctl, ss, j, i)
  {
    RewiredExists(ctl, ss, j, i);
    var previous := Resolve(ss, ctl.refs[j]);
    var members := Rewired(ctl, ss, j, i);
    if previous.Some? && previous == ctl.active {
      RemoveFirstDistinct(ctl.members, previous.value);
      assert previous.value !in members;
    } else {
      var rest := if previous.Some? then RemoveFirst(ctl.members, previous.value) else ctl.members;
      if previous.Some? {
        ElectWithout(ss, ctl.members, previous.value);
      }
      assert members[..|members| - 1] == rest;
      assert Elect(ss, members) == Consider(ss, ctl.active, i);
    }
  }

  /**
    * A state event repairs a stale cache: whatever a controller held before, it is
    * right after a state change of any schedule that informs it - unless the
    * election confirms the cached schedule while ActSchdRef did not show it.
    */
  lemma StateEventRepairs(sys: System, i: nat, now: nat, cmd: Cmd, c: nat)
    requires WellFormed(sys) && i < |sys.scheds| && c < |sys.ctls| && c in sys.listeners[i]
    requires After(sys.scheds[i], cmd, now).state != sys.scheds[i].state
    ensures WellFormed(StepSched(sys, i, now, cmd)) && |StepSched(sys, i, now, cmd).ctls| == |sys.ctls|
    ensures
      var after := StepSched(sys, i, now, cmd);
      var confirmed := sys.ctls[c].active.Some? && Elect(after.scheds, after.ctls[c].members) == sys.ctls[c].active;
      CacheRight(after, c) <==> (confirmed ==> ShowsActive(sys.ctls[c], sys.scheds))
  {
    hide After, Informed, Elect, TickSched, CurrentValue;
    StepWellFormed(sys, OnSched(i, now, cmd));
    var s, ctl := sys.scheds[i], sys.ctls[c];
    var ss := sys.scheds[i := After(s, cmd, now)];
    InformedKeepsWiring(ctl, ss, i, s, cmd, now);
    AfterKeepsConfig(s, cmd, now);
    StateChangeInforms(ctl, ss, i, s, cmd, now);
    assert StepSched(sys, i, now, cmd).ctls[c] == StateUpdated(ctl, ss, now);
  }

  lemma StateChangeInforms(c: Ctl, ss: seq<Sched>, i: nat, s: Sched, cmd: Cmd, now: nat)
    requires MembersExist(ss, c.members) && i < |ss| && ss[i] == After(s, cmd, now) && ss[i].state != s.state
    ensures Informed(c, ss, i, s, cmd, now) == StateUpdated(c, ss, now)
  {
    hide After, TickSched, StateUpdated, PrioUpdated, ValueUpdated;
    if cmd.Tick? && TickSched(s, now).published.Some? {
      PublishingTick(s, now);
      TickIsAfter(s, now);
    } else if ChangesPrio(s, cmd) {
      PrioIsAfter(s, cmd, now);
    }
  }

  // ---- Restoring into a running schedule ----

  /**
    * Member p of a controller has become `s`, still running: the cached schedule
    * is now outranked, or ties with a running member listed before it.
    */
  predicate RestoreDisturbs(c: Ctl, ss: seq<Sched>, p: nat, s: Sched)
    requires MembersExist(ss, c.members) && p < |c.members|
  {
    exists q :: 0 <= q < |c.members| && q != p && ss[c.members[q]].state == Running
      && if c.active == Some(c.members[p])
         then Outranks(ss[c.members[q]], s) || (q < p && !Outranks(s, ss[c.members[q]]))
         else c.active == Some(c.members[q])
              && (Outranks(s, ss[c.members[q]]) || (p < q && !Outranks(ss[c.members[q]], s)))
  }

  lemma FirstAmong(ss: seq<Sched>, members: seq<nat>, p: nat, s: Sched, w: nat)
    requires MembersExist(ss, members) && Distinct(members) && p < |members| && w < |members|
    requires IsFirstMaximum(ss, members, w) && s.state == Running
    ensures
      var tt := ss[members[p] := s];
      Elect(tt, members) == Some(members[w]) <==> IsFirstMaximum(tt, members, w)
  {
    hide Elect, Outranks;
    var tt := ss[members[p] := s];
    var v := ElectFindsMaximum(tt, members);
    if IsFirstMaximum(tt, members, w) {
      FirstMaximumUnique(tt, members, w);
    }
  }

  /**
    * A restore that leaves a running schedule running raises no event. The cache
    * stays right exactly when the cached schedule still is the first maximum.
    */
  lemma RestoredElection(c: Ctl, ss: seq<Sched>, p: nat, s: Sched)
    requires MembersExist(ss, c.members) && Distinct(c.members) && p < |c.members|
    requires c.active == Elect(ss, c.members) && ss[c.members[p]].state == Running && s.state == Running
    ensures Elect(ss[c.members[p] := s], c.members) == c.active <==> !RestoreDisturbs(c, ss, p, s)
  {
    hide Elect, Outranks;
    var w := ElectFindsMaximum(ss, c.members);
    var tt := ss[c.members[p] := s];
    FirstAmong(ss, c.members, p, s, w);
    assert forall q :: 0 <= q < |c.members| && q != p ==> tt[c.members[q]] == ss[c.members[q]];
    RestoredMaximum(c, ss, p, s, w);
  }

  lemma RestoredMaximum(c: Ctl, ss: seq<Sched>, p: nat, s: Sched, w: nat)
    requires MembersExist(ss, c.members) && Distinct(c.members) && p < |c.members| && w < |c.members|
    requires ss[c.members[p]].state == Running && s.state == Running
    requires IsFirstMaximum(ss, c.members, w) && c.active == Some(c.members[w])
    ensures IsFirstMaximum(ss[c.members[p] := s], c.members, w) <==> !RestoreDisturbs(c, ss, p, s)
  {
    var tt := ss[c.members[p] := s];
    assert tt[c.members[p]] == s;
    assert forall q :: 0 <= q < |c.members| && q != p ==> tt[c.members[q]] == ss[c.members[q]];
    if w != p {
      assert c.members[w] != c.members[p];
    }
  }

  /** A restore into a running schedule, for a controller that lists it once. */
  lemma RestoreAndCache(sys: System, i: nat, now: nat, j: Json, c: nat, p: nat)
    requires WellFormed(sys) && i < |sys.scheds| && c < |sys.ctls| && CacheRight(sys, c)
    requires Distinct(sys.ctls[c].members) && p < |sys.ctls[c].members| && sys.ctls[c].members[p] == i
    requires Connected(sys, c) && sys.scheds[i].state == Running
    ensures WellFormed(StepSched(sys, i, now, Restore(j)))
    ensures |StepSched(sys, i, now, Restore(j)).ctls| == |sys.ctls|
    ensures
      var s := Restored(sys.scheds[i], j).0;
      CacheRight(StepSched(sys, i, now, Restore(j)), c)
      <==> (s.state == Running ==> !RestoreDisturbs(sys.ctls[c], sys.scheds, p, s))
  {
    hide Informed, Elect, Restored, RestoreDisturbs, Connected;
    var ctl, s := sys.ctls[c], Restored(sys.scheds[i], j).0;
    var after := StepSched(sys, i, now, Restore(j));
    StepWellFormed(sys, OnSched(i, now, Restore(j)));
    InformedKeepsWiring(ctl, after.scheds, i, sys.scheds[i], Restore(j), now);
    RestoreKeepsConfig(sys.scheds[i], j);
    Listens(sys, c, p);
    if s.state == Running {
      RestoredElection(ctl, sys.scheds, p, s);
      SilentRestore(ctl, after.scheds, i, sys.scheds[i], j, now);
    } else {
      StateEventRepairs(sys, i, now, Restore(j), c);
    }
  }

  lemma Listens(sys: System, c: nat, p: nat)
    requires WellFormed(sys) && c < |sys.ctls| && Connected(sys, c) && p < |sys.ctls[c].members|
    ensures c in sys.listeners[sys.ctls[c].members[p]]
  {
  }

  lemma SilentRestore(c: Ctl, ss: seq<Sched>, i: nat, s: Sched, j: Json, now: nat)
    requires MembersExist(ss, c.members) && i < |ss| && ss[i].state == s.state
    ensures Informed(c, ss, i, s, Restore(j), now) == c
  {
  }
}
