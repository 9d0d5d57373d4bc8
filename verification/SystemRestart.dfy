// A restart of the whole system: every schedule is restored, one after the
// other, into a system that was just set up.
module SystemRestart {
  import opened Types
  import opened Names
  import opened Interval
  import opened ScheduleSpec
  import opened StorageSpec
  import opened StorageProps
  import opened Election
  import opened SystemSpec
  import opened Cache
  import opened Registration
  import opened Restart
  import opened Startup

  // ---- Restoring all schedules ----

  /** restoreSchedules, up to schedule `n`; schedule k is restored at times[k]. */
  ghost function RestoreUpTo(start: System, saved: seq<Sched>, n: nat, times: seq<nat>): (r: System)
    requires WellFormed(start) && |saved| == |times| == |start.scheds| && n <= |saved|
    ensures WellFormed(r) && |r.scheds| == |start.scheds| && |r.ctls| == |start.ctls|
  {
    if n == 0 then start
    else
      var before := RestoreUpTo(start, saved, n - 1, times);
      var cmd := Restore(Snapshot(saved[n - 1]));
      StepWellFormed(before, OnSched(n - 1, times[n - 1], cmd));
      StepSched(before, n - 1, times[n - 1], cmd)
  }

  /** The controlled object shows the entry the schedule in charge had when it was restored, or nothing. */
  predicate ShowsWinner(c: Ctl, ss: seq<Sched>, times: seq<nat>)
    requires |ss| == |times|
  {
    c.hasEntity ==>
      match c.active
      case Some(w) => w < |ss| && c.target == CurrentValue(ss[w], times[w])
      case None => c.target == None
  }

  /** What a restart starts from: nothing runs, nothing is shown, and the data model is the one saved. */
  ghost predicate ReadyToRestore(start: System, saved: seq<Sched>)
    requires WellFormed(start)
  {
    && AllRight(start) && |saved| == |start.scheds|
    && (forall k :: 0 <= k < |saved| ==>
          start.scheds[k].state != Running && SameModel(saved[k], start.scheds[k]) && Storable(saved[k]))
    && (forall c :: 0 <= c < |start.ctls| ==> start.ctls[c].active == None && start.ctls[c].target == None)
  }

  /** What is in place once the first `n` schedules are restored. */
  ghost predicate RestoredSoFar(r: System, start: System, saved: seq<Sched>, n: nat, times: seq<nat>) {
    && WellFormed(r) && |r.scheds| == |start.scheds| == |saved| == |times| && |r.ctls| == |start.ctls| && n <= |saved|
    && AllRight(r)
    && (forall k :: 0 <= k < |saved| ==>
          r.scheds[k] == if k < n then Restored(start.scheds[k], Snapshot(saved[k])).0 else start.scheds[k])
    && (forall c :: 0 <= c < |r.ctls| ==>
          && r.ctls[c].members == start.ctls[c].members && r.ctls[c].hasEntity == start.ctls[c].hasEntity
          && ShowsWinner(r.ctls[c], r.scheds, times))
  }

  /** A schedule that was not running changes an election only by winning it. */
  lemma {:induction false} NewcomerWins(ss: seq<Sched>, i: nat, s: Sched, members: seq<nat>)
    requires i < |ss| && MembersExist(ss, members) && ss[i].state != Running
    ensures
      var w := Elect(ss[i := s], members);
      && (w == Elect(ss, members) || w == Some(i))
      && (w == Some(i) && Elect(ss, members).Some? ==> !Outranks(ss[Elect(ss, members).value], s))
  {
    if members != [] {
      NewcomerWins(ss, i, s, members[..|members| - 1]);
    }
  }

  /** Restoring a schedule that is not running: the target keeps showing the schedule in charge. */
  lemma RestoreShowsWinner(c: Ctl, ss: seq<Sched>, i: nat, j: Json, times: seq<nat>)
    requires i < |ss| == |times| && MembersExist(ss, c.members) && ss[i].state != Running
    requires c.active == Elect(ss, c.members) && ShowsWinner(c, ss, times)
    ensures
      var tt := ss[i := After(ss[i], Restore(j), times[i])];
      ShowsWinner(Informed(c, tt, i, ss[i], Restore(j), times[i]), tt, times)
  {
    hide Elect, Restored, CurrentValue, Informed, After;
    var s := After(ss[i], Restore(j), times[i]);
    NewcomerWins(ss, i, s, c.members);
    RestoreInforms(c, ss[i := s], i, ss[i], j, times[i]);
  }

  lemma RestoreInforms(c: Ctl, ss: seq<Sched>, i: nat, s: Sched, j: Json, now: nat)
    requires MembersExist(ss, c.members) && i < |ss|
    ensures Informed(c, ss, i, s, Restore(j), now) == if ss[i].state != s.state then StateUpdated(c, ss, now) else c
  {
    hide StateUpdated;
  }

  lemma RestoreNext(r: System, start: System, saved: seq<Sched>, n: nat, times: seq<nat>)
    requires WellFormed(start) && ReadyToRestore(start, saved) && n < |saved|
    requires RestoredSoFar(r, start, saved, n, times)
    ensures RestoredSoFar(StepSched(r, n, times[n], Restore(Snapshot(saved[n]))), start, saved, n + 1, times)
  {
    hide Informed, Elect, Restored, Snapshot, AllRight, ShowsWinner, SameModel, Storable;
    var cmd, now := Restore(Snapshot(saved[n])), times[n];
    var after := StepSched(r, n, now, cmd);
    assert r.scheds[n] == start.scheds[n];
    StepWellFormed(r, OnSched(n, now, cmd));
    StepKeepsCache(r, n, now, cmd);
    forall c | 0 <= c < |r.ctls|
      ensures after.ctls[c].members == start.ctls[c].members && after.ctls[c].hasEntity == start.ctls[c].hasEntity
      ensures ShowsWinner(after.ctls[c], after.scheds, times)
    {
      RightAt(r, c);
      InformedKeepsWiring(r.ctls[c], after.scheds, n, r.scheds[n], cmd, now);
      if c in r.listeners[n] {
        RestoreShowsWinner(r.ctls[c], r.scheds, n, Snapshot(saved[n]), times);
      } else {
        NotInformed(r, n, c, times, Snapshot(saved[n]));
      }
    }
  }

  /** A controller that does not listen to a schedule does not have it as a member. */
  lemma NotInformed(r: System, i: nat, c: nat, times: seq<nat>, j: Json)
    requires WellFormed(r) && AllRight(r) && i < |r.scheds| == |times| && c < |r.ctls| && c !in r.listeners[i]
    requires r.scheds[i].state != Running && ShowsWinner(r.ctls[c], r.scheds, times)
    ensures ShowsWinner(r.ctls[c], r.scheds[i := After(r.scheds[i], Restore(j), times[i])], times)
  {
    hide After, Elect, CurrentValue;
    RightAt(r, c);
  }

  lemma {:induction false} AllRestored(start: System, saved: seq<Sched>, n: nat, times: seq<nat>)
    requires WellFormed(start) && ReadyToRestore(start, saved) && n <= |saved| == |times|
    ensures RestoredSoFar(RestoreUpTo(start, saved, n, times), start, saved, n, times)
  {
    hide *;
    SavedSize(start, saved);
    if n == 0 {
      NoneRestored(start, saved, times);
    } else {
      AllRestored(start, saved, n - 1, times);
      RestoreNext(RestoreUpTo(start, saved, n - 1, times), start, saved, n - 1, times);
      RestoredOnce(start, saved, n, times);
    }
  }

  lemma SavedSize(start: System, saved: seq<Sched>)
    requires WellFormed(start) && ReadyToRestore(start, saved)
    ensures |saved| == |start.scheds|
  {
  }

  lemma RestoredOnce(start: System, saved: seq<Sched>, n: nat, times: seq<nat>)
    requires WellFormed(start) && |saved| == |times| == |start.scheds| && 0 < n <= |saved|
    ensures
      RestoreUpTo(start, saved, n, times)
      == StepSched(RestoreUpTo(start, saved, n - 1, times), n - 1, times[n - 1], Restore(Snapshot(saved[n - 1])))
  {
    hide StepSched, Snapshot, WellFormed;
  }

  lemma NoneRestored(start: System, saved: seq<Sched>, times: seq<nat>)
    requires WellFormed(start) && ReadyToRestore(start, saved) && |times| == |saved|
    ensures RestoreUpTo(start, saved, 0, times) == start && RestoredSoFar(start, start, saved, 0, times)
  {
    hide SameModel, Storable, AllRight, CurrentValue;
  }

  // ---- The order of the members ----

  /** No two different running members have the same priority and start time. */
  predicate NoTies(ss: seq<Sched>, members: seq<nat>)
    requires MembersExist(ss, members)
  {
    forall p, q ::
      (0 <= p < |members| && 0 <= q < |members| && members[p] != members[q]
       && ss[members[p]].state == Running && ss[members[q]].state == Running) ==>
        Outranks(ss[members[p]], ss[members[q]]) || Outranks(ss[members[q]], ss[members[p]])
  }

  /** Without ties the order of the members plays no part. */
  lemma OrderPlaysNoPart(ss: seq<Sched>, xs: seq<nat>, ys: seq<nat>)
    requires MembersExist(ss, xs) && MembersExist(ss, ys) && (forall m :: m in xs <==> m in ys) && NoTies(ss, xs)
    ensures Elect(ss, xs) == Elect(ss, ys)
  {
    hide Elect, Outranks;
    var p := ElectFindsMaximum(ss, xs);
    var q := ElectFindsMaximum(ss, ys);
    if p != -1 { assert xs[p] in ys; }
    if q != -1 { assert ys[q] in xs; }
  }

  /** With a tie it does: the first one listed is in charge. */
  lemma TiesGoByOrder(ss: seq<Sched>, a: nat, b: nat)
    requires a < |ss| && b < |ss| && ss[a].state == Running && ss[b].state == Running
    requires !Outranks(ss[a], ss[b]) && !Outranks(ss[b], ss[a])
    ensures Elect(ss, [a, b]) == Some(a) && Elect(ss, [b, a]) == Some(b)
  {
    hide Outranks;
    assert [a, b][..1] == [a] && [b, a][..1] == [b] && [a][..0] == [] && [b][..0] == [];
    assert Elect(ss, [a]) == Some(a) && Elect(ss, [b]) == Some(b);
  }

  /** The members of the restarted controller: the same, in an order that plays no part. */
  ghost predicate SameMembers(ss: seq<Sched>, xs: seq<nat>, ys: seq<nat>)
    requires MembersExist(ss, xs)
  {
    xs == ys || (NoTies(ss, xs) && forall m :: m in xs <==> m in ys)
  }

  // ---- The restart ----

  /** What the restarted controller `r` has in common with the controller `c` that never stopped. */
  ghost predicate BackInControl(r: Ctl, c: Ctl, saved: seq<Sched>, times: seq<nat>)
    requires |saved| == |times|
  {
    && r.active == c.active && r.actSchdRef == c.actSchdRef && r.actSchdRefQ == c.actSchdRefQ
    && (r.hasEntity ==>
          match c.active
          case None => r.target == None
          case Some(w) =>
            && w < |saved|
            && (CurrentIdx(saved[w], times[w]) >= -1 || Unsigned(saved[w].values) ==>
                  r.target == CurrentValue(saved[w], times[w])))
  }

  /**
    * Main result: save all schedules of a system with a right cache, set the
    * system up anew and restore them. Each controller then has the active schedule
    * and the ActSchdRef of the system that never stopped, and shows the entry that
    * schedule had reached when it was restored.
    */
  lemma RestartRestoresControl(sys: System, start: System, times: seq<nat>, c: nat)
    requires WellFormed(sys) && AllRight(sys) && WellFormed(start) && ReadyToRestore(start, sys.scheds)
    requires |times| == |sys.scheds| && c < |sys.ctls| == |start.ctls|
    requires SameMembers(sys.scheds, sys.ctls[c].members, start.ctls[c].members)
    requires forall k :: 0 <= k < |sys.scheds| ==> OwnParameters(sys.scheds[k])
    ensures
      var r := RestoreUpTo(start, sys.scheds, |sys.scheds|, times);
      BackInControl(r.ctls[c], sys.ctls[c], sys.scheds, times)
  {
    hide Elect, Restored, Snapshot, AllRight, SameModel, Storable, OwnParameters, CurrentIdx, CurrentValue, RestoreUpTo;
    var n := |sys.scheds|;
    var r := RestoreUpTo(start, sys.scheds, n, times);
    AllRestored(start, sys.scheds, n, times);
    forall k | 0 <= k < n
      ensures SameCandidate(sys.scheds[k], r.scheds[k]) && r.scheds[k].cfg == sys.scheds[k].cfg
    {
      CandidateSurvives(sys.scheds[k], start.scheds[k]);
    }
    RightAt(sys, c);
    RightAt(r, c);
    ElectCongruence(sys.scheds, r.scheds, start.ctls[c].members);
    if sys.ctls[c].members != start.ctls[c].members {
      OrderPlaysNoPart(sys.scheds, sys.ctls[c].members, start.ctls[c].members);
    }
    if sys.ctls[c].active.Some? {
      var w := sys.ctls[c].active.value;
      ExecutionSurvives(sys.scheds[w], start.scheds[w], times[w]);
    }
  }

  lemma CandidateSurvives(s: Sched, into: Sched)
    requires SameModel(s, into) && Storable(s)
    ensures SameCandidate(s, Restored(into, Snapshot(s)).0) && Restored(into, Snapshot(s)).0.cfg == s.cfg
  {
    hide Snapshot, Restored, SameModel, Storable, GetMs;
    SnapshotRoundTrip(s, into);
    RestoredNames(s, into);
  }

  /** The data model from which the system is set up again is that of the saved schedules, with the same references. */
  ghost predicate SetUpAgain(sys: System, anew: System) {
    && Fresh(anew) && NoneRunning(anew.scheds) && |sys.scheds| == |anew.scheds| && |sys.ctls| == |anew.ctls|
    && (forall k :: 0 <= k < |sys.scheds| ==>
          SameModel(sys.scheds[k], anew.scheds[k]) && Storable(sys.scheds[k]) && OwnParameters(sys.scheds[k]))
    && (forall c :: 0 <= c < |sys.ctls| ==>
          anew.ctls[c].refs == sys.ctls[c].refs && anew.ctls[c].target == None)
  }

  lemma SetUpIsReady(sys: System, anew: System)
    requires WellFormed(sys) && SetUpAgain(sys, anew)
    ensures WellFormed(anew) && AllResolve(anew.scheds, anew.ctls)
    ensures
      var start := InitializedUpTo(anew, |anew.ctls|);
      ReadyToRestore(start, sys.scheds) && AllRegistered(start)
  {
    hide InitializedUpTo, AllRegistered, AllRight, SameModel, Storable, OwnParameters, AllResolve, RefsDistinct;
    SetUpMeetsInvariants(anew);
    forall c | 0 <= c < |anew.ctls|
      ensures InitializedUpTo(anew, |anew.ctls|).ctls[c].active == None
      ensures InitializedUpTo(anew, |anew.ctls|).ctls[c].target == None
    {
      SetUpIsSilent(anew, |anew.ctls|, c);
    }
  }

  /** Two registered controllers with the same references have the same members. */
  lemma SameReferencesSameMembers(a: System, b: System, c: nat)
    requires WellFormed(a) && WellFormed(b) && AllRegistered(a) && AllRegistered(b)
    requires c < |a.ctls| && c < |b.ctls| && a.ctls[c].refs == b.ctls[c].refs
    requires |a.scheds| == |b.scheds| && forall k :: 0 <= k < |a.scheds| ==> a.scheds[k].cfg == b.scheds[k].cfg
    ensures forall m :: m in a.ctls[c].members <==> m in b.ctls[c].members
  {
    hide Resolve, Distinct, Connected;
    assert Registered(a, c) && Registered(b, c);
    forall j | 0 <= j < |a.ctls[c].refs|
      ensures Resolve(a.scheds, a.ctls[c].refs[j]) == Resolve(b.scheds, a.ctls[c].refs[j])
    {
      ResolveByConfig(a.scheds, b.scheds, a.ctls[c].refs[j]);
    }
  }

  /**
    * From the data model: a system whose registration and cache are right - as
    * they are after every run from its set-up - is restarted from an empty one
    * with the same references. Unless running members tie, every controller is
    * back in control, whatever the order in which its members were connected.
    */
  lemma RestartFromSetUp(sys: System, anew: System, times: seq<nat>, c: nat)
    requires WellFormed(sys) && AllRight(sys) && AllRegistered(sys) && SetUpAgain(sys, anew)
    requires |times| == |sys.scheds| && c < |sys.ctls|
    requires MembersExist(sys.scheds, sys.ctls[c].members) && NoTies(sys.scheds, sys.ctls[c].members)
    ensures WellFormed(anew) && AllResolve(anew.scheds, anew.ctls)
    ensures
      var r := RestoreUpTo(InitializedUpTo(anew, |anew.ctls|), sys.scheds, |sys.scheds|, times);
      BackInControl(r.ctls[c], sys.ctls[c], sys.scheds, times)
  {
    hide InitializedUpTo, AllRegistered, AllRight, Storable, OwnParameters, AllResolve, NoTies, BackInControl;
    hide ReadyToRestore, RestoreUpTo, Fresh, SameValueModel, SameSlotModel;
    SetUpIsReady(sys, anew);
    var start := InitializedUpTo(anew, |anew.ctls|);
    SameReferencesSameMembers(sys, start, c);
    RestartRestoresControl(sys, start, times, c);
  }
}
