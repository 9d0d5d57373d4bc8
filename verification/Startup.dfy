// Setting up the controllers: which state a fresh system starts its runs in.
module Startup {
  import opened Types
  import opened ScheduleSpec
  import opened Election
  import opened SystemSpec
  import opened Cache
  import opened Registration

  predicate RefsResolve(ss: seq<Sched>, refs: seq<string>) {
    forall j :: 0 <= j < |refs| ==> Resolve(ss, refs[j]).Some?
  }

  /** Controller `c` starts to listen to each of `members`, in order. */
  function ListenTo(listeners: seq<seq<nat>>, members: seq<nat>, c: nat): (r: seq<seq<nat>>)
    requires forall p :: 0 <= p < |members| ==> members[p] < |listeners|
    ensures |r| == |listeners|
  {
    if members == [] then listeners
    else
      var last := members[|members| - 1];
      var before := ListenTo(listeners, members[..|members| - 1], c);
      before[last := AddListener(before[last], c)]
  }

  /** Schedule `i` becomes a member of controller `c` and informs it. */
  ghost function Linked(sys: System, c: nat, i: nat): System
    requires c < |sys.ctls| && i < |sys.listeners|
  {
    sys.(ctls := sys.ctls[c := sys.ctls[c].(members := sys.ctls[c].members + [i])],
         listeners := sys.listeners[i := AddListener(sys.listeners[i], c)])
  }

  /** What the first `n` attributes of controller `c` name is connected. */
  ghost function ConnectedUpTo(sys: System, c: nat, n: nat): (r: System)
    requires WellFormed(sys) && c < |sys.ctls| && RefsResolve(sys.scheds, sys.ctls[c].refs)
    requires n <= |sys.ctls[c].refs|
    ensures WellFormed(r) && r.scheds == sys.scheds && |r.ctls| == |sys.ctls|
    ensures r.ctls[c].refs == sys.ctls[c].refs
    ensures forall d :: 0 <= d < |sys.ctls| && d != c ==> r.ctls[d] == sys.ctls[d]
  {
    var connected := Connect(sys.scheds, sys.ctls[c].refs)[..n];
    sys.(ctls := sys.ctls[c := sys.ctls[c].(members := sys.ctls[c].members + connected)],
         listeners := ListenTo(sys.listeners, connected, c))
  }

  lemma NothingConnected(sys: System, c: nat)
    requires WellFormed(sys) && c < |sys.ctls| && RefsResolve(sys.scheds, sys.ctls[c].refs)
    ensures ConnectedUpTo(sys, c, 0) == sys
  {
    assert sys.ctls[c].members + [] == sys.ctls[c].members;
  }

  /** Connecting one after the other, in the order of the attributes. */
  lemma ConnectedNext(sys: System, c: nat, n: nat)
    requires WellFormed(sys) && c < |sys.ctls| && RefsResolve(sys.scheds, sys.ctls[c].refs)
    requires n < |sys.ctls[c].refs|
    ensures
      ConnectedUpTo(sys, c, n + 1)
      == Linked(ConnectedUpTo(sys, c, n), c, Resolve(sys.scheds, sys.ctls[c].refs[n]).value)
  {
    hide Resolve;
    var all := Connect(sys.scheds, sys.ctls[c].refs);
    assert all[..n + 1][..n] == all[..n];
    assert sys.ctls[c].members + all[..n + 1] == sys.ctls[c].members + all[..n] + [all[n]];
  }

  /** ScheduleController_initialize: activeSchedule itself is left alone. */
  ghost function Initialized(sys: System, c: nat): (r: System)
    requires WellFormed(sys) && c < |sys.ctls| && RefsResolve(sys.scheds, sys.ctls[c].refs)
    ensures WellFormed(r) && r.scheds == sys.scheds && |r.ctls| == |sys.ctls|
    ensures r.ctls[c].refs == sys.ctls[c].refs
    ensures forall d :: 0 <= d < |sys.ctls| && d != c ==> r.ctls[d] == sys.ctls[d]
  {
    var connected := ConnectedUpTo(sys, c, |sys.ctls[c].refs|);
    var ctl := connected.ctls[c];
    connected.(ctls := connected.ctls[c := ShowRef(ctl, sys.scheds, Elect(sys.scheds, ctl.members))])
  }

  lemma InitializedShape(sys: System, c: nat)
    requires WellFormed(sys) && c < |sys.ctls| && RefsResolve(sys.scheds, sys.ctls[c].refs)
    ensures
      var connected := Connect(sys.scheds, sys.ctls[c].refs);
      var ctl := sys.ctls[c].(members := sys.ctls[c].members + connected);
      var r := Initialized(sys, c);
      && r.listeners == ListenTo(sys.listeners, connected, c)
      && MembersExist(sys.scheds, ctl.members)
      && r.ctls[c] == ShowRef(ctl, sys.scheds, Elect(sys.scheds, ctl.members))
  {
    hide Resolve, ListenTo, Elect;
    var connected := Connect(sys.scheds, sys.ctls[c].refs);
    assert connected[..|connected|] == connected;
  }

  ghost predicate AllResolve(ss: seq<Sched>, ctls: seq<Ctl>) {
    forall c :: 0 <= c < |ctls| ==> RefsResolve(ss, ctls[c].refs)
  }

  /** scheduler_initializeScheduleControllers, up to controller `n`. */
  ghost function InitializedUpTo(sys: System, n: nat): (r: System)
    requires WellFormed(sys) && n <= |sys.ctls| && AllResolve(sys.scheds, sys.ctls)
    ensures WellFormed(r) && r.scheds == sys.scheds && |r.ctls| == |sys.ctls|
    ensures forall c :: n <= c < |sys.ctls| ==> r.ctls[c] == sys.ctls[c]
    ensures forall c :: 0 <= c < |sys.ctls| ==> r.ctls[c].refs == sys.ctls[c].refs
  {
    if n == 0 then sys
    else
      var before := InitializedUpTo(sys, n - 1);
      assert RefsResolve(sys.scheds, sys.ctls[n - 1].refs);
      hide *;
      Initialized(before, n - 1)
  }

  /** Nothing connected yet, and attributes that name distinct schedules. */
  ghost predicate Fresh(sys: System) {
    && |sys.listeners| == |sys.scheds|
    && (forall c :: 0 <= c < |sys.ctls| ==>
          sys.ctls[c].members == [] && sys.ctls[c].active == None && RefsDistinct(sys.scheds, sys.ctls[c].refs))
    && (forall i :: 0 <= i < |sys.listeners| ==> sys.listeners[i] == [])
  }

  ghost predicate NoneRunning(ss: seq<Sched>) {
    forall i :: 0 <= i < |ss| ==> ss[i].state != Running
  }

  lemma {:induction false} ListenToAdds(listeners: seq<seq<nat>>, members: seq<nat>, c: nat)
    requires forall p :: 0 <= p < |members| ==> members[p] < |listeners|
    ensures
      var r := ListenTo(listeners, members, c);
      && (forall p :: 0 <= p < |members| ==> c in r[members[p]])
      && (forall i, d :: 0 <= i < |listeners| && d in listeners[i] ==> d in r[i])
      && (forall i :: 0 <= i < |listeners| && Distinct(listeners[i]) ==> Distinct(r[i]))
  {
    if members != [] {
      var last := members[|members| - 1];
      var before := ListenTo(listeners, members[..|members| - 1], c);
      ListenToAdds(listeners, members[..|members| - 1], c);
      ListenersGrow(before[last], c);
      hide Distinct, ListenTo, AddListener;
      var r := before[last := AddListener(before[last], c)];
      forall p | 0 <= p < |members| ensures c in r[members[p]] {
        if p < |members| - 1 {
          assert members[..|members| - 1][p] == members[p];
        }
      }
    }
  }

  /** What holds once the first `n` controllers are set up. */
  ghost predicate SetUp(sys: System, n: nat)
    requires WellFormed(sys) && n <= |sys.ctls|
  {
    && (forall c :: 0 <= c < n ==> Registered(sys, c) && CacheRight(sys, c))
    && (forall i :: 0 <= i < |sys.listeners| ==> Distinct(sys.listeners[i]))
  }

  lemma InitializedRight(sys: System, c: nat)
    requires WellFormed(sys) && c < |sys.ctls| && RefsDistinct(sys.scheds, sys.ctls[c].refs)
    requires sys.ctls[c].members == [] && sys.ctls[c].active == None
    requires NoneRunning(sys.scheds)
    ensures WellFormed(Initialized(sys, c))
    ensures Registered(Initialized(sys, c), c) && CacheRight(Initialized(sys, c), c)
  {
    hide Resolve, Distinct, MembersMatch, ListenTo, Initialized;
    var refs := sys.ctls[c].refs;
    var connected := Connect(sys.scheds, refs);
    assert sys.ctls[c].members + connected == connected;
    InitializedShape(sys, c);
    InitialMembersMatch(sys.scheds, refs);
    ListenToAdds(sys.listeners, connected, c);
    var p := ElectFindsMaximum(sys.scheds, connected);
  }

  lemma OthersUntouched(sys: System, c: nat, d: nat)
    requires WellFormed(sys) && c < |sys.ctls| && RefsResolve(sys.scheds, sys.ctls[c].refs)
    requires d < |sys.ctls| && d != c && Registered(sys, d) && CacheRight(sys, d)
    ensures WellFormed(Initialized(sys, c))
    ensures Registered(Initialized(sys, c), d) && CacheRight(Initialized(sys, c), d)
  {
    hide Resolve, Distinct, MembersMatch, RefsDistinct, ListenTo, Elect, Initialized;
    InitializedShape(sys, c);
    ListenToAdds(sys.listeners, Connect(sys.scheds, sys.ctls[c].refs), c);
    var after := Initialized(sys, c);
    assert after.ctls[d] == sys.ctls[d];
  }

  lemma FreshResolves(sys: System)
    requires Fresh(sys)
    ensures WellFormed(sys) && AllResolve(sys.scheds, sys.ctls)
  {
    hide Resolve;
  }

  lemma ListenersStayDistinct(sys: System, c: nat)
    requires WellFormed(sys) && c < |sys.ctls| && RefsResolve(sys.scheds, sys.ctls[c].refs)
    requires forall i :: 0 <= i < |sys.listeners| ==> Distinct(sys.listeners[i])
    ensures forall i :: 0 <= i < |Initialized(sys, c).listeners| ==> Distinct(Initialized(sys, c).listeners[i])
  {
    hide Initialized, Distinct, ListenTo, Resolve;
    InitializedShape(sys, c);
    ListenToAdds(sys.listeners, Connect(sys.scheds, sys.ctls[c].refs), c);
  }

  lemma SetUpNext(sys: System, n: nat)
    requires WellFormed(sys) && n < |sys.ctls| && SetUp(sys, n)
    requires RefsDistinct(sys.scheds, sys.ctls[n].refs) && RefsResolve(sys.scheds, sys.ctls[n].refs)
    requires sys.ctls[n].members == [] && sys.ctls[n].active == None
    requires NoneRunning(sys.scheds)
    ensures SetUp(Initialized(sys, n), n + 1)
  {
    hide Registered, CacheRight, Initialized, RefsDistinct, RefsResolve, Distinct, WellFormed;
    InitializedRight(sys, n);
    ListenersStayDistinct(sys, n);
    var after := Initialized(sys, n);
    forall c | 0 <= c < n + 1 ensures Registered(after, c) && CacheRight(after, c) {
      if c < n {
        OthersUntouched(sys, n, c);
      }
    }
  }

  lemma FreshController(sys: System, c: nat)
    requires Fresh(sys) && c < |sys.ctls|
    ensures sys.ctls[c].members == [] && sys.ctls[c].active == None && RefsDistinct(sys.scheds, sys.ctls[c].refs)
    ensures RefsResolve(sys.scheds, sys.ctls[c].refs)
  {
    hide Resolve;
  }

  lemma EachResolves(sys: System, c: nat)
    requires AllResolve(sys.scheds, sys.ctls) && c < |sys.ctls|
    ensures RefsResolve(sys.scheds, sys.ctls[c].refs)
  {
  }

  lemma NoneInitialized(sys: System)
    requires WellFormed(sys) && AllResolve(sys.scheds, sys.ctls)
    ensures InitializedUpTo(sys, 0) == sys
  {
    hide WellFormed, AllResolve;
  }

  lemma InitializedOnce(sys: System, n: nat)
    requires WellFormed(sys) && 0 < n <= |sys.ctls| && AllResolve(sys.scheds, sys.ctls)
    requires RefsResolve(sys.scheds, sys.ctls[n - 1].refs)
    ensures InitializedUpTo(sys, n) == Initialized(InitializedUpTo(sys, n - 1), n - 1)
  {
    hide Initialized, WellFormed, AllResolve, RefsResolve;
  }

  lemma NothingSetUp(sys: System)
    requires Fresh(sys) && WellFormed(sys) && AllResolve(sys.scheds, sys.ctls)
    ensures SetUp(InitializedUpTo(sys, 0), 0)
  {
    hide AllResolve, RefsDistinct;
  }

  lemma {:induction false} SetUpSoFar(sys: System, n: nat)
    requires Fresh(sys) && n <= |sys.ctls|
    requires NoneRunning(sys.scheds)
    ensures WellFormed(sys) && AllResolve(sys.scheds, sys.ctls)
    ensures SetUp(InitializedUpTo(sys, n), n)
  {
    hide *;
    FreshResolves(sys);
    if n == 0 {
      NothingSetUp(sys);
    } else {
      SetUpSoFar(sys, n - 1);
      FreshController(sys, n - 1);
      SetUpNext(InitializedUpTo(sys, n - 1), n - 1);
      InitializedOnce(sys, n);
    }
  }

  /**
    * A system set up before anything runs starts every run in a state that meets
    * the invariants of the registration and of the cache.
    */
  lemma SetUpMeetsInvariants(sys: System)
    requires Fresh(sys) && NoneRunning(sys.scheds)
    ensures WellFormed(sys) && AllResolve(sys.scheds, sys.ctls)
    ensures
      var start := InitializedUpTo(sys, |sys.ctls|);
      AllRegistered(start) && AllRight(start)
  {
    hide InitializedUpTo, RefsDistinct, MembersMatch, Fresh, CacheRight, Distinct, AllResolve;
    SetUpSoFar(sys, |sys.ctls|);
    var start := InitializedUpTo(sys, |sys.ctls|);
    forall c | 0 <= c < |start.ctls| ensures Connected(start, c) {
      assert Registered(start, c);
    }
  }

  lemma InitializedKeepsTarget(sys: System, c: nat)
    requires WellFormed(sys) && c < |sys.ctls| && RefsResolve(sys.scheds, sys.ctls[c].refs)
    ensures Initialized(sys, c).ctls[c].target == sys.ctls[c].target
    ensures Initialized(sys, c).ctls[c].active == sys.ctls[c].active
  {
    hide Initialized, Elect, RefsResolve, Connect;
    InitializedShape(sys, c);
  }

  /** Setting up sends nothing and elects nothing. */
  lemma {:induction false} SetUpIsSilent(sys: System, n: nat, c: nat)
    requires WellFormed(sys) && n <= |sys.ctls| && c < |sys.ctls| && AllResolve(sys.scheds, sys.ctls)
    ensures InitializedUpTo(sys, n).ctls[c].target == sys.ctls[c].target
    ensures InitializedUpTo(sys, n).ctls[c].active == sys.ctls[c].active
  {
    hide *;
    if n == 0 {
      NoneInitialized(sys);
    } else {
      SetUpIsSilent(sys, n - 1, c);
      EachResolves(sys, n - 1);
      InitializedOnce(sys, n);
      InitializedKeepsTarget(InitializedUpTo(sys, n - 1), n - 1);
    }
  }

  /** From setting up, through every run of commands: registration and cache stay right. */
  lemma EveryRunFromSetUp(sys: System, evs: seq<Event>)
    requires Fresh(sys) && NoneRunning(sys.scheds)
    ensures WellFormed(sys) && AllResolve(sys.scheds, sys.ctls)
    ensures
      var start := InitializedUpTo(sys, |sys.ctls|);
      AllRegistered(Run(start, evs)) && (CommandRun(start, evs) ==> AllRight(Run(start, evs)))
  {
    hide *;
    SetUpMeetsInvariants(sys);
    var start := InitializedUpTo(sys, |sys.ctls|);
    RunKeepsRegistration(start, evs);
    if CommandRun(start, evs) {
      RunKeepsCache(start, evs);
    }
  }
}
