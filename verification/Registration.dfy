// A controller's member list always matches its Schd attributes, and every
// member informs the controller.
module Registration {
  import opened Types
  import opened ScheduleSpec
  import opened SystemSpec
  import opened Cache

  /** Every attribute names a schedule, and no two name the same one. */
  ghost predicate RefsDistinct(ss: seq<Sched>, refs: seq<string>) {
    && (forall j :: 0 <= j < |refs| ==> Resolve(ss, refs[j]).Some?)
    && (forall j, k :: 0 <= j < k < |refs| ==> Resolve(ss, refs[j]) != Resolve(ss, refs[k]))
  }

  /** The members are the schedules the attributes name, each listed once. */
  ghost predicate MembersMatch(ss: seq<Sched>, refs: seq<string>, members: seq<nat>) {
    && Distinct(members)
    && (forall j :: 0 <= j < |refs| && Resolve(ss, refs[j]).Some? ==> Resolve(ss, refs[j]).value in members)
    && (forall m :: m in members ==> exists j :: 0 <= j < |refs| && Resolve(ss, refs[j]) == Some(m))
  }

  ghost predicate Registered(sys: System, c: nat)
    requires WellFormed(sys) && c < |sys.ctls|
  {
    && RefsDistinct(sys.scheds, sys.ctls[c].refs)
    && MembersMatch(sys.scheds, sys.ctls[c].refs, sys.ctls[c].members)
    && Connected(sys, c)
  }

  ghost predicate AllRegistered(sys: System)
    requires WellFormed(sys)
  {
    && (forall c :: 0 <= c < |sys.ctls| ==> Registered(sys, c))
    && (forall i :: 0 <= i < |sys.listeners| ==> Distinct(sys.listeners[i]))
  }

  // ---- Setting up ----

  /** ScheduleController_initialize: connect what the attributes name, in order. */
  function Connect(ss: seq<Sched>, refs: seq<string>): seq<nat>
    requires forall j :: 0 <= j < |refs| ==> Resolve(ss, refs[j]).Some?
  {
    seq(|refs|, j requires 0 <= j < |refs| => Resolve(ss, refs[j]).value)
  }

  lemma InitialMembersMatch(ss: seq<Sched>, refs: seq<string>)
    requires RefsDistinct(ss, refs)
    ensures MembersMatch(ss, refs, Connect(ss, refs))
  {
    var members := Connect(ss, refs);
    forall m | m in members ensures exists j :: 0 <= j < |refs| && Resolve(ss, refs[j]) == Some(m) {
      var j :| 0 <= j < |members| && members[j] == m;
      assert Resolve(ss, refs[j]) == Some(m);
    }
    forall j | 0 <= j < |refs| ensures Resolve(ss, refs[j]).value in members {
      assert members[j] == Resolve(ss, refs[j]).value;
    }
    forall j, k | 0 <= j < k < |members| ensures members[j] != members[k] {
      assert Resolve(ss, refs[j]) != Resolve(ss, refs[k]);
    }
  }

  // ---- Re-wiring ----

  lemma DistinctSnoc<T>(xs: seq<T>, x: T)
    requires Distinct(xs) && x !in xs
    ensures Distinct(xs + [x])
  {
  }

  lemma RewiredRefsDistinct(ss: seq<Sched>, refs: seq<string>, members: seq<nat>, j: nat, ref: string, i: nat)
    requires RefsDistinct(ss, refs) && MembersMatch(ss, refs, members)
    requires j < |refs| && Resolve(ss, ref) == Some(i) && i !in members
    ensures RefsDistinct(ss, refs[j := ref])
  {
    hide Resolve, Distinct;
    var now := refs[j := ref];
    forall k | 0 <= k < |refs| && k != j ensures Resolve(ss, now[k]) == Resolve(ss, refs[k]) != Some(i) {
      assert Resolve(ss, refs[k]).value in members;
    }
    forall h, k | 0 <= h < k < |now| ensures Resolve(ss, now[h]) != Resolve(ss, now[k]) {
      if h != j && k != j {
        assert Resolve(ss, refs[h]) != Resolve(ss, refs[k]);
      }
    }
  }

  /** The members other than the one attribute j used to name. */
  lemma OtherMembers(ss: seq<Sched>, refs: seq<string>, members: seq<nat>, j: nat, rest: seq<nat>)
    requires RefsDistinct(ss, refs) && MembersMatch(ss, refs, members) && j < |refs|
    requires rest == RemoveFirst(members, Resolve(ss, refs[j]).value)
    ensures Distinct(rest) && forall m :: m in rest ==> m in members
    ensures forall k :: 0 <= k < |refs| && k != j ==> Resolve(ss, refs[k]).value in rest
    ensures forall m :: m in rest ==> exists k :: 0 <= k < |refs| && k != j && Resolve(ss, refs[k]) == Some(m)
  {
    hide Resolve, Distinct, RemoveFirst;
    var gone := Resolve(ss, refs[j]).value;
    RemoveFirstDistinct(members, gone);
    forall k | 0 <= k < |refs| && k != j ensures Resolve(ss, refs[k]).value in rest {
      SymmetricRefs(ss, refs, j, k);
      assert Resolve(ss, refs[k]).value in members;
    }
    forall m | m in rest ensures exists k :: 0 <= k < |refs| && k != j && Resolve(ss, refs[k]) == Some(m) {
      assert m in members && m != gone;
      var k :| 0 <= k < |refs| && Resolve(ss, refs[k]) == Some(m);
    }
  }

  /** One accepted SchdNN.setSrcRef write. */
  lemma RewiredMatches(ss: seq<Sched>, ctl: Ctl, j: nat, ref: string, i: nat)
    requires RefsDistinct(ss, ctl.refs) && MembersMatch(ss, ctl.refs, ctl.members)
    requires j < |ctl.refs| && Resolve(ss, ref) == Some(i) && i !in ctl.members
    ensures MembersMatch(ss, ctl.refs[j := ref], Rewired(ctl, ss, j, i))
  {
    hide Resolve, Distinct, RemoveFirst, MembersMatch;
    var refs := ctl.refs[j := ref];
    var rest := RemoveFirst(ctl.members, Resolve(ss, ctl.refs[j]).value);
    OtherMembers(ss, ctl.refs, ctl.members, j, rest);
    DistinctSnoc(rest, i);
    forall m | m in rest ensures exists k :: 0 <= k < |refs| && k != j && Resolve(ss, refs[k]) == Some(m) {
      var k :| 0 <= k < |ctl.refs| && k != j && Resolve(ss, ctl.refs[k]) == Some(m);
      assert refs[k] == ctl.refs[k];
    }
    MembersAssembled(ss, refs, rest, j, i);
  }

  lemma MembersAssembled(ss: seq<Sched>, refs: seq<string>, rest: seq<nat>, j: nat, i: nat)
    requires j < |refs| && Resolve(ss, refs[j]) == Some(i) && Distinct(rest + [i])
    requires forall k :: 0 <= k < |refs| && k != j && Resolve(ss, refs[k]).Some? ==> Resolve(ss, refs[k]).value in rest
    requires forall m :: m in rest ==> exists k :: 0 <= k < |refs| && k != j && Resolve(ss, refs[k]) == Some(m)
    ensures MembersMatch(ss, refs, rest + [i])
  {
    hide Resolve, Distinct;
  }

  lemma SymmetricRefs(ss: seq<Sched>, refs: seq<string>, j: nat, k: nat)
    requires RefsDistinct(ss, refs) && j < |refs| && k < |refs| && j != k
    ensures Resolve(ss, refs[j]) != Resolve(ss, refs[k])
  {
    hide Resolve;
    if j < k {
      assert Resolve(ss, refs[j]) != Resolve(ss, refs[k]);
    } else {
      assert Resolve(ss, refs[k]) != Resolve(ss, refs[j]);
    }
  }

  lemma RewireKeepsRegistration(sys: System, c: nat, j: nat, ref: string)
    requires WellFormed(sys) && AllRegistered(sys) && c < |sys.ctls|
    ensures WellFormed(SetSrcRef(sys, c, j, ref)) && AllRegistered(SetSrcRef(sys, c, j, ref))
  {
    hide Resolve, Rewired, RefsDistinct, MembersMatch;
    StepWellFormed(sys, Rewire(c, j, ref, 0));
    var target := RewireTarget(sys, c, j, ref);
    if target.Some? {
      var i := target.value;
      var after := SetSrcRef(sys, c, j, ref);
      assert Registered(sys, c);
      RewiredMatches(sys.scheds, sys.ctls[c], j, ref, i);
      RewiredRefsDistinct(sys.scheds, sys.ctls[c].refs, sys.ctls[c].members, j, ref, i);
      forall d | 0 <= d < |after.ctls| ensures Registered(after, d) {
        assert Registered(sys, d);
        ListenersGrow(sys.listeners[i], c);
        if d == c {
          RewiredConnected(sys, c, j, i);
        }
      }
      ListenersGrow(sys.listeners[i], c);
    }
  }

  lemma ListenersGrow(ls: seq<nat>, c: nat)
    ensures c in AddListener(ls, c) && forall d :: d in ls ==> d in AddListener(ls, c)
    ensures Distinct(ls) ==> Distinct(AddListener(ls, c))
  {
  }

  lemma RewiredConnected(sys: System, c: nat, j: nat, i: nat)
    requires WellFormed(sys) && c < |sys.ctls| && j < |sys.ctls[c].refs| && i < |sys.scheds|
    requires Connected(sys, c)
    ensures
      var listeners := sys.listeners[i := AddListener(sys.listeners[i], c)];
      var members := Rewired(sys.ctls[c], sys.scheds, j, i);
      forall p :: 0 <= p < |members| ==> members[p] < |listeners| && c in listeners[members[p]]
  {
    hide Resolve;
    ListenersGrow(sys.listeners[i], c);
    RewiredExists(sys.ctls[c], sys.scheds, j, i);
    var members := Rewired(sys.ctls[c], sys.scheds, j, i);
    forall p | 0 <= p < |members| && p < |members| - 1 ensures members[p] in sys.ctls[c].members {
    }
  }

  // ---- Every run ----

  lemma {:induction false} ResolveByConfig(ss: seq<Sched>, tt: seq<Sched>, ref: string)
    requires |ss| == |tt| && forall i :: 0 <= i < |ss| ==> ss[i].cfg == tt[i].cfg
    ensures Resolve(ss, ref) == Resolve(tt, ref)
  {
    if ss != [] {
      ResolveByConfig(ss[1..], tt[1..], ref);
    }
  }

  lemma CommandKeepsRegistration(sys: System, i: nat, now: nat, cmd: Cmd)
    requires WellFormed(sys) && AllRegistered(sys) && i < |sys.scheds|
    ensures WellFormed(StepSched(sys, i, now, cmd)) && AllRegistered(StepSched(sys, i, now, cmd))
  {
    hide After, Informed, Resolve;
    StepWellFormed(sys, OnSched(i, now, cmd));
    var after := StepSched(sys, i, now, cmd);
    AfterKeepsConfig(sys.scheds[i], cmd, now);
    forall c | 0 <= c < |after.ctls| ensures Registered(after, c) {
      assert Registered(sys, c);
      InformedKeepsWiring(sys.ctls[c], after.scheds, i, sys.scheds[i], cmd, now);
      var refs := sys.ctls[c].refs;
      forall j | 0 <= j < |refs| ensures Resolve(after.scheds, refs[j]) == Resolve(sys.scheds, refs[j]) {
        ResolveByConfig(sys.scheds, after.scheds, refs[j]);
      }
    }
  }

  /**
    * Whatever happens, each controller's member list stays free of duplicates
    * and equal as a set to what its attributes name, and each member has the
    * controller among its listeners.
    */
  lemma {:induction false} RunKeepsRegistration(sys: System, evs: seq<Event>)
    requires WellFormed(sys) && AllRegistered(sys)
    ensures AllRegistered(Run(sys, evs))
    decreases |evs|
  {
    hide AllRegistered, StepSched, SetSrcRef;
    if evs != [] {
      StepWellFormed(sys, evs[0]);
      match evs[0] {
        case OnSched(i, now, cmd) => if i < |sys.scheds| { CommandKeepsRegistration(sys, i, now, cmd); }
        case Rewire(c, j, ref, _) => if c < |sys.ctls| { RewireKeepsRegistration(sys, c, j, ref); }
      }
      RunKeepsRegistration(Step(sys, evs[0]), evs[1..]);
    }
  }

  // ---- The outcome of one write ----

  /** The members other than `gone`, in their order. */
  function Without(members: seq<nat>, gone: Option<nat>): seq<nat> {
    if members == [] then []
    else if gone == Some(members[0]) then Without(members[1..], gone)
    else [members[0]] + Without(members[1..], gone)
  }

  lemma {:induction false} WithoutAbsent(members: seq<nat>, gone: Option<nat>)
    requires gone.Some? ==> gone.value !in members
    ensures Without(members, gone) == members
  {
    if members != [] {
      WithoutAbsent(members[1..], gone);
    }
  }

  lemma {:induction false} RemoveIsWithout(members: seq<nat>, gone: nat)
    requires Distinct(members)
    ensures RemoveFirst(members, gone) == Without(members, Some(gone))
  {
    if members != [] {
      DistinctTail(members);
      if members[0] == gone {
        WithoutAbsent(members[1..], Some(gone));
      } else {
        RemoveIsWithout(members[1..], gone);
      }
    }
  }

  /**
    * A setSrcRef write is accepted exactly when its reference names a schedule that
    * is not a member. Then the schedule the attribute named before is gone, the
    * others keep their order, the new one comes last and informs the controller,
    * and activeSchedule, ActSchdRef and the target are as before.
    */
  lemma RewireOutcome(sys: System, c: nat, j: nat, ref: string)
    requires WellFormed(sys) && c < |sys.ctls| && j < |sys.ctls[c].refs| && Distinct(sys.ctls[c].members)
    ensures
      var i := Resolve(sys.scheds, ref);
      var after := SetSrcRef(sys, c, j, ref);
      if i.Some? && i.value !in sys.ctls[c].members
      then
        && RewireTarget(sys, c, j, ref) == i
        && after.scheds == sys.scheds && |after.ctls| == |sys.ctls| && |after.listeners| == |sys.listeners|
        && after.ctls[c] == sys.ctls[c].(members := after.ctls[c].members, refs := sys.ctls[c].refs[j := ref])
        && after.ctls[c].members == Without(sys.ctls[c].members, Resolve(sys.scheds, sys.ctls[c].refs[j])) + [i.value]
        && c in after.listeners[i.value]
        && (forall d :: 0 <= d < |sys.ctls| && d != c ==> after.ctls[d] == sys.ctls[d])
      else RewireTarget(sys, c, j, ref) == None && after == sys
  {
    hide Resolve, Distinct, RemoveFirst;
    var ctl, i := sys.ctls[c], Resolve(sys.scheds, ref);
    var previous := Resolve(sys.scheds, ctl.refs[j]);
    if previous.Some? {
      RemoveIsWithout(ctl.members, previous.value);
    } else {
      WithoutAbsent(ctl.members, previous);
    }
    if i.Some? {
      ListenersGrow(sys.listeners[i.value], c);
    }
  }
}
