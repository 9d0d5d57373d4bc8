// When a controller sends to the controlled object, and when it does not: after
// a priority write the target can lag behind the schedule in charge.
module Outputs {
  import opened Types
  import opened ScheduleSpec
  import opened Election
  import opened SystemSpec
  import opened Cache

  /** Schedule `i` publishes in this tick. */
  predicate Publishes(s: Sched, cmd: Cmd, now: nat) {
    cmd.Tick? && TickSched(s, now).published.Some?
  }

  /**
    * The event makes controller `c` send something: the schedule in charge
    * publishes, or a state change elects another schedule or none at all.
    */
  ghost predicate Sends(sys: System, i: nat, now: nat, cmd: Cmd, c: nat)
    requires WellFormed(sys) && i < |sys.scheds| && c < |sys.ctls|
  {
    var ctl, s := sys.ctls[c], sys.scheds[i];
    var s' := After(s, cmd, now);
    MembersStay(sys, i, now, cmd, c);
    var w := Elect(sys.scheds[i := s'], ctl.members);
    && ctl.hasEntity && c in sys.listeners[i]
    && ((Publishes(s, cmd, now) && ctl.active == Some(i)) || (s'.state != s.state && (w.None? || w != ctl.active)))
  }

  lemma MembersStay(sys: System, i: nat, now: nat, cmd: Cmd, c: nat)
    requires WellFormed(sys) && i < |sys.scheds| && c < |sys.ctls|
    ensures MembersExist(sys.scheds[i := After(sys.scheds[i], cmd, now)], sys.ctls[c].members)
  {
    hide After;
  }

  /** A publishing tick, and a priority write, leave the state as it is. */
  lemma OneEventOnly(s: Sched, cmd: Cmd, now: nat)
    ensures Publishes(s, cmd, now) ==> After(s, cmd, now).state == s.state
    ensures ChangesPrio(s, cmd) ==> After(s, cmd, now).state == s.state
  {
    hide TickSched;
    if Publishes(s, cmd, now) {
      PublishingTick(s, now);
      TickIsAfter(s, now);
    }
  }

  lemma EventSends(c: Ctl, ss: seq<Sched>, i: nat, s: Sched, cmd: Cmd, now: nat)
    requires MembersExist(ss, c.members) && i < |ss| && ss[i] == After(s, cmd, now)
    ensures
      var w := Elect(ss, c.members);
      var r := Informed(c, ss, i, s, cmd, now);
      var sends := c.hasEntity
        && ((Publishes(s, cmd, now) && c.active == Some(i))
            || (ss[i].state != s.state && (w.None? || w != c.active)));
      && (!sends ==> r.outputs == c.outputs && r.target == c.target)
      && (sends ==> |r.outputs| == |c.outputs| + 1)
  {
    hide After, TickSched, Elect, CurrentValue;
    OneEventOnly(s, cmd, now);
  }

  /** Exactly these events send; all others leave the target as it is. */
  lemma SendsExactly(sys: System, i: nat, now: nat, cmd: Cmd, c: nat)
    requires WellFormed(sys) && i < |sys.scheds| && c < |sys.ctls|
    ensures |StepSched(sys, i, now, cmd).ctls| == |sys.ctls|
    ensures
      var after := StepSched(sys, i, now, cmd).ctls[c];
      && (Sends(sys, i, now, cmd, c) <==> |after.outputs| == |sys.ctls[c].outputs| + 1)
      && (!Sends(sys, i, now, cmd, c) ==>
            after.outputs == sys.ctls[c].outputs && after.target == sys.ctls[c].target)
  {
    hide After, Informed, Elect, Publishes;
    MembersStay(sys, i, now, cmd, c);
    EventSends(sys.ctls[c], sys.scheds[i := After(sys.scheds[i], cmd, now)], i, sys.scheds[i], cmd, now);
  }

  // ---- The lag after a priority write ----

  /**
    * An accepted priority write puts the first maximum in charge at once, and sends
    * nothing: the target still shows what it showed before.
    */
  lemma PriorityWriteLags(sys: System, i: nat, now: nat, prio: int, c: nat)
    requires WellFormed(sys) && AllRight(sys) && i < |sys.scheds| && c < |sys.ctls|
    ensures WellFormed(StepSched(sys, i, now, SetPrio(prio)))
    ensures |StepSched(sys, i, now, SetPrio(prio)).ctls| == |sys.ctls|
    ensures
      var after := StepSched(sys, i, now, SetPrio(prio));
      && after.ctls[c].active == Elect(after.scheds, after.ctls[c].members)
      && after.ctls[c].target == sys.ctls[c].target && after.ctls[c].outputs == sys.ctls[c].outputs
  {
    hide Elect, AllRight, Informed, StepSched;
    StepKeepsCache(sys, i, now, SetPrio(prio));
    StepWellFormed(sys, OnSched(i, now, SetPrio(prio)));
    RightAt(StepSched(sys, i, now, SetPrio(prio)), c);
    SendsExactly(sys, i, now, SetPrio(prio), c);
  }

  ghost predicate NothingSent(sys: System, evs: seq<Event>, c: nat)
    requires WellFormed(sys) && c < |sys.ctls|
    decreases |evs|
  {
    evs != [] ==>
      && (evs[0].OnSched? && evs[0].i < |sys.scheds| ==> !Sends(sys, evs[0].i, evs[0].now, evs[0].cmd, c))
      && (StepWellFormed(sys, evs[0]); NothingSent(Step(sys, evs[0]), evs[1..], c))
  }

  /** The lag lasts: over any run of other events, re-wirings included, the target does not move. */
  lemma {:induction false} LagLasts(sys: System, evs: seq<Event>, c: nat)
    requires WellFormed(sys) && c < |sys.ctls| && NothingSent(sys, evs, c)
    ensures Run(sys, evs).ctls[c].target == sys.ctls[c].target
    ensures Run(sys, evs).ctls[c].outputs == sys.ctls[c].outputs
    decreases |evs|
  {
    hide Sends, StepSched, Resolve, Rewired;
    if evs != [] {
      var ev := evs[0];
      StepWellFormed(sys, ev);
      if ev.OnSched? && ev.i < |sys.scheds| {
        SendsExactly(sys, ev.i, ev.now, ev.cmd, c);
      }
      LagLasts(Step(sys, ev), evs[1..], c);
    }
  }

  /** The lag ends with the first event that sends: the target then shows the first maximum's entry of that moment. */
  lemma SendingEndsLag(sys: System, i: nat, now: nat, cmd: Cmd, c: nat)
    requires WellFormed(sys) && AllRight(sys) && i < |sys.scheds| && c < |sys.ctls|
    requires (cmd.Restore? ==> sys.scheds[i].state != Running) && Sends(sys, i, now, cmd, c)
    ensures WellFormed(StepSched(sys, i, now, cmd)) && |StepSched(sys, i, now, cmd).ctls| == |sys.ctls|
    ensures
      var after := StepSched(sys, i, now, cmd);
      after.ctls[c].target
      == match Elect(after.scheds, after.ctls[c].members)
         case Some(w) => CurrentValue(after.scheds[w], now)
         case None => None
  {
    hide After, Informed, Elect, TickSched, CurrentValue, AllRight;
    StepWellFormed(sys, OnSched(i, now, cmd));
    RightAt(sys, c);
    MembersStay(sys, i, now, cmd, c);
    var ss := sys.scheds[i := After(sys.scheds[i], cmd, now)];
    InformedKeepsWiring(sys.ctls[c], ss, i, sys.scheds[i], cmd, now);
    SentValue(sys.ctls[c], sys.scheds, i, cmd, now);
  }

  lemma SentValue(c: Ctl, ss: seq<Sched>, i: nat, cmd: Cmd, now: nat)
    requires i < |ss| && MembersExist(ss, c.members) && c.active == Elect(ss, c.members) && c.hasEntity
    ensures
      var tt := ss[i := After(ss[i], cmd, now)];
      var w := Elect(tt, c.members);
      (Publishes(ss[i], cmd, now) && c.active == Some(i))
      || (tt[i].state != ss[i].state && (w.None? || w != c.active)) ==>
        Informed(c, tt, i, ss[i], cmd, now).target
        == match w case Some(v) => CurrentValue(tt[v], now) case None => None
  {
    hide After, TickSched, Elect, CurrentValue;
    var s, tt := ss[i], ss[i := After(ss[i], cmd, now)];
    OneEventOnly(s, cmd, now);
    if Publishes(s, cmd, now) {
      PublishingTick(s, now);
      TickIsAfter(s, now);
      OthersSameElection(ss, i, tt[i], c.members);
    }
  }
}
