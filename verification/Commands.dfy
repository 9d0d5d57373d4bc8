// What a client or the application gets when it sends a command, and what its
// writes change later on.
module Commands {
  import opened CTypes
  import opened Types
  import opened Names
  import opened Interval
  import opened StartTimes
  import opened ScheduleSpec
  import opened SystemSpec
  import opened Election
  import opened Cache
  import opened Outputs

  // ---- Enabling ----

  /** EnaReq that asks for something: neither a test nor a request to do nothing. */
  predicate Asks(ctlVal: bool, test: bool) {
    ctlVal && !test
  }

  /** The answer to EnaReq says exactly what became of the schedule. */
  lemma EnaReqAnswer(s: Sched, ctlVal: bool, test: bool, now: nat)
    ensures
      var (s', r) := EnaReq(s, ctlVal, test, now);
      && s' == After(s, EnaReqCmd(ctlVal, test), now)
      && (!Asks(ctlVal, test) ==> r == ControlOk && s' == s)
      && (Asks(ctlVal, test) && !s.rights.control ==> r == ControlDenied && s' == s)
      && (Asks(ctlVal, test) && s.rights.control ==>
            && (r == ControlOk <==> CanEnable(s, now))
            && (r == ControlInvalid <==> GenericError(s) != NoError)
            && (r == ControlFailed <==> GenericError(s) == NoError && !CanEnable(s, now))
            && (r == ControlOk ==> s'.state == Ready && s'.shown.enaErr == NoError)
            && (r == ControlFailed ==> s'.state == NotReady))
  {
    hide GenericError, TriggerValid, NextStart;
  }

  /**
    * An EnaReq that is refused as invalid keeps the state - a running schedule goes
    * on running - but its entry count is the attribute's from now on.
    */
  lemma InvalidEnaReq(s: Sched, now: nat)
    requires s.rights.control && GenericError(s) != NoError
    ensures
      var s' := After(s, EnaReqCmd(true, false), now);
      && s'.state == s.state && s'.numberOfScheduleEntries == s.numEntr && s'.shown.enaErr == GenericError(s)
      && s'.startTime == s.startTime && s'.nextStartTime == s.nextStartTime && s'.strTms == s.strTms
      && s'.entryDurationInMs == s.entryDurationInMs && s'.currentEntryIdx == s.currentEntryIdx
  {
    hide GenericError, CanEnable, Enabled;
  }

  /** Enabling through the API: READY exactly when the schedule can be enabled, and the next start is shown. */
  lemma EnableShows(s: Sched, now: nat)
    ensures
      var s' := After(s, Enable(true), now);
      && (s'.state == Ready <==> CanEnable(s, now)) && (s'.state == Ready || s'.state == NotReady)
      && (CanEnable(s, now) ==>
            && s'.shown.nxtStrTm == NextStart(s, now)
            && s'.shown.nxtStrTmQ == (if NextStart(s, now) != 0 then GoodQ else InvalidQ))
      && (CanEnable(s, now) && !s.cfg.periodic ==> IsEarliestFuture(s.strTms, now, s'.shown.nxtStrTm))
  {
    hide GenericError, TriggerValid, NextOneShot, NextPeriodic, GetMs;
    NextOneShotIsEarliest(s.strTms, now);
  }

  // ---- Disabling ----

  /** NOT_READY, with everything a client sees of an execution marked invalid; the rest stays. */
  predicate IsDisabled(s': Sched, s: Sched) {
    && s'.state == NotReady
    && s'.shown.valQ == InvalidQ && s'.shown.actStrTmQ == InvalidQ
    && s'.shown.nxtStrTm == 0 && s'.shown.nxtStrTmQ == InvalidQ
    && s'.shown.val == s.shown.val && s'.shown.schdEntr == s.shown.schdEntr && s'.shown.actStrTm == s.shown.actStrTm
    && s'.shown.enaErr == s.shown.enaErr
    && s' == s.(state := s'.state, shown := s'.shown)
  }

  /** Disabling leaves NOT_READY from any state; an API call on a NOT_READY schedule changes nothing at all. */
  lemma DisablesExactly(s: Sched, ctlVal: bool, test: bool, now: nat)
    ensures
      var byApi := After(s, Enable(false), now);
      byApi.state == NotReady && (if s.state == NotReady then byApi == s else IsDisabled(byApi, s))
    ensures
      var (byClient, r) := DsaReq(s, ctlVal, test);
      && byClient == After(s, DsaReqCmd(ctlVal, test), now)
      && (!Asks(ctlVal, test) ==> r == ControlOk && byClient == s)
      && (Asks(ctlVal, test) && !s.rights.control ==> r == ControlDenied && byClient == s)
      && (Asks(ctlVal, test) && s.rights.control ==> r == ControlOk && IsDisabled(byClient, s))
  {
    hide GenericError, CanEnable, NextStart;
  }

  predicate Disables(s: Sched, cmd: Cmd) {
    cmd == Enable(false) || (cmd == DsaReqCmd(true, false) && s.rights.control)
  }

  /**
    * A disabled schedule is in charge of no controller. A controller it was in
    * charge of goes over to the next winner, and the controlled object shows that
    * one's current entry, or is invalid if nothing else runs.
    */
  lemma DisabledLosesControl(sys: System, i: nat, now: nat, cmd: Cmd, c: nat)
    requires WellFormed(sys) && AllRight(sys) && i < |sys.scheds| && c < |sys.ctls|
    requires Disables(sys.scheds[i], cmd)
    ensures WellFormed(StepSched(sys, i, now, cmd)) && |StepSched(sys, i, now, cmd).ctls| == |sys.ctls|
    ensures
      var after := StepSched(sys, i, now, cmd);
      && after.scheds[i].state == NotReady
      && after.ctls[c].active == Elect(after.scheds, after.ctls[c].members) != Some(i)
      && (sys.ctls[c].active == Some(i) && sys.ctls[c].hasEntity ==>
            after.ctls[c].target
            == match after.ctls[c].active
               case Some(w) => CurrentValue(after.scheds[w], now)
               case None => None)
      && (sys.ctls[c].active.Some? && sys.ctls[c].active != Some(i) ==> after.ctls[c].target == sys.ctls[c].target)
  {
    hide After, Informed, Elect, AllRight, Sends, CurrentValue;
    var s := sys.scheds[i];
    DisablesExactly(s, true, false, now);
    StepKeepsCache(sys, i, now, cmd);
    RightAt(sys, c);
    RightAt(StepSched(sys, i, now, cmd), c);
    StepWellFormed(sys, OnSched(i, now, cmd));
    var ss := sys.scheds[i := After(s, cmd, now)];
    InformedKeepsWiring(sys.ctls[c], ss, i, s, cmd, now);
    SendsExactly(sys, i, now, cmd, c);
    DisablingSends(sys, i, now, cmd, c);
    if Sends(sys, i, now, cmd, c) {
      SendingEndsLag(sys, i, now, cmd, c);
    }
  }

  /** When disabling makes a controller send: it loses the schedule in charge, or has nothing running anyway. */
  lemma DisablingSends(sys: System, i: nat, now: nat, cmd: Cmd, c: nat)
    requires WellFormed(sys) && AllRight(sys) && i < |sys.scheds| && c < |sys.ctls|
    requires Disables(sys.scheds[i], cmd) && After(sys.scheds[i], cmd, now).state == NotReady
    ensures sys.ctls[c].active == Some(i) && sys.ctls[c].hasEntity ==> Sends(sys, i, now, cmd, c)
    ensures sys.ctls[c].active.Some? && sys.ctls[c].active != Some(i) ==> !Sends(sys, i, now, cmd, c)
  {
    hide After, CurrentValue;
    RightAt(sys, c);
    MembersStay(sys, i, now, cmd, c);
    var ctl, s' := sys.ctls[c], After(sys.scheds[i], cmd, now);
    var ss := sys.scheds[i := s'];
    var p := ElectFindsMaximum(sys.scheds, ctl.members);
    if ctl.active.Some? && ctl.active != Some(i) {
      LoserLeaves(sys.scheds, i, s', ctl.members, p);
    }
    if ctl.active == Some(i) {
      assert Connected(sys, c) && i in ctl.members;
    }
  }

  /** A schedule that stops running without being in charge leaves the election alone. */
  lemma LoserLeaves(ss: seq<Sched>, i: nat, s: Sched, members: seq<nat>, p: int)
    requires i < |ss| && MembersExist(ss, members) && IsFirstMaximum(ss, members, p) && members[p] != i
    requires s.state != Running
    ensures Elect(ss[i := s], members) == Elect(ss, members)
  {
    FirstMaximumUnique(ss, members, p);
    hide Elect, Outranks;
    assert IsFirstMaximum(ss[i := s], members, p);
    FirstMaximumUnique(ss[i := s], members, p);
  }

  // ---- Rights ----

  /** Each switch decides exactly the accesses it is named after. */
  lemma RightsDecide(s: Sched, allow: bool, v: int, k: nat, t: nat, cal: SetCal, b: bool, now: nat)
    requires k < |s.strTms|
    ensures WritePrio(After(s, AllowPrio(allow), now), v).1 == (if allow then Accepted else AccessDenied)
    ensures WriteReuse(After(s, AllowReuse(allow), now), b).1 == (if allow then Accepted else AccessDenied)
    ensures WriteSetCal(After(s, AllowStrTm(allow), now), k, cal).1 == (if allow then Accepted else AccessDenied)
    ensures WriteStrTm(After(s, AllowStrTm(allow), now), k, t, now).1
            == (if !allow then AccessDenied else if t > now then Accepted else ValueInvalid)
    ensures EnaReq(After(s, AllowControl(allow), now), true, false, now).1 == ControlDenied <==> !allow
    ensures DsaReq(After(s, AllowControl(allow), now), true, false).1 == (if allow then ControlOk else ControlDenied)
  {
    hide GenericError, CanEnable, Enabled;
  }

  /** ... and no other access. */
  lemma RightsAreSeparate(s: Sched, allow: bool, now: nat)
    ensures
      var control, prio := After(s, AllowControl(allow), now), After(s, AllowPrio(allow), now);
      var strTm, reuse := After(s, AllowStrTm(allow), now), After(s, AllowReuse(allow), now);
      && SameRights(control, s, true, false, false, false) && SameRights(prio, s, false, true, false, false)
      && SameRights(strTm, s, false, false, true, false) && SameRights(reuse, s, false, false, false, true)
  {
  }

  /** The same schedule, apart from the rights marked. */
  predicate SameRights(s': Sched, s: Sched, control: bool, prio: bool, strTm: bool, reuse: bool) {
    && s' == s.(rights := s'.rights)
    && (control || s'.rights.control == s.rights.control) && (prio || s'.rights.prio == s.rights.prio)
    && (strTm || s'.rights.strTm == s.rights.strTm) && (reuse || s'.rights.reuse == s.rights.reuse)
    && s'.rights.intv == s.rights.intv
  }

  // ---- Start time writes ----

  /** A start time is accepted exactly with the right and in the future. Its slot holds it then; the rest stays. */
  lemma StrTmWrite(s: Sched, k: nat, t: nat, now: nat)
    requires k < |s.strTms| && s.strTms[k].setTm.Some?
    ensures
      var s' := After(s, SetStrTm(k, t), now);
      && (WriteStrTm(s, k, t, now).1 == Accepted <==> s.rights.strTm && t > now)
      && (s.rights.strTm && t > now ==> SlotTime(s'.strTms[k]) == t)
      && (!(s.rights.strTm && t > now) ==> s' == s)
      && s' == s.(strTms := s'.strTms) && |s'.strTms| == |s.strTms|
      && s'.strTms[k].name == s.strTms[k].name && s'.strTms[k].setCal == s.strTms[k].setCal
      && forall j :: 0 <= j < |s.strTms| && j != k ==> s'.strTms[j] == s.strTms[j]
  {
  }

  /** An accepted start time is considered by the next tick of a READY one-shot schedule without a latched start. */
  lemma StrTmWriteIsConsidered(s: Sched, k: nat, t: nat, written: nat, now: nat)
    requires !s.cfg.periodic && k < |s.strTms| && s.strTms[k].setTm.Some? && s.rights.strTm && written < t
    requires s.state == Ready && s.nextStartTime == 0 && now < t
    ensures
      var next := TickSched(After(s, SetStrTm(k, t), written), now).sched.nextStartTime;
      now < next <= t && (next == t || exists j :: 0 <= j < |s.strTms| && j != k && SlotTime(s.strTms[j]) == next)
  {
    hide NextOneShot, GetMs;
    StrTmWrite(s, k, t, written);
    NextOneShotIsEarliest(After(s, SetStrTm(k, t), written).strTms, now);
  }

  // ---- Writes that the next start and the next tick read ----

  /** A permitted SchdIntv and any NumEntr are what the next start plays with; a refused SchdIntv changes nothing. */
  lemma NextStartReadsWrites(s: Sched, v: int, n: int, written: nat, now: nat)
    requires s.state == Ready && 0 < s.nextStartTime < now
    ensures
      var s' := After(s, SetIntv(v), written);
      if s.rights.intv
      then WriteIntv(s, v).1 == Accepted
           && TickSched(s', now).sched.entryDurationInMs == Int32(GetMs(v, s.cfg.siUnit, s.cfg.multiplier))
      else WriteIntv(s, v).1 == AccessDenied && s' == s
    ensures
      var s' := After(s, SetNumEntr(n), written);
      WriteNumEntr(s, n).1 == Accepted && TickSched(s', now).sched.numberOfScheduleEntries == n
  {
    hide GetMs, NextStart, Erase;
  }

  /** Neither touches an execution in progress. */
  lemma RunningKeepsItsTiming(s: Sched, v: int, n: int, written: nat, now: nat)
    requires s.state == Running
    ensures CurrentIdx(After(s, SetIntv(v), written), now) == CurrentIdx(s, now)
    ensures CurrentIdx(After(s, SetNumEntr(n), written), now) == CurrentIdx(s, now)
  {
  }

  /** A written value is the entry of every index that reaches its object, and no other entry changes. */
  lemma ValueWrite(s: Sched, p: nat, v: MmsValue, k: int, now: nat)
    requires p < |s.values|
    ensures
      var s' := After(s, SetValue(p, v), now);
      && WriteValue(s, p, v).1 == Accepted
      && (!s.cfg.targetType.UnknownTarget? && LookupIdx(s.values, ValuePrefix(s.cfg.targetType), k) == Some(p) ==>
            Entry(s', k) == Some(v))
      && (LookupIdx(s.values, ValuePrefix(s.cfg.targetType), k) != Some(p) ==> Entry(s', k) == Entry(s, k))
  {
    hide LookupIdx;
    LookupByName(s.values, After(s, SetValue(p, v), now).values, ValuePrefix(s.cfg.targetType), k);
  }

  /** Priority, reuse and calendar rules: the attribute is what was written, if permitted, and nothing else changes. */
  lemma PlainWrites(s: Sched, v: int, b: bool, k: nat, cal: SetCal, now: nat)
    requires k < |s.strTms| && s.strTms[k].setCal.Some?
    ensures After(s, SetPrio(v), now) == s.(prio := if s.rights.prio then v else s.prio)
    ensures After(s, SetReuse(b), now) == s.(reuse := if s.rights.reuse then b else s.reuse)
    ensures
      var s' := After(s, SetCalendar(k, cal), now);
      && s'.strTms[k].setCal == (if s.rights.strTm then Some(cal) else s.strTms[k].setCal)
      && SlotTime(s'.strTms[k]) == SlotTime(s.strTms[k])
      && forall j :: 0 <= j < |s.strTms| && j != k ==> s'.strTms[j] == s.strTms[j]
  {
  }
}
