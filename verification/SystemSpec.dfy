// Schedules and schedule controllers as one system, driven by ticks, commands
// and writes. One loop iteration of a schedule and one handler call are atomic.
module SystemSpec {
  import opened Types
  import opened ScheduleSpec
  import opened StorageSpec
  import opened Election

  /** One call of the target value handler; its quality is GOOD when there is a value, else INVALID. */
  datatype Output = Output(value: Option<MmsValue>, time: nat)

  datatype Ctl = Ctl(
    hasEntity: bool,              // CtlEnt names an object
    members: seq<nat>,            // the connected schedules
    refs: seq<string>,            // SchdNN.setSrcRef
    active: Option<nat>,
    actSchdRef: string,
    actSchdRefQ: Quality,
    target: Option<MmsValue>,     // the controlled object; None while its quality is INVALID
    outputs: seq<Output>
  )

  /** listeners[i] are the controllers that schedule i informs. */
  datatype System = System(scheds: seq<Sched>, listeners: seq<seq<nat>>, ctls: seq<Ctl>)

  ghost predicate WellFormed(sys: System) {
    && |sys.listeners| == |sys.scheds|
    && (forall c :: 0 <= c < |sys.ctls| ==> MembersExist(sys.scheds, sys.ctls[c].members))
  }

  // ---- Controller events ----

  /** scheduleController_updateTargetValue */
  function Forward(c: Ctl, v: Option<MmsValue>, now: nat): Ctl {
    if c.hasEntity then c.(target := v, outputs := c.outputs + [Output(v, now)]) else c
  }

  /** scheduleController_updateActSchdRef */
  function ShowRef(c: Ctl, ss: seq<Sched>, w: Option<nat>): Ctl
    requires w.Some? ==> w.value < |ss|
  {
    if w.Some? then c.(actSchdRef := ss[w.value].cfg.ref, actSchdRefQ := GoodQ)
    else c.(actSchdRef := "", actSchdRefQ := InvalidQ)
  }

  /** scheduleController_schedulePrioUpdated: no new target value is sent. */
  function PrioUpdated(c: Ctl, ss: seq<Sched>): Ctl
    requires MembersExist(ss, c.members)
  {
    var w := Elect(ss, c.members);
    if w.None? then ShowRef(c, ss, None)
    else if w != c.active then ShowRef(c.(active := w), ss, w)
    else c
  }

  /** scheduleController_scheduleStateUpdated */
  function StateUpdated(c: Ctl, ss: seq<Sched>, now: nat): Ctl
    requires MembersExist(ss, c.members)
  {
    var w := Elect(ss, c.members);
    if w.None? then Forward(ShowRef(c, ss, None), None, now).(active := None)
    else if w != c.active then Forward(ShowRef(c.(active := w), ss, w), CurrentValue(ss[w.value], now), now)
    else c
  }

  /** scheduleController_scheduleValueUpdated */
  function ValueUpdated(c: Ctl, i: nat, v: MmsValue, now: nat): Ctl {
    if c.active == Some(i) then Forward(c, Some(v), now) else c
  }

  // ---- Resolving references and re-wiring a controller ----

  /** The name a reference is compared with: a leading '@' asks for the name without the IED. */
  predicate RefNames(ref: string, cfg: Config) {
    ref != [] && if ref[0] == '@' then ref[1..] == cfg.shortRef else ref == cfg.ref
  }

  /** Scheduler_getScheduleByObjRef: the first schedule of that name. */
  function Resolve(ss: seq<Sched>, ref: string): (r: Option<nat>)
    ensures r.Some? ==> r.value < |ss| && RefNames(ref, ss[r.value].cfg)
    ensures r.Some? ==> forall i :: 0 <= i < r.value ==> !RefNames(ref, ss[i].cfg)
    ensures r.None? ==> forall i :: 0 <= i < |ss| ==> !RefNames(ref, ss[i].cfg)
  {
    if ss == [] then None
    else if RefNames(ref, ss[0].cfg) then Some(0)
    else match Resolve(ss[1..], ref)
         case Some(i) => Some(i + 1)
         case None => None
  }

  /** A full reference, one without a leading '@', resolves to the schedule whose full reference it is. */
  lemma ResolvesFull(ss: seq<Sched>, i: nat)
    requires i < |ss| && ss[i].cfg.ref != "" && ss[i].cfg.ref[0] != '@'
    requires forall k :: 0 <= k < |ss| && k != i ==> ss[k].cfg.ref != ss[i].cfg.ref
    ensures Resolve(ss, ss[i].cfg.ref) == Some(i)
  {
    assert RefNames(ss[i].cfg.ref, ss[i].cfg);
  }

  /** '@' and a reference without the IED name resolve to the schedule whose reference without the IED name it is. */
  lemma ResolvesLocal(ss: seq<Sched>, i: nat)
    requires i < |ss|
    requires forall k :: 0 <= k < |ss| && k != i ==> ss[k].cfg.shortRef != ss[i].cfg.shortRef
    ensures Resolve(ss, "@" + ss[i].cfg.shortRef) == Some(i)
  {
    var ref := "@" + ss[i].cfg.shortRef;
    assert ref[1..] == ss[i].cfg.shortRef;
    assert RefNames(ref, ss[i].cfg);
  }

  /** An empty reference, and one that no schedule has in either form, resolve to nothing. */
  lemma ResolvesNothing(ss: seq<Sched>, ref: string)
    requires forall k :: 0 <= k < |ss| ==> ref != ss[k].cfg.ref && ref != "@" + ss[k].cfg.shortRef
    ensures Resolve(ss, "") == None && Resolve(ss, ref) == None
  {
    if ref != "" && ref[0] == '@' {
      assert ref == "@" + ref[1..];
    }
  }

  /** LinkedList_remove: drop the first occurrence. */
  function RemoveFirst<T(==)>(xs: seq<T>, x: T): (r: seq<T>)
    ensures x !in xs ==> r == xs
    ensures x in xs ==> |r| == |xs| - 1
    ensures forall y :: y in r ==> y in xs
  {
    if xs == [] then []
    else if xs[0] == x then xs[1..]
    else [xs[0]] + RemoveFirst(xs[1..], x)
  }

  /** The member list after SchdNN.setSrcRef number `j` was rewritten to name schedule `i`. */
  function Rewired(c: Ctl, ss: seq<Sched>, j: nat, i: nat): seq<nat>
    requires j < |c.refs|
  {
    var previous := Resolve(ss, c.refs[j]);
    (if previous.Some? then RemoveFirst(c.members, previous.value) else c.members) + [i]
  }

  /** schd_setSrcRef_writeAccessHandler: the write is refused, or the schedule it connects. */
  function RewireTarget(sys: System, c: nat, j: nat, ref: string): Option<nat>
    requires c < |sys.ctls|
  {
    var i := Resolve(sys.scheds, ref);
    if j < |sys.ctls[c].refs| && i.Some? && i.value !in sys.ctls[c].members then i else None
  }

  /** Schedule_setListeningController */
  function AddListener(ls: seq<nat>, c: nat): seq<nat> {
    if c in ls then ls else ls + [c]
  }

  function SetSrcRef(sys: System, c: nat, j: nat, ref: string): System
    requires WellFormed(sys) && c < |sys.ctls|
  {
    match RewireTarget(sys, c, j, ref)
    case None => sys
    case Some(i) =>
      var ctl := sys.ctls[c];
      sys.(ctls := sys.ctls[c := ctl.(members := Rewired(ctl, sys.scheds, j, i), refs := ctl.refs[j := ref])],
           listeners := sys.listeners[i := AddListener(sys.listeners[i], c)])
  }

  // ---- Events ----

  datatype Cmd =
    | Tick
    | Enable(on: bool)
    | EnaReqCmd(ctlVal: bool, test: bool)
    | DsaReqCmd(ctlVal: bool, test: bool)
    | SetPrio(prio: int)
    | SetStrTm(slot: nat, time: nat)
    | SetCalendar(slot: nat, cal: SetCal)
    | SetReuse(reuse: bool)
    | SetIntv(intv: int)
    | SetNumEntr(n: int)
    | SetValue(k: nat, value: MmsValue)
    | AllowControl(allow: bool)
    | AllowPrio(allow: bool)
    | AllowStrTm(allow: bool)
    | AllowReuse(allow: bool)
    | Restore(json: Json)

  datatype Event =
    | OnSched(i: nat, now: nat, cmd: Cmd)
    | Rewire(c: nat, j: nat, ref: string, now: nat)

  /** The schedule after a command. */
  ghost function After(s: Sched, cmd: Cmd, now: nat): Sched {
    match cmd
    case Tick => TickSched(s, now).sched
    case Enable(on) => EnableSched(s, on, now)
    case EnaReqCmd(ctlVal, test) => EnaReq(s, ctlVal, test, now).0
    case DsaReqCmd(ctlVal, test) => DsaReq(s, ctlVal, test).0
    case SetPrio(v) => WritePrio(s, v).0
    case SetStrTm(k, t) => if k < |s.strTms| && s.strTms[k].setTm.Some? then WriteStrTm(s, k, t, now).0 else s
    case SetCalendar(k, cal) => if k < |s.strTms| && s.strTms[k].setCal.Some? then WriteSetCal(s, k, cal).0 else s
    case SetReuse(b) => WriteReuse(s, b).0
    case SetIntv(v) => WriteIntv(s, v).0
    case SetNumEntr(n) => WriteNumEntr(s, n).0
    case SetValue(k, v) => if k < |s.values| then WriteValue(s, k, v).0 else s
    case AllowControl(b) => s.(rights := s.rights.(control := b))
    case AllowPrio(b) => s.(rights := s.rights.(prio := b))
    case AllowStrTm(b) => s.(rights := s.rights.(strTm := b))
    case AllowReuse(b) => s.(rights := s.rights.(reuse := b))
    case Restore(j) => Restored(s, j).0
  }

  function Told(ctls: seq<Ctl>, to: seq<nat>, f: Ctl --> Ctl): (r: seq<Ctl>)
    requires forall c :: 0 <= c < |ctls| ==> f.requires(ctls[c])
    ensures |r| == |ctls|
    ensures forall c :: 0 <= c < |ctls| ==> r[c] == if c in to then f(ctls[c]) else ctls[c]
  {
    seq(|ctls|, c requires 0 <= c < |ctls| => if c in to then f(ctls[c]) else ctls[c])
  }

  /** The event a command on schedule `i` raises, as seen by a controller that listens to it. */
  ghost function Informed(c: Ctl, ss: seq<Sched>, i: nat, s: Sched, cmd: Cmd, now: nat): Ctl
    requires MembersExist(ss, c.members) && i < |ss|
  {
    if cmd.Tick? && TickSched(s, now).published.Some? then ValueUpdated(c, i, TickSched(s, now).published.value, now)
    else if cmd.SetPrio? && s.rights.prio then PrioUpdated(c, ss)
    else if ss[i].state != s.state then StateUpdated(c, ss, now)
    else c
  }

  ghost function StepSched(sys: System, i: nat, now: nat, cmd: Cmd): System
    requires WellFormed(sys) && i < |sys.scheds|
  {
    var s := sys.scheds[i];
    var ss := sys.scheds[i := After(s, cmd, now)];
    System(ss, sys.listeners,
           Told(sys.ctls, sys.listeners[i],
                (c: Ctl) requires MembersExist(ss, c.members) => Informed(c, ss, i, s, cmd, now)))
  }

  ghost function Step(sys: System, ev: Event): System
    requires WellFormed(sys)
  {
    match ev
    case OnSched(i, now, cmd) => if i < |sys.scheds| then StepSched(sys, i, now, cmd) else sys
    case Rewire(c, j, ref, _) => if c < |sys.ctls| then SetSrcRef(sys, c, j, ref) else sys
  }

  lemma StepWellFormed(sys: System, ev: Event)
    requires WellFormed(sys)
    ensures WellFormed(Step(sys, ev))
    ensures |Step(sys, ev).scheds| == |sys.scheds| && |Step(sys, ev).ctls| == |sys.ctls|
  {
    match ev
    case OnSched(i, now, cmd) =>
      if i < |sys.scheds| {
        var ss := sys.scheds[i := After(sys.scheds[i], cmd, now)];
        forall c | 0 <= c < |sys.ctls| ensures MembersExist(ss, Step(sys, ev).ctls[c].members) {
          InformedKeepsWiring(sys.ctls[c], ss, i, sys.scheds[i], cmd, now);
        }
      }
    case Rewire(c, j, ref, _) =>
      if c < |sys.ctls| && RewireTarget(sys, c, j, ref).Some? {
        RewiredExists(sys.ctls[c], sys.scheds, j, RewireTarget(sys, c, j, ref).value);
      }
  }

  /** Events never change which schedules a controller is connected to. */
  lemma InformedKeepsWiring(c: Ctl, ss: seq<Sched>, i: nat, s: Sched, cmd: Cmd, now: nat)
    requires MembersExist(ss, c.members) && i < |ss|
    ensures
      var r := Informed(c, ss, i, s, cmd, now);
      r.members == c.members && r.refs == c.refs && r.hasEntity == c.hasEntity
  {
    hide Elect, TickSched, CurrentValue;
  }

  lemma RewiredExists(c: Ctl, ss: seq<Sched>, j: nat, i: nat)
    requires j < |c.refs| && i < |ss| && MembersExist(ss, c.members)
    ensures MembersExist(ss, Rewired(c, ss, j, i))
  {
    var r := Rewired(c, ss, j, i);
    forall p | 0 <= p < |r| ensures r[p] < |ss| {
      if p < |r| - 1 {
        assert r[p] in c.members;
      }
    }
  }

  ghost function Run(sys: System, evs: seq<Event>): (r: System)
    requires WellFormed(sys)
    ensures WellFormed(r) && |r.scheds| == |sys.scheds| && |r.ctls| == |sys.ctls|
    decreases |evs|
  {
    if evs == [] then sys
    else
      StepWellFormed(sys, evs[0]);
      Run(Step(sys, evs[0]), evs[1..])
  }
}
