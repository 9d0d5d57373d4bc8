// What one schedule does, as functions on its state. The methods of the class
// Schedule are proved against these functions; the theorems are about them.
module ScheduleSpec {
  import opened CTypes
  import opened Types
  import opened Names
  import opened Interval
  import opened StartTimes

  /** The part of a schedule that is fixed when it is created. */
  datatype Config = Config(
    ref: string,              // object reference with the IED name
    shortRef: string,         // the same without it
    targetType: TargetType,
    siUnit: int,              // SchdIntv.units.SIUnit
    multiplier: int,          // SchdIntv.units.multiplier
    eventDriven: bool,        // EvTrg.setVal
    syncInputValid: bool,     // InSyn.setSrcRef names a boolean attribute
    timeTriggered: bool,      // has a StrTm object
    periodic: bool,           // has a StrTm object with a setCal attribute
    utcOffset: int            // seconds that local time is ahead of UTC
  )

  /** Which client accesses are allowed. */
  datatype Rights = Rights(
    control: bool,            // EnaReq and DsaReq
    prio: bool,
    strTm: bool,
    reuse: bool,
    intv: bool
  )

  /** The status attributes a client can read. */
  datatype Shown = Shown(
    val: Option<MmsValue>,    // ValMV, ValINS, ValSPS or ValENS
    valQ: Quality,
    schdEntr: int,
    actStrTm: nat,
    actStrTmQ: Quality,
    nxtStrTm: nat,
    nxtStrTmQ: Quality,
    enaErr: EnablingError
  )

  datatype Sched = Sched(
    cfg: Config,
    state: ScheduleState,
    nextStartTime: nat,
    startTime: nat,
    entryDurationInMs: int,
    numberOfScheduleEntries: int,
    currentEntryIdx: int,
    prio: int,
    reuse: bool,
    numEntr: int,
    schdIntv: int,
    strTms: seq<StrTm>,
    values: seq<ValueObj>,
    rights: Rights,
    shown: Shown
  )

  // ---- Derived quantities ----

  function IntervalMs(s: Sched): nat {
    GetMs(s.schdIntv, s.cfg.siUnit, s.cfg.multiplier)
  }

  /** Schedule_getSchdIntvInMs(self) * Schedule_getNumEntr(self), an `int` product. */
  function ProductMs(s: Sched): int {
    Int32(Int32(IntervalMs(s)) * s.numEntr)
  }

  /** schedule_getNextStartTime */
  function NextStart(s: Sched, now: nat): nat {
    if s.cfg.periodic then NextPeriodic(s.strTms, now, s.cfg.utcOffset, ProductMs(s))
    else NextOneShot(s.strTms, now)
  }

  /** The value attribute of entry `k`, counted from 1. */
  function Entry(s: Sched, k: int): Option<MmsValue> {
    ValueAttr(s.values, s.cfg.targetType, k)
  }

  /**
    * schedule_getCurrentIdx. C leaves division by a zero interval undefined;
    * here it counts as "past the last entry". ZeroDuration says over which runs
    * of starts, writes and restores that happens.
    */
  function CurrentIdx(s: Sched, now: nat): int {
    var d := UInt64(s.entryDurationInMs);
    if d == 0 then -1
    else
      var idx := Int32(UInt64(now - s.startTime) / d);
      if idx >= s.numberOfScheduleEntries then -1 else idx
  }

  /** Schedule_getCurrentValue */
  function CurrentValue(s: Sched, now: nat): Option<MmsValue> {
    var idx := CurrentIdx(s, now);
    if idx == -1 then None else Entry(s, idx + 1)
  }

  function TimeQuality(t: nat): Quality {
    if t != 0 then GoodQ else InvalidQ
  }

  // ---- The periodic tick (body of schedule_thread) ----

  /** What a tick leaves behind: the schedule and the value it publishes, if any. */
  datatype TickResult = TickResult(sched: Sched, published: Option<MmsValue>)

  /** schedule_updateNxtStrTm */
  function ShowNext(sh: Shown, t: nat): Shown {
    sh.(nxtStrTm := t, nxtStrTmQ := TimeQuality(t))
  }

  /** schedule_updateActStrTm */
  function ShowAct(sh: Shown, t: nat): Shown {
    sh.(actStrTm := t, actStrTmQ := TimeQuality(t))
  }

  /** READY with the start time reached: latch the parameters and switch to RUNNING. */
  function Started(s: Sched, now: nat): Sched {
    var latched := s.(startTime := s.nextStartTime,
                      entryDurationInMs := Int32(IntervalMs(s)),
                      numberOfScheduleEntries := s.numEntr,
                      currentEntryIdx := -2,
                      strTms := Erase(s.strTms, s.nextStartTime));
    var next := NextStart(latched, now);
    latched.(nextStartTime := next, shown := ShowNext(ShowAct(s.shown, s.nextStartTime), next), state := Running)
  }

  /** RUNNING past the last entry: look for the next start, else give up. */
  function Ended(s: Sched, now: nat): Sched {
    var next := NextStart(s, now);
    s.(nextStartTime := next,
       shown := ShowAct(ShowNext(s.shown.(valQ := InvalidQ, schdEntr := 0), next), 0),
       state := if next != 0 then Ready else NotReady)
  }

  /** RUNNING at a new entry: publish it. */
  function Advanced(s: Sched, idx: int): TickResult {
    match Entry(s, idx + 1)
    case Some(v) =>
      TickResult(s.(currentEntryIdx := idx, shown := s.shown.(val := Some(v), valQ := GoodQ, schdEntr := idx + 1)),
                 Some(v))
    case None => TickResult(s.(currentEntryIdx := idx), None)
  }

  function TickSched(s: Sched, now: nat): TickResult {
    match s.state
    case Ready =>
      var armed := if s.nextStartTime == 0 then s.(nextStartTime := NextStart(s, now)) else s;
      if armed.nextStartTime != 0 && now > armed.nextStartTime then TickResult(Started(armed, now), None)
      else TickResult(armed, None)
    case Running =>
      var idx := CurrentIdx(s, now);
      if idx == -1 then TickResult(Ended(s, now), None)
      else if idx != s.currentEntryIdx then Advanced(s, idx)
      else TickResult(s, None)
    case _ => TickResult(s, None)
  }

  // ---- Enabling and disabling ----

  predicate SomeNaN(s: Sched) {
    exists k :: 1 <= k <= s.numEntr && Entry(s, k).Some? && IsNaN(Entry(s, k).value)
  }

  /** performGenericScheduleValidityChecks: the outcome and the error it reports. */
  function GenericError(s: Sched): EnablingError {
    if !NumEntrValid(s.values, s.cfg.targetType, s.numEntr) then MissingValidNumEntr
    else if SomeNaN(s) then MissingValidScheduleValues
    else if s.schdIntv <= 0 then MissingValidSchdIntv
    else NoError
  }

  /** ... and its side effects: the entry count is overwritten even when the check fails. */
  function GenericChecked(s: Sched): Sched {
    var e := GenericError(s);
    s.(numberOfScheduleEntries := s.numEntr, shown := if e == NoError then s.shown else s.shown.(enaErr := e))
  }

  /** The duration checkForValidStartTimes adds to each slot. */
  function DurationMs(s: Sched): nat {
    if s.numEntr > 0 then UInt64(IntervalMs(s) * s.numEntr) else 0
  }

  /** The trigger condition of the schedule's kind. */
  ghost predicate TriggerValid(s: Sched, now: nat) {
    if s.cfg.eventDriven then s.cfg.syncInputValid
    else if s.cfg.periodic then true
    else s.cfg.timeTriggered && SomeSlotOpen(s.strTms, DurationMs(s), now)
  }

  ghost predicate CanEnable(s: Sched, now: nat) {
    GenericError(s) == NoError && TriggerValid(s, now)
  }

  /** enabledSchedule */
  ghost function Enabled(s: Sched, now: nat): Sched {
    var checked := GenericChecked(s);
    if CanEnable(s, now) then
      checked.(state := Ready, shown := ShowNext(s.shown, NextStart(s, now)).(enaErr := NoError))
    else if GenericError(s) == NoError && !s.cfg.eventDriven && !s.cfg.periodic && s.cfg.timeTriggered then
      checked.(state := NotReady, shown := s.shown.(enaErr := MissingValidStrTm))
    else
      checked.(state := NotReady)
  }

  /** disableSchedule: nextStartTime and SchdEntr keep their values. */
  function Disabled(s: Sched): Sched {
    s.(state := NotReady, shown := ShowNext(s.shown.(valQ := InvalidQ, actStrTmQ := InvalidQ), 0))
  }

  /** Schedule_enableSchedule */
  ghost function EnableSched(s: Sched, enable: bool, now: nat): Sched {
    if enable then Enabled(s, now)
    else if s.state != NotReady then Disabled(s)
    else s
  }

  // ---- Remote control ----

  datatype ControlResult = ControlOk | ControlFailed | ControlInvalid | ControlDenied

  /** Check handler and control handler for EnaReq. */
  ghost function EnaReq(s: Sched, ctlVal: bool, test: bool, now: nat): (Sched, ControlResult) {
    if test || !ctlVal then (s, ControlOk)
    else if !s.rights.control then (s, ControlDenied)
    else if GenericError(s) != NoError then (GenericChecked(s), ControlInvalid)
    else (Enabled(s, now), if CanEnable(s, now) then ControlOk else ControlFailed)
  }

  /** Check handler and control handler for DsaReq. */
  function DsaReq(s: Sched, ctlVal: bool, test: bool): (Sched, ControlResult) {
    if test || !ctlVal then (s, ControlOk)
    else if !s.rights.control then (s, ControlDenied)
    else (Disabled(s), ControlOk)
  }

  // ---- Parameter writes ----

  function WritePrio(s: Sched, v: int): (Sched, WriteResult) {
    if s.rights.prio then (s.(prio := v), Accepted) else (s, AccessDenied)
  }

  /** A start time is accepted only if it lies in the future. */
  function WriteStrTm(s: Sched, k: nat, t: nat, now: nat): (Sched, WriteResult)
    requires k < |s.strTms|
  {
    if !s.rights.strTm then (s, AccessDenied)
    else if t > now then (s.(strTms := s.strTms[k := s.strTms[k].(setTm := Some(t))]), Accepted)
    else (s, ValueInvalid)
  }

  function WriteSetCal(s: Sched, k: nat, cal: SetCal): (Sched, WriteResult)
    requires k < |s.strTms|
  {
    if s.rights.strTm then (s.(strTms := s.strTms[k := s.strTms[k].(setCal := Some(cal))]), Accepted)
    else (s, AccessDenied)
  }

  function WriteReuse(s: Sched, b: bool): (Sched, WriteResult) {
    if s.rights.reuse then (s.(reuse := b), Accepted) else (s, AccessDenied)
  }

  function WriteIntv(s: Sched, v: int): (Sched, WriteResult) {
    if s.rights.intv then (s.(schdIntv := v), Accepted) else (s, AccessDenied)
  }

  function WriteNumEntr(s: Sched, n: int): (Sched, WriteResult) {
    (s.(numEntr := n), Accepted)
  }

  function WriteValue(s: Sched, k: nat, v: MmsValue): (Sched, WriteResult)
    requires k < |s.values|
  {
    (s.(values := s.values[k := s.values[k].(value := Some(v))]), Accepted)
  }

  // ---- A few facts about these functions ----

  lemma StartedRuns(s: Sched, now: nat)
    ensures Started(s, now).state == Running
  {
    hide NextStart, Erase, GetMs, ShowNext, ShowAct;
  }

  lemma IdleTick(s: Sched, now: nat)
    requires s.state != Ready && s.state != Running
    ensures TickSched(s, now) == TickResult(s, None)
  {
  }

  lemma EnabledWhenReady(s: Sched, now: nat)
    requires CanEnable(s, now)
    ensures Enabled(s, now)
            == s.(state := Ready, numberOfScheduleEntries := s.numEntr,
                  shown := ShowNext(s.shown, NextStart(s, now)).(enaErr := NoError))
  {
    hide GenericError, TriggerValid, NextStart, ShowNext;
  }
}
