// Saving a schedule as a JSON object and restoring it. JSON text, files and the
// printing of numbers are outside the model; a number is the double that cJSON
// keeps.
module StorageSpec {
  import opened CTypes
  import opened Types
  import opened Names
  import opened Interval
  import opened StartTimes
  import opened ScheduleSpec

  datatype Json =
    | JNull
    | JBool(b: bool)
    | JNum(n: real)
    | JStr(s: string)
    | JArr(items: seq<Json>)
    | JObj(fields: map<string, Json>)

  // ---- Numbers ----

  /** The distance between neighbouring doubles at `n`. */
  function Ulp(n: nat): (u: nat)
    ensures u >= 1
  {
    if n < TWO_53 then 1 else 2 * Ulp(n / 2)
  }

  /** (double)n: round to nearest, ties to even. */
  function ToDouble(n: nat): nat {
    var u := Ulp(n);
    var rest := n % u;
    var low := n - rest;
    if 2 * rest < u || (2 * rest == u && low / u % 2 == 0) then low else low + u
  }

  /** A `uint64_t` survives as a double exactly when it is a multiple of the spacing there. */
  lemma DoubleExact(n: nat)
    ensures ToDouble(n) == n <==> n % Ulp(n) == 0
    ensures n < TWO_53 ==> ToDouble(n) == n
  {
  }

  /** valueint of a cJSON item: truncated and clamped to `int`; 1 for true, 0 for other kinds. */
  function ValueInt(j: Json): int {
    match j
    case JNum(n) =>
      if n >= INT_MAX as real then INT_MAX
      else if n <= INT_MIN as real then INT_MIN
      else if n >= 0.0 then n.Floor else -((-n).Floor)
    case JBool(b) => if b then 1 else 0
    case _ => 0
  }

  /** valuedouble of a cJSON item. */
  function ValueDouble(j: Json): real {
    if j.JNum? then j.n else 0.0
  }

  /** (uint64_t)valuedouble */
  function ValueUInt64(j: Json): nat {
    UInt64(if ValueDouble(j) >= 0.0 then ValueDouble(j).Floor else -((-ValueDouble(j)).Floor))
  }

  lemma IntSurvives(v: int)
    requires INT_MIN <= v <= INT_MAX
    ensures ValueInt(JNum(v as real)) == v
  {
    assert (-(v as real)) == (-v) as real;
  }

  // ---- States ----

  function StateString(st: ScheduleState): string {
    match st
    case NotReady => "not ready"
    case StartTimeRequired => "start time required"
    case Ready => "ready"
    case Running => "running"
    case Invalid => "invalid"
  }

  function StateFromString(s: string): ScheduleState {
    if s == "not ready" then NotReady
    else if s == "start time required" then StartTimeRequired
    else if s == "ready" then Ready
    else if s == "running" then Running
    else Invalid
  }

  // ---- Saving ----

  /** cJSON prints NaN as null. */
  function ValueJson(v: MmsValue): Json {
    match v
    case BoolVal(b) => JBool(b)
    case FloatVal(f) => if f.NaN? then JNull else JNum(f.r)
    case IntVal(i) => JNum(i as real)
  }

  /** The items for the entries 1..n; a missing entry contributes none. */
  function ValueItems(s: Sched, n: nat): seq<Json> {
    if n == 0 then []
    else ValueItems(s, n - 1) + match Entry(s, n) case Some(v) => [ValueJson(v)] case None => []
  }

  function CalJson(c: SetCal): Json {
    JObj(map["occ" := JNum(c.occ as real), "occType" := JNum(c.occType as real),
             "occPer" := JNum(c.occPer as real), "weekDay" := JNum(c.weekDay as real),
             "month" := JNum(c.month as real), "day" := JNum(c.day as real),
             "hr" := JNum(c.hr as real), "mn" := JNum(c.mn as real)])
  }

  function SlotJson(slot: StrTm): Json {
    var base := map["id" := JStr(slot.name), "t" := JNum(ToDouble(SlotTime(slot)) as real)];
    JObj(if slot.setCal.Some? then base["setCal" := CalJson(slot.setCal.value)] else base)
  }

  function SlotItems(slots: seq<StrTm>): (items: seq<Json>)
    ensures |items| == |slots|
    ensures forall k :: 0 <= k < |slots| ==> items[k] == SlotJson(slots[k])
  {
    seq(|slots|, k requires 0 <= k < |slots| => SlotJson(slots[k]))
  }

  /** createSchedule */
  function Snapshot(s: Sched): Json {
    JObj(map["objRef" := JStr(s.cfg.ref),
             "state" := JStr(StateString(s.state)),
             "reuse" := JBool(s.reuse),
             "prio" := JNum(s.prio as real),
             "numEntr" := JNum(s.numEntr as real),
             "schdIntv" := JNum(Int32(IntervalMs(s)) as real),
             "ActStrTm" := JNum(ToDouble(s.startTime) as real),
             "values" := JArr(ValueItems(s, ValueCount(s.values, s.cfg.targetType))),
             "startTimes" := JArr(SlotItems(s.strTms))])
  }

  // ---- Restoring ----

  /** cJSON_GetObjectItem */
  function Item(j: Json, key: string): Option<Json> {
    if j.JObj? && key in j.fields then Some(j.fields[key]) else None
  }

  predicate HasStr(j: Json, key: string) { Item(j, key).Some? && Item(j, key).value.JStr? }
  predicate HasBool(j: Json, key: string) { Item(j, key).Some? && Item(j, key).value.JBool? }
  predicate HasNum(j: Json, key: string) { Item(j, key).Some? && Item(j, key).value.JNum? }
  predicate HasArr(j: Json, key: string) { Item(j, key).Some? && Item(j, key).value.JArr? }

  /** An attribute keeps its type; the item is read the way that type needs. */
  function Converted(current: MmsValue, item: Json): MmsValue {
    match current
    case BoolVal(_) => BoolVal(ValueInt(item) != 0)
    case FloatVal(_) => FloatVal(Num(ValueDouble(item)))
    case IntVal(_) => IntVal(ValueInt(item))
  }

  function PutValue(values: seq<ValueObj>, t: TargetType, k: int, item: Json): (r: seq<ValueObj>)
    ensures |r| == |values|
    ensures forall i :: 0 <= i < |values| ==> r[i].name == values[i].name
  {
    if t.UnknownTarget? then values
    else match LookupIdx(values, ValuePrefix(t), k)
         case Some(p) =>
           if values[p].value.Some?
           then values[p := values[p].(value := Some(Converted(values[p].value.value, item)))]
           else values
         case None => values
  }

  function PutValues(values: seq<ValueObj>, t: TargetType, items: seq<Json>): (r: seq<ValueObj>)
    ensures |r| == |values|
    ensures forall i :: 0 <= i < |values| ==> r[i].name == values[i].name
  {
    if items == [] then values
    else
      var n := |items| - 1;
      PutValue(PutValues(values, t, items[..n]), t, n + 1, items[n])
  }

  function IntOr(j: Json, key: string, current: int): int {
    if Item(j, key).Some? then ValueInt(Item(j, key).value) else current
  }

  function PutCal(c: SetCal, j: Json): SetCal {
    SetCal(IntOr(j, "occ", c.occ), IntOr(j, "occType", c.occType), IntOr(j, "occPer", c.occPer),
           IntOr(j, "weekDay", c.weekDay), IntOr(j, "month", c.month), IntOr(j, "day", c.day),
           IntOr(j, "hr", c.hr), IntOr(j, "mn", c.mn))
  }

  function PutSlot(slot: StrTm, item: Json): StrTm {
    var t := if Item(item, "t").Some? then ValueUInt64(Item(item, "t").value) else 0;
    var timed := if slot.setTm.Some? then slot.(setTm := Some(t)) else slot;
    if slot.setCal.Some? && Item(item, "setCal").Some?
    then timed.(setCal := Some(PutCal(slot.setCal.value, Item(item, "setCal").value)))
    else timed
  }

  /** The first slot of that name. */
  function FindSlot(slots: seq<StrTm>, name: string): (r: Option<nat>)
    ensures r.Some? ==> r.value < |slots| && slots[r.value].name == name
    ensures r.Some? ==> forall k :: 0 <= k < r.value ==> slots[k].name != name
    ensures r.None? ==> forall k :: 0 <= k < |slots| ==> slots[k].name != name
  {
    if slots == [] then None
    else if slots[0].name == name then Some(0)
    else match FindSlot(slots[1..], name)
         case Some(k) => Some(k + 1)
         case None => None
  }

  /** One element of "startTimes": the slot is found by its id. */
  function PutStartTime(slots: seq<StrTm>, item: Json): (r: seq<StrTm>)
    ensures |r| == |slots|
    ensures forall i :: 0 <= i < |slots| ==> r[i].name == slots[i].name
  {
    if !HasStr(item, "id") then slots
    else match FindSlot(slots, Item(item, "id").value.s)
         case Some(p) => slots[p := PutSlot(slots[p], item)]
         case None => slots
  }

  function PutStartTimes(slots: seq<StrTm>, items: seq<Json>): (r: seq<StrTm>)
    ensures |r| == |slots|
    ensures forall i :: 0 <= i < |slots| ==> r[i].name == slots[i].name
  {
    if items == [] then slots
    else PutStartTime(PutStartTimes(slots, items[..|items| - 1]), items[|items| - 1])
  }

  /** getScheduleData up to the interval: false on the first missing or ill-typed item. */
  function RestoreHead(s: Sched, j: Json): (Sched, bool) {
    if !HasStr(j, "objRef") || !HasStr(j, "state") || !HasBool(j, "reuse") then (s, false)
    else
      var s1 := s.(reuse := ValueInt(Item(j, "reuse").value) != 0);
      if !HasNum(j, "prio") then (s1, false)
      else
        var s2 := s1.(prio := ValueInt(Item(j, "prio").value));
        if !HasNum(j, "numEntr") then (s2, false)
        else
          var n := ValueInt(Item(j, "numEntr").value);
          var s3 := s2.(numEntr := n, numberOfScheduleEntries := n);
          if !HasNum(j, "schdIntv") then (s3, false)
          else
            var ms := ValueInt(Item(j, "schdIntv").value);
            (s3.(schdIntv := SetVal(UInt64(ms), s.cfg.siUnit, s.cfg.multiplier), entryDurationInMs := ms), true)
  }

  function RestoreActStrTm(s: Sched, j: Json): Sched {
    if HasNum(j, "ActStrTm") then
      var t := ValueUInt64(Item(j, "ActStrTm").value);
      s.(startTime := t, shown := ShowAct(s.shown, t))
    else s
  }

  /** getScheduleData: everything but the state is in place before the state changes. */
  function Restored(s: Sched, j: Json): (Sched, bool) {
    var (head, ok) := RestoreHead(s, j);
    if !ok then (head, false)
    else
      var timed := RestoreActStrTm(head, j);
      if !HasArr(j, "values") then (timed, false)
      else
        var filled := timed.(
          values := PutValues(s.values, s.cfg.targetType, Item(j, "values").value.items),
          strTms := if HasArr(j, "startTimes") then PutStartTimes(s.strTms, Item(j, "startTimes").value.items)
                    else s.strTms);
        (filled.(state := StateFromString(Item(j, "state").value.s)), true)
  }
}
