// Restoring a saved schedule undoes the saving.
module StorageProps {
  import opened CTypes
  import opened Types
  import opened Names
  import opened Interval
  import opened StartTimes
  import opened ScheduleSpec
  import opened StorageSpec

  lemma StateSurvives(st: ScheduleState)
    ensures StateFromString(StateString(st)) == st
  {
    assert |"not ready"| == 9 && |"start time required"| == 19 && |"ready"| == 5;
    assert |"running"| == 7 && |"invalid"| == 7 && "running"[0] != "invalid"[0];
  }

  /** The names under which the states are stored; any other string is the invalid state. */
  lemma StateNames(s: string)
    ensures StateString(NotReady) == "not ready" && StateString(StartTimeRequired) == "start time required"
    ensures StateString(Ready) == "ready" && StateString(Running) == "running" && StateString(Invalid) == "invalid"
    ensures StateFromString(s) == Invalid <==> s !in ["not ready", "start time required", "ready", "running"]
    ensures StateFromString(s) != Invalid ==> StateString(StateFromString(s)) == s
  {
  }

  // ---- Values ----

  /** Two value lists of one data model: same objects, values of the same type. */
  predicate SameKind(a: MmsValue, b: MmsValue) {
    (a.BoolVal? && b.BoolVal?) || (a.FloatVal? && b.FloatVal?) || (a.IntVal? && b.IntVal?)
  }

  predicate SameValueModel(a: seq<ValueObj>, b: seq<ValueObj>) {
    && SameNames(a, b)
    && (forall i :: 0 <= i < |a| ==> (a[i].value.Some? <==> b[i].value.Some?))
    && (forall i :: 0 <= i < |a| && a[i].value.Some? ==> SameKind(a[i].value.value, b[i].value.value))
  }

  /** A value comes back exactly when it is not NaN (a NaN comes back as zero). */
  lemma ConvertedBack(current: MmsValue, v: MmsValue)
    requires SameKind(current, v)
    requires v.IntVal? ==> INT_MIN <= v.i <= INT_MAX
    ensures Converted(current, ValueJson(v)) == v <==> !IsNaN(v)
  {
    if v.IntVal? { IntSurvives(v.i); }
  }

  lemma PutAtOwnIndex(values: seq<ValueObj>, t: TargetType, k: int, item: Json)
    requires ValueAttr(values, t, k).Some?
    ensures ValueAttr(PutValue(values, t, k, item), t, k) == Some(Converted(ValueAttr(values, t, k).value, item))
  {
    LookupByName(values, PutValue(values, t, k, item), ValuePrefix(t), k);
  }

  lemma PutLeavesOthers(values: seq<ValueObj>, t: TargetType, k: int, item: Json, j: int)
    requires k > 0 && j > 0 && j != k
    ensures ValueAttr(PutValue(values, t, k, item), t, j) == ValueAttr(values, t, j)
  {
    hide LookupIdx;
    LookupByName(values, PutValue(values, t, k, item), ValuePrefix(t), j);
    if LookupIdx(values, ValuePrefix(t), k).Some? && LookupIdx(values, ValuePrefix(t), j).Some? {
      LookupInjective(values, ValuePrefix(t), k, j);
    }
  }

  /** After n items the first n entries are converted and the others untouched. */
  lemma {:induction false} PutValuesAt(values: seq<ValueObj>, t: TargetType, items: seq<Json>, j: int)
    requires j > 0
    ensures
      ValueAttr(PutValues(values, t, items), t, j)
      == if j <= |items| && ValueAttr(values, t, j).Some?
         then Some(Converted(ValueAttr(values, t, j).value, items[j - 1]))
         else ValueAttr(values, t, j)
  {
    hide ValueAttr, PutValue, Converted;
    if items != [] {
      var n := |items| - 1;
      var before := PutValues(values, t, items[..n]);
      PutValuesAt(values, t, items[..n], j);
      if j == n + 1 {
        if ValueAttr(before, t, j).Some? {
          PutAtOwnIndex(before, t, j, items[n]);
        } else {
          PutAtMissing(before, t, j, items[n]);
        }
      } else {
        PutLeavesOthers(before, t, n + 1, items[n], j);
      }
    }
  }

  lemma PutAtMissing(values: seq<ValueObj>, t: TargetType, k: int, item: Json)
    requires ValueAttr(values, t, k).None?
    ensures PutValue(values, t, k, item) == values
  {
  }

  lemma {:induction false} ValueItemsAt(s: Sched, n: nat)
    requires AllPresent(s.values, s.cfg.targetType, n)
    ensures |ValueItems(s, n)| == n
    ensures forall k :: 1 <= k <= n ==> ValueItems(s, n)[k - 1] == ValueJson(Entry(s, k).value)
  {
    hide ValueAttr, ValueJson;
    if n > 0 {
      ValueItemsAt(s, n - 1);
      assert Entry(s, n).Some?;
    }
  }

  lemma SameModelSameKinds(a: seq<ValueObj>, b: seq<ValueObj>, t: TargetType, k: int)
    requires SameValueModel(a, b) && ValueAttr(a, t, k).Some?
    ensures ValueAttr(b, t, k).Some? && SameKind(ValueAttr(a, t, k).value, ValueAttr(b, t, k).value)
  {
    LookupByName(a, b, ValuePrefix(t), k);
  }

  /** Entry `k`, of the attribute's own type, survives exactly when it is not NaN. */
  lemma EntrySurvives(s: Sched, into: seq<ValueObj>, n: nat, k: int)
    requires SameValueModel(s.values, into)
    requires AllPresent(s.values, s.cfg.targetType, n) && 1 <= k <= n
    requires Entry(s, k).value.IntVal? ==> INT_MIN <= Entry(s, k).value.i <= INT_MAX
    ensures ValueAttr(PutValues(into, s.cfg.targetType, ValueItems(s, n)), s.cfg.targetType, k) == Entry(s, k)
            <==> !IsNaN(Entry(s, k).value)
  {
    hide ValueAttr, ValueJson, Converted, PutValues;
    ValueItemsAt(s, n);
    SameModelSameKinds(s.values, into, s.cfg.targetType, k);
    PutValuesAt(into, s.cfg.targetType, ValueItems(s, n), k);
    ConvertedBack(ValueAttr(into, s.cfg.targetType, k).value, Entry(s, k).value);
  }

  // ---- Start times ----

  predicate SameSlotModel(a: seq<StrTm>, b: seq<StrTm>) {
    && |a| == |b|
    && (forall i :: 0 <= i < |a| ==> a[i].name == b[i].name)
    && (forall i :: 0 <= i < |a| ==> (a[i].setTm.Some? <==> b[i].setTm.Some?))
    && (forall i :: 0 <= i < |a| ==> (a[i].setCal.Some? <==> b[i].setCal.Some?))
  }

  predicate DistinctSlots(a: seq<StrTm>) {
    forall i, j :: 0 <= i < j < |a| ==> a[i].name != a[j].name
  }

  predicate IsInt(v: int) {
    INT_MIN <= v <= INT_MAX
  }

  predicate CalInts(c: SetCal) {
    && IsInt(c.occ) && IsInt(c.occType) && IsInt(c.occPer) && IsInt(c.weekDay)
    && IsInt(c.month) && IsInt(c.day) && IsInt(c.hr) && IsInt(c.mn)
  }

  /** The time can be a double without loss and every calendar field is an `int`. */
  predicate SlotStorable(slot: StrTm) {
    && SlotTime(slot) < TWO_64 && SlotTime(slot) % Ulp(SlotTime(slot)) == 0
    && (slot.setCal.Some? ==> CalInts(slot.setCal.value))
  }

  lemma CalSurvives(c: SetCal, into: SetCal)
    requires CalInts(c)
    ensures PutCal(into, CalJson(c)) == c
  {
    IntSurvives(c.occ);
    IntSurvives(c.occType);
    IntSurvives(c.occPer);
    IntSurvives(c.weekDay);
    IntSurvives(c.month);
    IntSurvives(c.day);
    IntSurvives(c.hr);
    IntSurvives(c.mn);
    hide ValueInt;
    assert |"occ"| == 3 && |"occType"| == 7 && |"occPer"| == 6 && |"weekDay"| == 7;
    assert |"month"| == 5 && |"day"| == 3 && |"hr"| == 2 && |"mn"| == 2;
    assert "occType"[0] != "weekDay"[0] && "occ"[0] != "day"[0] && "hr"[0] != "mn"[0];
  }

  lemma TimeSurvives(t: nat)
    requires t < TWO_64 && t % Ulp(t) == 0
    ensures ValueUInt64(JNum(ToDouble(t) as real)) == t
  {
    DoubleExact(t);
  }

  lemma SlotSurvives(slot: StrTm, into: StrTm)
    requires slot.name == into.name && SlotStorable(slot)
    requires (slot.setTm.Some? <==> into.setTm.Some?) && (slot.setCal.Some? <==> into.setCal.Some?)
    ensures HasStr(SlotJson(slot), "id") && Item(SlotJson(slot), "id").value.s == slot.name
    ensures PutSlot(into, SlotJson(slot)) == slot
  {
    hide ValueUInt64, CalJson, PutCal;
    assert |"id"| == 2 && |"t"| == 1 && |"setCal"| == 6;
    TimeSurvives(SlotTime(slot));
    if slot.setCal.Some? {
      CalSurvives(slot.setCal.value, into.setCal.value);
    }
  }

  lemma {:induction false} FindOwnSlot(slots: seq<StrTm>, k: nat)
    requires DistinctSlots(slots) && k < |slots|
    ensures FindSlot(slots, slots[k].name) == Some(k)
  {
    if k > 0 {
      FindOwnSlot(slots[1..], k - 1);
    }
  }

  lemma NextSlotSurvives(slots: seq<StrTm>, before: seq<StrTm>, m: nat)
    requires DistinctSlots(slots) && |before| == |slots| && m < |slots| && SlotStorable(slots[m])
    requires forall i :: 0 <= i < |slots| ==> before[i].name == slots[i].name
    requires (slots[m].setTm.Some? <==> before[m].setTm.Some?) && (slots[m].setCal.Some? <==> before[m].setCal.Some?)
    ensures PutStartTime(before, SlotJson(slots[m])) == before[m := slots[m]]
  {
    hide SlotJson, PutSlot, SlotStorable;
    SlotSurvives(slots[m], before[m]);
    FindOwnSlot(before, m);
  }

  lemma {:induction false} FirstSlotsSurvive(slots: seq<StrTm>, into: seq<StrTm>, items: seq<Json>)
    requires SameSlotModel(slots, into) && DistinctSlots(slots) && items <= SlotItems(slots)
    requires forall i :: 0 <= i < |slots| ==> SlotStorable(slots[i])
    ensures PutStartTimes(into, items) == slots[..|items|] + into[|items|..]
  {
    hide SlotJson, PutSlot, SlotStorable, PutStartTime, DistinctSlots;
    if items != [] {
      var m := |items| - 1;
      FirstSlotsSurvive(slots, into, items[..m]);
      NextSlotSurvives(slots, slots[..m] + into[m..], m);
      ReplaceNext(slots, into, m);
    }
  }

  lemma ReplaceNext(slots: seq<StrTm>, into: seq<StrTm>, m: nat)
    requires m < |slots| == |into|
    ensures (slots[..m] + into[m..])[m := slots[m]] == slots[..m + 1] + into[m + 1..]
  {
  }

  lemma SlotsSurvive(slots: seq<StrTm>, into: seq<StrTm>)
    requires SameSlotModel(slots, into) && DistinctSlots(slots)
    requires forall i :: 0 <= i < |slots| ==> SlotStorable(slots[i])
    ensures PutStartTimes(into, SlotItems(slots)) == slots
  {
    FirstSlotsSurvive(slots, into, SlotItems(slots));
  }

  // ---- The whole schedule ----

  /** The two schedules have the same data model. */
  predicate SameModel(s: Sched, into: Sched) {
    s.cfg == into.cfg && SameValueModel(s.values, into.values) && SameSlotModel(s.strTms, into.strTms)
  }

  /** Everything a snapshot holds fits the number type it passes through. */
  predicate Storable(s: Sched) {
    var count := ValueCount(s.values, s.cfg.targetType);
    && IsInt(s.prio) && IsInt(s.numEntr)
    && s.startTime < TWO_64 && s.startTime % Ulp(s.startTime) == 0
    && s.schdIntv >= 0 && InRange(s.schdIntv, s.cfg.siUnit, s.cfg.multiplier) && IntervalMs(s) < TWO_31
    && (s.cfg.multiplier >= 0 || (s.schdIntv * UnitMs(s.cfg.siUnit)) % Pow10(-s.cfg.multiplier) == 0)
    && AllPresent(s.values, s.cfg.targetType, count)
    && (forall k :: 1 <= k <= count ==>
          Entry(s, k).Some? && !IsNaN(Entry(s, k).value)
          && (Entry(s, k).value.IntVal? ==> IsInt(Entry(s, k).value.i)))
    && DistinctSlots(s.strTms)
    && (forall i :: 0 <= i < |s.strTms| ==> SlotStorable(s.strTms[i]))
  }

  lemma SnapshotItems(s: Sched)
    ensures
      var j := Snapshot(s);
      && Item(j, "objRef") == Some(JStr(s.cfg.ref))
      && Item(j, "state") == Some(JStr(StateString(s.state)))
      && Item(j, "reuse") == Some(JBool(s.reuse))
      && Item(j, "prio") == Some(JNum(s.prio as real))
      && Item(j, "numEntr") == Some(JNum(s.numEntr as real))
      && Item(j, "schdIntv") == Some(JNum(Int32(IntervalMs(s)) as real))
      && Item(j, "ActStrTm") == Some(JNum(ToDouble(s.startTime) as real))
      && Item(j, "values") == Some(JArr(ValueItems(s, ValueCount(s.values, s.cfg.targetType))))
      && Item(j, "startTimes") == Some(JArr(SlotItems(s.strTms)))
  {
    hide StateString, Int32, IntervalMs, ToDouble, ValueItems, SlotItems, ValueCount;
    assert |"objRef"| == 6 && |"state"| == 5 && |"reuse"| == 5 && |"prio"| == 4 && |"numEntr"| == 7;
    assert |"schdIntv"| == 8 && |"ActStrTm"| == 8 && |"values"| == 6 && |"startTimes"| == 10;
    assert "objRef"[0] != "values"[0] && "state"[0] != "reuse"[0] && "schdIntv"[0] != "ActStrTm"[0];
  }

  lemma HeadSurvives(s: Sched, into: Sched)
    requires SameModel(s, into) && Storable(s)
    ensures RestoreHead(into, Snapshot(s))
            == (into.(reuse := s.reuse, prio := s.prio, numEntr := s.numEntr, numberOfScheduleEntries := s.numEntr,
                      schdIntv := s.schdIntv, entryDurationInMs := IntervalMs(s)), true)
  {
    hide Snapshot, ValueInt, SetVal, GetMs, ValueItems, SlotItems, ToDouble;
    SnapshotItems(s);
    IntSurvives(s.prio);
    IntSurvives(s.numEntr);
    IntSurvives(IntervalMs(s));
    SetAfterGet(s.schdIntv, s.cfg.siUnit, s.cfg.multiplier);
    BoolSurvives(s.reuse);
  }

  lemma BoolSurvives(b: bool)
    ensures (ValueInt(JBool(b)) != 0) == b
  {
  }

  /** The round trip: every saved field comes back, the state included. */
  lemma SnapshotRoundTrip(s: Sched, into: Sched)
    requires SameModel(s, into) && Storable(s)
    ensures
      var (r, ok) := Restored(into, Snapshot(s));
      && ok
      && r.state == s.state && r.reuse == s.reuse && r.prio == s.prio
      && r.numEntr == s.numEntr && r.schdIntv == s.schdIntv && r.startTime == s.startTime
      && r.strTms == s.strTms
      && r.entryDurationInMs == IntervalMs(s) && r.numberOfScheduleEntries == s.numEntr
      && (forall k :: 1 <= k <= ValueCount(s.values, s.cfg.targetType) ==> Entry(r, k) == Entry(s, k))
  {
    hide Snapshot, RestoreHead, PutValues, PutStartTimes, StateString, StateFromString, ValueItems, SlotItems;
    hide ValueAttr, ToDouble, ValueUInt64, ValueCount, GetMs;
    SnapshotItems(s);
    HeadSurvives(s, into);
    TimeSurvives(s.startTime);
    SlotsSurvive(s.strTms, into.strTms);
    StateSurvives(s.state);
    var count := ValueCount(s.values, s.cfg.targetType);
    forall k | 1 <= k <= count
      ensures Entry(Restored(into, Snapshot(s)).0, k) == Entry(s, k)
    {
      EntrySurvives(s, into.values, count, k);
    }
  }

  /** A schedule that still runs with its own parameters has the same index after a restore. */
  lemma IndexSurvives(s: Sched, into: Sched, now: nat)
    requires SameModel(s, into) && Storable(s)
    requires s.entryDurationInMs == Int32(IntervalMs(s)) && s.numberOfScheduleEntries == s.numEntr
    ensures CurrentIdx(Restored(into, Snapshot(s)).0, now) == CurrentIdx(s, now)
  {
    hide Snapshot, Restored, Storable, SameModel, GetMs;
    SnapshotRoundTrip(s, into);
    assert IntervalMs(s) < TWO_31 by { StorableInterval(s); }
  }

  lemma StorableInterval(s: Sched)
    requires Storable(s)
    ensures IntervalMs(s) < TWO_31
  {
  }

  /** The start time survives only if it is representable as a double. */
  lemma StartTimeNeedsDouble(s: Sched, into: Sched)
    requires s.startTime < TWO_64 - TWO_53
    ensures RestoreActStrTm(into, Snapshot(s)).startTime == s.startTime <==> s.startTime % Ulp(s.startTime) == 0
  {
    hide Snapshot, ValueItems, SlotItems, StateString;
    SnapshotItems(s);
    DoubleExact(s.startTime);
    UlpBound(s.startTime);
  }

  lemma {:induction false} UlpBound(n: nat)
    ensures Ulp(n) == 1 || Ulp(n) * TWO_53 <= 2 * n
  {
    if n >= TWO_53 { UlpBound(n / 2); }
  }

  // ---- Objects that were not written by the program ----

  /** An item of another type is converted: any number but one below 1 in size is true, true is 1, the rest is 0. */
  lemma ForeignItem(current: MmsValue, item: Json)
    ensures
      var r := Converted(current, item);
      && (current.BoolVal? ==>
            r == BoolVal(match item
                         case JBool(b) => b
                         case JNum(n) => n >= 1.0 || n <= -1.0
                         case _ => false))
      && (current.FloatVal? ==> r == FloatVal(Num(if item.JNum? then item.n else 0.0)))
      && (current.IntVal? ==>
            r.IntVal? && INT_MIN <= r.i <= INT_MAX
            && (item.JBool? ==> r.i == if item.b then 1 else 0)
            && (item.JNum? && 0.0 <= item.n < TWO_31 as real ==> r.i as real <= item.n < r.i as real + 1.0)
            && (item.JNum? && -(TWO_31 as real) < item.n <= 0.0 ==> r.i as real - 1.0 < item.n <= r.i as real)
            && (!item.JBool? && !item.JNum? ==> r.i == 0))
  {
  }

  /** The items a JSON object must have, with their types. */
  predicate Complete(j: Json) {
    && HasStr(j, "objRef") && HasStr(j, "state") && HasBool(j, "reuse") && HasNum(j, "prio") && HasNum(j, "numEntr")
    && HasNum(j, "schdIntv") && HasArr(j, "values")
  }

  /** A restore succeeds exactly for a complete object, and only then changes state, values and start times. */
  lemma RestoresComplete(s: Sched, j: Json)
    ensures Restored(s, j).1 <==> Complete(j)
    ensures !Complete(j) ==>
      var r := Restored(s, j).0;
      r.state == s.state && r.values == s.values && r.strTms == s.strTms
    ensures Complete(j) ==> Restored(s, j).0.state == StateFromString(Item(j, "state").value.s)
  {
    hide HasBool, HasNum, HasArr, ValueInt, ValueUInt64, PutValues, PutStartTimes, SetVal, StateFromString;
  }

  /** An incomplete object leaves its parameters up to the first item that is missing or of the wrong type. */
  lemma RestoresPrefix(s: Sched, j: Json)
    ensures
      var r := Restored(s, j).0;
      var start := HasStr(j, "objRef") && HasStr(j, "state");
      var reuse := start && HasBool(j, "reuse");
      var prio := reuse && HasNum(j, "prio");
      var numEntr := prio && HasNum(j, "numEntr");
      var schdIntv := numEntr && HasNum(j, "schdIntv");
      && r.reuse == (if reuse then ValueInt(Item(j, "reuse").value) != 0 else s.reuse)
      && r.prio == (if prio then ValueInt(Item(j, "prio").value) else s.prio)
      && r.numEntr == (if numEntr then ValueInt(Item(j, "numEntr").value) else s.numEntr)
      && r.numberOfScheduleEntries == (if numEntr then r.numEntr else s.numberOfScheduleEntries)
      && r.entryDurationInMs == (if schdIntv then ValueInt(Item(j, "schdIntv").value) else s.entryDurationInMs)
      && (!schdIntv ==> r.schdIntv == s.schdIntv && r.startTime == s.startTime)
      && (schdIntv ==>
            r.startTime == if HasNum(j, "ActStrTm") then ValueUInt64(Item(j, "ActStrTm").value) else s.startTime)
      && (if schdIntv && HasNum(j, "ActStrTm")
          then r.shown == s.shown.(actStrTm := r.startTime, actStrTmQ := if r.startTime != 0 then GoodQ else InvalidQ)
          else r.shown == s.shown)
  {
    hide ValueInt, ValueUInt64, PutValues, PutStartTimes, SetVal, StateFromString, HasArr;
  }

  /** A start time item without a time clears the slot; without a rule, or parts of one, the slot keeps its own. */
  lemma SlotItem(slot: StrTm, item: Json)
    ensures
      var r := PutSlot(slot, item);
      && r.name == slot.name
      && (slot.setTm.Some? && Item(item, "t").None? ==> r.setTm == Some(0))
      && (slot.setTm.Some? && Item(item, "t").Some? ==> r.setTm == Some(ValueUInt64(Item(item, "t").value)))
      && (slot.setTm.None? ==> r.setTm == None)
      && (slot.setCal.None? || Item(item, "setCal").None? ==> r.setCal == slot.setCal)
      && (slot.setCal.Some? && Item(item, "setCal").Some? && Item(Item(item, "setCal").value, "mn").None? ==>
            r.setCal.Some? && r.setCal.value.mn == slot.setCal.value.mn)
  {
  }
}
