// Start times: the slots of a one-shot schedule and the calendar rule of a
// periodic one. Times are milliseconds since the epoch; local time is the clock
// plus a fixed offset in seconds.
module StartTimes {
  import opened CTypes
  import opened Types

  const HOUR_MS: int := 3_600_000
  const MINUTE_MS: int := 60_000

  // ---- One-shot schedules ----

  /** getStartTime */
  function SlotTime(slot: StrTm): nat {
    if slot.setTm.Some? then slot.setTm.value else 0
  }

  /** updateNextStartTime: fold one slot into the best start found so far. */
  function UpdateNext(slot: StrTm, next: nat, now: nat): nat {
    var t := SlotTime(slot);
    if t > now && (next == 0 || t <= next) then t else next
  }

  function NextOneShot(slots: seq<StrTm>, now: nat): nat {
    if slots == [] then 0
    else UpdateNext(slots[|slots| - 1], NextOneShot(slots[..|slots| - 1], now), now)
  }

  /** `r` is 0 when no slot lies in the future, and the earliest future slot otherwise. */
  ghost predicate IsEarliestFuture(slots: seq<StrTm>, now: nat, r: nat) {
    && (r == 0 <==> forall k :: 0 <= k < |slots| ==> SlotTime(slots[k]) <= now)
    && (r != 0 ==> r > now && exists k :: 0 <= k < |slots| && SlotTime(slots[k]) == r)
    && (r != 0 ==> forall k :: 0 <= k < |slots| && SlotTime(slots[k]) > now ==> r <= SlotTime(slots[k]))
  }

  lemma {:induction false} NextOneShotIsEarliest(slots: seq<StrTm>, now: nat)
    ensures IsEarliestFuture(slots, now, NextOneShot(slots, now))
  {
    if slots != [] {
      var n := |slots| - 1;
      var before := slots[..n];
      NextOneShotIsEarliest(before, now);
      var p := NextOneShot(before, now);
      assert p != 0 ==> exists k :: 0 <= k < n && SlotTime(slots[k]) == SlotTime(before[k]) == p;
      assert forall k :: 0 <= k < n ==> before[k] == slots[k];
    }
  }

  lemma EarliestFutureUnique(slots: seq<StrTm>, now: nat, r: nat)
    ensures IsEarliestFuture(slots, now, r) <==> r == NextOneShot(slots, now)
  {
    NextOneShotIsEarliest(slots, now);
  }

  /** The scan behind schedule_getNextStartTime for a one-shot schedule. */
  method ScanOneShot(slots: seq<StrTm>, now: nat) returns (next: nat)
    ensures next == NextOneShot(slots, now)
    ensures IsEarliestFuture(slots, now, next)
  {
    next := 0;
    for k := 0 to |slots|
      invariant next == NextOneShot(slots[..k], now)
    {
      assert slots[..k + 1][..k] == slots[..k];
      next := UpdateNext(slots[k], next, now);
    }
    assert slots[..|slots|] == slots;
    NextOneShotIsEarliest(slots, now);
  }

  /** eraseStartTime: the slot that was just used is set to zero. */
  function EraseSlot(slot: StrTm, used: nat): StrTm {
    if slot.setTm == Some(used) then slot.(setTm := Some(0)) else slot
  }

  function Erase(slots: seq<StrTm>, used: nat): (r: seq<StrTm>)
    ensures |r| == |slots|
    ensures forall k :: 0 <= k < |slots| ==> r[k] == EraseSlot(slots[k], used)
  {
    seq(|slots|, k requires 0 <= k < |slots| => EraseSlot(slots[k], used))
  }

  /** Slot by slot: the used time becomes 0, and every other time, and every name and rule, stays. */
  lemma ErasesExactly(slots: seq<StrTm>, used: nat)
    ensures |Erase(slots, used)| == |slots|
    ensures forall k :: 0 <= k < |slots| ==>
      var slot, erased := slots[k], Erase(slots, used)[k];
      && erased.name == slot.name && erased.setCal == slot.setCal && (erased.setTm.Some? <==> slot.setTm.Some?)
      && (SlotTime(slot) == used ==> SlotTime(erased) == 0)
      && (SlotTime(slot) != used ==> SlotTime(erased) == SlotTime(slot))
  {
  }

  /** Erasing a start that has passed changes nothing about the starts still ahead. */
  lemma EraseKeepsFuture(slots: seq<StrTm>, used: nat, now: nat, r: nat)
    requires used <= now
    ensures IsEarliestFuture(Erase(slots, used), now, r) <==> IsEarliestFuture(slots, now, r)
  {
    ErasesExactly(slots, used);
    hide Erase;
    if r != 0 {
      assert (exists k :: 0 <= k < |slots| && SlotTime(slots[k]) == r) && r > now ==>
          exists k :: 0 <= k < |slots| && SlotTime(Erase(slots, used)[k]) == r;
    }
  }

  /** The number of slots that still hold a time. */
  function Pending(slots: seq<StrTm>): nat {
    if slots == [] then 0
    else Pending(slots[..|slots| - 1]) + if SlotTime(slots[|slots| - 1]) != 0 then 1 else 0
  }

  /** Erasing never adds a pending slot, and removes one if the time was in a slot. */
  lemma {:induction false} EraseReducesPending(slots: seq<StrTm>, used: nat)
    ensures Pending(Erase(slots, used)) <= Pending(slots)
    ensures used != 0 && (exists k :: 0 <= k < |slots| && SlotTime(slots[k]) == used)
            ==> Pending(Erase(slots, used)) < Pending(slots)
  {
    if slots != [] {
      var n := |slots| - 1;
      EraseReducesPending(slots[..n], used);
      assert Erase(slots, used)[..n] == Erase(slots[..n], used);
      assert forall k :: 0 <= k < n ==> slots[..n][k] == slots[k];
    }
  }

  /** Some slot plus the duration still lies ahead (checkForValidStartTimes of a one-shot schedule). */
  ghost predicate SomeSlotOpen(slots: seq<StrTm>, durationMs: nat, now: nat) {
    exists k :: 0 <= k < |slots| && UInt64(SlotTime(slots[k]) + durationMs) > now
  }

  /** With the durations added up in 64 bits, and plainly where nothing wraps. */
  lemma SlotOpenExactly(slots: seq<StrTm>, durationMs: int, now: nat)
    requires durationMs >= 0
    ensures SomeSlotOpen(slots, UInt64(durationMs), now)
            <==> exists k :: 0 <= k < |slots| && (SlotTime(slots[k]) + durationMs) % TWO_64 > now
    ensures (forall k :: 0 <= k < |slots| ==> SlotTime(slots[k]) + durationMs < TWO_64) ==>
      (SomeSlotOpen(slots, UInt64(durationMs), now)
       <==> exists k :: 0 <= k < |slots| && SlotTime(slots[k]) + durationMs > now)
  {
    forall k | 0 <= k < |slots|
      ensures UInt64(SlotTime(slots[k]) + UInt64(durationMs)) == (SlotTime(slots[k]) + durationMs) % TWO_64
    {
      AddWrapped(SlotTime(slots[k]), durationMs);
    }
  }

  lemma AddWrapped(a: nat, b: nat)
    ensures (a + b % TWO_64) % TWO_64 == (a + b) % TWO_64
  {
  }

  method ScanSlotOpen(slots: seq<StrTm>, durationMs: nat, now: nat) returns (valid: bool)
    ensures valid <==> SomeSlotOpen(slots, durationMs, now)
  {
    valid := false;
    for k := 0 to |slots|
      invariant valid <==> exists j :: 0 <= j < k && UInt64(SlotTime(slots[j]) + durationMs) > now
    {
      if UInt64(SlotTime(slots[k]) + durationMs) > now {
        valid := true;
      }
    }
  }

  // ---- Periodic schedules ----

  /** handleSetCal: the range checks on day, hour and minute. */
  predicate CalValid(cal: SetCal) {
    0 <= cal.day <= 31 && 0 <= cal.hr <= 23 && 0 <= cal.mn <= 59
  }

  /** localtime_r with tm_min (hourly) or tm_hour (daily) replaced, back through timelocal. */
  function CalendarStart(cal: SetCal, now: nat, offset: int): nat {
    var local := now / 1000 + offset;
    var moved := if cal.occPer == 1 then local - local % 86400 + cal.hr * 3600 + local % 3600
                 else local - local % 3600 + cal.mn * 60 + local % 60;
    UInt64((moved - offset) * 1000 + now % 1000)
  }

  /** updateNextPeriodicStartTime; `durationMs` is the `int` product of interval and entry count. */
  function UpdatePeriodic(cal: SetCal, next: nat, now: nat, offset: int, durationMs: int): nat {
    if cal.occType != 0 || (cal.occPer != 0 && cal.occPer != 1) then next
    else
      var start := CalendarStart(cal, now, offset);
      // "startTime <= startTime <= nextStartTime || nextStartTime == 0" holds for every value.
      if start >= now then start
      else if now < UInt64(start + durationMs) then start
      else
        var later := UInt64(start + HOUR_MS);
        if cal.occPer == 1 then (if later <= next then later else next)
        else if later >= now && (later <= next || next == 0) then later
        else next
  }

  function UpdatePeriodicSlot(slot: StrTm, next: nat, now: nat, offset: int, durationMs: int): nat {
    if slot.setCal.Some? && CalValid(slot.setCal.value)
    then UpdatePeriodic(slot.setCal.value, next, now, offset, durationMs)
    else next
  }

  function NextPeriodic(slots: seq<StrTm>, now: nat, offset: int, durationMs: int): nat {
    if slots == [] then 0
    else
      var before := NextPeriodic(slots[..|slots| - 1], now, offset, durationMs);
      UpdatePeriodicSlot(slots[|slots| - 1], before, now, offset, durationMs)
  }

  /** The scan behind schedule_getNextStartTime for a periodic schedule. */
  method ScanPeriodic(slots: seq<StrTm>, now: nat, offset: int, durationMs: int) returns (next: nat)
    ensures next == NextPeriodic(slots, now, offset, durationMs)
  {
    next := 0;
    for k := 0 to |slots|
      invariant next == NextPeriodic(slots[..k], now, offset, durationMs)
    {
      assert slots[..k + 1][..k] == slots[..k];
      next := UpdatePeriodicSlot(slots[k], next, now, offset, durationMs);
    }
    assert slots[..|slots|] == slots;
  }

  /** A supported hourly rule. */
  predicate Hourly(cal: SetCal) {
    CalValid(cal) && cal.occType == 0 && cal.occPer == 0
  }

  /** No clock arithmetic wraps: at least an hour after the epoch, and well before 2^64. */
  predicate ClockInRange(now: nat, durationMs: int) {
    HOUR_MS <= now < TWO_64 - 2 * HOUR_MS && 0 <= durationMs < TWO_31 && now + durationMs < TWO_64
  }

  /** The minute within the hour that local time shows. */
  function LocalMinute(t: nat, offset: int): int {
    (t / 1000 + offset) % 3600 / 60
  }

  /**
    * What a start time of an hourly schedule means: minute `mn` of a local hour,
    * a whole number of minutes away from now, and either within the next hour
    * or in an execution that is still going on.
    */
  ghost predicate IsHourlyStart(r: nat, cal: SetCal, now: nat, offset: int, durationMs: int) {
    && r != 0
    && LocalMinute(r, offset) == cal.mn
    && (r - now) % MINUTE_MS == 0
    && (now <= r < now + HOUR_MS || (now - HOUR_MS < r < now && now < r + durationMs))
  }

  lemma ModOfMultiple(q: int, r: int)
    requires 0 <= r < 3600
    ensures (3600 * q + r) % 3600 == r
  {
  }

  lemma HourParts(h: int, m: int, s: int)
    requires 0 <= m < 60 && 0 <= s < 60
    ensures (3600 * h + 60 * m + s) % 3600 == 60 * m + s
    ensures (3600 * h + 60 * m + s) % 3600 / 60 == m
  {
    ModOfMultiple(h, 60 * m + s);
    assert 3600 * h + 60 * m + s == 3600 * h + (60 * m + s);
  }

  lemma MinutesInSeconds(t: int, k: int)
    ensures (t + k * MINUTE_MS) / 1000 == t / 1000 + k * 60
  {
    assert t + k * MINUTE_MS == t + 1000 * (k * 60);
  }

  /** Shifting a time by whole minutes, kept inside the same local hour. */
  lemma ShiftMinutes(t: nat, offset: int, mn: int)
    requires 0 <= mn < 60
    ensures ((t + (mn - LocalMinute(t, offset)) * MINUTE_MS) / 1000 + offset) % 3600 / 60 == mn
  {
    var local := t / 1000 + offset;
    var h, m, s := local / 3600, local % 3600 / 60, local % 3600 % 60;
    MinutesInSeconds(t, mn - m);
    assert local == 3600 * h + 60 * m + s;
    HourParts(h, mn, s);
  }

  lemma MoveMinute(local: int, mn: int)
    ensures local - local % 3600 + mn * 60 + local % 60 == local + (mn - local % 3600 / 60) * 60
  {
    var h, m := local / 3600, local % 3600 / 60;
    assert local == 60 * (60 * h + m) + local % 3600 % 60;
    assert local % 60 == local % 3600 % 60;
  }

  /** Moving the minute hand: the candidate start in the running local hour. */
  lemma CalendarStartHourly(cal: SetCal, now: nat, offset: int)
    requires Hourly(cal) && HOUR_MS <= now < TWO_64 - 2 * HOUR_MS
    ensures CalendarStart(cal, now, offset) == now + (cal.mn - LocalMinute(now, offset)) * MINUTE_MS
    ensures now - HOUR_MS < CalendarStart(cal, now, offset) < now + HOUR_MS
    ensures LocalMinute(CalendarStart(cal, now, offset), offset) == cal.mn
  {
    MoveMinute(now / 1000 + offset, cal.mn);
    ShiftMinutes(now, offset, cal.mn);
  }

  lemma OneHourLater(t: nat, offset: int)
    ensures LocalMinute(t + HOUR_MS, offset) == LocalMinute(t, offset)
  {
    assert (t + HOUR_MS) / 1000 == t / 1000 + 3600;
  }

  lemma WholeMinutes(now: int, k: int)
    ensures (now + k * MINUTE_MS - now) % MINUTE_MS == 0
    ensures (now + k * MINUTE_MS + HOUR_MS - now) % MINUTE_MS == 0
  {
  }

  /** One hourly rule, starting from scratch or from its own result. */
  lemma HourlyNextStart(cal: SetCal, next: nat, now: nat, offset: int, durationMs: int)
    requires Hourly(cal) && ClockInRange(now, durationMs)
    requires next == 0 || next == UpdatePeriodic(cal, 0, now, offset, durationMs)
    ensures UpdatePeriodic(cal, next, now, offset, durationMs) == UpdatePeriodic(cal, 0, now, offset, durationMs)
    ensures IsHourlyStart(UpdatePeriodic(cal, next, now, offset, durationMs), cal, now, offset, durationMs)
  {
    hide CalendarStart, LocalMinute;
    CalendarStartHourly(cal, now, offset);
    WholeMinutes(now, cal.mn - LocalMinute(now, offset));
    OneHourLater(CalendarStart(cal, now, offset), offset);
  }

  /** Any number of identical hourly slots behaves like one. */
  lemma {:induction false} IdenticalHourlySlots(slots: seq<StrTm>, cal: SetCal, now: nat, offset: int, durationMs: int)
    requires Hourly(cal) && ClockInRange(now, durationMs)
    requires slots != [] && forall k :: 0 <= k < |slots| ==> slots[k].setCal == Some(cal)
    ensures NextPeriodic(slots, now, offset, durationMs) == UpdatePeriodic(cal, 0, now, offset, durationMs)
    ensures IsHourlyStart(NextPeriodic(slots, now, offset, durationMs), cal, now, offset, durationMs)
  {
    var n := |slots| - 1;
    if n > 0 {
      IdenticalHourlySlots(slots[..n], cal, now, offset, durationMs);
    }
    HourlyNextStart(cal, NextPeriodic(slots[..n], now, offset, durationMs), now, offset, durationMs);
  }

  // ---- Several hourly rules ----

  predicate HourlySlot(slot: StrTm) {
    slot.setCal.Some? && Hourly(slot.setCal.value)
  }

  /** A slot the scan passes over: no rule, or one that is out of range or of an unsupported kind. */
  predicate IgnoredSlot(slot: StrTm) {
    slot.setCal.Some? && CalValid(slot.setCal.value) && slot.setCal.value.occType == 0 ==>
      slot.setCal.value.occPer !in {0, 1}
  }

  /** The start one hourly rule asks for on its own. */
  function Candidate(slot: StrTm, now: nat, offset: int, durationMs: int): nat
    requires HourlySlot(slot)
  {
    UpdatePeriodic(slot.setCal.value, 0, now, offset, durationMs)
  }

  /** The branch that takes a slot without comparing it: its start is ahead, or its execution still going on. */
  predicate Overwrites(slot: StrTm, now: nat, offset: int, durationMs: int) {
    HourlySlot(slot) &&
    var start := CalendarStart(slot.setCal.value, now, offset);
    start >= now || now < UInt64(start + durationMs)
  }

  /** The position of the last slot that is taken without a comparison; 0 if there is none. */
  function LastOverwrite(slots: seq<StrTm>, now: nat, offset: int, durationMs: int): (p: nat)
    ensures p <= |slots| && (slots != [] ==> p < |slots|)
    ensures forall k :: p < k < |slots| ==> !Overwrites(slots[k], now, offset, durationMs)
    ensures p > 0 ==> Overwrites(slots[p], now, offset, durationMs)
  {
    var n := |slots| - 1;
    if slots == [] then 0
    else if Overwrites(slots[n], now, offset, durationMs) then n
    else LastOverwrite(slots[..n], now, offset, durationMs)
  }

  /** `r` is the least candidate of the hourly slots from position `from` on, and 0 if there is no such slot. */
  ghost predicate IsEarliestFrom(r: nat, slots: seq<StrTm>, from: nat, now: nat, offset: int, durationMs: int) {
    && (forall k :: from <= k < |slots| && HourlySlot(slots[k]) ==>
          0 < r <= Candidate(slots[k], now, offset, durationMs))
    && (r != 0 ==> exists k :: from <= k < |slots| && HourlySlot(slots[k])
                               && Candidate(slots[k], now, offset, durationMs) == r)
  }

  /** What one hourly rule makes of the best start so far. */
  lemma HourlyUpdate(slot: StrTm, next: nat, now: nat, offset: int, durationMs: int)
    requires HourlySlot(slot) && ClockInRange(now, durationMs)
    ensures Candidate(slot, now, offset, durationMs) > 0
    ensures
      var c := Candidate(slot, now, offset, durationMs);
      UpdatePeriodicSlot(slot, next, now, offset, durationMs)
      == if Overwrites(slot, now, offset, durationMs) || next == 0 || c <= next then c else next
  {
    hide CalendarStart;
    CalendarStartHourly(slot.setCal.value, now, offset);
  }

  lemma IgnoredUpdate(slot: StrTm, next: nat, now: nat, offset: int, durationMs: int)
    requires IgnoredSlot(slot)
    ensures !HourlySlot(slot) && !Overwrites(slot, now, offset, durationMs)
    ensures UpdatePeriodicSlot(slot, next, now, offset, durationMs) == next
  {
  }

  /**
    * What the scan finds among any hourly rules: the earliest start from the last
    * slot on that is taken without a comparison.
    */
  lemma {:induction false} LaterSlotWins(slots: seq<StrTm>, now: nat, offset: int, durationMs: int)
    requires ClockInRange(now, durationMs)
    requires forall k :: 0 <= k < |slots| ==> HourlySlot(slots[k]) || IgnoredSlot(slots[k])
    ensures
      var p := LastOverwrite(slots, now, offset, durationMs);
      IsEarliestFrom(NextPeriodic(slots, now, offset, durationMs), slots, p, now, offset, durationMs)
  {
    hide Candidate, Overwrites, UpdatePeriodicSlot, HourlySlot, IgnoredSlot;
    if slots != [] {
      var n := |slots| - 1;
      var before := slots[..n];
      LaterSlotWins(before, now, offset, durationMs);
      var next := NextPeriodic(before, now, offset, durationMs);
      assert forall k :: 0 <= k < n ==> before[k] == slots[k];
      if HourlySlot(slots[n]) {
        HourlyUpdate(slots[n], next, now, offset, durationMs);
      } else {
        IgnoredUpdate(slots[n], next, now, offset, durationMs);
      }
    }
  }

  /**
    * The scan finds the earliest start of all exactly when no slot in front of
    * the last uncompared one has a start earlier than all those behind it.
    */
  lemma EarliestExactly(slots: seq<StrTm>, now: nat, offset: int, durationMs: int)
    requires ClockInRange(now, durationMs)
    requires forall k :: 0 <= k < |slots| ==> HourlySlot(slots[k]) || IgnoredSlot(slots[k])
    ensures
      var p := LastOverwrite(slots, now, offset, durationMs);
      IsEarliestFrom(NextPeriodic(slots, now, offset, durationMs), slots, 0, now, offset, durationMs)
      <==> forall j :: 0 <= j < p && HourlySlot(slots[j]) ==>
             exists k :: p <= k < |slots| && HourlySlot(slots[k])
                         && Candidate(slots[k], now, offset, durationMs) <= Candidate(slots[j], now, offset, durationMs)
  {
    hide Candidate, Overwrites, HourlySlot, IgnoredSlot, NextPeriodic;
    var p := LastOverwrite(slots, now, offset, durationMs);
    LaterSlotWins(slots, now, offset, durationMs);
    assert p > 0 ==> HourlySlot(slots[p]) by { OverwriteIsHourly(slots, now, offset, durationMs); }
  }

  lemma OverwriteIsHourly(slots: seq<StrTm>, now: nat, offset: int, durationMs: int)
    ensures
      var p := LastOverwrite(slots, now, offset, durationMs);
      p > 0 ==> p < |slots| && HourlySlot(slots[p])
  {
    hide HourlySlot, CalendarStart;
  }

  /** Two rules: the result is the smaller start unless the second one is taken without a comparison and is later. */
  lemma EarlierOfTwo(a: StrTm, b: StrTm, now: nat, offset: int, durationMs: int)
    requires HourlySlot(a) && HourlySlot(b) && ClockInRange(now, durationMs)
    ensures
      var x, y := Candidate(a, now, offset, durationMs), Candidate(b, now, offset, durationMs);
      NextPeriodic([a, b], now, offset, durationMs) == (if x < y then x else y)
      <==> !(Overwrites(b, now, offset, durationMs) && x < y)
  {
    hide Candidate, Overwrites, UpdatePeriodicSlot, HourlySlot;
    assert [a, b][..1] == [a] && [a][..0] == [];
    HourlyUpdate(a, 0, now, offset, durationMs);
    assert NextPeriodic([a], now, offset, durationMs) == Candidate(a, now, offset, durationMs);
    HourlyUpdate(b, Candidate(a, now, offset, durationMs), now, offset, durationMs);
  }

  /** An input on which the result is not the earliest start: minutes 10 and 50, on the hour. */
  lemma LaterSlotWinsSample()
    ensures
      var at := (mn: int) => StrTm("StrTm1", Some(0), Some(SetCal(0, 0, 0, 0, 0, 1, 0, mn)));
      var now := 100 * HOUR_MS;
      && HourlySlot(at(10)) && Candidate(at(10), now, 0, MINUTE_MS) == now + 10 * MINUTE_MS
      && NextPeriodic([at(10), at(50)], now, 0, MINUTE_MS) == now + 50 * MINUTE_MS
  {
    var at := (mn: int) => StrTm("StrTm1", Some(0), Some(SetCal(0, 0, 0, 0, 0, 1, 0, mn)));
    assert [at(10), at(50)][..1] == [at(10)];
  }

  // ---- Calendar rules in plain numbers ----

  /** One hourly rule with its fields in range gives a start each hour; with a field out of range it is passed over. */
  lemma HourlyRule(slot: StrTm, day: int, hr: int, mn: int, now: nat, offset: int, durationMs: int)
    requires slot.setCal.Some? && ClockInRange(now, durationMs)
    requires
      var cal := slot.setCal.value;
      cal.occType == 0 && cal.occPer == 0 && cal.day == day && cal.hr == hr && cal.mn == mn
    ensures
      var next := NextPeriodic([slot], now, offset, durationMs);
      if 0 <= day <= 31 && 0 <= hr <= 23 && 0 <= mn <= 59
      then IsHourlyStart(next, slot.setCal.value, now, offset, durationMs)
      else next == 0
  {
    assert [slot][..0] == [];
    if 0 <= day <= 31 && 0 <= hr <= 23 && 0 <= mn <= 59 {
      HourlyNextStart(slot.setCal.value, 0, now, offset, durationMs);
    }
  }

  /** Rules of another kind than hourly or daily repetition are passed over. */
  lemma OtherRules(slot: StrTm, next: nat, now: nat, offset: int, durationMs: int)
    requires slot.setCal.Some? && (slot.setCal.value.occType != 0 || slot.setCal.value.occPer !in {0, 1})
    ensures UpdatePeriodicSlot(slot, next, now, offset, durationMs) == next
  {
  }

  /** The hour of the day that local time shows. */
  function LocalHour(t: nat, offset: int): int {
    (t / 1000 + offset) % 86400 / 3600
  }

  lemma MoveHour(local: int, hr: int)
    ensures local - local % 86400 + hr * 3600 + local % 3600 == local + (hr - local % 86400 / 3600) * 3600
  {
    var d, h := local / 86400, local % 86400 / 3600;
    assert local == 3600 * (24 * d + h) + local % 86400 % 3600;
    assert local % 3600 == local % 86400 % 3600;
  }

  lemma DayParts(d: int, h: int, r: int)
    requires 0 <= h < 24 && 0 <= r < 3600
    ensures (86400 * d + (3600 * h + r)) % 86400 / 3600 == h
  {
    assert (86400 * d + (3600 * h + r)) % 86400 == 3600 * h + r;
  }

  lemma HoursInSeconds(t: int, k: int)
    ensures (t + k * HOUR_MS) / 1000 == t / 1000 + k * 3600
  {
    assert t + k * HOUR_MS == t + 1000 * (k * 3600);
  }

  /** Shifting a time by whole hours, kept inside the same local day. */
  lemma ShiftHours(t: nat, offset: int, hr: int)
    requires 0 <= hr < 24
    ensures ((t + (hr - LocalHour(t, offset)) * HOUR_MS) / 1000 + offset) % 86400 / 3600 == hr
  {
    var local := t / 1000 + offset;
    var d, h, r := local / 86400, local % 86400 / 3600, local % 86400 % 3600;
    HoursInSeconds(t, hr - h);
    assert local == 86400 * d + (3600 * h + r);
    DayParts(d, hr, r);
  }

  /** A daily rule moves the clock by whole hours inside the current local day. */
  lemma CalendarStartDaily(cal: SetCal, now: nat, offset: int)
    requires cal.occPer == 1 && 0 <= cal.hr <= 23 && 24 * HOUR_MS <= now < TWO_64 - 24 * HOUR_MS
    ensures CalendarStart(cal, now, offset) == now + (cal.hr - LocalHour(now, offset)) * HOUR_MS
    ensures now - 24 * HOUR_MS < CalendarStart(cal, now, offset) < now + 24 * HOUR_MS
    ensures LocalHour(CalendarStart(cal, now, offset), offset) == cal.hr
  {
    ShiftHours(now, offset, cal.hr);
    MoveHour(now / 1000 + offset, cal.hr);
  }

  /**
    * A daily rule on its own: today's start while it is ahead or its execution is
    * still going on, and none at all afterwards - not tomorrow's either.
    */
  lemma DailyRule(slot: StrTm, now: nat, offset: int, durationMs: int)
    requires slot.setCal.Some? && 24 * HOUR_MS <= now < TWO_64 - 24 * HOUR_MS
    requires 0 <= durationMs < TWO_31 && now + durationMs < TWO_64
    requires
      var cal := slot.setCal.value;
      cal.occType == 0 && cal.occPer == 1 && 0 <= cal.day <= 31 && 0 <= cal.hr <= 23 && 0 <= cal.mn <= 59
    ensures
      var today := now + (slot.setCal.value.hr - LocalHour(now, offset)) * HOUR_MS;
      NextPeriodic([slot], now, offset, durationMs) == if today >= now || now < today + durationMs then today else 0
  {
    hide CalendarStart, LocalHour;
    assert [slot][..0] == [];
    CalendarStartDaily(slot.setCal.value, now, offset);
  }
}
