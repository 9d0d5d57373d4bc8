// SchdIntv: the conversion between the attribute (a number with an SI unit and
// a decimal multiplier) and milliseconds. The program computes with doubles;
// the model computes exactly.
module Interval {
  import opened CTypes

  /** Seconds per unit: 4 is the second, 84 the hour, 85 the minute; anything else counts as a second. */
  function BaseTime(siUnit: int): (u: int)
    ensures u in {1, 60, 3600}
  {
    if siUnit == 84 then 3600 else if siUnit == 85 then 60 else 1
  }

  /** Milliseconds per unit. */
  function UnitMs(siUnit: int): (u: int)
    ensures u in {1000, 60000, 3600000}
  {
    BaseTime(siUnit) * 1000
  }

  function Pow10(k: nat): (p: int)
    ensures p >= 1
  {
    if k == 0 then 1 else 10 * Pow10(k - 1)
  }

  /** x * 10^m, truncated toward zero. */
  function Scale(x: int, m: int): int {
    if m >= 0 then x * Pow10(m) else TruncDiv(x, Pow10(-m))
  }

  /** getSchdIntvValueInMs: the product is an `int`, the result a `uint64_t`. */
  function GetMs(v: int, siUnit: int, multiplier: int): nat {
    UInt64(Scale(Int32(v * UnitMs(siUnit)), multiplier))
  }

  /** setSchdIntvValueInMs: the value written to SchdIntv.setVal for an interval in milliseconds. */
  function SetVal(ms: nat, siUnit: int, multiplier: int): int {
    Int32(if multiplier >= 0 then TruncDiv(ms, UnitMs(siUnit) * Pow10(multiplier))
          else TruncDiv(ms * Pow10(-multiplier), UnitMs(siUnit)))
  }

  // ---- Arithmetic ----

  lemma Assoc(a: int, b: int, c: int)
    ensures (a * b) * c == a * (b * c)
  {
  }

  lemma Monotone(a: int, b: int, c: int)
    requires a <= b && c >= 0
    ensures a * c <= b * c
  {
  }

  lemma QuotientUnique(a: int, b: int, q: int, r: int)
    requires b > 0 && q * b <= a < (q + 1) * b && r * b <= a < (r + 1) * b
    ensures q == r
  {
    if r < q { Monotone(r + 1, q, b); } else if q < r { Monotone(q + 1, r, b); }
  }

  lemma TruncDivMultiple(q: nat, b: int)
    requires b > 0
    ensures TruncDiv(q * b, b) == q && (q * b) % b == 0
  {
    Monotone(0, q, b);
    DivBounds(q * b, b);
    QuotientUnique(q * b, b, q, (q * b) / b);
    assert q * b == ((q * b) / b) * b + (q * b) % b;
  }

  /** Dividing numerator and denominator by the same factor. */
  lemma CancelFactor(a: nat, b: int, p: int)
    requires b > 0 && p > 0
    ensures b * p > 0 && a * p >= 0 && TruncDiv(a * p, b * p) == a / b
  {
    var q := a / b;
    Monotone(1, b, p);
    Monotone(0, a, p);
    DivBounds(a, b);
    Monotone(q * b, a, p);
    Assoc(q, b, p);
    Monotone(a + 1, (q + 1) * b, p);
    Assoc(q + 1, b, p);
    QuotientUnique(a * p, b * p, q, TruncDiv(a * p, b * p));
  }

  /** Truncating x/p and scaling back by p loses nothing exactly when p divides x. */
  lemma ScaleBack(v: nat, unit: int, p: int, x: nat, y: int)
    requires unit > 0 && p > 0
    requires x == v * unit && y == TruncDiv(x, p) * p
    ensures 0 <= y <= x
    ensures TruncDiv(y, unit) == v <==> x % p == 0
  {
    Monotone(0, TruncDiv(x, p), p);
    assert TruncDiv(x, p) == x / p;
    assert x == (x / p) * p + x % p;
    if x % p == 0 {
      TruncDivMultiple(v, unit);
    } else {
      assert TruncDiv(y, unit) * unit <= y < v * unit;
    }
  }

  lemma {:induction false} Pow10Add(a: nat, b: nat)
    ensures Pow10(a + b) == Pow10(a) * Pow10(b)
  {
    if a > 0 {
      Pow10Add(a - 1, b);
      Assoc(10, Pow10(a - 1), Pow10(b));
    }
  }

  lemma Pow10Of3()
    ensures Pow10(3) == 1000
  {
    assert Pow10(0) == 1 && Pow10(1) == 10 && Pow10(2) == 100;
  }

  // ---- The conversion ----

  /** The `int` product in getSchdIntvValueInMs is exact precisely below 2^31. */
  lemma ProductExact(v: nat, siUnit: int)
    ensures Int32(v * UnitMs(siUnit)) == v * UnitMs(siUnit) <==> v * UnitMs(siUnit) < TWO_31
  {
  }

  /** The interval fits the C types along the way. */
  predicate InRange(v: nat, siUnit: int, multiplier: int) {
    && v * UnitMs(siUnit) < TWO_31
    && Scale(v * UnitMs(siUnit), multiplier) < TWO_64
  }

  lemma GetInRange(v: nat, siUnit: int, multiplier: int)
    requires InRange(v, siUnit, multiplier)
    ensures v <= v * UnitMs(siUnit) && v < TWO_31
    ensures GetMs(v, siUnit, multiplier) == Scale(v * UnitMs(siUnit), multiplier)
  {
    var x := v * UnitMs(siUnit);
    Monotone(1, UnitMs(siUnit), v);
    if multiplier >= 0 {
      Monotone(0, x, Pow10(multiplier));
    }
    assert Scale(x, multiplier) >= 0;
  }

  lemma SetFits(v: nat, y: nat, unit: int)
    requires unit > 0 && y <= v * unit
    ensures 0 <= TruncDiv(y, unit) <= v
  {
    var w := TruncDiv(y, unit);
    if w > v { Monotone(v + 1, w, unit); }
  }

  /**
    * Writing back what was read restores SchdIntv.setVal exactly when the
    * interval is a whole number of milliseconds.
    */
  lemma SetAfterGet(v: nat, siUnit: int, multiplier: int)
    requires InRange(v, siUnit, multiplier)
    ensures SetVal(GetMs(v, siUnit, multiplier), siUnit, multiplier) == v
            <==> multiplier >= 0 || (v * UnitMs(siUnit)) % Pow10(-multiplier) == 0
  {
    var unit := UnitMs(siUnit);
    GetInRange(v, siUnit, multiplier);
    if multiplier >= 0 {
      Assoc(v, unit, Pow10(multiplier));
      TruncDivMultiple(v, unit * Pow10(multiplier));
    } else {
      var y := TruncDiv(v * unit, Pow10(-multiplier)) * Pow10(-multiplier);
      ScaleBack(v, unit, Pow10(-multiplier), v * unit, y);
      SetFits(v, y, unit);
    }
  }

  /** Milliseconds per step of SchdIntv.setVal for a multiplier of -3 or more: u * 10^(3+m). */
  function StepMs(siUnit: int, multiplier: int): (s: int)
    requires multiplier >= -3
    ensures s >= 1
  {
    BaseTime(siUnit) * Pow10(3 + multiplier)
  }

  lemma StepIsUnit(siUnit: int, multiplier: int)
    requires multiplier >= -3
    ensures multiplier >= 0 ==> StepMs(siUnit, multiplier) == UnitMs(siUnit) * Pow10(multiplier)
    ensures multiplier < 0 ==> StepMs(siUnit, multiplier) * Pow10(-multiplier) == UnitMs(siUnit)
  {
    Pow10Of3();
    if multiplier >= 0 {
      Pow10Add(3, multiplier);
      Assoc(BaseTime(siUnit), 1000, Pow10(multiplier));
    } else {
      Pow10Add(3 + multiplier, -multiplier);
      Assoc(BaseTime(siUnit), Pow10(3 + multiplier), Pow10(-multiplier));
    }
  }

  /** From a multiplier of -3 upward every interval is a whole number of milliseconds. */
  lemma WholeMilliseconds(v: nat, siUnit: int, multiplier: int)
    requires -3 <= multiplier < 0
    ensures (v * UnitMs(siUnit)) % Pow10(-multiplier) == 0
  {
    var step := StepMs(siUnit, multiplier);
    StepIsUnit(siUnit, multiplier);
    Assoc(v, step, Pow10(-multiplier));
    Monotone(0, v, step);
    TruncDivMultiple(v * step, Pow10(-multiplier));
  }

  /** Reading is linear: one step of setVal is StepMs milliseconds. */
  lemma GetIsLinear(v: nat, siUnit: int, multiplier: int)
    requires multiplier >= -3 && InRange(v, siUnit, multiplier)
    ensures GetMs(v, siUnit, multiplier) == v * StepMs(siUnit, multiplier)
  {
    var step := StepMs(siUnit, multiplier);
    GetInRange(v, siUnit, multiplier);
    StepIsUnit(siUnit, multiplier);
    if multiplier >= 0 {
      Assoc(v, UnitMs(siUnit), Pow10(multiplier));
    } else {
      Assoc(v, step, Pow10(-multiplier));
      Monotone(0, v, step);
      TruncDivMultiple(v * step, Pow10(-multiplier));
    }
  }

  /** How many whole steps fit into an interval. */
  function StepsIn(ms: nat, siUnit: int, multiplier: int): (q: nat)
    requires multiplier >= -3
    ensures q * StepMs(siUnit, multiplier) <= ms < q * StepMs(siUnit, multiplier) + StepMs(siUnit, multiplier)
  {
    var step := StepMs(siUnit, multiplier);
    DivBounds(ms, step);
    TruncDiv(ms, step)
  }

  lemma SetIsQuotient(ms: nat, siUnit: int, multiplier: int)
    requires multiplier >= -3 && StepsIn(ms, siUnit, multiplier) < TWO_31
    ensures SetVal(ms, siUnit, multiplier) == StepsIn(ms, siUnit, multiplier)
  {
    StepIsUnit(siUnit, multiplier);
    if multiplier < 0 {
      CancelFactor(ms, StepMs(siUnit, multiplier), Pow10(-multiplier));
    }
  }

  /**
    * Reading back what was written gives the greatest representable interval
    * that does not exceed the one asked for.
    */
  lemma GetAfterSet(ms: nat, siUnit: int, multiplier: int)
    requires multiplier >= -3
    requires InRange(StepsIn(ms, siUnit, multiplier), siUnit, multiplier)
    ensures
      var back := GetMs(SetVal(ms, siUnit, multiplier), siUnit, multiplier);
      var step := StepMs(siUnit, multiplier);
      && back % step == 0
      && back <= ms < back + step
  {
    var q := StepsIn(ms, siUnit, multiplier);
    GetInRange(q, siUnit, multiplier);
    SetIsQuotient(ms, siUnit, multiplier);
    GetIsLinear(q, siUnit, multiplier);
    TruncDivMultiple(q, StepMs(siUnit, multiplier));
  }

  /** Which attributes read as an interval of zero: zero itself, and one finer than a millisecond. */
  lemma ReadsZero(v: nat, siUnit: int, multiplier: int)
    requires InRange(v, siUnit, multiplier)
    ensures GetMs(v, siUnit, multiplier) == 0
            <==> v == 0 || (multiplier < 0 && v * UnitMs(siUnit) < Pow10(-multiplier))
  {
    var x := v * UnitMs(siUnit);
    GetInRange(v, siUnit, multiplier);
    if multiplier >= 0 {
      if v > 0 { Monotone(1, x, Pow10(multiplier)); }
    } else {
      var q := TruncDiv(x, Pow10(-multiplier));
      if q > 0 { Monotone(1, q, Pow10(-multiplier)); }
    }
  }

  /** ... and which read as a multiple of 2^32, the ones that vanish when narrowed to an `int`. */
  lemma NarrowsToZero(v: nat, siUnit: int, multiplier: int)
    requires InRange(v, siUnit, multiplier)
    ensures GetMs(v, siUnit, multiplier) % TWO_32 == 0
            <==> if multiplier >= 0 then (v * UnitMs(siUnit) * Pow10(multiplier)) % TWO_32 == 0
                 else v * UnitMs(siUnit) < Pow10(-multiplier)
  {
    GetInRange(v, siUnit, multiplier);
    if multiplier < 0 {
      hide GetMs;
      ReadsZero(v, siUnit, multiplier);
      QuotientBelow(v * UnitMs(siUnit), Pow10(-multiplier));
      SmallMultiple(GetMs(v, siUnit, multiplier));
    }
  }

  lemma QuotientBelow(x: nat, p: int)
    requires p > 0
    ensures 0 <= TruncDiv(x, p) <= x
  {
    Monotone(1, p, TruncDiv(x, p));
  }

  lemma SmallMultiple(r: nat)
    requires r < TWO_32
    ensures r % TWO_32 == 0 <==> r == 0
  {
  }

  // ---- In plain numbers ----

  /** What one step of SchdIntv.setVal is worth: hours, minutes or seconds times 10^m. */
  lemma StepInPlainNumbers(siUnit: int, multiplier: int)
    requires multiplier >= -3
    ensures siUnit == 84 ==> StepMs(siUnit, multiplier) == 3600 * Pow10(multiplier + 3)
    ensures siUnit == 85 ==> StepMs(siUnit, multiplier) == 60 * Pow10(multiplier + 3)
    ensures siUnit != 84 && siUnit != 85 ==> StepMs(siUnit, multiplier) == Pow10(multiplier + 3)
    ensures Pow10(0) == 1 && Pow10(1) == 10 && Pow10(2) == 100 && Pow10(3) == 1000
  {
    Pow10Of3();
  }

  /** Reading hours, minutes and seconds, with any multiplier from -3 upward. */
  lemma ReadsUnits(v: nat, multiplier: int)
    requires multiplier >= -3
    ensures InRange(v, 84, multiplier) ==> GetMs(v, 84, multiplier) == v * (3600 * Pow10(multiplier + 3))
    ensures InRange(v, 85, multiplier) ==> GetMs(v, 85, multiplier) == v * (60 * Pow10(multiplier + 3))
    ensures InRange(v, 4, multiplier) ==> GetMs(v, 4, multiplier) == v * Pow10(multiplier + 3)
  {
    hide GetMs, InRange, Pow10, StepMs;
    StepInPlainNumbers(84, multiplier);
    StepInPlainNumbers(85, multiplier);
    StepInPlainNumbers(4, multiplier);
    if InRange(v, 84, multiplier) { GetIsLinear(v, 84, multiplier); }
    if InRange(v, 85, multiplier) { GetIsLinear(v, 85, multiplier); }
    if InRange(v, 4, multiplier) { GetIsLinear(v, 4, multiplier); }
  }

  /** The same without a multiplier, while the product fits an `int`. */
  lemma ReadsPlainUnits(v: nat)
    ensures v * 3_600_000 < TWO_31 ==> GetMs(v, 84, 0) == v * 3_600_000
    ensures v * 60_000 < TWO_31 ==> GetMs(v, 85, 0) == v * 60_000
    ensures v * 1000 < TWO_31 ==> GetMs(v, 4, 0) == v * 1000
  {
    assert Pow10(0) == 1;
    assert UnitMs(84) == 3_600_000 && UnitMs(85) == 60_000 && UnitMs(4) == 1000;
  }

  /** Writing divides by the same steps, rounding down. */
  lemma WritesUnits(ms: nat, multiplier: int)
    requires multiplier >= -3
    ensures
      var hours, minutes, seconds := SetVal(ms, 84, multiplier), SetVal(ms, 85, multiplier), SetVal(ms, 4, multiplier);
      var step := Pow10(multiplier + 3);
      && (ms < TWO_31 * 3600 * step ==> hours * (3600 * step) <= ms < hours * (3600 * step) + 3600 * step)
      && (ms < TWO_31 * 60 * step ==> minutes * (60 * step) <= ms < minutes * (60 * step) + 60 * step)
      && (ms < TWO_31 * step ==> seconds * step <= ms < seconds * step + step)
  {
    hide SetVal, Pow10;
    WritesSteps(ms, 84, multiplier);
    WritesSteps(ms, 85, multiplier);
    WritesSteps(ms, 4, multiplier);
    StepInPlainNumbers(84, multiplier);
    StepInPlainNumbers(85, multiplier);
    StepInPlainNumbers(4, multiplier);
  }

  lemma WritesSteps(ms: nat, siUnit: int, multiplier: int)
    requires multiplier >= -3
    ensures
      var step, v := StepMs(siUnit, multiplier), SetVal(ms, siUnit, multiplier);
      ms < TWO_31 * step ==> v * step <= ms < v * step + step
  {
    hide SetVal, StepMs;
    var step, q := StepMs(siUnit, multiplier), StepsIn(ms, siUnit, multiplier);
    if ms < TWO_31 * step {
      if q >= TWO_31 { Monotone(TWO_31, q, step); }
      SetIsQuotient(ms, siUnit, multiplier);
    }
  }
}
