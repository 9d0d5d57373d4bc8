// Name families ("StrTm1", "ValASG003", ...) and the search for the data object
// that holds a schedule entry.
module Names {
  import opened Types

  predicate IsDigit(c: char) {
    '0' <= c <= '9'
  }

  predicate AllDigits(s: string) {
    forall i :: 0 <= i < |s| ==> IsDigit(s[i])
  }

  /** `name` is `prefix` followed by zero or more digits. */
  predicate IsInstance(name: string, prefix: string) {
    prefix <= name && AllDigits(name[|prefix|..])
  }

  /** scheduler_checkIfMultiObjInst: scan the characters behind the prefix. */
  method CheckIfMultiObjInst(name: string, multiName: string) returns (isInstance: bool)
    ensures isInstance <==> exists digits: string :: AllDigits(digits) && name == multiName + digits
    ensures isInstance <==> IsInstance(name, multiName)
  {
    isInstance := false;
    if |name| >= |multiName| {
      if name[..|multiName|] == multiName {
        var isNumber := true;
        var i := |multiName|;
        while i < |name|
          invariant |multiName| <= i <= |name|
          invariant isNumber
          invariant forall k :: |multiName| <= k < i ==> IsDigit(name[k])
        {
          if !IsDigit(name[i]) {
            isNumber := false;
            assert !IsDigit(name[|multiName|..][i - |multiName|]);
            break;
          }
          i := i + 1;
        }
        isInstance := isNumber;
      }
    }
    InstanceMeansDigits(name, multiName);
  }

  lemma InstanceMeansDigits(name: string, prefix: string)
    ensures IsInstance(name, prefix) <==> exists digits: string :: AllDigits(digits) && name == prefix + digits
  {
    if IsInstance(name, prefix) {
      assert name == prefix + name[|prefix|..];
    }
    if digits: string :| AllDigits(digits) && name == prefix + digits {
      assert name[|prefix|..] == digits;
    }
  }

  predicate EndsInDigit(s: string) {
    s != [] && IsDigit(s[|s| - 1])
  }

  /** An object claimed by two families has the longer prefix ending in a digit. */
  lemma SharedInstance(name: string, p: string, q: string)
    requires IsInstance(name, p) && IsInstance(name, q)
    requires |p| <= |q| && p != q
    ensures EndsInDigit(q)
  {
    assert p == name[..|p|] && q == name[..|q|];
    assert q[|q| - 1] == name[|p|..][|q| - 1 - |p|];
  }

  /** Different prefixes that do not end in a digit never claim the same object. */
  lemma FamiliesDisjoint(name: string, p: string, q: string)
    requires p != q && !EndsInDigit(p) && !EndsInDigit(q)
    ensures !(IsInstance(name, p) && IsInstance(name, q))
  {
    if IsInstance(name, p) && IsInstance(name, q) {
      if |p| <= |q| { SharedInstance(name, p, q); } else { SharedInstance(name, q, p); }
    }
  }

  /** ... and the families the scans use are of that kind. */
  lemma ScansAreSeparate(name: string, p: string, q: string)
    requires p in ["StrTm", "Schd", "ValASG", "ValENG", "ValING", "ValSPG"]
    requires q in ["StrTm", "Schd", "ValASG", "ValENG", "ValING", "ValSPG"]
    ensures p != q ==> !(IsInstance(name, p) && IsInstance(name, q))
  {
    if p != q {
      FamiliesDisjoint(name, p, q);
    }
  }

  // ---- "%i", "%02i", "%03i", "%04i" ----

  function Decimal(n: nat): (s: string)
    ensures s != [] && AllDigits(s)
  {
    var last := ['0' + (n % 10) as char];
    if n < 10 then last else Decimal(n / 10) + last
  }

  function Zeros(k: nat): (s: string)
    ensures |s| == k && forall i :: 0 <= i < k ==> s[i] == '0'
  {
    seq(k, _ => '0')
  }

  /** sprintf of `i` with a zero-padded field of `width` characters. */
  function Padded(i: int, width: nat): string {
    var sign := if i < 0 then "-" else "";
    var digits := Decimal(if i < 0 then -i else i);
    var have := |sign| + |digits|;
    sign + Zeros(if have < width then width - have else 0) + digits
  }

  function DigitsValue(s: string): nat
    requires AllDigits(s)
  {
    if s == [] then 0
    else 10 * DigitsValue(s[..|s| - 1]) + (s[|s| - 1] - '0') as nat
  }

  lemma {:induction false} DecimalValue(n: nat)
    ensures DigitsValue(Decimal(n)) == n
  {
    var s := Decimal(n);
    if n >= 10 {
      DecimalValue(n / 10);
      assert s[..|s| - 1] == Decimal(n / 10);
    } else {
      assert s[..0] == [];
    }
  }

  lemma {:induction false} LeadingZeros(k: nat, s: string)
    requires AllDigits(s)
    ensures AllDigits(Zeros(k) + s)
    ensures DigitsValue(Zeros(k) + s) == DigitsValue(s)
    decreases k + |s|
  {
    var t := Zeros(k) + s;
    if s != [] {
      LeadingZeros(k, s[..|s| - 1]);
      assert t[..|t| - 1] == Zeros(k) + s[..|s| - 1];
    } else if k > 0 {
      LeadingZeros(k - 1, []);
      assert t[..|t| - 1] == Zeros(k - 1) + [];
    }
  }

  /** A padded positive number is made of digits that spell the number. */
  lemma PaddedValue(i: int, width: nat)
    requires i > 0
    ensures AllDigits(Padded(i, width)) && DigitsValue(Padded(i, width)) == i
  {
    var digits := Decimal(i);
    var k := if |digits| < width then width - |digits| else 0;
    assert Padded(i, width) == Zeros(k) + digits;
    DecimalValue(i);
    LeadingZeros(k, digits);
  }

  // ---- The value object with a given index ----

  function ValuePrefix(t: TargetType): string {
    match t
    case MV => "ValASG"
    case ENS => "ValENG"
    case INS => "ValING"
    case SPS => "ValSPG"
    case UnknownTarget => ""
  }

  /** ModelNode_getChild: the first child of that name. */
  function FindChild(objs: seq<ValueObj>, name: string): (r: Option<nat>)
    ensures r.Some? ==> r.value < |objs| && objs[r.value].name == name
    ensures r.Some? ==> forall k :: 0 <= k < r.value ==> objs[k].name != name
    ensures r.None? ==> forall k :: 0 <= k < |objs| ==> objs[k].name != name
  {
    if objs == [] then None
    else if objs[0].name == name then Some(0)
    else match FindChild(objs[1..], name)
         case Some(k) => Some(k + 1)
         case None => None
  }

  /** The first hit when the index is printed with each of the field widths in turn. */
  function FirstHit(objs: seq<ValueObj>, prefix: string, idx: int, widths: seq<nat>): (r: Option<nat>)
    ensures r.Some? ==> r.value < |objs|
  {
    if widths == [] then None
    else
      var hit := FindChild(objs, prefix + Padded(idx, widths[0]));
      if hit.Some? then hit else FirstHit(objs, prefix, idx, widths[1..])
  }

  /** The data object schedule_getScheduleValueAttribute settles on for index `idx`. */
  function LookupIdx(objs: seq<ValueObj>, prefix: string, idx: int): (r: Option<nat>)
    ensures r.Some? ==> r.value < |objs|
  {
    FirstHit(objs, prefix, idx, [0, 2, 3, 4])
  }

  /** schedule_getScheduleValueAttribute, followed by reading the attribute. */
  function ValueAttr(objs: seq<ValueObj>, t: TargetType, idx: int): Option<MmsValue> {
    if t.UnknownTarget? then None
    else match LookupIdx(objs, ValuePrefix(t), idx)
         case Some(k) => objs[k].value
         case None => None
  }

  lemma {:induction false} FirstHitWidth(objs: seq<ValueObj>, prefix: string, idx: int, widths: seq<nat>)
    returns (width: nat)
    requires FirstHit(objs, prefix, idx, widths).Some?
    ensures objs[FirstHit(objs, prefix, idx, widths).value].name == prefix + Padded(idx, width)
  {
    width := widths[0];
    if FindChild(objs, prefix + Padded(idx, width)).None? {
      width := FirstHitWidth(objs, prefix, idx, widths[1..]);
    }
  }

  lemma FoundNameSpellsIndex(objs: seq<ValueObj>, prefix: string, idx: int)
    requires idx > 0 && LookupIdx(objs, prefix, idx).Some?
    ensures
      var name := objs[LookupIdx(objs, prefix, idx).value].name;
      && IsInstance(name, prefix)
      && DigitsValue(name[|prefix|..]) == idx
  {
    var name := objs[LookupIdx(objs, prefix, idx).value].name;
    var width := FirstHitWidth(objs, prefix, idx, [0, 2, 3, 4]);
    PaddedValue(idx, width);
    assert name[|prefix|..] == Padded(idx, width);
  }

  /** The value family of each kind of schedule. */
  predicate InFamily(t: TargetType, name: string, number: string) {
    || (t.MV? && name == "ValASG" + number)
    || (t.ENS? && name == "ValENG" + number)
    || (t.INS? && name == "ValING" + number)
    || (t.SPS? && name == "ValSPG" + number)
  }

  lemma {:induction false} SomeHit(objs: seq<ValueObj>, prefix: string, idx: int, widths: seq<nat>, width: nat, p: nat)
    requires width in widths && p < |objs| && objs[p].name == prefix + Padded(idx, width)
    ensures FirstHit(objs, prefix, idx, widths).Some?
  {
    if FindChild(objs, prefix + Padded(idx, widths[0])).None? {
      assert widths[0] != width;
      SomeHit(objs, prefix, idx, widths[1..], width, p);
    }
  }

  /**
    * A data object named with the family of the schedule's kind and the index -
    * plain or padded to two, three or four digits - is found, and is the one found
    * when no other name of the family spells that index.
    */
  lemma FamilyIsFound(objs: seq<ValueObj>, t: TargetType, idx: int, width: nat, p: nat)
    requires idx > 0 && width in [0, 2, 3, 4] && p < |objs| && InFamily(t, objs[p].name, Padded(idx, width))
    ensures
      LookupIdx(objs, ValuePrefix(t), idx).Some?
    ensures
      (forall q :: 0 <= q < |objs| && q != p && IsInstance(objs[q].name, ValuePrefix(t)) ==>
         DigitsValue(objs[q].name[|ValuePrefix(t)|..]) != idx)
      ==> LookupIdx(objs, ValuePrefix(t), idx) == Some(p) && ValueAttr(objs, t, idx) == objs[p].value
  {
    hide Padded, DigitsValue, FirstHit;
    SomeHit(objs, ValuePrefix(t), idx, [0, 2, 3, 4], width, p);
    FoundNameSpellsIndex(objs, ValuePrefix(t), idx);
  }

  /** A padded number is as wide as asked for, or as its digits need. */
  lemma PaddedWidth(idx: nat, width: nat)
    ensures |Padded(idx, width)| == if |Decimal(idx)| < width then width else |Decimal(idx)|
  {
  }

  /** Different positive indices reach different data objects. */
  lemma LookupInjective(objs: seq<ValueObj>, prefix: string, i: int, j: int)
    requires i > 0 && j > 0 && i != j
    requires LookupIdx(objs, prefix, i).Some? && LookupIdx(objs, prefix, j).Some?
    ensures LookupIdx(objs, prefix, i) != LookupIdx(objs, prefix, j)
  {
    FoundNameSpellsIndex(objs, prefix, i);
    FoundNameSpellsIndex(objs, prefix, j);
  }

  /** Two object lists with the same names in the same order. */
  predicate SameNames(a: seq<ValueObj>, b: seq<ValueObj>) {
    |a| == |b| && forall i :: 0 <= i < |a| ==> a[i].name == b[i].name
  }

  lemma {:induction false} FindByName(a: seq<ValueObj>, b: seq<ValueObj>, name: string)
    requires SameNames(a, b)
    ensures FindChild(a, name) == FindChild(b, name)
  {
    if a != [] {
      FindByName(a[1..], b[1..], name);
    }
  }

  lemma {:induction false} HitByName(a: seq<ValueObj>, b: seq<ValueObj>, prefix: string, k: int, widths: seq<nat>)
    requires SameNames(a, b)
    ensures FirstHit(a, prefix, k, widths) == FirstHit(b, prefix, k, widths)
  {
    if widths != [] {
      FindByName(a, b, prefix + Padded(k, widths[0]));
      HitByName(a, b, prefix, k, widths[1..]);
    }
  }

  lemma LookupByName(a: seq<ValueObj>, b: seq<ValueObj>, prefix: string, k: int)
    requires SameNames(a, b)
    ensures LookupIdx(a, prefix, k) == LookupIdx(b, prefix, k)
  {
    HitByName(a, b, prefix, k, [0, 2, 3, 4]);
  }

  /** The positions below `k` of the objects that belong to the family `prefix`. */
  function InstancesBelow(objs: seq<ValueObj>, prefix: string, k: nat): set<nat>
    requires k <= |objs|
  {
    set j: nat | j < k && IsInstance(objs[j].name, prefix)
  }

  function InstanceSet(objs: seq<ValueObj>, prefix: string): set<nat> {
    InstancesBelow(objs, prefix, |objs|)
  }

  /** schedule_getNumberOfScheduleEntries */
  function ValueCount(objs: seq<ValueObj>, t: TargetType): nat {
    if t.UnknownTarget? then 0 else |InstanceSet(objs, ValuePrefix(t))|
  }

  lemma OneMoreInstance(objs: seq<ValueObj>, prefix: string, k: nat)
    requires k < |objs|
    ensures |InstancesBelow(objs, prefix, k + 1)|
            == |InstancesBelow(objs, prefix, k)| + if IsInstance(objs[k].name, prefix) then 1 else 0
  {
    var before, after := InstancesBelow(objs, prefix, k), InstancesBelow(objs, prefix, k + 1);
    assert after == before + if IsInstance(objs[k].name, prefix) then {k} else {};
  }

  /** The counting loop behind ValueCount. */
  method CountScheduleEntries(objs: seq<ValueObj>, t: TargetType) returns (count: nat)
    ensures count == ValueCount(objs, t)
  {
    count := 0;
    if t.UnknownTarget? {
      return;
    }
    var prefix := ValuePrefix(t);
    for k := 0 to |objs|
      invariant count == |InstancesBelow(objs, prefix, k)|
    {
      var hit := CheckIfMultiObjInst(objs[k].name, prefix);
      OneMoreInstance(objs, prefix, k);
      if hit {
        count := count + 1;
      }
    }
  }

  /** All of 1..m can be looked up. */
  predicate AllPresent(objs: seq<ValueObj>, t: TargetType, m: int) {
    forall k :: 1 <= k <= m ==> ValueAttr(objs, t, k).Some?
  }

  /** m is the longest contiguous run 1..m of indices that can be looked up. */
  predicate IsLongestRun(objs: seq<ValueObj>, t: TargetType, m: nat) {
    AllPresent(objs, t, m) && ValueAttr(objs, t, m + 1).None?
  }

  /** Pairwise different members of a set are no more than the set has. */
  lemma {:induction false} Pigeonhole(xs: seq<nat>, holes: set<nat>)
    requires forall k :: 0 <= k < |xs| ==> xs[k] in holes
    requires forall j, k :: 0 <= j < k < |xs| ==> xs[j] != xs[k]
    ensures |xs| <= |holes|
  {
    if xs != [] {
      var last := xs[|xs| - 1];
      Pigeonhole(xs[..|xs| - 1], holes - {last});
    }
  }

  /** `found` lists the objects found for the indices 1, 2, ..., |found|. */
  predicate Found(objs: seq<ValueObj>, t: TargetType, found: seq<nat>) {
    forall k :: 0 <= k < |found| ==> FoundAt(objs, t, k + 1, found[k])
  }

  predicate FoundAt(objs: seq<ValueObj>, t: TargetType, idx: int, p: nat) {
    LookupIdx(objs, ValuePrefix(t), idx) == Some(p) && ValueAttr(objs, t, idx).Some?
  }

  lemma FoundAtFacts(objs: seq<ValueObj>, t: TargetType, i: int, p: nat, j: int, q: nat)
    requires i > 0 && j > 0 && FoundAt(objs, t, i, p) && FoundAt(objs, t, j, q)
    ensures !t.UnknownTarget? && p in InstanceSet(objs, ValuePrefix(t))
    ensures i != j ==> p != q
  {
    FoundNameSpellsIndex(objs, ValuePrefix(t), i);
    if i != j {
      LookupInjective(objs, ValuePrefix(t), i, j);
    }
  }

  /** A run of found objects has no repetition and is never longer than the number of value objects. */
  lemma FoundFits(objs: seq<ValueObj>, t: TargetType, found: seq<nat>)
    requires Found(objs, t, found)
    ensures forall j, k :: 0 <= j < k < |found| ==> found[j] != found[k]
    ensures |found| <= ValueCount(objs, t)
  {
    hide InstanceSet, FoundAt, LookupIdx;
    forall j, k | 0 <= j < k < |found| ensures found[j] != found[k] {
      FoundAtFacts(objs, t, j + 1, found[j], k + 1, found[k]);
    }
    forall k | 0 <= k < |found| ensures found[k] in InstanceSet(objs, ValuePrefix(t)) {
      FoundAtFacts(objs, t, k + 1, found[k], k + 1, found[k]);
    }
    Pigeonhole(found, InstanceSet(objs, ValuePrefix(t)));
    if found != [] {
      FoundAtFacts(objs, t, 1, found[0], 1, found[0]);
    }
  }

  lemma PresentMeansFound(objs: seq<ValueObj>, t: TargetType, idx: int) returns (p: nat)
    requires ValueAttr(objs, t, idx).Some?
    ensures FoundAt(objs, t, idx, p)
  {
    p := LookupIdx(objs, ValuePrefix(t), idx).value;
  }

  lemma {:induction false} RunFitsCount(objs: seq<ValueObj>, t: TargetType, m: nat) returns (found: seq<nat>)
    requires AllPresent(objs, t, m)
    ensures |found| == m && Found(objs, t, found)
    ensures m <= ValueCount(objs, t)
  {
    hide LookupIdx, ValueAttr;
    if m == 0 {
      found := [];
    } else {
      found := RunFitsCount(objs, t, m - 1);
      var p := PresentMeansFound(objs, t, m);
      found := found + [p];
      FoundFits(objs, t, found);
    }
  }

  /** No value object's name holds the sign that printing a negative index gives. */
  predicate Unsigned(objs: seq<ValueObj>) {
    forall k :: 0 <= k < |objs| ==> '-' !in objs[k].name
  }

  /** What index 0 reaches has only zeros behind the prefix. */
  lemma FoundNameSpellsZero(objs: seq<ValueObj>, prefix: string)
    requires LookupIdx(objs, prefix, 0).Some?
    ensures
      var name := objs[LookupIdx(objs, prefix, 0).value].name;
      IsInstance(name, prefix) && DigitsValue(name[|prefix|..]) == 0
  {
    var name := objs[LookupIdx(objs, prefix, 0).value].name;
    var width := FirstHitWidth(objs, prefix, 0, [0, 2, 3, 4]);
    var zeros := Zeros(if 1 < width then width - 1 else 0);
    assert Decimal(0) == ['0'];
    assert Padded(0, width) == zeros + Decimal(0);
    DecimalValue(0);
    LeadingZeros(|zeros|, Decimal(0));
    assert zeros == Zeros(|zeros|);
    assert name[|prefix|..] == Padded(0, width);
  }

  lemma NegativeIsSigned(prefix: string, k: int, width: nat)
    requires k < 0
    ensures '-' in prefix + Padded(k, width)
  {
    assert Padded(k, width)[0] == '-';
    assert (prefix + Padded(k, width))[|prefix|] == '-';
  }

  /** When 1..count are all present, and count is the number of value objects, no other index reaches one. */
  lemma NothingElse(objs: seq<ValueObj>, t: TargetType, k: int)
    requires !t.UnknownTarget? && AllPresent(objs, t, ValueCount(objs, t)) && !(1 <= k <= ValueCount(objs, t))
    requires k >= 0 || Unsigned(objs)
    ensures LookupIdx(objs, ValuePrefix(t), k).None?
  {
    hide ValueAttr, DigitsValue, ValuePrefix, FirstHit, AllDigits, Padded;
    var prefix := ValuePrefix(t);
    if k < 0 {
      if LookupIdx(objs, prefix, k).Some? {
        var width := FirstHitWidth(objs, prefix, k, [0, 2, 3, 4]);
        NegativeIsSigned(prefix, k, width);
      }
    } else if LookupIdx(objs, prefix, k).Some? {
      var found := RunFitsCount(objs, t, ValueCount(objs, t));
      var p := LookupIdx(objs, prefix, k).value;
      if k == 0 { FoundNameSpellsZero(objs, prefix); } else { FoundNameSpellsIndex(objs, prefix, k); }
      FoundFits(objs, t, found);
      forall j | 0 <= j < |found| ensures found[j] != p && found[j] in InstanceSet(objs, prefix) {
        FoundAtFacts(objs, t, j + 1, found[j], j + 1, found[j]);
        FoundNameSpellsIndex(objs, prefix, j + 1);
      }
      Pigeonhole(found + [p], InstanceSet(objs, prefix));
    }
  }

  /** schedule_installWriteAccessHandlersForValues: an unbounded search that stops at the first gap. */
  method InstallValueHandlers(objs: seq<ValueObj>, t: TargetType) returns (handled: seq<nat>)
    ensures IsLongestRun(objs, t, |handled|)
    ensures |handled| <= ValueCount(objs, t)
    ensures Found(objs, t, handled)
    ensures forall j, k :: 0 <= j < k < |handled| ==> handled[j] != handled[k]
  {
    hide LookupIdx, ValueAttr;
    handled := [];
    var idx := 1;
    while true
      invariant idx == |handled| + 1
      invariant Found(objs, t, handled) && |handled| <= ValueCount(objs, t)
      invariant forall k :: 1 <= k < idx ==> ValueAttr(objs, t, k).Some?
      decreases ValueCount(objs, t) - |handled|
    {
      var da := ValueAttr(objs, t, idx);
      if da.Some? {
        ghost var p := PresentMeansFound(objs, t, idx);
        var hit := LookupIdx(objs, ValuePrefix(t), idx);
        handled := handled + [hit.value];
        FoundFits(objs, t, handled);
        idx := idx + 1;
      } else {
        break;
      }
    }
    FoundFits(objs, t, handled);
  }

  /** The acceptance test on NumEntr: positive, not above the count, every index present. */
  predicate NumEntrValid(objs: seq<ValueObj>, t: TargetType, n: int) {
    0 < n <= ValueCount(objs, t) && AllPresent(objs, t, n)
  }

  /** NumEntr is accepted exactly up to the end of the longest contiguous run. */
  lemma NumEntrAcceptsRun(objs: seq<ValueObj>, t: TargetType, m: nat, n: int)
    requires IsLongestRun(objs, t, m)
    ensures NumEntrValid(objs, t, n) <==> 0 < n <= m
  {
    if 0 < n <= m {
      var found := RunFitsCount(objs, t, m);
    }
    if NumEntrValid(objs, t, n) {
      assert m + 1 <= n ==> ValueAttr(objs, t, m + 1).Some?;
    }
  }
}
