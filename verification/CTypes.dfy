// The C integer conversions the scheduler relies on. Dafny integers are
// unbounded, so every place where the program narrows or wraps says so with
// one of these functions.
module CTypes {
  const TWO_31: int := 0x8000_0000
  const TWO_32: int := 0x1_0000_0000
  const TWO_53: int := 0x20_0000_0000_0000
  const TWO_64: int := 0x1_0000_0000_0000_0000
  const INT_MAX: int := TWO_31 - 1
  const INT_MIN: int := -TWO_31

  /** Conversion to `int`: two's complement, 32 bits. */
  function Int32(x: int): (r: int)
    ensures INT_MIN <= r <= INT_MAX
    ensures r == x <==> INT_MIN <= x <= INT_MAX
    ensures (x - r) % TWO_32 == 0
  {
    var m := x % TWO_32;
    if m < TWO_31 then m else m - TWO_32
  }

  /** Conversion to `uint64_t`. */
  function UInt64(x: int): (r: nat)
    ensures r < TWO_64
    ensures r == x <==> 0 <= x < TWO_64
    ensures (x - r) % TWO_64 == 0
  {
    x % TWO_64
  }

  lemma DivBounds(a: int, b: int)
    requires b > 0
    ensures (a / b) * b <= a < (a / b + 1) * b
    ensures a >= 0 ==> a / b >= 0
  {
    var q := a / b;
    assert a == q * b + a % b;
    assert (q + 1) * b == q * b + b;
  }

  /** Truncation toward zero, as in a C cast from a floating value or a C division. */
  function TruncDiv(a: int, b: int): (q: int)
    requires b > 0
    ensures a >= 0 ==> q >= 0 && q * b <= a < (q + 1) * b
    ensures a < 0 ==> q == -TruncDiv(-a, b)
    decreases a < 0
  {
    if a >= 0 then DivBounds(a, b); a / b else -TruncDiv(-a, b)
  }
}
