/**
 * The few pieces of JavaScript semantics the short-code encoder relies on:
 * the ToInt32 conversion behind the `<<` operator and the shift itself, `Math.abs`, and the view
 * of a string as a sequence of UTF-16 code units that `split('')` and
 * `charCodeAt(0)` expose.
 *
 * Every JavaScript number the encoder handles is an integer of magnitude
 * below 2^53, so a Dafny `int` represents it exactly.
 */
module JsSemantics {

  const TwoTo32: int := 0x1_0000_0000
  const TwoTo31: int := 0x8000_0000

  /** A UTF-16 code unit, the value `charCodeAt` returns. */
  type CodeUnit = x: int | 0 <= x < 0x1_0000

  /** The ToInt32 conversion: reduce modulo 2^32 into the signed 32-bit range. */
  function ToInt32(x: int): (r: int)
    ensures -TwoTo31 <= r < TwoTo31
    ensures -TwoTo31 <= x < TwoTo31 ==> r == x
  {
    var m := x % TwoTo32;
    if m < TwoTo31 then m else m - TwoTo32
  }

  /** ToInt32 changes its argument by a multiple of 2^32. */
  lemma ToInt32Modular(x: int)
    ensures (x - ToInt32(x)) % TwoTo32 == 0
  {
    var q := x / TwoTo32;
    if x % TwoTo32 < TwoTo31 {
      DivModUnique(x - ToInt32(x), TwoTo32, q, 0);
    } else {
      DivModUnique(x - ToInt32(x), TwoTo32, q + 1, 0);
    }
  }

  /** Two integers that agree modulo 2^32 have the same ToInt32 image. */
  lemma ToInt32Congruent(x: int, y: int)
    requires (x - y) % TwoTo32 == 0
    ensures ToInt32(x) == ToInt32(y)
  {
    var k := (x - y) / TwoTo32;
    assert x == y + k * TwoTo32;
    ModShift(y, k, TwoTo32);
  }

  lemma ModShift(y: int, k: int, d: int)
    requires d > 0
    ensures (y + k * d) % d == y % d
  {
    var q := y / d;
    var r := y % d;
    assert y + k * d == (q + k) * d + r;
    DivModUnique(y + k * d, d, q + k, r);
  }

  /** Dafny's `/` and `%` are characterised by any quotient and remainder in range. */
  lemma DivModUnique(n: int, d: int, q: int, r: int)
    requires d > 0 && 0 <= r < d && n == q * d + r
    ensures n / d == q && n % d == r
  {
    var q0, r0 := n / d, n % d;
    var k := q - q0;
    assert r0 - r == k * d by {
      assert q0 * d + r0 == q * d + r;
      assert q * d - q0 * d == k * d;
    }
    if k > 0 {
      MulAtLeast(k, d);
    } else if k < 0 {
      MulAtLeast(-k, d);
    }
  }

  lemma MulAtLeast(k: int, d: int)
    requires k >= 1 && d > 0
    ensures k * d >= d
  {
    assert k * d == (k - 1) * d + d;
    assert (k - 1) * d >= 0;
  }

  /**
   * `x << 5`: the left operand is converted by ToInt32, shifted by five bits,
   * and the 32 bits of the result are read back as a signed integer.
   */
  function ShiftLeft5(x: int): (r: int)
    ensures -TwoTo31 <= r < TwoTo31
  {
    ToInt32(ToInt32(x) * 32)
  }

  /** `x << 5` agrees with x * 32 modulo 2^32. */
  lemma ShiftLeft5Multiplies(x: int)
    ensures (ShiftLeft5(x) - x * 32) % TwoTo32 == 0
  {
    var s := ToInt32(x) * 32;
    assert s - x * 32 == (ToInt32(x) - x) * 32;
    ToInt32Modular(x);
    ToInt32Modular(s);
    assert (ToInt32(x) - x) % TwoTo32 == 0 by {
      MultipleOfModulus(x - ToInt32(x), -1);
    }
    MultipleOfModulus(ToInt32(x) - x, 32);
    assert (ToInt32(s) - s) % TwoTo32 == 0 by {
      MultipleOfModulus(s - ToInt32(s), -1);
    }
    CongruentSum(ToInt32(s) - s, s - x * 32);
  }

  /** A multiple of 2^32, scaled, is still a multiple of 2^32. */
  lemma MultipleOfModulus(a: int, b: int)
    requires a % TwoTo32 == 0
    ensures (a * b) % TwoTo32 == 0
  {
    var k := a / TwoTo32;
    assert a == k * TwoTo32;
    assert a * b == (k * b) * TwoTo32;
    DivModUnique(a * b, TwoTo32, k * b, 0);
  }

  lemma CongruentSum(a: int, b: int)
    requires a % TwoTo32 == 0 && b % TwoTo32 == 0
    ensures (a + b) % TwoTo32 == 0
  {
    var ka, kb := a / TwoTo32, b / TwoTo32;
    assert a + b == (ka + kb) * TwoTo32;
    DivModUnique(a + b, TwoTo32, ka + kb, 0);
  }

  /** `Math.abs` on an integer. */
  function Abs(x: int): (r: nat)
    ensures r == x || r == -x
  {
    if x < 0 then -x else x
  }

  /**
   * The UTF-16 code units of a string: a character of the Basic Multilingual
   * Plane is one unit, any other character a surrogate pair.
   */
  function Utf16(s: string): (units: seq<CodeUnit>)
    ensures |units| >= |s|
    ensures (forall i :: 0 <= i < |s| ==> s[i] as int < 0x1_0000) ==>
              |units| == |s| && forall i :: 0 <= i < |s| ==> units[i] == s[i] as int
  {
    if s == [] then []
    else
      var c := s[0] as int;
      var head: seq<CodeUnit> :=
        if c < 0x1_0000 then [c]
        else [0xD800 + (c - 0x1_0000) / 0x400, 0xDC00 + (c - 0x1_0000) % 0x400];
      head + Utf16(s[1..])
  }
}
