/** Machine integers, conversions and the transcendental functions of kotlin.math, as the
    modelled code uses them. */
module Numerics {

  const INT_MIN: int := -0x8000_0000
  const INT_MAX: int := 0x7FFF_FFFF
  const LONG_MIN: int := -0x8000_0000_0000_0000
  const LONG_MAX: int := 0x7FFF_FFFF_FFFF_FFFF

  /** Kotlin `Int`. */
  type Int32 = x: int | INT_MIN <= x <= INT_MAX

  /** Kotlin `Long`. */
  type Int64 = x: int | LONG_MIN <= x <= LONG_MAX

  /** Two's complement wrap-around of an exact result into the 32-bit range. */
  function Wrap32(x: int): (r: Int32)
    ensures (r - x) % 0x1_0000_0000 == 0
    ensures INT_MIN <= x <= INT_MAX ==> r == x
  {
    var m := (x - INT_MIN) % 0x1_0000_0000;
    m + INT_MIN
  }

  /** Two's complement wrap-around of an exact result into the 64-bit range. */
  function Wrap64(x: int): (r: Int64)
    ensures (r - x) % 0x1_0000_0000_0000_0000 == 0
    ensures LONG_MIN <= x <= LONG_MAX ==> r == x
  {
    var m := (x - LONG_MIN) % 0x1_0000_0000_0000_0000;
    m + LONG_MIN
  }

  /** Saturating conversion of an exact integer into `Int` (what `Double.toInt()` does). */
  function SatInt32(x: int): (r: Int32)
    ensures INT_MIN <= x <= INT_MAX ==> r == x
    ensures x > INT_MAX ==> r == INT_MAX
    ensures x < INT_MIN ==> r == INT_MIN
  {
    if x > INT_MAX then INT_MAX else if x < INT_MIN then INT_MIN else x
  }

  /** Saturating conversion of an exact integer into `Long` (what `Double.toLong()` does). */
  function SatInt64(x: int): (r: Int64)
    ensures LONG_MIN <= x <= LONG_MAX ==> r == x
    ensures x > LONG_MAX ==> r == LONG_MAX
    ensures x < LONG_MIN ==> r == LONG_MIN
  {
    if x > LONG_MAX then LONG_MAX else if x < LONG_MIN then LONG_MIN else x
  }

  /** Rounding toward zero, the integer part `Double.toInt()` keeps before saturating. */
  function Trunc(x: real): (r: int)
    ensures 0.0 <= x ==> r as real <= x < r as real + 1.0
    ensures x < 0.0 ==> r as real - 1.0 < x <= r as real
  {
    if x >= 0.0 then x.Floor else -((-x).Floor)
  }

  /** `kotlin.math.ceil` on a finite value. */
  function Ceil(x: real): (r: int)
    ensures r as real - 1.0 < x <= r as real
  {
    -((-x).Floor)
  }

  /** Two to the power k. */
  function Pow2(k: nat): (r: nat)
    ensures r >= 1
  {
    if k == 0 then 1 else 2 * Pow2(k - 1)
  }

  /** Two to an integer power, as the exact value `2.0.pow(e)` stands for. */
  function Pow2Real(e: int): (r: real)
    ensures r > 0.0
  {
    if e >= 0 then Pow2(e) as real else 1.0 / Pow2(-e) as real
  }

  /** Kotlin's `%` on integers: the remainder of the division truncated toward zero, which
      takes the sign of the dividend (Dafny's `%` never returns a negative value). */
  function Rem(a: int, b: int): (r: int)
    requires b != 0
    ensures a >= 0 ==> 0 <= r
    ensures a <= 0 ==> r <= 0
    ensures -b < r < b || b < r < -b
  {
    var m := if b < 0 then -b else b;
    if a >= 0 then a % m else -((-a) % m)
  }

  function Min(a: int, b: int): int {
    if a <= b then a else b
  }

  function Max(a: int, b: int): int {
    if a >= b then a else b
  }

  function MinReal(a: real, b: real): real {
    if a <= b then a else b
  }

  function MaxReal(a: real, b: real): real {
    if a >= b then a else b
  }

  /** Sum of a sequence of reals, first element first. */
  function Sum(s: seq<real>): real {
    if |s| == 0 then 0.0 else s[0] + Sum(s[1..])
  }

  /** Sum of the squares of a sequence of reals, accumulated first to last. */
  function SumOfSquares(s: seq<real>): real {
    if |s| == 0 then 0.0 else SumOfSquares(s[..|s| - 1]) + Square(s[|s| - 1])
  }

  function Square(x: real): real {
    x * x
  }

  /** A sum of squares is never negative, and is zero exactly when every term is. */
  lemma {:induction false} SumOfSquaresSilent(s: seq<real>)
    ensures SumOfSquares(s) >= 0.0
    ensures SumOfSquares(s) == 0.0 <==> forall i :: 0 <= i < |s| ==> s[i] == 0.0
  {
    if |s| > 0 {
      var front := s[..|s| - 1];
      var last := s[|s| - 1];
      SumOfSquaresSilent(front);
      assert forall i :: 0 <= i < |front| ==> front[i] == s[i];
      SquarePositive(last);
      if SumOfSquares(s) == 0.0 {
        assert last == 0.0;
        forall i | 0 <= i < |s|
          ensures s[i] == 0.0
        {
          if i < |front| {
            assert front[i] == s[i];
          }
        }
      }
    }
  }

  /** A square is never negative, and is positive away from zero. */
  lemma SquarePositive(x: real)
    ensures Square(x) >= 0.0 && (x != 0.0 ==> Square(x) > 0.0)
  {
    if x > 0.0 {
      calc {
        Square(x);
      ==
        x * x;
      > { assert x * x > 0.0 * x; }
        0.0;
      }
    } else if x < 0.0 {
      calc {
        Square(x);
      ==
        x * x;
      >
        0.0;
      }
    }
  }

  /** The mean of the squares of a non-empty run of samples: never negative, zero exactly for
      silence, and n times it is the sum of the squares. */
  function MeanSquare(s: seq<real>): (ms: real)
    requires |s| > 0
    ensures ms >= 0.0 && ms * |s| as real == SumOfSquares(s)
    ensures ms == 0.0 <==> forall i :: 0 <= i < |s| ==> s[i] == 0.0
  {
    SumOfSquaresSilent(s);
    SumOfSquares(s) / |s| as real
  }

  /** n zero samples: a freshly allocated `DoubleArray(n)`. */
  function Silence(n: nat): (z: seq<real>)
    ensures |z| == n && forall i :: 0 <= i < n ==> z[i] == 0.0
  {
    seq(n, _ => 0.0)
  }

  /** The kotlin.math functions the modelled code calls, supplied by the caller since their
      floating-point values are outside the model. Angles are in turns: `sinTurns(t)` stands
      for sin(2πt) and `cosTurns(t)` for cos(2πt). */
  datatype Transcendentals = Transcendentals(
    sinTurns: real -> real,
    cosTurns: real -> real,
    log10: real -> real,
    pow: (real, real) -> real,
    sqrt: real -> real)

  /** The supplied sine and cosine stay on the unit circle, as the real ones do. */
  ghost predicate UnitCircle(m: Transcendentals) {
    forall t: real :: m.cosTurns(t) * m.cosTurns(t) + m.sinTurns(t) * m.sinTurns(t) == 1.0
  }

  /** `10.0.pow(x)`. */
  function Exp10(m: Transcendentals, x: real): real {
    m.pow(10.0, x)
  }
}
