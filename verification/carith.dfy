/**
 The few pieces of C arithmetic the colour kernel relies on, written out
 explicitly because Dafny's own operators differ from C's: the 8-bit
 `unsigned char` channel type, float-to-integer conversion (truncation toward
 zero) and the integer remainder `%` (whose sign follows the dividend).
 Floating-point values are modelled as exact `real`s.
 */
module CArith {

  /** An `unsigned char`: one 8-bit colour channel. */
  type byte = b: int | 0 <= b < 256

  function Abs(a: int): (r: nat)
    ensures r == a || r == -a
  {
    if a < 0 then -a else a
  }

  /** C's conversion of a floating value to an integer type: the fractional
      part is discarded, rounding toward zero. */
  function Trunc(x: real): (n: int)
    ensures 0.0 <= x ==> n as real <= x < n as real + 1.0
    ensures x <= 0.0 ==> n as real - 1.0 < x <= n as real
  {
    if x >= 0.0 then x.Floor else -((-x).Floor)
  }

  /** Converting a floating value to `unsigned char` is defined by C only
      when the truncated value is representable, that is for x in (-1, 256). */
  predicate UCharDefined(x: real)
  {
    -1.0 < x < 256.0
  }

  /** The `(unsigned char)` cast of a floating value. */
  function ToUChar(x: real): (c: byte)
    requires UCharDefined(x)
    ensures 0.0 <= x ==> c as real <= x < c as real + 1.0
    ensures x < 0.0 ==> c == 0
  {
    Trunc(x)
  }

  /** The cast is defined exactly when truncation lands in the byte range. */
  lemma UCharDefinedIffRepresentable(x: real)
    ensures UCharDefined(x) <==> 0 <= Trunc(x) < 256
  {
  }

  /** The cast is monotone: a larger value never yields a smaller channel. */
  lemma ToUCharMonotone(x: real, y: real)
    requires UCharDefined(x) && UCharDefined(y)
    requires x <= y
    ensures ToUChar(x) <= ToUChar(y)
  {
  }

  /** C's integer `a / b`: the quotient rounded toward zero. */
  function CDiv(a: int, b: int): int
    requires b != 0
  {
    if (a < 0) == (b < 0) then Abs(a) / Abs(b) else -(Abs(a) / Abs(b))
  }

  /** C's `a % b`: the remainder left by the truncating quotient, so the
      result carries the sign of `a`. */
  function CRem(a: int, b: int): (r: int)
    requires b != 0
    ensures a == CDiv(a, b) * b + r
    ensures Abs(r) < Abs(b)
    ensures 0 < a ==> 0 <= r
    ensures a < 0 ==> r <= 0
  {
    var m := Abs(b);
    if a >= 0 then a % m else -((-a) % m)
  }

  /** For a non-negative dividend and positive divisor C's remainder is the
      Euclidean one. */
  lemma CRemNonNegative(a: int, b: int)
    requires 0 < b
    ensures 0 <= a ==> CRem(a, b) == a % b
  {
  }
}
