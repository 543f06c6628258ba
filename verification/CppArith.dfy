/**
 * The C++ integer and rounding operators the source relies on, written out
 * over Dafny's unbounded integers and reals.
 *
 * Dafny's `/` and `%` are Euclidean; C++ truncates the quotient toward zero,
 * so the remainder takes the sign of the dividend. Every divisor in the
 * modelled code is a positive literal, hence `b > 0` below.
 */
module CppArith {

  /** C++ `a / b` for a positive divisor: the quotient truncated toward zero. */
  function Quot(a: int, b: int): (q: int)
    requires b > 0
    ensures a >= 0 ==> b * q <= a < b * q + b
    ensures a < 0 ==> b * q - b < a <= b * q
  {
    if a >= 0 then a / b else -((-a) / b)
  }

  /** C++ `a % b` for a positive divisor: `a - b * (a / b)`, same sign as `a`. */
  function Rem(a: int, b: int): (r: int)
    requires b > 0
    ensures a >= 0 ==> 0 <= r < b
    ensures a < 0 ==> -b < r <= 0
    ensures a == b * Quot(a, b) + r
  {
    a - b * Quot(a, b)
  }

  /** On a non-negative dividend C++ and Dafny agree. */
  lemma NonNegativeAgrees(a: int, b: int)
    requires a >= 0 && b > 0
    ensures Quot(a, b) == a / b && Rem(a, b) == a % b
  {
  }

  /**
   * `std::round` followed by `static_cast<int>`: the nearest integer, halfway
   * cases rounded away from zero. Doubles are modelled as reals, so NaN and
   * values outside the range of `int` do not arise here.
   */
  function RoundHalfAway(x: real): (r: int)
    ensures x >= 0.0 ==> r as real - 0.5 <= x < r as real + 0.5
    ensures x < 0.0 ==> r as real - 0.5 < x <= r as real + 0.5
  {
    if x >= 0.0 then (x + 0.5).Floor else -((-x + 0.5).Floor)
  }
}
