/**
 * Real-number stand-ins for the parts of System.Math that the shapes and the
 * image container use, and the small facts of real algebra their proofs need.
 * Every `float` and `double` of the original is a `real` here; rounding, NaN
 * and infinities are not modelled.
 */
module Numerics {

  /** Math.PI: the exact value of the double closest to pi. */
  const PI: real := 3.141592653589793115997963468544185161590576171875

  /** Math.Abs on a floating-point value. */
  function Abs(x: real): (r: real)
    ensures r >= 0.0
    ensures r == x || r == -x
  {
    if x < 0.0 then -x else x
  }

  /**
   * Math.Sqrt, Math.Atan2 and Math.Acos are library code whose bodies are not
   * part of this model. They are passed around as values; `Lawful` states the
   * only facts about them that the proofs rely on.
   */
  datatype MathLib = MathLib(sqrt: real -> real, atan2: (real, real) -> real, acos: real -> real)
  {
    ghost predicate Lawful() {
      && (forall x :: x >= 0.0 ==> sqrt(x) >= 0.0 && sqrt(x) * sqrt(x) == x)
      && (forall y, x :: -PI <= atan2(y, x) <= PI)
      && (forall x :: -1.0 <= x <= 1.0 ==> 0.0 <= acos(x) <= PI)
    }
  }

  lemma SquareNonneg(x: real)
    ensures x * x >= 0.0
  {
    if x < 0.0 {
      assert x * x == (-x) * (-x);
    }
  }

  /** Two numbers with the same square are equal up to sign. */
  lemma SquaresEqual(x: real, s: real)
    requires s >= 0.0 && x * x == s * s
    ensures x == s || x == -s
  {
    assert (x - s) * (x + s) == x * x - s * s;
  }

  lemma SquareZero(x: real)
    requires x * x == 0.0
    ensures x == 0.0
  {
    SquaresEqual(x, 0.0);
  }

  /** Three squares add up to zero only when all three are zero. */
  lemma SumOfSquaresZero(x: real, y: real, z: real)
    requires x * x + y * y + z * z == 0.0
    ensures x == 0.0 && y == 0.0 && z == 0.0
  {
    SquareNonneg(x);
    SquareNonneg(y);
    SquareNonneg(z);
    SquareZero(x);
    SquareZero(y);
    SquareZero(z);
  }

  /** A square of at most one has its root in [-1, 1]. */
  lemma SquareAtMostOne(z: real)
    requires z * z <= 1.0
    ensures -1.0 <= z <= 1.0
  {
    assert (z - 1.0) * (z + 1.0) == z * z - 1.0;
    ProductOfLikeSigns(z - 1.0, z + 1.0);
  }

  lemma ProductOfLikeSigns(a: real, b: real)
    ensures a > 0.0 && b > 0.0 ==> a * b > 0.0
    ensures a < 0.0 && b < 0.0 ==> a * b > 0.0
  {
    if a < 0.0 && b < 0.0 {
      assert a * b == (-a) * (-b);
    }
  }

  /** The axioms determine the square root of a perfect square. */
  lemma SqrtOfSquare(m: MathLib, k: real)
    requires m.Lawful() && k >= 0.0
    ensures m.sqrt(k * k) == k
  {
    SquareNonneg(k);
    var s := m.sqrt(k * k);
    SquaresEqual(s, k);
  }

  /** A non-zero factor can be cancelled. */
  lemma CancelFactor(u: real, v: real, a: real)
    requires a != 0.0 && u * a == v * a
    ensures u == v
  {
    assert (u - v) * a == 0.0;
  }

  lemma DivTimes(p: real, q: real)
    requires q != 0.0
    ensures (p / q) * q == p
  {
  }
}
