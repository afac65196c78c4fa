/** Small facts of real arithmetic that the solver does not find on its own. */
module Reals {

  lemma ZeroProduct(a: real, b: real)
    requires a * b == 0.0
    ensures a == 0.0 || b == 0.0
  {
  }

  lemma SquareNonNegative(a: real)
    ensures a * a >= 0.0
  {
  }

  lemma MulPositive(a: real, b: real)
    requires a > 0.0 && b > 0.0
    ensures a * b > 0.0
  {
  }

  /** Only zero squares to zero. */
  lemma SquareZero(a: real)
    ensures a * a == 0.0 <==> a == 0.0
  {
    if a * a == 0.0 {
      ZeroProduct(a, a);
    }
  }

  /** A square root is zero exactly when its square is. */
  lemma RootZero(r: real, n: real)
    requires r * r == n
    ensures r == 0.0 <==> n == 0.0
  {
    SquareZero(r);
  }

  /** A sum of two squares vanishes only when both terms do. */
  lemma SumOfSquaresZero(x: real, y: real)
    ensures x * x + y * y >= 0.0
    ensures x * x + y * y == 0.0 <==> x == 0.0 && y == 0.0
  {
    SquareNonNegative(x);
    SquareNonNegative(y);
    SquareZero(x);
    SquareZero(y);
  }

  /** Squaring is strictly monotone on the non-negative reals. */
  lemma SquareMonotone(a: real, b: real)
    requires 0.0 <= a && 0.0 <= b
    ensures a < b <==> a * a < b * b
  {
    assert b * b - a * a == (b - a) * (b + a);
    if a < b {
      MulPositive(b - a, b + a);
    } else if b < a {
      MulPositive(a - b, a + b);
      assert a * a - b * b == (a - b) * (a + b);
    }
  }
}
