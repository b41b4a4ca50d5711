/**
 * Small facts of real arithmetic that the solver does not find on its own
 * inside larger proofs: products and quotients of bounded values.
 */
module RealArith {
  function Abs(x: real): (r: real)
    ensures 0.0 <= r && (r == x || r == -x)
  {
    if x < 0.0 then -x else x
  }

  lemma NonNegProduct(a: real, b: real)
    requires 0.0 <= a && 0.0 <= b
    ensures 0.0 <= a * b
  {
  }

  /** Multiplying by a nonnegative factor keeps the order. */
  lemma MulMonotone(p: real, x: real, y: real)
    requires 0.0 <= p && x <= y
    ensures p * x <= p * y
  {
    NonNegProduct(p, y - x);
    assert p * (y - x) == p * y - p * x;
  }

  lemma ScaleDown(a: real, b: real)
    requires 0.0 <= a && 0.0 <= b <= 1.0
    ensures 0.0 <= a * b <= a
  {
  }

  lemma ZeroProduct(a: real, b: real)
    requires a * b == 0.0
    ensures a == 0.0 || b == 0.0
  {
  }

  lemma PositiveProduct(a: real, b: real)
    requires a * b > 0.0 && b > 0.0
    ensures a > 0.0
  {
  }

  lemma AddBelow(x: real, y: real, a: real, b: real)
    requires 0.0 <= x <= a && 0.0 <= y <= b
    ensures 0.0 <= x + y <= a + b
  {
  }

  lemma DivMul(q: real, d: real)
    requires d != 0.0
    ensures q / d * d == q
  {
  }

  lemma DivSelf(t: real)
    requires t != 0.0
    ensures t / t == 1.0
  {
  }

  lemma DivNonNegative(a: real, t: real)
    requires 0.0 <= a && 0.0 < t
    ensures 0.0 <= a / t
  {
  }

  lemma DivAdd(a: real, b: real, t: real)
    requires t != 0.0
    ensures a / t + b / t == (a + b) / t
  {
  }
}
