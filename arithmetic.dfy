/** Facts about multiplication that the solver should not have to search for. */
module Arithmetic {

  /** Multiplication by a natural number keeps the order, on either side. */
  lemma MulMonotone(a: nat, b: nat, c: nat)
    requires a <= b
    ensures a * c <= b * c && c * a <= c * b
  {
  }

  /** Multiplication distributes over a successor. */
  lemma MulSucc(a: nat, c: nat)
    ensures (a + 1) * c == a * c + c
  {
  }

  /** A strict inequality between multiples of the same number orders the factors. */
  lemma MulLessCancel(x: nat, y: nat, d: nat)
    requires x * d < y * d
    ensures x < y
  {
    MulMonotone(y, if x <= y then y else x, d);
  }
}
