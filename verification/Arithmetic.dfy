/** A product of integers does not fall with its second factor. */
module Arithmetic {
  lemma MulMonotone(a: nat, x: int, y: int)
    requires x <= y
    ensures a * x <= a * y
  {
  }
}
