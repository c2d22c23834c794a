/** Small facts about products, kept apart so that other proofs stay linear. */
module Arithmetic {

  lemma MulMono(d: int, x: int, y: int)
    requires d >= 0 && x <= y
    ensures d * x <= d * y
  {
  }

  lemma MulSucc(q: int, d: int)
    ensures q * d == (q - 1) * d + d
  {
  }
}
