/** Small facts shared by unrelated components. */
module Arithmetic {

  function Min(a: int, b: int): int { if a < b then a else b }

  lemma MulAssoc(a: int, b: int, c: int)
    ensures (a * b) * c == a * (b * c)
  {}
}
