/** Facts about whole-number division that the formatters' readers need. */
module Arithmetic {

  lemma MulAtLeast(k: int, d: int)
    requires k >= 1 && d > 0
    ensures k * d >= d
  {
    assert k * d == (k - 1) * d + d;
  }

  /** Two ways of writing a number as whole multiples of `d` plus a remainder
      below `d` agree. */
  lemma DivUnique(q1: int, r1: int, q2: int, r2: int, d: int)
    requires d > 0 && 0 <= r1 < d && 0 <= r2 < d
    requires q1 * d + r1 == q2 * d + r2
    ensures q1 == q2 && r1 == r2
  {
    if q1 > q2 {
      MulAtLeast(q1 - q2, d);
    } else if q1 < q2 {
      MulAtLeast(q2 - q1, d);
    }
  }
}
