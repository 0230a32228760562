/** The facts about products and quotients that the solver does not find by itself. */
module Arithmetic {

  lemma MulMonotone(p: nat, q: nat, k: nat)
    requires p <= q
    ensures p * k <= q * k
  {
    assert (q - p) * k >= 0;
  }

  lemma DivMod(x: int, b: int, q: int, r: int)
    requires b > 0 && 0 <= r < b && x == q * b + r
    ensures x / b == q && x % b == r
  {
    var d := x / b - q;
    assert d * b == r - x % b;
    assert d > 0 ==> d * b >= b;
    assert d < 0 ==> d * b <= -b;
  }
}
