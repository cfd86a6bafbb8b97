// Quotients and remainders.

module Arithmetic {
  lemma DivUnique(n: int, d: int, q: int, r: int)
    requires d > 0 && 0 <= r < d && n == d * q + r
    ensures n / d == q && n % d == r
  {
    var q' := n / d;
    assert n == d * q' + n % d;
    Multiple(d, q' - q);
    Multiple(d, q - q');
    assert d * (q' - q) == d * q' - d * q == -(d * (q - q'));
  }

  lemma Multiple(d: int, k: int)
    requires d > 0
    ensures k >= 1 ==> d * k >= d
  {}
}
