/** Integer functions, and facts about division that the solver needs help with. */
module Integers {
  function Min(a: int, b: int): int {
    if a < b then a else b
  }

  function Clamp(x: int, low: int, high: int): int {
    if x < low then low else if x > high then high else x
  }

  lemma AtLeastOnce(n: int, g: nat)
    requires n >= 1
    ensures n * g >= g
  {
  }

  /** Quotient and remainder are unique. */
  lemma Quotient(x: int, g: nat, q: int, r: int)
    requires 0 < g && x == q * g + r && 0 <= r < g
    ensures x / g == q && x % g == r
  {
    var k, s := x / g, x % g;
    assert x == k * g + s && 0 <= s < g;
    assert (q - k) * g == q * g - k * g;
    if q > k {
      AtLeastOnce(q - k, g);
    } else if q < k {
      assert (k - q) * g == k * g - q * g;
      AtLeastOnce(k - q, g);
    }
  }

  lemma QuotientBelow(x: nat, g: nat, n: nat)
    requires 0 < g && x < n * g
    ensures x / g < n
  {
    var k := x / g;
    assert x == k * g + x % g;
    assert k >= n ==> k * g >= n * g;
  }
}
