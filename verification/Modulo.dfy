/** Facts about integer division that the solver does not find on its own. */
module Modulo {

  lemma Mod(a: int, d: int, q: int, r: int)
    requires a == q * d + r && 0 <= r < d
    ensures a % d == r && a / d == q
  {
    var q', r' := a / d, a % d;
    assert (q - q') * d == r' - r;
    if q > q' {
      MulAtLeast(q - q', d);
    } else if q < q' {
      MulAtLeast(q' - q, d);
    }
  }

  lemma MulAtLeast(x: int, d: int)
    requires x >= 1 && d >= 0
    ensures x * d >= d
  {
  }

  lemma AddMultiple(a: int, k: int, d: int)
    requires d > 0
    ensures (a + k * d) % d == a % d
  {
    Mod(a + k * d, d, a / d + k, a % d);
  }

  /** A number is divisible by d exactly when it is a multiple of d. */
  lemma MultipleMod(k: int, d: int)
    requires d > 0
    ensures (k * d) % d == 0 && (k * d) / d == k
  {
    Mod(k * d, d, k, 0);
  }

  lemma SumMod(a: int, b: int, d: int)
    requires d > 0
    ensures (a + b) % d == (a % d + b) % d
    ensures (a + b) % d == (a % d + b % d) % d
  {
    var p, q, r, s := a / d, b / d, a % d, b % d;
    assert a == p * d + r && b == q * d + s;
    assert (p + q) * d == p * d + q * d;
    AddMultiple(r + b, p, d);
    AddMultiple(r + s, p + q, d);
  }
}
