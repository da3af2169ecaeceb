/** Greatest common divisors with Bezout coefficients. */
module Gcds {
  import opened Modulo

  function Gcd(a: nat, b: nat): nat
    decreases b
  {
    if b == 0 then a else Gcd(b, a % b)
  }

  ghost function Bezout(a: nat, b: nat): (int, int)
    decreases b
  {
    if b == 0 then (1, 0)
    else
      var (x, y) := Bezout(b, a % b);
      (y, x - (a / b) * y)
  }

  function Combination(x: int, y: int, a: int, b: int): int {
    x * a + y * b
  }

  lemma {:induction false} BezoutIdentity(a: nat, b: nat)
    ensures Combination(Bezout(a, b).0, Bezout(a, b).1, a, b) == Gcd(a, b)
    decreases b
  {
    if b == 0 {
    } else {
      hide Combination;
      BezoutIdentity(b, a % b);
      var (x, y) := Bezout(b, a % b);
      Expand(x, y, a / b, a, b, a % b);
    }
  }

  lemma Expand(x: int, y: int, q: int, a: int, b: int, r: int)
    requires a == q * b + r
    ensures Combination(y, x - q * y, a, b) == Combination(x, y, b, r)
  {
    assert y * (q * b + r) + (x - q * y) * b == x * b + y * r;
  }

  ghost predicate Divides(d: nat, a: int)
    requires d > 0
  {
    a % d == 0
  }

  lemma DividesCombination(d: nat, a: int, b: int, k: int)
    requires d > 0 && Divides(d, a) && Divides(d, b)
    ensures Divides(d, a + k * b)
  {
    var p, q := a / d, b / d;
    assert a == p * d && b == q * d;
    assert a + k * b == (p + k * q) * d by {
      assert k * (q * d) == k * q * d;
    }
    MultipleMod(p + k * q, d);
  }

  /** The result divides both arguments, and every common divisor divides it. */
  lemma {:induction false} GcdDivides(a: nat, b: nat)
    requires a > 0 || b > 0
    ensures Gcd(a, b) > 0 && Divides(Gcd(a, b), a) && Divides(Gcd(a, b), b)
    decreases b
  {
    if b == 0 {
      Mod(a, a, 1, 0);
    } else {
      GcdDivides(b, a % b);
      DividesCombination(Gcd(a, b), a % b, b, a / b);
      assert a == a % b + (a / b) * b;
    }
  }

  lemma GcdGreatest(a: nat, b: nat, d: nat)
    requires (a > 0 || b > 0) && d > 0 && Divides(d, a) && Divides(d, b)
    ensures Divides(d, Gcd(a, b))
  {
    BezoutIdentity(a, b);
    var (x, y) := Bezout(a, b);
    assert a == (a / d) * d;
    assert x * a == x * (a / d) * d;
    MultipleMod(x * (a / d), d);
    DividesCombination(d, x * a, b, y);
  }

  /** If n divides k * s then n / gcd(n, s) divides k. */
  lemma CoprimePart(n: nat, s: nat, k: int)
    requires n > 0 && Divides(n, k * s)
    ensures Gcd(n, s) > 0 && n / Gcd(n, s) > 0 && Divides(n / Gcd(n, s), k)
  {
    var g, t := Gcd(n, s), k * s;
    GcdDivides(n, s);
    ExactQuotient(n, g);
    ExactQuotient(t, n);
    BezoutIdentity(n, s);
    var (x, y) := Bezout(n, s);
    var m, c := n / g, t / n;
    CoprimeFactor(n, m, g, s, k, c, x, y);
    MultipleMod(x * k + y * c, m);
  }

  lemma ExactQuotient(a: int, d: nat)
    requires d > 0 && Divides(d, a)
    ensures a == (a / d) * d
    ensures a > 0 ==> a / d > 0
  {
  }

  lemma CoprimeFactor(n: int, m: int, g: nat, s: int, k: int, c: int, x: int, y: int)
    requires g > 0 && n == m * g && k * s == c * n && x * n + y * s == g
    ensures k == (x * k + y * c) * m
  {
    Combine(x, y, n, s, k, c);
    var w := x * k + y * c;
    assert k * g == w * n == (w * m) * g;
    CancelFactor(k, w * m, g);
  }

  lemma Combine(x: int, y: int, n: int, s: int, k: int, c: int)
    requires k * s == c * n
    ensures k * (x * n + y * s) == (x * k + y * c) * n
  {
    assert k * (y * s) == y * (c * n);
  }

  lemma CancelFactor(a: int, b: int, g: nat)
    requires g > 0 && a * g == b * g
    ensures a == b
  {
    assert (a - b) * g == 0;
    if a > b {
      MulAtLeast(a - b, g);
    } else if a < b {
      MulAtLeast(b - a, g);
    }
  }
}
