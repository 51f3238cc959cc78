/** Facts about products, quotients and remainders that several modules share. */
module Arithmetic {
  lemma Products(a: nat, b: nat, c: nat)
    requires a <= b
    ensures a * c <= b * c
  {
    assert b * c == a * c + (b - a) * c;
  }

  lemma ProductsBack(a: nat, b: nat, c: nat)
    requires a * c < b * c
    ensures a < b
  {
    if b <= a {
      Products(b, a, c);
    }
  }

  lemma Multiple(d: int, t: nat)
    ensures d >= 1 ==> d * t >= t
    ensures d <= -1 ==> d * t <= -(t as int)
  {
    if d >= 1 {
      assert d * t == (d - 1) * t + t;
      Products(0, d - 1, t);
    }
    if d <= -1 {
      assert d * t == -((-d - 1) * t) - t;
      Products(0, -d - 1, t);
    }
  }

  /** Quotient and remainder are determined by the equation between them. */
  lemma Division(n: nat, q: nat, r: nat, t: nat)
    requires n == q * t + r && r < t
    ensures n / t == q && n % t == r
  {
    var q0, r0 := n / t, n % t;
    DivisionEquation(n, t);
    assert (q0 - q) * t == q0 * t - q * t;
    Multiple(q0 - q, t);
  }

  lemma DivisionEquation(n: nat, t: nat)
    requires t >= 1
    ensures n == n / t * t + n % t && 0 <= n / t && 0 <= n % t < t
  {
  }

  lemma QuotientAtMost(a: nat, b: nat, s: nat)
    requires s >= 1 && a <= b
    ensures a / s <= b / s
  {
    DivisionEquation(a, s);
    DivisionEquation(b, s);
    assert (b / s + 1) * s == b / s * s + s;
    ProductsBack(a / s, b / s + 1, s);
  }

  lemma RemainderAtMost(n: nat, t: nat)
    requires t >= 1
    ensures n % t <= n
  {
    DivisionEquation(n, t);
    Products(0, n / t, t);
  }

  lemma OneMore(n: nat, s: nat)
    requires s >= 1
    ensures (n + s) / s == n / s + 1 && (n + s) % s == n % s
  {
    DivisionEquation(n, s);
    assert (n / s + 1) * s == n / s * s + s;
    Division(n + s, n / s + 1, n % s, s);
  }
}
