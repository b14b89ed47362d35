/** Facts about products, quotients and remainders of variables, which several modules need. */
module Arith {

  lemma MulMono(a: int, b: int, c: int)
    requires a <= b && 0 <= c
    ensures a * c <= b * c
  {
  }

  lemma NextMultiple(q: nat, n: nat)
    ensures (q + 1) * n == q * n + n
  {
  }

  /** A multiple that is not zero is at least one whole away from it. */
  lemma MulFar(d: int, n: nat)
    ensures d >= 1 ==> d * n >= n
    ensures d <= -1 ==> d * n + n <= 0
  {
    if d >= 1 {
      assert d * n == n + (d - 1) * n && (d - 1) * n >= 0;
    } else if d <= -1 {
      assert d * n + n == (d + 1) * n && (d + 1) * n <= 0;
    }
  }

  /** Quotient and remainder are unique. */
  lemma DivModIs(x: nat, n: nat, q: nat, r: nat)
    requires n > 0 && r < n && x == q * n + r
    ensures x / n == q && x % n == r
  {
    assert x == x / n * n + x % n;
    assert (x / n - q) * n == r - x % n;
    MulFar(x / n - q, n);
  }

  lemma MultipleOf(i: nat, m: nat, unit: nat)
    requires unit > 0 && m % unit == 0
    ensures i * m % unit == 0
  {
    var q := m / unit;
    assert m == q * unit;
    assert i * m == (i * q) * unit;
    DivModIs(i * m, unit, i * q, 0);
  }

  /** Rounding down and rounding up are adjoint: `x / d < q` exactly when `x < q * d`. */
  lemma DivBelow(x: nat, d: nat, q: nat)
    requires 0 < d
    ensures x / d < q <==> x < q * d
  {
    var a := x / d;
    assert x == a * d + x % d;
    if a < q {
      MulMono(a + 1, q, d);
      NextMultiple(a, d);
    } else {
      MulMono(q, a, d);
    }
  }

  lemma DivMono(x: nat, y: nat, d: nat)
    requires x <= y && 0 < d
    ensures x / d <= y / d
  {
    DivBelow(x, d, y / d + 1);
    DivBelow(y, d, y / d + 1);
  }
}
