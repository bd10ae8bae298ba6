/** Products and quotients by a positive number. */
module Arithmetic {

  /** Multiplying by a positive number keeps the order. */
  lemma Scaled(p: int, q: int, d: nat)
    requires d > 0
    ensures p < q <==> p * d < q * d
  {
    if p < q {
      assert (q - p) * d > 0;
      assert (q - p) * d == q * d - p * d;
    } else {
      assert (p - q) * d >= 0;
      assert (p - q) * d == p * d - q * d;
    }
  }

  lemma DivisionBounds(a: nat, d: nat)
    requires d > 0
    ensures (a / d) * d <= a < (a / d + 1) * d
  {
    assert (a / d + 1) * d == (a / d) * d + d;
  }

  /** A quotient is below `q` exactly when the number is below `q` divisors. */
  lemma QuotientBelow(a: nat, d: nat, q: nat)
    requires d > 0
    ensures a / d < q <==> a < q * d
  {
    DivisionBounds(a, d);
    Scaled(a / d, q, d);
    Scaled(q, a / d + 1, d);
  }

  /** Adding a divisor moves the quotient up, and adding at most one moves it at most one. */
  lemma DivisionStep(a: nat, b: nat, d: nat)
    requires d > 0 && a <= b
    ensures a / d <= b / d
    ensures a + d <= b ==> a / d < b / d
    ensures b <= a + d ==> b / d <= a / d + 1
  {
    var p, q := a / d, b / d;
    DivisionBounds(a, d);
    DivisionBounds(b, d);
    QuotientBelow(a, d, q);
    QuotientBelow(a, d, q + 1);
    QuotientBelow(b, d, p + 2);
    assert (p + 2) * d == (p + 1) * d + d && (q + 1) * d == q * d + d;
  }

  /** The quotient and the remainder are determined. */
  lemma RemainderIs(n: nat, k: nat, m: nat, d: nat)
    requires d > 0 && m < d && n == k * d + m
    ensures n % d == m
  {
    var q := n / d;
    DivisionBounds(n, d);
    assert (k + 1) * d == k * d + d && (q + 1) * d == q * d + d;
    Scaled(q, k + 1, d);
    Scaled(k, q + 1, d);
    assert q == k;
  }
}
