/** Division with remainder, where the solver needs a hand. */
module Arithmetic {

  lemma MulMonotone(d: nat, a: int, b: int)
    requires a <= b
    ensures d * a <= d * b
  {}

  lemma DivModUnique(n: int, d: nat, q: int, r: int)
    requires d > 0 && n == d * q + r && 0 <= r < d
    ensures n / d == q && n % d == r
  {
    var q', r' := n / d, n % d;
    assert n == d * q' + r';
    if q' < q {
      MulMonotone(d, q' + 1, q);
      assert false;
    } else if q < q' {
      MulMonotone(d, q + 1, q');
      assert false;
    }
  }

  lemma DivNonNegative(n: nat, d: nat)
    requires d > 0
    ensures n / d >= 0
  {
    assert n == d * (n / d) + n % d;
    if n / d < 0 {
      MulMonotone(d, n / d, -1);
      assert false;
    }
  }

  lemma ModOfSum(n: int, k: int, d: nat)
    requires d > 0
    ensures (n % d + k) % d == (n + k) % d
  {
    var q, m := n / d, n % d + k;
    assert n == d * q + n % d;
    assert n + k == d * (q + m / d) + m % d;
    DivModUnique(n + k, d, q + m / d, m % d);
  }

  lemma ModOfProduct(n: int, k: int, d: nat)
    requires d > 0
    ensures (n % d) * k % d == n * k % d
  {
    var q, m := n / d, (n % d) * k;
    assert n == d * q + n % d;
    assert n * k == d * q * k + m;
    assert n * k == d * (q * k + m / d) + m % d;
    DivModUnique(n * k, d, q * k + m / d, m % d);
  }
}
