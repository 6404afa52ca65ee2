/** Quotients and remainders. */
module Arithmetic {
  lemma DivModUnique(x: int, n: int, q: int, r: int)
    requires 0 < n && x == n * q + r && 0 <= r < n
    ensures x % n == r && x / n == q
  {
    var q', r' := x / n, x % n;
    assert x == n * q' + r' && 0 <= r' < n;
    assert n * (q - q') == r' - r by {
      assert n * (q - q') == n * q - n * q';
    }
    MulApart(n, q - q');
  }

  lemma MulApart(n: int, d: int)
    requires n > 0
    ensures d >= 1 ==> n * d >= n
    ensures d <= -1 ==> n * d <= -n
  {
    assert n * d - n == n * (d - 1) && n * d + n == n * (d + 1);
  }

  /** Dividing by 2 and then by p is dividing by 2p. */
  lemma HalfFirst(x: nat, p: nat)
    requires p > 0
    ensures x / (2 * p) == x / 2 / p
  {
    var q, r := x / 2 / p, x / 2 % p;
    assert x / 2 == p * q + r;
    assert x == 2 * p * q + (2 * r + x % 2) by {
      assert 2 * p * q == 2 * (p * q);
    }
    DivModUnique(x, 2 * p, q, 2 * r + x % 2);
  }
}
