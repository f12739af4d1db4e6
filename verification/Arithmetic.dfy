/** Quotients and remainders of non-negative numbers. */
module Arithmetic {
  lemma DivisionUnique(x: int, m: int, q: int, r: int)
    requires m > 0 && 0 <= r < m && x == m * q + r
    ensures x / m == q && x % m == r
  {
    var d := q - x / m;
    assert m * d == x % m - r by {
      assert m * d == m * q - m * (x / m);
    }
    assert d >= 1 ==> m * d >= m;
    assert d <= -1 ==> m * d <= -m;
  }

  lemma NextDivision(k: nat, n: nat)
    requires n > 0
    ensures (k + 1) % n == if k % n == n - 1 then 0 else k % n + 1
    ensures (k + 1) / n == if k % n == n - 1 then k / n + 1 else k / n
  {
    var q, r := k / n, k % n;
    if r == n - 1 {
      assert k + 1 == n * (q + 1);
      DivisionUnique(k + 1, n, q + 1, 0);
    } else {
      DivisionUnique(k + 1, n, q, r + 1);
    }
  }

  lemma QuotientNatural(a: int, m: int)
    requires a >= 0 && m > 0
    ensures a / m >= 0
  {
    var q := a / m;
    assert a < m * q + m;
    assert q <= -1 ==> m * q <= -m;
  }

  lemma DivMonotone(a: nat, b: nat, m: nat)
    requires a <= b && m > 0
    ensures a / m <= b / m
  {
    var p, q := a / m, b / m;
    assert m * p <= a <= b < m * q + m;
    assert m * (p - q) < m;
    assert p - q >= 1 ==> m * (p - q) >= m;
  }
}
