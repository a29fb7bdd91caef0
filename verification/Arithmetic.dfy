/** Facts about products, quotients and remainders. */
module Arithmetic {
  lemma ModUnique(x: int, n: nat, q: int, r: int)
    requires n > 0 && x == n * q + r && 0 <= r < n
    ensures x / n == q && x % n == r
  {
    ModUniqueQuotient(n, x / n, q, x % n, r);
  }

  lemma ModUniqueQuotient(n: nat, q0: int, q: int, r0: int, r: int)
    requires 0 <= r < n && 0 <= r0 < n && n * q0 + r0 == n * q + r
    ensures q0 == q && r0 == r
  {
    assert n * (q - q0) == n * q - n * q0;
    ProductBounds(n, q - q0);
  }

  lemma ProductBounds(g: int, x: int)
    requires g >= 0
    ensures x >= 1 ==> g * x >= g
    ensures x <= 0 ==> g * x <= 0
    ensures x <= -1 ==> g * x <= -g
  {
    if x >= 1 {
      assert g * x == g + g * (x - 1);
      assert g * (x - 1) >= 0;
    } else if x <= -1 {
      assert g * x == -g - g * (-x - 1);
      assert g * (-x - 1) >= 0;
    }
  }

  lemma MulMonotone(i: nat, j: nat, m: nat)
    requires i <= j
    ensures i * m <= j * m
  {
    assert (j - i) * m >= 0;
    assert j * m == i * m + (j - i) * m;
  }

  /** Rounding down to a multiple of m, as STATS_INTERVAL_NOW does. */
  lemma RoundDown(x: nat, m: nat)
    requires m > 0
    ensures 0 <= (x / m) * m <= x
    ensures ((x / m) * m) % m == 0
  {
    var q := x / m;
    assert x == m * q + x % m;
    ProductBounds(m, q);
    assert q * m == m * q;
    ModUnique(q * m, m, q, 0);
  }
}
