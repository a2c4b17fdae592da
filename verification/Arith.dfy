/** Division facts stated so that a proof can name the quotient and remainder it expects. */
module Arith {
  lemma Quotient(e: int, k: int, q: int, r: int)
    requires k > 0 && e == k * q + r && 0 <= r < k
    ensures e / k == q && e % k == r
  {
    var d, m := e / k, e % k;
    assert k * (q - d) == m - r;
    assert q - d >= 1 ==> k * (q - d) >= k;
    assert q - d <= -1 ==> k * (q - d) <= -k;
  }

  lemma MulMonotonic(a: nat, b: nat, x: nat, y: nat)
    requires a <= b && x <= y
    ensures a * x <= b * y
  {
    assert a * (y - x) >= 0 && (b - a) * y >= 0;
  }

  lemma DivMod(n: nat, k: nat)
    requires k > 0
    ensures k * (n / k) + n % k == n
  {
  }

  lemma DivLess(n: nat, k: nat)
    requires k >= 2 && n > 0
    ensures 0 <= n / k < n
  {
    DivMod(n, k);
    if n / k >= n {
      MulMonotonic(2, k, n, n / k);
    }
  }
}
