/** Division facts the solver does not find by itself. */
module Arith {
  lemma DivUnique(x: int, m: int, q: int, r: int)
    requires 0 <= r < m && x == q * m + r
    ensures x / m == q && x % m == r
  {
    var d := x / m;
    assert (q - d) * m == x % m - r;
    assert q - d >= 1 ==> (q - d) * m >= m;
    assert q - d <= -1 ==> (q - d) * m <= -m;
  }

  lemma DivAdd(x: int, k: int, m: int)
    requires m > 0
    ensures (x + k * m) / m == x / m + k && (x + k * m) % m == x % m
  {
    var q, r := x / m, x % m;
    assert (q + k) * m == q * m + k * m;
    DivUnique(x + k * m, m, q + k, r);
  }
}
