/** Quotients and remainders. */
module Division {
  lemma DivModUnique(x: int, q: int, r: int, n: int)
    requires n > 0 && 0 <= r < n && x == q * n + r
    ensures x / n == q && x % n == r
  {
    var d := q - x / n;
    assert d * n == x % n - r;
    MulAtLeast(d, n);
    MulAtLeast(-d, n);
  }

  lemma MulAtLeast(t: int, n: int)
    requires n > 0
    ensures t >= 1 ==> t * n >= n
  {
  }

  lemma ModOfMultiple(k: int, x: int, n: int)
    requires n > 0
    ensures (k * n + x) % n == x % n
  {
    var q, r := x / n, x % n;
    assert k * n + x == (k + q) * n + r;
    DivModUnique(k * n + x, k + q, r, n);
  }

  lemma AddModulus(x: int, n: int)
    requires n > 0
    ensures (x + n) % n == x % n
  {
    ModOfMultiple(1, x, n);
  }
}
