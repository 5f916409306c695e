/** Facts about Euclidean division that the partition and window proofs share. */
module Arith {
  lemma MulAtLeast(d: int, n: int)
    requires d >= 1 && n > 0
    ensures d * n >= n
  {
    assert d * n == (d - 1) * n + n;
    assert (d - 1) * n >= 0;
  }

  /** Quotient and remainder are the only ones with 0 <= r < n. */
  lemma DivUnique(z: int, n: int, q: int, r: int)
    requires n > 0 && 0 <= r < n && z == q * n + r
    ensures z / n == q && z % n == r
  {
    var q0, r0 := z / n, z % n;
    assert z == q0 * n + r0;
    var d := q - q0;
    assert d * n == r0 - r;
    if d >= 1 { assert d * n >= n by { MulAtLeast(d, n); } }
    if d <= -1 { assert (-d) * n >= n by { MulAtLeast(-d, n); } }
  }

  lemma DivMonotone(x: int, y: int, n: int)
    requires x <= y && n > 0
    ensures x / n <= y / n
  {
    var q, r := x / n, x % n + (y - x);
    assert y == q * n + r;
    assert y == (q + r / n) * n + r % n by {
      assert r == (r / n) * n + r % n;
      assert (q + r / n) * n == q * n + (r / n) * n;
    }
    DivUnique(y, n, q + r / n, r % n);
  }

  lemma DivShift(x: int, n: int)
    requires n >= 1 && x >= n
    ensures (x - n) / n + 1 == x / n
  {
    var q, r := (x - n) / n, (x - n) % n;
    assert x - n == q * n + r;
    assert x == (q + 1) * n + r;
    DivUnique(x, n, q + 1, r);
  }

  lemma DivSmall(x: int, n: int)
    requires 0 <= x < n
    ensures x / n == 0
  {
    DivUnique(x, n, 0, x);
  }
}
