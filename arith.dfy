/** Facts about `size_t` division and multiplication that the element arithmetic relies on. */
module Arith {

  lemma {:induction false} MulAtLeast(d: nat, size: nat)
    requires d >= 1
    ensures d * size >= size
  {
    if d > 1 {
      MulAtLeast(d - 1, size);
      assert d * size == (d - 1) * size + size;
    }
  }

  /** Euclidean division is determined by quotient and remainder. */
  lemma DivUnique(n: int, size: int, q: int, r: int)
    requires size > 0 && 0 <= r < size && n == q * size + r
    ensures n / size == q && n % size == r
  {
    var q', r' := n / size, n % size;
    assert n == q' * size + r';
    if q > q' {
      assert (q - q') * size == q * size - q' * size;
      MulAtLeast(q - q', size);
    } else if q < q' {
      assert (q' - q) * size == q' * size - q * size;
      MulAtLeast(q' - q, size);
    }
  }

  lemma DivBounds(n: nat, size: nat)
    requires size > 0
    ensures (n / size) * size <= n < (n / size) * size + size
  {
    assert n == (n / size) * size + n % size;
  }

  /** An index below the quotient addresses a whole slot inside `n` bytes. */
  lemma BelowQuotient(i: nat, n: nat, size: nat)
    requires size > 0 && i < n / size
    ensures i * size + size <= n
  {
    DivBounds(n, size);
    assert (n / size - i) * size == (n / size) * size - i * size;
    MulAtLeast(n / size - i, size);
  }

  /** An index at or above the quotient does not address a whole slot inside `n` bytes. */
  lemma AtOrAboveQuotient(i: nat, n: nat, size: nat)
    requires size > 0 && n / size <= i
    ensures n < i * size + size
  {
    DivBounds(n, size);
    if i > n / size {
      assert (i - n / size) * size == i * size - (n / size) * size;
      MulAtLeast(i - n / size, size);
    }
  }

  lemma MulMonotone(a: nat, b: nat, size: nat)
    requires a <= b
    ensures a * size <= b * size
  {
    if a < b {
      MulAtLeast(b - a, size);
      assert (b - a) * size == b * size - a * size;
    }
  }

  /** `n` whole slots inside `m` bytes: the quotient is at least `n`. */
  lemma QuotientAtLeast(n: nat, m: nat, size: nat)
    requires size > 0 && n * size <= m
    ensures n <= m / size
  {
    var r := m - n * size;
    DivBounds(r, size);
    assert m == (n + r / size) * size + r % size;
    DivUnique(m, size, n + r / size, r % size);
  }

  lemma DivStep(n: nat, size: nat)
    requires 0 < size <= n
    ensures (n - size) / size == n / size - 1
    ensures (n - size) % size == n % size
  {
    var q, r := n / size, n % size;
    assert n == q * size + r;
    assert n - size == (q - 1) * size + r;
    DivUnique(n - size, size, q - 1, r);
  }
}
