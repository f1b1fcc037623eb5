/** Facts about Euclidean division and remainder that several modules rely on. */
module Arithmetic {
  /** A remainder below twice the modulus needs at most one subtraction. */
  lemma ModBelowTwice(x: int, m: int)
    requires m > 0 && 0 <= x < 2 * m
    ensures x % m == if x < m then x else x - m
  {
    if x < m {
      assert x == m * 0 + x;
    } else {
      assert x == m * 1 + (x - m);
    }
  }

  /** Taking the remainder before adding `j` does not change the remainder. */
  lemma ModAddLeft(x: nat, j: nat, m: nat)
    requires m > 0
    ensures (x % m + j) % m == (x + j) % m
  {
    var q, r := x / m, x % m;
    var q', r' := (r + j) / m, (r + j) % m;
    assert r + j == q' * m + r';
    assert x + j == (q + q') * m + r';
    DivModUnique(x + j, m, q + q', r');
  }

  /** Quotient and remainder are the only pair with `x == q * m + r` and `0 <= r < m`. */
  lemma DivModUnique(x: int, m: int, q: int, r: int)
    requires m > 0 && 0 <= r < m && x == q * m + r
    ensures x / m == q && x % m == r
  {
    var q0, r0 := x / m, x % m;
    assert x == q0 * m + r0;
    assert (q - q0) * m == q * m - q0 * m;
    assert (q - q0) * m == r0 - r;
    if q > q0 { MulAtLeast(q - q0, m); }
    if q < q0 { assert (q0 - q) * m == - ((q - q0) * m); MulAtLeast(q0 - q, m); }
  }

  /** A positive multiple of `m` is at least `m`. */
  lemma MulAtLeast(d: int, m: int)
    requires d >= 1 && m > 0
    ensures d * m >= m
  {
  }

  /** A remainder is at most the number it is taken from. */
  lemma ModAtMost(x: nat, m: nat)
    requires m > 0
    ensures x % m <= x
  {
    if x < m {
      DivModUnique(x, m, 0, x);
    }
  }
}
