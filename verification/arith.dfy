/** Facts about Euclidean division by a positive divisor, which the solver
    does not find on its own when the divisor is a variable. */
module Arith {

  lemma MulAtLeast(k: int, m: int)
    requires k >= 1 && m >= 1
    ensures k * m >= m
  {
    assert k * m == (k - 1) * m + m;
    assert (k - 1) * m >= 0;
  }

  /** Multiples of d for integers at least one apart are at least d apart,
      and at least 2d apart when the integers are two or more apart. */
  lemma MulGap(hi: int, lo: int, d: int)
    requires lo < hi && d >= 1
    ensures hi * d - lo * d >= d
    ensures hi - lo >= 2 ==> hi * d - lo * d >= 2 * d
  {
    assert hi * d - lo * d == (hi - lo) * d;
    MulAtLeast(hi - lo, d);
    if hi - lo >= 2 {
      MulAtLeast(hi - lo - 1, d);
      assert (hi - lo) * d == (hi - lo - 1) * d + d;
    }
  }

  /** Quotient and remainder are determined by a == q * m + r, 0 <= r < m. */
  lemma DivModUnique(a: int, m: int, q: int, r: int)
    requires m >= 1 && 0 <= r < m
    requires a == q * m + r
    ensures a / m == q && a % m == r
  {
    var q0, r0 := a / m, a % m;
    assert a == q0 * m + r0;
    if q0 < q {
      MulAtLeast(q - q0, m);
    } else if q < q0 {
      MulAtLeast(q0 - q, m);
    }
  }

  /** Going from a to a + 1 bumps the remainder, or wraps it to 0 and bumps the quotient. */
  lemma DivModStep(a: int, m: int)
    requires m >= 1
    ensures a % m + 1 < m ==> (a + 1) / m == a / m && (a + 1) % m == a % m + 1
    ensures a % m + 1 == m ==> (a + 1) / m == a / m + 1 && (a + 1) % m == 0
  {
    var q, r := a / m, a % m;
    DivModUnique(a, m, q, r);
    if r + 1 < m {
      DivModUnique(a + 1, m, q, r + 1);
    } else {
      DivModUnique(a + 1, m, q + 1, 0);
    }
  }

  lemma ShiftMod(a: int, m: int)
    requires m >= 1
    ensures (a + m) % m == a % m && (a + m) / m == a / m + 1
  {
    DivModUnique(a + m, m, a / m + 1, a % m);
  }

  /** A multiple of m leaves no remainder. */
  lemma MulMod(k: int, m: int)
    requires m >= 1
    ensures (k * m) % m == 0 && (k * m) / m == k
  {
    DivModUnique(k * m, m, k, 0);
  }
}
