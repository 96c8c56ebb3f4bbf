/** Integer facts shared by the ciphers, and C++'s truncating remainder. */
module Arith {

  function Min(a: int, b: int): int { if a <= b then a else b }

  /**
   * The remainder of C++'s `%` on `int`: it truncates toward zero, so it takes the sign of
   * the dividend (Dafny's own `%` is Euclidean and never negative).
   */
  function CRem(a: int, b: int): (r: int)
    requires b > 0
    ensures -b < r < b
    ensures a >= 0 ==> r == a % b
    ensures a < 0 ==> r <= 0
  {
    if a >= 0 then a % b else -((-a) % b)
  }

  /** Euclidean division is determined by its quotient and remainder. */
  lemma DivModUnique(a: int, d: int, q: int, r: int)
    requires d > 0 && 0 <= r < d && a == q * d + r
    ensures a / d == q && a % d == r
  {
    var q', r' := a / d, a % d;
    assert a == q' * d + r';
    assert (q - q') * d == r' - r;
    if q > q' {
      MulAtLeast(q - q', d);
    } else if q < q' {
      MulAtLeast(q' - q, d);
    }
  }

  lemma MulAtLeast(k: int, d: int)
    requires k >= 1 && d > 0
    ensures k * d >= d
  {
    assert k * d == (k - 1) * d + d;
    assert (k - 1) * d >= 0;
  }

  /** Stepping an index by one keeps its remainder in step, with wrap-around at `d`. */
  lemma ModNext(i: nat, d: nat)
    requires d > 0
    ensures (i + 1) % d == if i % d + 1 == d then 0 else i % d + 1
  {
    var q, r := i / d, i % d;
    assert i == q * d + r;
    if r + 1 == d {
      DivModUnique(i + 1, d, q + 1, 0);
    } else {
      DivModUnique(i + 1, d, q, r + 1);
    }
  }

  /** A number below the divisor is its own remainder. */
  lemma ModSmall(i: nat, d: nat)
    requires i < d
    ensures i % d == i && i / d == 0
  {
    DivModUnique(i, d, 0, i);
  }

  /** `a + d` has the same remainder as `a` and one more in the quotient. */
  lemma DivModAddDivisor(a: nat, d: nat)
    requires d > 0
    ensures (a + d) / d == a / d + 1 && (a + d) % d == a % d
  {
    DivModUnique(a + d, d, a / d + 1, a % d);
  }

  /** Division with remainder, stated once so that callers need not rediscover it. */
  lemma DivMod(a: nat, d: nat)
    requires d > 0
    ensures a == (a / d) * d + a % d && a % d < d
  {}

  /** A multiple by a positive factor is at least the multiplicand. */
  lemma MulAtLeastOne(q: nat, d: nat)
    requires d > 0
    ensures q * d >= q
  {
    MulMonotone(1, d, q);
  }

  /** A quotient is at least q when the dividend holds q whole divisors. */
  lemma DivAtLeast(a: nat, d: nat, q: nat)
    requires d > 0 && a >= q * d
    ensures a / d >= q
  {
    if a / d < q {
      assert (q - a / d) * d == q * d - (a / d) * d;
      MulAtLeast(q - a / d, d);
    }
  }

  /** Division by a positive divisor is monotone. */
  lemma DivMonotone(a: nat, b: nat, d: nat)
    requires d > 0 && a <= b
    ensures a / d <= b / d
  {
    if a / d > b / d {
      assert (a / d - b / d) * d == (a / d) * d - (b / d) * d;
      MulAtLeast(a / d - b / d, d);
    }
  }

  /** Multiplying by a natural number is monotone. */
  lemma MulMonotone(a: nat, b: nat, c: nat)
    requires a <= b
    ensures a * c <= b * c
  {
    assert b * c == a * c + (b - a) * c;
  }
}
