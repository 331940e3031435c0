/** Facts about Dafny's Euclidean `/` and `%` on a positive divisor that the
    size-class arithmetic relies on. */
module Arith {

  lemma MultipleHasNoRemainder(k: nat, d: int)
    requires d > 0
    ensures (k * d) % d == 0
  {
    var m := k * d;
    assert m == k * d + 0;
    assert m / d == k && m % d == 0 by {
      DivModUnique(m, d, k, 0);
    }
  }

  /** Euclidean division has one quotient and one remainder. */
  lemma DivModUnique(m: int, d: int, q: int, r: int)
    requires d > 0 && 0 <= r < d && m == q * d + r
    ensures m / d == q && m % d == r
  {
    var q' := m / d;
    var r' := m % d;
    assert m == q' * d + r';
    assert (q - q') * d == r' - r;
    if q > q' {
      MulAtLeast(q - q', d);
    } else if q < q' {
      MulAtLeast(q' - q, d);
    }
  }

  lemma MulAtLeast(a: int, d: int)
    requires a >= 1 && d > 0
    ensures a * d >= d
  {
  }

  /** A non-negative dividend leaves a remainder in `[0, d)`, and its
      quotient is positive exactly when it reaches `d`. */
  lemma EuclidBounds(m: int, d: int)
    requires m >= 0 && d > 0
    ensures 0 <= m - (m / d) * d < d
    ensures m / d >= 0
    ensures m / d >= 1 <==> m >= d
  {
    if m < d {
      DivModUnique(m, d, 0, m);
    } else {
      DivShift(m - d, d);
      EuclidBounds(m - d, d);
    }
  }

  lemma MulMono(x: int, y: int, d: int)
    requires x <= y && d > 0
    ensures x * d <= y * d
  {
  }

  lemma MulNonPositive(k: int, d: int)
    requires k <= 0 && d > 0
    ensures k * d <= 0
  {
  }

  /** Adding the divisor adds one to the Euclidean quotient. */
  lemma DivShift(a: int, d: int)
    requires d > 0
    ensures (a + d) / d == a / d + 1
  {
    var q := a / d;
    var m := a % d;
    assert a + d == (q + 1) * d + m;
    DivModUnique(a + d, d, q + 1, m);
  }
}
