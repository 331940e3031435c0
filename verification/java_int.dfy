/** Java's `int` division and remainder for a positive divisor.

    Java truncates the quotient toward zero, while Dafny's `/` and `%` are
    Euclidean; the two disagree exactly when the dividend is negative. */
module JavaInt {
  import Arith

  /** Java's `a / d` for `d > 0`: the quotient truncated toward zero, so the
      remainder left over has the sign of the dividend. */
  function Div(a: int, d: int): (q: int)
    requires d > 0
    ensures a >= 0 ==> 0 <= a - q * d < d
    ensures a < 0 ==> -d < a - q * d <= 0
    ensures q >= 0 <==> a > -d
  {
    if a >= 0 then
      Arith.EuclidBounds(a, d);
      a / d
    else
      var m := -a;
      Arith.EuclidBounds(m, d);
      assert (-(m / d)) * d == -((m / d) * d);
      -(m / d)
  }

  /** Java's `a % d` for `d > 0`: what is left after the truncated quotient. */
  function Rem(a: int, d: int): (m: int)
    requires d > 0
    ensures a >= 0 ==> 0 <= m < d
    ensures a < 0 ==> -d < m <= 0
    ensures m == 0 <==> a % d == 0
  {
    RemZeroIffDivides(a, d);
    a - Div(a, d) * d
  }

  /** Java's remainder vanishes exactly when `d` divides `a`, whatever the
      sign of `a`; a non-zero Java remainder of a negative dividend is the
      Euclidean one shifted down by `d`. */
  lemma RemZeroIffDivides(a: int, d: int)
    requires d > 0
    ensures a - Div(a, d) * d == 0 <==> a % d == 0
  {
    var q := Div(a, d);
    var r := a - q * d;
    if r >= 0 {
      Arith.DivModUnique(a, d, q, r);
    } else {
      assert (q - 1) * d == q * d - d;
      Arith.DivModUnique(a, d, q - 1, r + d);
    }
  }

  /** On a non-negative dividend Java and Dafny agree. */
  lemma DivAgreesOnNonNegative(a: int, d: int)
    requires a >= 0 && d > 0
    ensures Div(a, d) == a / d
    ensures Rem(a, d) == a % d
  {
  }

  /** The case the pool meets: `(size - 1) / inc` at `size == 0` is `0` in
      Java but `-1` under Euclidean division, unless `inc == 1`, where both
      give `-1`. */
  lemma DivOfMinusOne(d: int)
    requires d > 0
    ensures d > 1 ==> Div(-1, d) == 0
    ensures d == 1 ==> Div(-1, d) == -1
    ensures -1 / d == -1
  {
  }
}
