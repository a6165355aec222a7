/** Java's integer and float-to-int arithmetic, written out over Dafny's
    unbounded `int` and exact `real`.

    Dafny's `/` on `int` is Euclidean, while Java's `/` and the `(int)` cast
    of a floating-point value both truncate toward zero. */
module JavaArith {

  /** Java's `a / b` for a positive divisor: the quotient truncated toward zero.
      The two ensures clauses pin the quotient down uniquely for either sign of `a`. */
  function Quot(a: int, b: int): (q: int)
    requires b > 0
    ensures a >= 0 ==> q >= 0 && q * b <= a < q * b + b
    ensures a < 0 ==> q <= 0 && q * b - b < a <= q * b
  {
    if a >= 0 then a / b else -((-a) / b)
  }

  /** Java's `(int) x` for a float `x` taken as an exact real: truncation toward zero. */
  function FloatToInt(x: real): (n: int)
    ensures x >= 0.0 ==> n >= 0 && n as real <= x < n as real + 1.0
    ensures x < 0.0 ==> n <= 0 && n as real - 1.0 < x <= n as real
  {
    if x >= 0.0 then x.Floor else -((-x).Floor)
  }

  /** Dividing a multiple of `b` by `b` is exact. */
  lemma QuotOfMultiple(n: int, b: int)
    requires b > 0
    ensures Quot(n * b, b) == n
  {
    var q := Quot(n * b, b);
    if n * b >= 0 {
      assert (q - n) * b <= 0 < (q - n) * b + b;
    } else {
      assert (q - n) * b - b < 0 <= (q - n) * b;
    }
    SignOfMultiple(q - n, b);
  }

  /** `k * b` lies in `(-b, b)` only for `k == 0`. */
  lemma SignOfMultiple(k: int, b: int)
    requires b > 0 && -b < k * b < b
    ensures k == 0
  {
  }

  /** Truncating the exact quotient `a / b` of two ints is Java's integer division:
      the float computation `(int) (a / (float) b)` agrees with `a / b` on ints
      when no rounding occurs. */
  lemma FloatToIntOfQuotient(a: int, b: int)
    requires b > 0
    ensures FloatToInt(a as real / b as real) == Quot(a, b)
  {
    var q := Quot(a, b);
    if a >= 0 {
      TruncUp(a, b, q);
    } else {
      TruncDown(a, b, q);
    }
  }

  lemma TruncUp(a: int, b: int, q: int)
    requires b > 0 && a >= 0 && q * b <= a < q * b + b
    ensures FloatToInt(a as real / b as real) == q
  {
    QuotientBounds(q, a, b);
    QuotientBounds(q + 1, a, b);
    RealQuotient(a, b);
  }

  lemma TruncDown(a: int, b: int, q: int)
    requires b > 0 && a < 0 && q * b - b < a <= q * b
    ensures FloatToInt(a as real / b as real) == q
  {
    QuotientBounds(q, a, b);
    QuotientBounds(q - 1, a, b);
    RealQuotient(a, b);
  }

  /** Comparing `q * b` with `a` compares `q` with the exact quotient `a / b`. */
  lemma QuotientBounds(q: int, a: int, b: int)
    requires b > 0
    ensures q * b <= a ==> q as real <= a as real / b as real
    ensures q * b < a ==> q as real < a as real / b as real
    ensures a <= q * b ==> a as real / b as real <= q as real
    ensures a < q * b ==> a as real / b as real < q as real
  {
    var x, br := a as real / b as real, b as real;
    RealQuotient(a, b);
    CastProduct(q, b);
    ScaleDown(q as real, x, br);
    ScaleDown(x, q as real, br);
  }

  lemma RealQuotient(a: int, b: int)
    requires b > 0
    ensures (a as real / b as real) * b as real == a as real
    ensures a >= 0 <==> a as real / b as real >= 0.0
  {
  }

  lemma CastProduct(q: int, b: int)
    ensures (q * b) as real == q as real * b as real
  {
  }

  /** Dividing `u * b <= x * b` or `u * b < x * b` by a positive `b`. */
  lemma ScaleDown(u: real, x: real, b: real)
    requires b > 0.0
    ensures u * b <= x * b ==> u <= x
    ensures u * b < x * b ==> u < x
  {
  }
}
