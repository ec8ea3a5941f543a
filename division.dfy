/**
 Facts about integer division by a positive divisor. Most of them hold for
 any dividend; `QuotientAntitone` asks for a non-negative one. The model
 only divides by positive divisors. It divides a possibly negative value
 only by 1, except in the postcondition of `MsToUs`, which divides an exact
 multiple of 1000. In both cases Dafny's Euclidean `/` and `%` agree with
 C's truncating `/` and `%`.
 */
module Division {

  /** Multiplying an inequality by a non-negative factor keeps it. */
  lemma MulLeft(k: int, a: int, b: int)
    requires k >= 0 && a <= b
    ensures k * a <= k * b
  {
    assert k * b - k * a == k * (b - a);
  }

  /** If `k` copies of `d` fit in `x`, the quotient is at least `k`. */
  lemma QuotientAtLeast(x: int, d: int, k: int)
    requires d > 0 && k * d <= x
    ensures k <= x / d
  {
    if x / d < k {
      MulLeft(d, x / d + 1, k);
    }
  }

  /** If `x` is below `k` copies of `d`, the quotient is below `k`. */
  lemma QuotientBelow(x: int, d: int, k: int)
    requires d > 0 && x < k * d
    ensures x / d < k
  {
    if x / d >= k {
      MulLeft(d, k, x / d);
    }
  }

  /** A quotient of at least `k` means `x` holds at least `k` copies of `d`. */
  lemma AtLeastFromQuotient(x: int, d: int, k: int)
    requires d > 0 && k <= x / d
    ensures k * d <= x
  {
    MulLeft(d, k, x / d);
  }

  /** A quotient below `k` means `x` is below `k` copies of `d`. */
  lemma BelowFromQuotient(x: int, d: int, k: int)
    requires d > 0 && x / d < k
    ensures x < k * d
  {
    MulLeft(d, x / d + 1, k);
    assert d * (x / d + 1) == d * (x / d) + d;
  }

  /** Dividing by a larger divisor gives a quotient no larger. */
  lemma QuotientAntitone(x: int, a: int, b: int)
    requires x >= 0 && 1 <= a <= b
    ensures x / b <= x / a
  {
    MulLeft(x / b, a, b);
    assert (x / b) * b <= x;
    QuotientAtLeast(x, a, x / b);
  }

  /** Dividing twice is dividing once by the product of the divisors. */
  lemma QuotientOfQuotient(x: int, a: int, b: int)
    requires a > 0 && b > 0
    ensures x / a / b == x / (a * b)
  {
    var q1, r1 := x / a, x % a;
    var q2, r2 := q1 / b, q1 % b;
    assert x == a * q1 + r1;
    assert q1 == b * q2 + r2;
    assert x == (a * b) * q2 + (a * r2 + r1) by {
      assert a * q1 == a * (b * q2) + a * r2;
      assert a * (b * q2) == (a * b) * q2;
    }
    MulLeft(a, r2, b - 1);
    assert a * (b - 1) == a * b - a;
    assert 0 <= a * r2;
    QuotientAtLeast(x, a * b, q2);
    QuotientBelow(x, a * b, q2 + 1);
    assert (q2 + 1) * (a * b) == (a * b) * q2 + a * b;
  }
}
