/** C#'s integer `/` and `%`, which truncate toward zero (Dafny's are Euclidean).
    Only positive divisors occur in the modelled code. */
module CSharpInt {

  /** `a / b` in C#: the quotient rounded toward zero, so the remainder left over
      has the sign of the dividend and is smaller than the divisor. */
  function TruncDiv(a: int, b: int): (q: int)
    requires b > 0
    ensures a >= 0 ==> 0 <= a - q * b < b
    ensures a < 0 ==> -b < a - q * b <= 0
  {
    if a >= 0 then a / b
    else
      var n := -a;
      assert n == (n / b) * b + n % b;
      assert -(n / b) * b == -((n / b) * b);
      -(n / b)
  }

  /** `a % b` in C#: what is left of the dividend after the truncated quotient. */
  function TruncRem(a: int, b: int): (r: int)
    requires b > 0
    ensures a == TruncDiv(a, b) * b + r
    ensures a >= 0 ==> 0 <= r < b
    ensures a < 0 ==> -b < r <= 0
  {
    if a >= 0 then a % b
    else
      var n := -a;
      assert n == (n / b) * b + n % b;
      assert -(n / b) * b == -((n / b) * b);
      -(n % b)
  }

  /** Two divisions of the same number by `b` whose remainders differ by less than `b`
      have the same quotient. */
  lemma {:induction false} QuotientUnique(a: int, b: int, q1: int, r1: int, q2: int, r2: int)
    requires b > 0
    requires a == q1 * b + r1 && a == q2 * b + r2
    requires -b < r1 - r2 < b
    ensures q1 == q2 && r1 == r2
  {
    var k := q1 - q2;
    assert k * b == r2 - r1;
    if k != 0 {
      MultipleAtLeastDivisor(k, b);
    }
  }

  /** A non-zero multiple of `b` is at least `b` away from zero. */
  lemma {:induction false} MultipleAtLeastDivisor(k: int, b: int)
    requires k != 0 && b > 0
    ensures k * b >= b || k * b <= -b
    decreases if k < 0 then -k else k
  {
    if k > 1 {
      MultipleAtLeastDivisor(k - 1, b);
      assert k * b == (k - 1) * b + b;
    } else if k < -1 {
      MultipleAtLeastDivisor(k + 1, b);
      assert k * b == (k + 1) * b - b;
    }
  }

  /** A negative dividend is rounded up by C#: one above Dafny's floor unless the division is exact. */
  lemma {:induction false} NegativeIsFloorPlusOne(a: int, b: int)
    requires a < 0 && b > 0
    ensures a % b == 0 ==> TruncDiv(a, b) == a / b && TruncRem(a, b) == 0
    ensures a % b != 0 ==> TruncDiv(a, b) == a / b + 1 && TruncRem(a, b) == a % b - b
  {
    var q, r := TruncDiv(a, b), TruncRem(a, b);
    var fq, fr := a / b, a % b;
    assert a == fq * b + fr && 0 <= fr < b;
    if fr == 0 {
      QuotientUnique(a, b, q, r, fq, fr);
    } else {
      assert a == (fq + 1) * b + (fr - b);
      QuotientUnique(a, b, q, r, fq + 1, fr - b);
    }
  }
}
