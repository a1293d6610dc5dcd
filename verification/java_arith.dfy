/**
 * Java's integer division and `(int)` casts round toward zero; Dafny's `/`
 * on int is Euclidean. The two agree on non-negative operands only.
 */
module JavaArith {

  /** a / n rounded toward zero, as Java divides ints and casts a double quotient to int. */
  function TruncDiv(a: int, n: int): int
    requires n > 0
  {
    if a >= 0 then a / n else -((-a) / n)
  }

  /** n * d keeps the sign of d when n is positive. */
  lemma MulSign(n: int, d: int)
    requires n > 0
    ensures d > 0 ==> n * d >= n
    ensures d <= 0 ==> n * d <= 0
  {
  }

  lemma CancelLe(n: int, x: int, y: int)
    requires n > 0 && n * x <= n * y
    ensures x <= y
  {
    assert n * x - n * y == n * (x - y);
    MulSign(n, x - y);
  }

  lemma CancelLt(n: int, x: int, y: int)
    requires n > 0 && n * x < n * y
    ensures x < y
  {
    assert n * y - n * x == n * (y - x);
    MulSign(n, y - x);
  }

  /** The quotient rounded toward zero: within one divisor of a, on the side of zero. */
  lemma TruncDivBounds(a: int, n: int)
    requires n > 0
    ensures a >= 0 ==> n * TruncDiv(a, n) <= a < n * TruncDiv(a, n) + n
    ensures a < 0 ==> n * TruncDiv(a, n) - n < a <= n * TruncDiv(a, n)
  {
    if a >= 0 {
      assert n * (a / n) + a % n == a;
    } else {
      var b := -a;
      assert n * (b / n) + b % n == b;
      assert n * TruncDiv(a, n) == -(n * (b / n));
    }
  }

  lemma TruncDivLower(a: int, n: int, lo: int)
    requires n > 0 && n * lo <= a
    ensures lo <= TruncDiv(a, n)
  {
    if a >= 0 {
      assert n * (a / n) + a % n == a;
      assert n * (lo - 1) == n * lo - n;
      CancelLt(n, lo - 1, a / n);
    } else {
      var b := -a;
      assert n * (b / n) + b % n == b;
      assert n * (-lo) == -(n * lo);
      CancelLe(n, b / n, -lo);
    }
  }

  /** Rounding toward zero never passes an integer bound on the mean. */
  lemma TruncDivUpper(a: int, n: int, hi: int)
    requires n > 0 && a <= n * hi
    ensures TruncDiv(a, n) <= hi
  {
    if a >= 0 {
      assert n * (a / n) + a % n == a;
      CancelLe(n, a / n, hi);
    } else {
      var b := -a;
      assert n * (b / n) + b % n == b;
      assert n * (-hi - 1) == -(n * hi) - n;
      CancelLt(n, -hi - 1, b / n);
    }
  }
}
