/**
 * The two gradient-magnitude norms of Hypotenuse.java.
 *
 * L1 is exact over integers. L2 works in double precision in the source;
 * here it is idealised as the exact square root truncated to an integer,
 * which is what every caller does with it (`(int) Hypotenuse.L2(x, y)`,
 * `(int) Math.hypot(x, y)`).
 */
module Hypotenuse {

  function Abs(x: int): (r: nat)
    ensures r == x || r == -x
  {
    if x < 0 then -x else x
  }

  /** |x| + |y| */
  function L1(x: int, y: int): (r: nat)
    ensures r >= Abs(x) && r >= Abs(y)
  {
    Abs(x) + Abs(y)
  }

  /** The largest r with r * r <= n: sqrt(n) truncated to an integer. */
  function FloorSqrt(n: nat): (r: nat)
    ensures r * r <= n < (r + 1) * (r + 1)
  {
    if n == 0 then 0
    else
      var t := FloorSqrt(n / 4);
      var s := 2 * t;
      SqrtStep(n, t);
      if (s + 1) * (s + 1) <= n then s + 1 else s
  }

  lemma SqrtStep(n: nat, t: nat)
    requires t * t <= n / 4 < (t + 1) * (t + 1)
    ensures (2 * t) * (2 * t) <= n < (2 * t + 2) * (2 * t + 2)
  {
    var q := n / 4;
    var lo, hi := t * t, (t + 1) * (t + 1);
    assert (2 * t) * (2 * t) == 4 * lo;
    assert (2 * t + 2) * (2 * t + 2) == 4 * hi;
    assert 4 * q <= n < 4 * q + 4;
  }

  /** sqrt(x^2 + y^2) truncated to an integer. */
  function L2(x: int, y: int): (r: nat)
    ensures r * r <= x * x + y * y < (r + 1) * (r + 1)
  {
    FloorSqrt(x * x + y * y)
  }

  /** L1 is zero exactly at the origin. */
  lemma L1ZeroIff(x: int, y: int)
    ensures L1(x, y) == 0 <==> x == 0 && y == 0
  {
  }

  /** L1 does not see the order of its arguments nor their signs. */
  lemma L1Symmetries(x: int, y: int)
    ensures L1(x, y) == L1(y, x)
    ensures L1(x, y) == L1(-x, y) == L1(x, -y)
  {
  }

  /** The L1 norm lies between the max norm and twice the max norm. */
  lemma L1Bounds(x: int, y: int)
    ensures var m := if Abs(x) < Abs(y) then Abs(y) else Abs(x);
      m <= L1(x, y) <= 2 * m
  {
  }

  /** The truncated L2 norm never exceeds L1 and is at least the max norm. */
  lemma L2Bounds(x: int, y: int)
    ensures Abs(x) <= L2(x, y) && Abs(y) <= L2(x, y)
    ensures L2(x, y) <= L1(x, y)
  {
    var r := L2(x, y);
    var ax, ay := Abs(x), Abs(y);
    var n := x * x + y * y;
    AbsSquare(x);
    AbsSquare(y);
    SumSquare(ax, ay);
    SqBelow(ax, n, r);
    SqBelow(ay, n, r);
    SqAbove(ax + ay, n, r);
  }

  /** a * a <= n < (r + 1)^2 forces a <= r. */
  lemma SqBelow(a: nat, n: nat, r: nat)
    requires a * a <= n < (r + 1) * (r + 1)
    ensures a <= r
  {
    if a > r { MulMono(r + 1, a); }
  }

  /** r * r <= n <= b * b forces r <= b. */
  lemma SqAbove(b: nat, n: nat, r: nat)
    requires r * r <= n <= b * b
    ensures r <= b
  {
    if r > b { MulMono(b + 1, r); }
  }

  lemma AbsSquare(x: int)
    ensures Abs(x) * Abs(x) == x * x
  {
    if x < 0 { assert Abs(x) * Abs(x) == (-x) * (-x); }
  }

  lemma SumSquare(a: nat, b: nat)
    ensures a * a + b * b <= (a + b) * (a + b)
  {
    assert (a + b) * (a + b) == a * a + 2 * (a * b) + b * b;
    assert 0 <= a * b;
  }

  lemma MulMono(a: nat, b: nat)
    requires a <= b
    ensures a * a <= b * b
  {
    assert a * a <= a * b <= b * b;
  }
}
