/**
 * The four boundary policies of Padding.java. The source only documents
 * them through `toString`: each description shows how a row z_1 .. z_n is
 * extended by one element on either side. `Pad` is that one-step padded
 * sequence, `Describe` the description string.
 */
module Padding {
  import opened JavaArith

  datatype Padding = Zeros | Same | Symmetric | Circular

  /** The number of elements a policy needs to build its border. */
  function MinLength(p: Padding): (k: nat)
    ensures 1 <= k <= 2
    ensures k == 2 <==> p == Symmetric
  {
    if p == Symmetric then 2 else 1
  }

  /** The sequence z extended by one element on each side under policy p. */
  function Pad(p: Padding, z: seq<int>): (r: seq<int>)
    requires |z| >= MinLength(p)
    ensures |r| == |z| + 2
    ensures r[1..|z| + 1] == z
  {
    var n := |z|;
    match p
    case Zeros => [0] + z + [0]
    case Same => [z[0]] + z + [z[n - 1]]
    case Symmetric => [z[1]] + z + [z[n - 2]]
    case Circular => [z[n - 1]] + z + [z[0]]
  }

  /** The policy's name as `toString` spells it. */
  function Title(p: Padding): string
  {
    match p
    case Zeros => "Zeros"
    case Same => "Same"
    case Symmetric => "Symmetric"
    case Circular => "Circular"
  }

  /**
   * The string `toString` returns for each policy: the policy's name, then
   * " padding: " and the padded sequence z_1 .. z_n with its two borders.
   */
  function Describe(p: Padding): (r: string)
    ensures |Title(p)| < |r| && r[..|Title(p)|] == Title(p)
  {
    var pattern := match p
      case Zeros => " padding: 0, z_1, z_2, ..., z_n-1, z_n, 0"
      case Same => " padding: z_1, z_1, z_2, ..., z_n-1, z_n, z_n"
      case Symmetric => " padding: z_2, z_1, z_2, ..., z_n-1, z_n, z_n-1"
      case Circular => " padding: z_n, z_1, z_2, ..., z_n-1, z_n1, z_1";
    Title(p) + pattern
  }

  /** Different policies describe themselves differently: `toString` tells them apart. */
  lemma DescribeInjective(p: Padding, q: Padding)
    requires Describe(p) == Describe(q)
    ensures p == q
  {
    assert Describe(p)[0] == Describe(q)[0] && Describe(p)[1] == Describe(q)[1];
  }

  /**
   * Position i (any integer; 0 .. |z| - 1 is z itself) of the row extended
   * without end under policy p: zeros outside, the nearest end repeated,
   * the row mirrored about its end elements without repeating them, or the
   * row repeated periodically.
   */
  function Extend(p: Padding, z: seq<int>, i: int): int
    requires |z| >= MinLength(p)
  {
    var n := |z|;
    match p
    case Zeros => if 0 <= i < n then z[i] else 0
    case Same => z[if i < 0 then 0 else if i >= n then n - 1 else i]
    case Symmetric => var m := i % (2 * n - 2); z[if m < n then m else 2 * n - 2 - m]
    case Circular => z[i % n]
  }

  /** The remainder of a == m * q + r with 0 <= r < m is r. */
  lemma ModOf(a: int, m: int, q: int, r: int)
    requires m > 0 && 0 <= r < m && a == m * q + r
    ensures a % m == r
  {
    var d := a / m;
    assert m * d + a % m == a;
    assert m * (q - 1) == m * q - m && m * (q + 1) == m * q + m;
    CancelLt(m, q - 1, d);
    CancelLt(m, d, q + 1);
  }

  /** The extension agrees with the row on the row's own positions. */
  lemma ExtendInside(p: Padding, z: seq<int>, i: int)
    requires |z| >= MinLength(p) && 0 <= i < |z|
    ensures Extend(p, z, i) == z[i]
  {
    var n := |z|;
    if p == Symmetric {
      ModOf(i, 2 * n - 2, 0, i);
    } else if p == Circular {
      ModOf(i, n, 0, i);
    }
  }

  /** Just outside the row, the extension takes the border values of the policy. */
  lemma ExtendBorders(p: Padding, z: seq<int>)
    requires |z| >= MinLength(p)
    ensures Extend(p, z, -1) == Pad(p, z)[0]
    ensures Extend(p, z, |z|) == Pad(p, z)[|z| + 1]
  {
    var n := |z|;
    if p == Symmetric {
      ModOf(-1, 2 * n - 2, -1, 2 * n - 3);
      if n == 2 {
        ModOf(n, 2 * n - 2, 1, 0);
      } else {
        ModOf(n, 2 * n - 2, 0, n);
      }
    } else if p == Circular {
      ModOf(-1, n, -1, n - 1);
      ModOf(n, n, 1, 0);
    }
  }

  /** One position of the padded row, read off the extension. */
  lemma PadAt(p: Padding, z: seq<int>, k: int)
    requires |z| >= MinLength(p) && 0 <= k < |z| + 2
    ensures Pad(p, z)[k] == Extend(p, z, k - 1)
  {
    var n := |z|;
    if k == 0 || k == n + 1 {
      ExtendBorders(p, z);
    } else {
      assert Pad(p, z)[k] == Pad(p, z)[1..n + 1][k - 1];
      ExtendInside(p, z, k - 1);
    }
  }

  /** The padded row is the window -1 .. |z| of the policy's unbounded extension of z. */
  lemma PadMatchesExtension(p: Padding, z: seq<int>)
    requires |z| >= MinLength(p)
    ensures forall k :: 0 <= k < |z| + 2 ==> Pad(p, z)[k] == Extend(p, z, k - 1)
  {
    forall k | 0 <= k < |z| + 2 {
      PadAt(p, z, k);
    }
  }

  /** A flat row stays flat: every policy pads a constant row with that constant (zeros only a row of zeros). */
  lemma PadConstant(p: Padding, z: seq<int>, v: int)
    requires |z| >= MinLength(p)
    requires forall k :: 0 <= k < |z| ==> z[k] == v
    requires p != Zeros || v == 0
    ensures forall k :: 0 <= k < |z| + 2 ==> Pad(p, z)[k] == v
  {
    var n := |z|;
    forall k | 0 <= k < n + 2 ensures Pad(p, z)[k] == v {
      if 1 <= k <= n {
        assert Pad(p, z)[k] == Pad(p, z)[1..n + 1][k - 1];
      }
    }
  }

  /** Every policy but Zeros fills the border with elements of the row itself. */
  lemma {:induction false} BorderValues(p: Padding, z: seq<int>)
    requires |z| >= MinLength(p)
    ensures var r := Pad(p, z);
      p != Zeros ==> r[0] in z && r[|r| - 1] in z
  {
  }
}
