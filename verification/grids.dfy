/**
 * Grids shared by every detector: a Java `int[][]` is a sequence of rows,
 * a filled `int[rows][columns]` is an `array2`. Sums over grids are the
 * basis of the mean threshold and of the kernel normalisations.
 */
module Grids {

  /** A grid with `rows` rows of `cols` entries each. */
  ghost predicate IsMatrix<T>(g: seq<seq<T>>, rows: nat, cols: nat)
  {
    |g| == rows && forall i :: 0 <= i < rows ==> |g[i]| == cols
  }

  /** The rows of an `array2`, as a Java method receiving it as `int[][]` sees them. */
  function ToSeq(a: array2<int>): (g: seq<seq<int>>)
    reads a
    ensures IsMatrix(g, a.Length0, a.Length1)
    ensures forall i, j :: 0 <= i < a.Length0 && 0 <= j < a.Length1 ==> g[i][j] == a[i, j]
  {
    seq(a.Length0, i requires 0 <= i < a.Length0 reads a =>
      seq(a.Length1, j requires 0 <= j < a.Length1 reads a => a[i, j]))
  }

  /** Two grids of one shape that agree entry by entry are equal. */
  lemma MatrixExt<T>(a: seq<seq<T>>, b: seq<seq<T>>, rows: nat, cols: nat)
    requires IsMatrix(a, rows, cols) && IsMatrix(b, rows, cols)
    requires forall i, j :: 0 <= i < rows && 0 <= j < cols ==> a[i][j] == b[i][j]
    ensures a == b
  {
    forall i | 0 <= i < rows ensures a[i] == b[i] {
      assert forall j :: 0 <= j < cols ==> a[i][j] == b[i][j];
    }
  }

  function Sum(s: seq<int>): int
  {
    if s == [] then 0 else Sum(s[..|s| - 1]) + s[|s| - 1]
  }

  /** Sum of every entry of a (possibly ragged) grid, row by row. */
  function GridSum(g: seq<seq<int>>): int
  {
    if g == [] then 0 else GridSum(g[..|g| - 1]) + Sum(g[|g| - 1])
  }

  /** Number of entries of a (possibly ragged) grid. */
  function Count<T>(g: seq<seq<T>>): nat
  {
    if g == [] then 0 else Count(g[..|g| - 1]) + |g[|g| - 1]|
  }

  lemma {:induction false} CountMatrix<T>(g: seq<seq<T>>, rows: nat, cols: nat)
    requires IsMatrix(g, rows, cols)
    ensures Count(g) == rows * cols
  {
    if rows > 0 {
      CountMatrix(g[..rows - 1], rows - 1, cols);
      assert (rows - 1) * cols + cols == rows * cols;
    }
  }

  /** A row whose entries are all at most b sums to at most |s| * b. */
  lemma {:induction false} SumAtMost(s: seq<int>, b: int)
    requires forall k :: 0 <= k < |s| ==> s[k] <= b
    ensures Sum(s) <= |s| * b
  {
    if s != [] {
      SumAtMost(s[..|s| - 1], b);
      assert (|s| - 1) * b + b == |s| * b;
    }
  }

  /** A row whose entries are all at least b sums to at least |s| * b. */
  lemma {:induction false} SumAtLeast(s: seq<int>, b: int)
    requires forall k :: 0 <= k < |s| ==> b <= s[k]
    ensures |s| * b <= Sum(s)
  {
    if s != [] {
      SumAtLeast(s[..|s| - 1], b);
      assert (|s| - 1) * b + b == |s| * b;
    }
  }

  lemma {:induction false} GridSumAtMost(g: seq<seq<int>>, b: int)
    requires forall i, j :: 0 <= i < |g| && 0 <= j < |g[i]| ==> g[i][j] <= b
    ensures GridSum(g) <= Count(g) * b
  {
    if g != [] {
      var init, last := g[..|g| - 1], g[|g| - 1];
      assert forall i :: 0 <= i < |init| ==> init[i] == g[i];
      GridSumAtMost(init, b);
      SumAtMost(last, b);
      MulAddRight(Count(init), |last|, b);
    }
  }

  lemma {:induction false} GridSumAtLeast(g: seq<seq<int>>, b: int)
    requires forall i, j :: 0 <= i < |g| && 0 <= j < |g[i]| ==> b <= g[i][j]
    ensures Count(g) * b <= GridSum(g)
  {
    if g != [] {
      var init, last := g[..|g| - 1], g[|g| - 1];
      assert forall i :: 0 <= i < |init| ==> init[i] == g[i];
      GridSumAtLeast(init, b);
      SumAtLeast(last, b);
      MulAddRight(Count(init), |last|, b);
    }
  }

  lemma MulAddRight(n: int, m: int, b: int)
    ensures (n + m) * b == n * b + m * b
  {
  }

  lemma SumOfTwo(a: int, b: int)
    ensures Sum([a, b]) == a + b
  {
    assert [a][..0] == [];
    assert Sum([a]) == a;
    assert [a, b][..1] == [a];
  }

  lemma SumOfThree(a: int, b: int, c: int)
    ensures Sum([a, b, c]) == a + b + c
  {
    assert [a, b, c][..2] == [a, b];
    SumOfTwo(a, b);
  }

  lemma GridSumOfTwo(g: seq<seq<int>>)
    requires |g| == 2
    ensures GridSum(g) == Sum(g[0]) + Sum(g[1])
  {
    assert g[..1][..0] == [];
    assert GridSum(g[..1]) == Sum(g[0]);
    assert g[..|g| - 1] == g[..1];
  }

  lemma GridSumOfThree(g: seq<seq<int>>)
    requires |g| == 3
    ensures GridSum(g) == Sum(g[0]) + Sum(g[1]) + Sum(g[2])
  {
    assert g[..1][..0] == [];
    assert GridSum(g[..1]) == Sum(g[0]);
    assert g[..2][..1] == g[..1];
    assert GridSum(g[..2]) == Sum(g[0]) + Sum(g[1]);
    assert g[..|g| - 1] == g[..2];
  }
}
