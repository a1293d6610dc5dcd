/**
 * ConvolutionKernel.java. The two fixed Gaussian tables are kept as their
 * integer numerators over a common denominator (159 and 256); the
 * generated kernels are arrays of exact reals.
 */
module ConvolutionKernel {
  import opened Grids

  /**
   * Numerators of GAUSSIAN_KERNEL (sigma 1.4), each over GaussianDenominator:
   * a 5 x 5 table of positive weights, none above the centre one.
   */
  function GaussianNumerators(): (k: seq<seq<int>>)
    ensures IsMatrix(k, 5, 5)
    ensures forall i, j :: 0 <= i < 5 && 0 <= j < 5 ==> 0 < k[i][j] <= k[2][2]
  {
    [[2, 4, 5, 4, 2],
     [4, 9, 12, 9, 4],
     [5, 12, 15, 12, 5],
     [4, 9, 12, 9, 4],
     [2, 4, 5, 4, 2]]
  }

  /** The denominator 159 of GAUSSIAN_KERNEL: the sum of its numerators, so the kernel sums to one. */
  function GaussianDenominator(): (d: int)
    ensures d == GridSum(GaussianNumerators())
  {
    GaussianNormalised();
    159
  }

  /**
   * Numerators of GAUSSIAN_KERNEL_LARGE, each over GaussianLargeDenominator:
   * a 5 x 5 table of positive weights, none above the centre one.
   */
  function GaussianLargeNumerators(): (k: seq<seq<int>>)
    ensures IsMatrix(k, 5, 5)
    ensures forall i, j :: 0 <= i < 5 && 0 <= j < 5 ==> 0 < k[i][j] <= k[2][2]
  {
    [[1, 4, 6, 4, 1],
     [4, 16, 24, 16, 4],
     [6, 24, 36, 24, 6],
     [4, 16, 24, 16, 4],
     [1, 4, 6, 4, 1]]
  }

  /**
   * The denominator 256 of GAUSSIAN_KERNEL_LARGE: the sum of its numerators,
   * and the square of the sum of the binomial row.
   */
  function GaussianLargeDenominator(): (d: int)
    ensures d == GridSum(GaussianLargeNumerators())
    ensures d == Sum(Binomial4) * Sum(Binomial4)
  {
    GaussianLargeNormalised();
    256
  }

  /** The binomial row whose outer product gives the large kernel. */
  const Binomial4: seq<int> := [1, 4, 6, 4, 1]

  lemma {:induction false} SumOfFive(a: int, b: int, c: int, d: int, e: int)
    ensures Sum([a, b, c, d, e]) == a + b + c + d + e
  {
    assert [a][..0] == [];
    assert Sum([a]) == a;
    assert [a, b][..1] == [a];
    assert Sum([a, b]) == a + b;
    assert [a, b, c][..2] == [a, b];
    assert Sum([a, b, c]) == a + b + c;
    assert [a, b, c, d][..3] == [a, b, c];
    assert Sum([a, b, c, d]) == a + b + c + d;
    assert [a, b, c, d, e][..4] == [a, b, c, d];
  }

  lemma {:induction false} GridSumOfFive(g: seq<seq<int>>)
    requires |g| == 5
    ensures GridSum(g) == Sum(g[0]) + Sum(g[1]) + Sum(g[2]) + Sum(g[3]) + Sum(g[4])
  {
    assert g[..1][..0] == [];
    assert GridSum(g[..1]) == Sum(g[0]);
    assert g[..2][..1] == g[..1];
    assert GridSum(g[..2]) == Sum(g[0]) + Sum(g[1]);
    assert g[..3][..2] == g[..2];
    assert GridSum(g[..3]) == Sum(g[0]) + Sum(g[1]) + Sum(g[2]);
    assert g[..4][..3] == g[..3];
    assert GridSum(g[..4]) == Sum(g[0]) + Sum(g[1]) + Sum(g[2]) + Sum(g[3]);
    assert g[..4] == g[..|g| - 1];
  }

  /** The 5x5 Gaussian weights add up to exactly one: their numerators sum to 159. */
  lemma GaussianNormalised()
    ensures IsMatrix(GaussianNumerators(), 5, 5)
    ensures GridSum(GaussianNumerators()) == 159
  {
    GridSumOfFive(GaussianNumerators());
    SumOfFive(2, 4, 5, 4, 2);
    SumOfFive(4, 9, 12, 9, 4);
    SumOfFive(5, 12, 15, 12, 5);
  }

  /** The 5x5 Gaussian is unchanged by transposition and by both flips. */
  lemma GaussianSymmetric(i: nat, j: nat)
    requires i < 5 && j < 5
    ensures GaussianNumerators()[i][j] == GaussianNumerators()[j][i]
    ensures GaussianNumerators()[i][j] == GaussianNumerators()[4 - i][j]
    ensures GaussianNumerators()[i][j] == GaussianNumerators()[i][4 - j]
  {
  }

  /** The large kernel is the outer product of (1, 4, 6, 4, 1) and sums to 256. */
  lemma GaussianLargeIsOuterProduct(i: nat, j: nat)
    requires i < 5 && j < 5
    ensures IsMatrix(GaussianLargeNumerators(), 5, 5)
    ensures GaussianLargeNumerators()[i][j] == Binomial4[i] * Binomial4[j]
  {
  }

  lemma GaussianLargeNormalised()
    ensures GridSum(GaussianLargeNumerators()) == 256
    ensures Sum(Binomial4) * Sum(Binomial4) == 256
  {
    GridSumOfFive(GaussianLargeNumerators());
    SumOfFive(1, 4, 6, 4, 1);
    SumOfFive(4, 16, 24, 16, 4);
    SumOfFive(6, 24, 36, 24, 6);
  }

  /**
   * A kernel, or the exception that stops its construction:
   * NegativeArraySizeException from `new double[...]` for a negative size,
   * ArrayIndexOutOfBoundsException from a store past the end of the array.
   */
  datatype Result<T> = Ok(value: T) | NegativeArraySize | IndexOutOfBounds

  /** A one-dimensional averaging kernel: r entries of 1/r. */
  method AveragingKernel(r: int) returns (res: Result<array<real>>)
    ensures res.NegativeArraySize? <==> r < 0
    ensures res.Ok? ==> res.value.Length == r
    ensures res.Ok? ==> forall i :: 0 <= i < r ==> res.value[i] * r as real == 1.0
  {
    if r < 0 {
      return NegativeArraySize;
    }
    var kernel := new real[r];
    // The source computes 1.0 / r before the loop; for r == 0 it is never stored.
    var entry := if r > 0 then 1.0 / r as real else 0.0;
    for i := 0 to r
      invariant forall k :: 0 <= k < i ==> kernel[k] == entry
    {
      kernel[i] := entry;
    }
    return Ok(kernel);
  }

  /** A two-dimensional averaging kernel: r x c entries of 1/(r c); either size negative throws. */
  method AveragingKernel2(r: int, c: int) returns (res: Result<array2<real>>)
    ensures res.NegativeArraySize? <==> r < 0 || c < 0
    ensures res.Ok? ==> res.value.Length0 == r && res.value.Length1 == c
    ensures res.Ok? ==> forall i, j :: 0 <= i < r && 0 <= j < c ==> res.value[i, j] * (r * c) as real == 1.0
  {
    if r < 0 || c < 0 {
      return NegativeArraySize;
    }
    var kernel := new real[r, c];
    var entry := if r * c > 0 then 1.0 / (r * c) as real else 0.0;
    for i := 0 to r
      invariant forall k, l :: 0 <= k < i && 0 <= l < c ==> kernel[k, l] == entry
    {
      for j := 0 to c
        invariant forall k, l :: 0 <= k < i && 0 <= l < c ==> kernel[k, l] == entry
        invariant forall l :: 0 <= l < j ==> kernel[i, l] == entry
      {
        kernel[i, j] := entry;
      }
    }
    return Ok(kernel);
  }

  /** w(i, lo) + ... + w(i, hi - 1) */
  function RowSum(w: (int, int) -> real, i: int, lo: int, hi: int): real
    decreases hi - lo
  {
    if hi <= lo then 0.0 else RowSum(w, i, lo, hi - 1) + w(i, hi - 1)
  }

  /** The sum of w over the square window lo <= i, j < hi, row by row. */
  function WindowSum(w: (int, int) -> real, lo: int, rowsDone: int, hi: int): real
    decreases rowsDone - lo
  {
    if rowsDone <= lo then 0.0 else WindowSum(w, lo, rowsDone - 1, hi) + RowSum(w, rowsDone - 1, lo, hi)
  }

  lemma {:induction false} RowSumPositive(w: (int, int) -> real, i: int, lo: int, hi: int)
    requires lo < hi
    decreases hi - lo
    requires forall j :: lo <= j < hi ==> w(i, j) > 0.0
    ensures RowSum(w, i, lo, hi) > 0.0
  {
    if lo < hi - 1 { RowSumPositive(w, i, lo, hi - 1); }
  }

  lemma {:induction false} WindowSumPositive(w: (int, int) -> real, lo: int, rowsDone: int, hi: int)
    requires lo < rowsDone && lo < hi
    requires forall i, j :: lo <= i < rowsDone && lo <= j < hi ==> w(i, j) > 0.0
    decreases rowsDone - lo
    ensures WindowSum(w, lo, rowsDone, hi) > 0.0
  {
    RowSumPositive(w, rowsDone - 1, lo, hi);
    if lo < rowsDone - 1 { WindowSumPositive(w, lo, rowsDone - 1, hi); }
  }

  /** w divided by t, entry by entry. */
  function Scaled(w: (int, int) -> real, t: real): (int, int) -> real
    requires t != 0.0
  {
    (i, j) => w(i, j) / t
  }

  lemma {:induction false} RowSumScaled(w: (int, int) -> real, t: real, i: int, lo: int, hi: int)
    requires t != 0.0
    ensures RowSum(Scaled(w, t), i, lo, hi) == RowSum(w, i, lo, hi) / t
    decreases hi - lo
  {
    if lo < hi { RowSumScaled(w, t, i, lo, hi - 1); }
  }

  lemma {:induction false} WindowSumScaled(w: (int, int) -> real, t: real, lo: int, rowsDone: int, hi: int)
    requires t != 0.0
    ensures WindowSum(Scaled(w, t), lo, rowsDone, hi) == WindowSum(w, lo, rowsDone, hi) / t
    decreases rowsDone - lo
  {
    if lo < rowsDone {
      WindowSumScaled(w, t, lo, rowsDone - 1, hi);
      RowSumScaled(w, t, rowsDone - 1, lo, hi);
    }
  }

  /**
   * The normalised kernel sums to one: dividing every weight of the window
   * by the window's total leaves a total of 1.
   */
  lemma NormalisedSumsToOne(w: (int, int) -> real, half: int)
    requires half >= 0
    requires forall i, j :: -half <= i <= half && -half <= j <= half ==> w(i, j) > 0.0
    ensures WindowSum(w, -half, half + 1, half + 1) > 0.0
    ensures WindowSum(Scaled(w, WindowSum(w, -half, half + 1, half + 1)), -half, half + 1, half + 1) == 1.0
  {
    var total := WindowSum(w, -half, half + 1, half + 1);
    WindowSumPositive(w, -half, half + 1, half + 1);
    WindowSumScaled(w, total, -half, half + 1, half + 1);
    assert total / total == 1.0;
  }

  /** The sum of w over the window -half <= i, j <= half. */
  function WindowTotal(w: (int, int) -> real, half: int): real
  {
    WindowSum(w, -half, half + 1, half + 1)
  }

  /**
   * The largest index the first loop of generateGaussianKernel stores to:
   * `i + halfSize` with `i == halfSize` and `halfSize == size / 2`.
   */
  function LastStore(size: nat): nat
  {
    size / 2 + size / 2
  }

  /**
   * For a non-negative size, the stores of generateGaussianKernel stay inside
   * the size x size array exactly when the size is odd; for size 0 and every
   * even size the last store is at index `size` itself.
   */
  lemma GaussianStoresInBounds(size: nat)
    ensures LastStore(size) < size <==> size % 2 == 1
    ensures size % 2 == 0 ==> LastStore(size) == size
  {
  }

  /**
   * generateGaussianKernel: allocates a size x size array, fills the window
   * centred on the origin with the Gaussian weight of each offset, adds the
   * weights up, then divides every entry by that sum. The Gaussian itself (a
   * floating-point exp of -(i^2 + j^2) / (2 sigma^2)) is the function
   * `weight`; it only matters here that it is positive. A negative size
   * fails at the allocation; size 0 and every even size fail at the last
   * store of the first loop (GaussianStoresInBounds).
   */
  method GenerateGaussianKernel(size: int, weight: (int, int) -> real) returns (res: Result<array2<real>>)
    requires forall i, j :: weight(i, j) > 0.0
    ensures res.NegativeArraySize? <==> size < 0
    ensures res.IndexOutOfBounds? <==> size >= 0 && size % 2 == 0
    ensures res.Ok? <==> size >= 1 && size % 2 == 1
    ensures res.Ok? ==> res.value.Length0 == size && res.value.Length1 == size
    ensures res.Ok? ==> WindowTotal(weight, size / 2) > 0.0
    ensures res.Ok? ==> forall a, b :: 0 <= a < size && 0 <= b < size ==>
      res.value[a, b] == weight(a - size / 2, b - size / 2) / WindowTotal(weight, size / 2)
  {
    if size < 0 {
      return NegativeArraySize;
    }
    GaussianStoresInBounds(size);
    if size % 2 == 0 {
      return IndexOutOfBounds;
    }
    var kernel := new real[size, size];
    var half := size / 2;
    assert size == 2 * half + 1;
    var sum := FillWindow(kernel, half, weight);
    WindowSumPositive(weight, -half, half + 1, half + 1);
    NormaliseInPlace(kernel, sum);
    return Ok(kernel);
  }

  /** The first loop of generateGaussianKernel: each offset's weight stored and added to the sum. */
  method FillWindow(kernel: array2<real>, half: int, weight: (int, int) -> real) returns (sum: real)
    requires half >= 0
    requires kernel.Length0 == kernel.Length1 == 2 * half + 1
    modifies kernel
    ensures sum == WindowTotal(weight, half)
    ensures forall a, b :: 0 <= a < kernel.Length0 && 0 <= b < kernel.Length1 ==>
      kernel[a, b] == weight(a - half, b - half)
  {
    var size := 2 * half + 1;
    sum := 0.0;
    var i := -half;
    while i <= half
      invariant -half <= i <= half + 1
      invariant sum == WindowSum(weight, -half, i, half + 1)
      invariant forall a, b :: 0 <= a < i + half && 0 <= b < size ==> kernel[a, b] == weight(a - half, b - half)
    {
      var j := -half;
      while j <= half
        invariant -half <= j <= half + 1
        invariant sum == WindowSum(weight, -half, i, half + 1) + RowSum(weight, i, -half, j)
        invariant forall a, b :: 0 <= a < size && 0 <= b < size && (a < i + half || (a == i + half && b < j + half)) ==>
          kernel[a, b] == weight(a - half, b - half)
      {
        kernel[i + half, j + half] := weight(i, j);
        sum := sum + kernel[i + half, j + half];
        j := j + 1;
      }
      i := i + 1;
    }
  }

  /** The second loop of generateGaussianKernel: every entry divided by the sum. */
  method NormaliseInPlace(kernel: array2<real>, sum: real)
    requires sum != 0.0
    modifies kernel
    ensures forall a, b :: 0 <= a < kernel.Length0 && 0 <= b < kernel.Length1 ==>
      kernel[a, b] == old(kernel[a, b]) / sum
  {
    for k := 0 to kernel.Length0
      invariant forall a, b :: 0 <= a < kernel.Length0 && 0 <= b < kernel.Length1 ==>
        kernel[a, b] == if a < k then old(kernel[a, b]) / sum else old(kernel[a, b])
    {
      for l := 0 to kernel.Length1
        invariant forall a, b :: 0 <= a < kernel.Length0 && 0 <= b < kernel.Length1 ==>
          kernel[a, b] == if a < k || (a == k && b < l) then old(kernel[a, b]) / sum else old(kernel[a, b])
      {
        kernel[k, l] := kernel[k, l] / sum;
      }
    }
  }
}
