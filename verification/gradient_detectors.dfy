/**
 * RobertsCrossEdgeDetector.java and PrewittEdgeDetector.java. Once the
 * two gradient convolutions are done the two detectors run the same steps
 * (magnitude grid, mean threshold, `mag >= threshold`, reversed
 * rendering), so one class parameterised by the operator models both; the
 * operators differ in their kernels only.
 *
 * The convolved grids are inputs: ImageConvolution is not part of this
 * model, and neither is the Gaussian smoothing before it.
 */
module GradientDetectors {
  import opened Grids
  import opened Hypotenuse
  import opened Threshold
  import JavaArith

  datatype Operator = RobertsCross | Prewitt

  /** X_KERNEL of each detector: a KernelSize x KernelSize table of -1, 0 and 1. */
  function XKernel(op: Operator): (k: seq<seq<int>>)
    ensures IsMatrix(k, KernelSize(op), KernelSize(op))
    ensures forall i, j :: 0 <= i < KernelSize(op) && 0 <= j < KernelSize(op) ==> -1 <= k[i][j] <= 1
  {
    match op
    case RobertsCross => [[1, 0],
                          [0, -1]]
    case Prewitt => [[-1, 0, 1],
                     [-1, 0, 1],
                     [-1, 0, 1]]
  }

  /**
   * Y_KERNEL of each detector. For both operators it is X_KERNEL turned a
   * quarter counter-clockwise: row i of Y is column n - 1 - i of X.
   */
  function YKernel(op: Operator): (k: seq<seq<int>>)
    ensures IsMatrix(k, KernelSize(op), KernelSize(op))
    ensures forall i, j :: 0 <= i < KernelSize(op) && 0 <= j < KernelSize(op) ==>
      k[i][j] == XKernel(op)[j][KernelSize(op) - 1 - i]
  {
    match op
    case RobertsCross => [[0, -1],
                          [1, 0]]
    case Prewitt => [[1, 1, 1],
                     [0, 0, 0],
                     [-1, -1, -1]]
  }

  function KernelSize(op: Operator): nat
  {
    if op == RobertsCross then 2 else 3
  }

  /**
   * Both kernels are square (2 x 2 for Roberts cross, 3 x 3 for Prewitt)
   * and their weights sum to zero, so a flat region has no gradient.
   */
  lemma KernelsBalanced(op: Operator)
    ensures IsMatrix(XKernel(op), KernelSize(op), KernelSize(op))
    ensures IsMatrix(YKernel(op), KernelSize(op), KernelSize(op))
    ensures GridSum(XKernel(op)) == 0 && GridSum(YKernel(op)) == 0
  {
    match op
    case RobertsCross =>
      GridSumOfTwo(XKernel(op));
      GridSumOfTwo(YKernel(op));
      SumOfTwo(1, 0);
      SumOfTwo(0, -1);
      SumOfTwo(1, 0);
    case Prewitt =>
      GridSumOfThree(XKernel(op));
      GridSumOfThree(YKernel(op));
      SumOfThree(-1, 0, 1);
      SumOfThree(1, 1, 1);
      SumOfThree(0, 0, 0);
      SumOfThree(-1, -1, -1);
  }

  /** The Prewitt X kernel weighs the columns -1, 0, 1 and the Y kernel the rows 1, 0, -1. */
  lemma KernelLayout()
    ensures forall i, j :: 0 <= i < 3 && 0 <= j < 3 ==>
      XKernel(Prewitt)[i][j] == j - 1 && YKernel(Prewitt)[i][j] == 1 - i
  {
  }

  /**
   * The x and y responses: the grid size is read off the x response, which
   * has at least one row and one column; the y response is at least as large.
   */
  ghost predicate ResponsesOk(gx: seq<seq<int>>, gy: seq<seq<int>>)
  {
    && |gx| >= 1 && |gx[0]| >= 1 && IsMatrix(gx, |gx|, |gx[0]|)
    && |gy| >= |gx| && forall i :: 0 <= i < |gx| ==> |gy[i]| >= |gx[0]|
  }

  /** The magnitude grid: `(int) Math.hypot` of the two responses at each pixel. */
  ghost function HypotGrid(gx: seq<seq<int>>, gy: seq<seq<int>>): (mag: seq<seq<int>>)
    requires ResponsesOk(gx, gy)
    ensures IsMatrix(mag, |gx|, |gx[0]|)
    ensures forall i, j :: 0 <= i < |gx| && 0 <= j < |gx[0]| ==> mag[i][j] >= 0
  {
    seq(|gx|, i requires 0 <= i < |gx| =>
      seq(|gx[0]|, j requires 0 <= j < |gx[0]| => L2(gx[i][j], gy[i][j])))
  }

  /** The pixels `mag >= threshold` marks. */
  ghost function AtLeastCells(mag: seq<seq<int>>, threshold: int): set<(int, int)>
  {
    set i, j | 0 <= i < |mag| && 0 <= j < |mag[i]| && mag[i][j] >= threshold :: (i, j)
  }

  /** Raising the threshold never adds an edge pixel. */
  lemma AtLeastMonotone(mag: seq<seq<int>>, t1: int, t2: int)
    requires t1 <= t2
    ensures AtLeastCells(mag, t2) <= AtLeastCells(mag, t1)
  {
  }

  /**
   * With the mean as threshold some pixel always reaches it: a non-empty
   * response pair yields at least one edge pixel, and the threshold is
   * non-negative because the magnitudes are.
   */
  lemma SomeEdge(gx: seq<seq<int>>, gy: seq<seq<int>>)
    requires ResponsesOk(gx, gy)
    ensures Count(HypotGrid(gx, gy)) > 0
    ensures CalcThresholdEdges(HypotGrid(gx, gy)) >= 0
    ensures AtLeastCells(HypotGrid(gx, gy), CalcThresholdEdges(HypotGrid(gx, gy))) != {}
  {
    var mag := HypotGrid(gx, gy);
    CountMatrix(mag, |gx|, |gx[0]|);
    SomeEntryReachesThreshold(mag);
    var t := CalcThresholdEdges(mag);
    var i, j :| 0 <= i < |mag| && 0 <= j < |mag[i]| && mag[i][j] >= t;
    assert (i, j) in AtLeastCells(mag, t);
    GridSumAtLeast(mag, 0);
    JavaArith.TruncDivLower(GridSum(mag), Count(mag), 0);
  }

  /** Step 4 (Roberts cross) / step 3 (Prewitt): the magnitude loop. */
  method Magnitudes(gx: seq<seq<int>>, gy: seq<seq<int>>) returns (mag: array2<int>)
    requires ResponsesOk(gx, gy)
    ensures fresh(mag)
    ensures mag.Length0 == |gx| && mag.Length1 == |gx[0]|
    ensures ToSeq(mag) == HypotGrid(gx, gy)
  {
    var rows, columns := |gx|, |gx[0]|;
    mag := new int[rows, columns];
    for i := 0 to rows
      invariant forall a, b :: 0 <= a < i && 0 <= b < columns ==> mag[a, b] == L2(gx[a][b], gy[a][b])
    {
      for j := 0 to columns
        invariant forall a, b :: 0 <= a < i && 0 <= b < columns ==> mag[a, b] == L2(gx[a][b], gy[a][b])
        invariant forall b :: 0 <= b < j ==> mag[i, b] == L2(gx[i][b], gy[i][b])
      {
        mag[i, j] := L2(gx[i][j], gy[i][j]);
      }
    }
    MatrixExt(ToSeq(mag), HypotGrid(gx, gy), rows, columns);
  }

  /** The thresholding loop: a pixel is an edge when its magnitude reaches the threshold. */
  method MarkAtLeast(mag: array2<int>, threshold: int, edges: array2<bool>)
    requires edges.Length0 == mag.Length0 && edges.Length1 == mag.Length1
    modifies edges
    ensures forall i, j :: 0 <= i < mag.Length0 && 0 <= j < mag.Length1 ==>
      (edges[i, j] <==> mag[i, j] >= threshold)
  {
    for i := 0 to mag.Length0
      invariant forall a, b :: 0 <= a < i && 0 <= b < mag.Length1 ==> (edges[a, b] <==> mag[a, b] >= threshold)
    {
      for j := 0 to mag.Length1
        invariant forall a, b :: 0 <= a < i && 0 <= b < mag.Length1 ==> (edges[a, b] <==> mag[a, b] >= threshold)
        invariant forall b :: 0 <= b < j ==> (edges[i, b] <==> mag[i, b] >= threshold)
      {
        edges[i, j] := mag[i, j] >= threshold;
      }
    }
  }

  /** RobertsCrossEdgeDetector / PrewittEdgeDetector, with the fields `detectEdges` sets. */
  class GradientEdgeDetector {
    /**
     * Which of the two source classes this is. It only names the kernels
     * the x and y responses were convolved with; the convolution itself is
     * outside the model, so nothing below reads it.
     */
    const operator: Operator
    var edges: array2?<bool>
    var rows: int
    var columns: int
    var threshold: int

    /** The implicit constructor: no edges yet, every int field 0. */
    constructor (op: Operator)
      ensures operator == op
      ensures edges == null && rows == 0 && columns == 0 && threshold == 0
    {
      operator := op;
      edges := null;
      rows, columns, threshold := 0, 0, 0;
    }

    /**
     * `detectEdges` from the x and y responses on: the size comes from the
     * x response, the threshold is the mean magnitude, a pixel is an edge
     * when its magnitude reaches it (a non-strict comparison), and the
     * result image shows edges black on white.
     */
    method DetectEdges(gx: seq<seq<int>>, gy: seq<seq<int>>) returns (raster: array2<Rgb>)
      requires ResponsesOk(gx, gy)
      modifies this
      ensures rows == |gx| && columns == |gx[0]|
      ensures threshold == CalcThresholdEdges(HypotGrid(gx, gy))
      ensures edges != null && edges.Length0 == rows && edges.Length1 == columns
      ensures forall i, j :: 0 <= i < rows && 0 <= j < columns ==>
        (edges[i, j] <==> HypotGrid(gx, gy)[i][j] >= threshold)
      ensures raster.Length0 == columns && raster.Length1 == rows
      ensures forall i, j :: 0 <= i < rows && 0 <= j < columns ==>
        raster[j, i] == if edges[i, j] then Black else White
    {
      rows := |gx|;
      columns := |gx[0]|;
      var mag := Magnitudes(gx, gy);
      var grid := new bool[rows, columns];
      edges := grid;
      CountMatrix(ToSeq(mag), rows, columns);
      threshold := CalcThresholdEdges(ToSeq(mag));
      MarkAtLeast(mag, threshold, grid);
      raster := ApplyThresholdReversed(grid);
    }
  }
}
