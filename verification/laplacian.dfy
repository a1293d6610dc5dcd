/**
 * LaplacianEdgeDetector.java: the Laplacian response of the smoothed
 * image, thresholded at its own mean. The response grid is an input
 * (ImageConvolution is not part of this model).
 */
module Laplacian {
  import opened Grids
  import opened Hypotenuse
  import opened Threshold

  /**
   * The 3 x 3 Laplacian kernel: only the centre weight is positive, and the
   * eight weights around it are all the same.
   */
  function Kernel(): (k: seq<seq<int>>)
    ensures IsMatrix(k, 3, 3)
    ensures forall i, j :: 0 <= i < 3 && 0 <= j < 3 ==> (k[i][j] > 0 <==> i == 1 && j == 1)
    ensures forall i, j :: 0 <= i < 3 && 0 <= j < 3 && (i != 1 || j != 1) ==> k[i][j] == k[0][0]
  {
    [[-1, -1, -1],
     [-1, 8, -1],
     [-1, -1, -1]]
  }

  /** The kernel is 3 x 3, 8 at the centre and -1 elsewhere, so its weights sum to zero. */
  lemma KernelBalanced()
    ensures IsMatrix(Kernel(), 3, 3)
    ensures forall i, j :: 0 <= i < 3 && 0 <= j < 3 ==> Kernel()[i][j] == if i == 1 && j == 1 then 8 else -1
    ensures GridSum(Kernel()) == 0
  {
    GridSumOfThree(Kernel());
    SumOfThree(-1, -1, -1);
    SumOfThree(-1, 8, -1);
  }

  /** A response grid with at least one row and one column; the size is read off it. */
  ghost predicate ResponseOk(conv: seq<seq<int>>)
  {
    |conv| >= 1 && |conv[0]| >= 1 && IsMatrix(conv, |conv|, |conv[0]|)
  }

  /** The pixels whose absolute response is strictly above the threshold. */
  ghost function ExceedCells(conv: seq<seq<int>>, threshold: int): set<(int, int)>
  {
    set i, j | 0 <= i < |conv| && 0 <= j < |conv[i]| && Abs(conv[i][j]) > threshold :: (i, j)
  }

  /** Raising the threshold never adds an edge pixel. */
  lemma ExceedMonotone(conv: seq<seq<int>>, t1: int, t2: int)
    requires t1 <= t2
    ensures ExceedCells(conv, t2) <= ExceedCells(conv, t1)
  {
  }

  /** With a non-negative threshold a pixel with zero response is never an edge. */
  lemma ZeroResponseNeverEdge(conv: seq<seq<int>>, threshold: int, i: int, j: int)
    requires threshold >= 0 && 0 <= i < |conv| && 0 <= j < |conv[i]| && conv[i][j] == 0
    ensures (i, j) !in ExceedCells(conv, threshold)
  {
  }

  /**
   * The mean threshold lies between the smallest and the largest response;
   * when the mean is negative every pixel is an edge, since the test
   * compares the absolute response.
   */
  lemma MeanThreshold(conv: seq<seq<int>>, lo: int, hi: int)
    requires ResponseOk(conv)
    requires forall i, j :: 0 <= i < |conv| && 0 <= j < |conv[0]| ==> lo <= conv[i][j] <= hi
    ensures Count(conv) == |conv| * |conv[0]|
    ensures lo <= CalcThresholdEdges(conv) <= hi
    ensures CalcThresholdEdges(conv) < 0 ==>
      forall i, j :: 0 <= i < |conv| && 0 <= j < |conv[0]| ==> (i, j) in ExceedCells(conv, CalcThresholdEdges(conv))
  {
    CountMatrix(conv, |conv|, |conv[0]|);
    ThresholdBetween(conv, lo, hi);
  }

  /** The thresholding loop of `findEdges`: `Math.abs(conv[i][j]) > threshold`, a strict comparison. */
  method MarkExceeding(conv: seq<seq<int>>, threshold: int, edges: array2<bool>)
    requires ResponseOk(conv)
    requires edges.Length0 == |conv| && edges.Length1 == |conv[0]|
    modifies edges
    ensures forall i, j :: 0 <= i < |conv| && 0 <= j < |conv[0]| ==>
      (edges[i, j] <==> Abs(conv[i][j]) > threshold)
  {
    var rows, columns := |conv|, |conv[0]|;
    for i := 0 to rows
      invariant forall a, b :: 0 <= a < i && 0 <= b < columns ==> (edges[a, b] <==> Abs(conv[a][b]) > threshold)
    {
      for j := 0 to columns
        invariant forall a, b :: 0 <= a < i && 0 <= b < columns ==> (edges[a, b] <==> Abs(conv[a][b]) > threshold)
        invariant forall b :: 0 <= b < j ==> (edges[i, b] <==> Abs(conv[i][b]) > threshold)
      {
        edges[i, j] := Abs(conv[i][j]) > threshold;
      }
    }
  }

  class LaplacianEdgeDetector {
    var edges: array2?<bool>
    var threshold: int

    /** The constructor without arguments: no edges yet, threshold 0. */
    constructor ()
      ensures edges == null && threshold == 0
    {
      edges := null;
      threshold := 0;
    }

    /** The constructor taking an image, from the Laplacian response of that image on. */
    constructor FromResponse(conv: seq<seq<int>>)
      requires ResponseOk(conv)
      ensures threshold == CalcThresholdEdges(conv)
      ensures edges != null && edges.Length0 == |conv| && edges.Length1 == |conv[0]|
      ensures forall i, j :: 0 <= i < |conv| && 0 <= j < |conv[0]| ==>
        (edges[i, j] <==> (i, j) in ExceedCells(conv, threshold))
    {
      edges := null;
      threshold := 0;
      new;
      FindEdges(conv);
    }

    /**
     * `findEdges` from the response on: the threshold is the mean response,
     * computed once before the loop, and a pixel is an edge when its
     * absolute response is strictly above it. `getThreshold` and `getEdges`
     * read these two fields.
     */
    method FindEdges(conv: seq<seq<int>>)
      requires ResponseOk(conv)
      modifies this
      ensures threshold == CalcThresholdEdges(conv)
      ensures edges != null && fresh(edges) && edges.Length0 == |conv| && edges.Length1 == |conv[0]|
      ensures forall i, j :: 0 <= i < |conv| && 0 <= j < |conv[0]| ==>
        (edges[i, j] <==> (i, j) in ExceedCells(conv, threshold))
    {
      var rows, columns := |conv|, |conv[0]|;
      CountMatrix(conv, rows, columns);
      threshold := CalcThresholdEdges(conv);
      var grid := new bool[rows, columns];
      edges := grid;
      MarkExceeding(conv, threshold, grid);
    }

    /**
     * `detectEdges`: a fresh detector on the image, its edges shown black on
     * white.
     */
    static method DetectEdges(conv: seq<seq<int>>) returns (raster: array2<Rgb>)
      requires ResponseOk(conv)
      ensures raster.Length0 == |conv[0]| && raster.Length1 == |conv|
      ensures forall i, j :: 0 <= i < |conv| && 0 <= j < |conv[0]| ==>
        raster[j, i] == if Abs(conv[i][j]) > CalcThresholdEdges(conv) then Black else White
    {
      var detector := new LaplacianEdgeDetector.FromResponse(conv);
      raster := ApplyThresholdReversed(detector.edges);
    }
  }
}
