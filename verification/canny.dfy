/**
 * CannyEdgeDetector.java after the two gradient convolutions: magnitudes,
 * non-maximum suppression, automatic thresholds, strong/weak
 * classification and hysteresis linking by recursive depth-first search.
 *
 * The gradient grids are inputs (ImageConvolution is not part of this
 * model). NonMaximumSuppression and KMeans are not part of this model
 * either; they enter as the function parameters `suppress` and
 * `centroids`.
 */
module Canny {
  import opened Grids
  import opened Hypotenuse
  import opened CannyIndex
  import opened Hysteresis
  import Threshold

  /**
   * NonMaximumSuppression.nonMaximumSuppression: given the magnitude grid as
   * it stands, the gradient at (i, j) (from which the source derives the
   * edge direction), i, j and the low threshold, whether to zero mag[i][j].
   */
  type Suppressor = (seq<seq<int>>, int, int, int, int, int) -> bool

  /** The first two KMeans centroids (k = 3) of the magnitude values. */
  type Clustering = seq<seq<int>> -> (real, real)

  /** Two gradient grids of the same shape, at least 1 x 1. */
  ghost predicate GradientsOk(gx: seq<seq<int>>, gy: seq<seq<int>>)
  {
    |gx| >= 1 && |gx[0]| >= 1 && IsMatrix(gx, |gx|, |gx[0]|) && IsMatrix(gy, |gx|, |gx[0]|)
  }

  /** The `hypotenuse` helper: the L1 or (truncated) L2 norm of the gradient. */
  function Magnitude(l1Norm: bool, x: int, y: int): (m: nat)
    ensures Abs(x) <= m && Abs(y) <= m
    ensures m == 0 <==> x == 0 && y == 0
    ensures m <= Abs(x) + Abs(y)
  {
    L2Bounds(x, y);
    if l1Norm then L1(x, y) else L2(x, y)
  }

  /** The magnitude grid before suppression. */
  ghost function MagnitudeGrid(l1Norm: bool, gx: seq<seq<int>>, gy: seq<seq<int>>): (g: seq<seq<int>>)
    requires GradientsOk(gx, gy)
    ensures IsMatrix(g, |gx|, |gx[0]|)
  {
    seq(|gx|, i requires 0 <= i < |gx| =>
      seq(|gx[0]|, j requires 0 <= j < |gx[0]| => Magnitude(l1Norm, gx[i][j], gy[i][j])))
  }

  /**
   * The suppression loop from pixel (i, j) on, in row-major order. Each
   * test sees the grid with the earlier suppressions already applied, as
   * the source zeroes `mag` in place while scanning it.
   */
  ghost function SuppressFrom(mag: seq<seq<int>>, gx: seq<seq<int>>, gy: seq<seq<int>>,
                              suppress: Suppressor, low: int, i: nat, j: nat): (g: seq<seq<int>>)
    requires GradientsOk(gx, gy) && IsMatrix(mag, |gx|, |gx[0]|)
    requires i <= |gx| && j <= |gx[0]|
    ensures IsMatrix(g, |gx|, |gx[0]|)
    decreases |gx| - i, |gx[0]| - j
  {
    if i == |gx| then mag
    else if j == |gx[0]| then SuppressFrom(mag, gx, gy, suppress, low, i + 1, 0)
    else
      var next := if suppress(mag, gx[i][j], gy[i][j], i, j, low) then mag[i := mag[i][j := 0]] else mag;
      SuppressFrom(next, gx, gy, suppress, low, i, j + 1)
  }

  /** The magnitude grid after the whole suppression loop, run with low threshold `low`. */
  ghost function Suppressed(l1Norm: bool, gx: seq<seq<int>>, gy: seq<seq<int>>, suppress: Suppressor, low: int): (g: seq<seq<int>>)
    requires GradientsOk(gx, gy)
    ensures IsMatrix(g, |gx|, |gx[0]|)
  {
    SuppressFrom(MagnitudeGrid(l1Norm, gx, gy), gx, gy, suppress, low, 0, 0)
  }

  /** Suppression only ever zeroes a magnitude: every entry is kept or set to 0. */
  lemma {:induction false} SuppressOnlyZeroes(mag: seq<seq<int>>, gx: seq<seq<int>>, gy: seq<seq<int>>,
                                              suppress: Suppressor, low: int, i: nat, j: nat)
    requires GradientsOk(gx, gy) && IsMatrix(mag, |gx|, |gx[0]|)
    requires i <= |gx| && j <= |gx[0]|
    ensures var g := SuppressFrom(mag, gx, gy, suppress, low, i, j);
      forall a, b :: 0 <= a < |gx| && 0 <= b < |gx[0]| ==> g[a][b] == mag[a][b] || g[a][b] == 0
    decreases |gx| - i, |gx[0]| - j
  {
    if i == |gx| {
    } else if j == |gx[0]| {
      SuppressOnlyZeroes(mag, gx, gy, suppress, low, i + 1, 0);
    } else {
      var next := if suppress(mag, gx[i][j], gy[i][j], i, j, low) then mag[i := mag[i][j := 0]] else mag;
      SuppressOnlyZeroes(next, gx, gy, suppress, low, i, j + 1);
    }
  }

  /** A suppressor that never fires leaves the grid as it is. */
  lemma {:induction false} SuppressNothing(mag: seq<seq<int>>, gx: seq<seq<int>>, gy: seq<seq<int>>,
                                           suppress: Suppressor, low: int, i: nat, j: nat)
    requires GradientsOk(gx, gy) && IsMatrix(mag, |gx|, |gx[0]|)
    requires i <= |gx| && j <= |gx[0]|
    requires forall g, x, y, a, b :: !suppress(g, x, y, a, b, low)
    ensures SuppressFrom(mag, gx, gy, suppress, low, i, j) == mag
    decreases |gx| - i, |gx[0]| - j
  {
    if i == |gx| {
    } else if j == |gx[0]| {
      SuppressNothing(mag, gx, gy, suppress, low, i + 1, 0);
    } else {
      SuppressNothing(mag, gx, gy, suppress, low, i, j + 1);
    }
  }

  /** Java's `(int)` cast of a double: truncation toward zero. */
  function TruncReal(x: real): (n: int)
    ensures Abs(n) as real <= if x < 0.0 then -x else x
    ensures (if x < 0.0 then -x else x) < Abs(n) as real + 1.0
    ensures n == 0 || (n < 0 <==> x < 0.0)
  {
    if x >= 0.0 then x.Floor else -((-x).Floor)
  }

  lemma TruncRealMonotone(x: real, y: real)
    requires x <= y
    ensures TruncReal(x) <= TruncReal(y)
  {
    if x >= 0.0 {
      assert x.Floor as real <= x <= y;
    } else if y < 0.0 {
      assert (-y).Floor as real <= -y <= -x;
    }
  }

  /**
   * Thresholds from the first two centroids: the smaller one (by `<`) is
   * the low threshold, the other the high one, both cast to int.
   */
  function AutoThresholds(c0: real, c1: real): (t: (int, int))
    ensures t.0 <= t.1
    ensures multiset{t.0, t.1} == multiset{TruncReal(c0), TruncReal(c1)}
  {
    var b := c0 < c1;
    TruncRealMonotone(if b then c0 else c1, if b then c1 else c0);
    (TruncReal(if b then c0 else c1), TruncReal(if b then c1 else c0))
  }

  // ---------------------------------------------------------------------
  // Flat indices of sets of pixels, and the marked grid as a set.

  ghost function IndexSet(cells: set<Cell>, columns: int): set<int>
  {
    set x | x in cells :: Sub2Ind(x.0, x.1, columns)
  }

  /** `indices` is the HashSet of flat indices of the in-grid pixels `cells`. */
  ghost predicate Indexes(indices: set<int>, cells: set<Cell>, rows: int, columns: int)
  {
    InsideGrid(cells, rows, columns) && indices == IndexSet(cells, columns)
  }

  lemma IndexSetAdd(cells: set<Cell>, x: Cell, columns: int)
    ensures IndexSet(cells + {x}, columns) == IndexSet(cells, columns) + {Sub2Ind(x.0, x.1, columns)}
  {
  }

  /** An index set answers membership of in-grid pixels exactly, and decodes to its pixels. */
  lemma IndexesFacts(indices: set<int>, cells: set<Cell>, rows: int, columns: int)
    requires columns >= 1 && Indexes(indices, cells, rows, columns)
    ensures forall i :: i in indices ==> Ind2Sub(i, columns) in cells
    ensures forall i :: i in indices ==> Sub2Ind(Ind2Sub(i, columns).0, Ind2Sub(i, columns).1, columns) == i
    ensures forall x :: InGrid(rows, columns, x) ==> (Sub2Ind(x.0, x.1, columns) in indices <==> x in cells)
  {
    forall i | i in indices
      ensures Ind2Sub(i, columns) in cells
      ensures Sub2Ind(Ind2Sub(i, columns).0, Ind2Sub(i, columns).1, columns) == i
    {
      var x :| x in cells && i == Sub2Ind(x.0, x.1, columns);
      Ind2SubSub2Ind(x.0, x.1, columns);
    }
    forall x | InGrid(rows, columns, x) && Sub2Ind(x.0, x.1, columns) in indices ensures x in cells {
      var y :| y in cells && Sub2Ind(x.0, x.1, columns) == Sub2Ind(y.0, y.1, columns);
      Sub2IndInjective(x, y, rows, columns);
    }
  }

  /** The pixels whose index is in one of the two HashSets are exactly `sw`. */
  ghost predicate CandidateIndices(strongSet: set<int>, weakSet: set<int>, sw: set<Cell>, rows: int, columns: int)
  {
    && InsideGrid(sw, rows, columns)
    && forall x :: InGrid(rows, columns, x) ==>
      (Sub2Ind(x.0, x.1, columns) in weakSet || Sub2Ind(x.0, x.1, columns) in strongSet <==> x in sw)
  }

  /** A search from a pixel linked to the seed passes that link on to each candidate neighbour. */
  lemma NeighbourReach(sw: set<Cell>, rows: int, columns: int, seed: Cell, x: Cell, n: Cell)
    requires Reach(sw, seed, x) && Adjacent(x, n)
    ensures InGrid(rows, columns, n) && n in sw ==> Reach(sw, seed, n)
  {
    if n in sw {
      ReachStep(sw, seed, x, n);
    }
  }

  ghost function GridCells(rows: int, columns: int): set<Cell>
  {
    set r, c | 0 <= r < rows && 0 <= c < columns :: (r, c)
  }

  /** The pixels set in a `marked` grid. */
  ghost function MarkedCells(marked: array2<bool>): set<Cell>
    reads marked
  {
    set r, c | 0 <= r < marked.Length0 && 0 <= c < marked.Length1 && marked[r, c] :: (r, c)
  }

  /** The flat indices of a sequence of pixels, in order. */
  ghost function Indices(p: seq<Cell>, columns: int): (s: seq<int>)
    ensures |s| == |p|
    ensures forall k :: 0 <= k < |p| ==> s[k] == Sub2Ind(p[k].0, p[k].1, columns)
  {
    seq(|p|, k requires 0 <= k < |p| => Sub2Ind(p[k].0, p[k].1, columns))
  }

  lemma IndicesAppend(p: seq<Cell>, q: seq<Cell>, columns: int)
    ensures Indices(p + q, columns) == Indices(p, columns) + Indices(q, columns)
  {
  }

  /** Pushing the indices of q after those of p pushes the indices of p + q. */
  lemma IndicesExtend(base: seq<int>, p: seq<Cell>, q: seq<Cell>, columns: int)
    ensures base + Indices(p, columns) + Indices(q, columns) == base + Indices(p + q, columns)
  {
    IndicesAppend(p, q, columns);
  }

  /** Marking a fresh pixel strictly shrinks the unmarked part of the grid: the search terminates. */
  lemma Shrinks(grid: set<Cell>, m0: set<Cell>, m: set<Cell>, x: Cell)
    requires x in grid && x !in m0 && m0 + {x} <= m
    ensures grid - m < grid - m0
  {
    assert x in grid - m0 && x !in grid - m;
  }

  /** The strong and weak masks of magnitude grid g for thresholds low and high. */
  ghost predicate Masks(g: seq<seq<int>>, strongEdges: array2<bool>, weakEdges: array2<bool>, low: int, high: int)
    reads strongEdges, weakEdges
  {
    && IsMatrix(g, strongEdges.Length0, strongEdges.Length1)
    && weakEdges.Length0 == strongEdges.Length0 && weakEdges.Length1 == strongEdges.Length1
    && forall r, c :: 0 <= r < strongEdges.Length0 && 0 <= c < strongEdges.Length1 ==>
      (strongEdges[r, c] <==> g[r][c] >= high) && (weakEdges[r, c] <==> low <= g[r][c] < high)
  }

  /**
   * The classification loop of `findEdges`: strong pixels (mag >= high) and
   * weak ones (low <= mag < high), as the two masks and as the two HashSets
   * of flat indices, numbered by a running counter.
   */
  method Classify(mag: array2<int>, strongEdges: array2<bool>, weakEdges: array2<bool>, low: int, high: int)
    returns (strongSet: set<int>, weakSet: set<int>)
    requires mag.Length1 >= 1
    requires strongEdges.Length0 == mag.Length0 && strongEdges.Length1 == mag.Length1
    requires weakEdges.Length0 == mag.Length0 && weakEdges.Length1 == mag.Length1
    requires strongEdges != weakEdges
    requires forall r, c :: 0 <= r < mag.Length0 && 0 <= c < mag.Length1 ==> !strongEdges[r, c] && !weakEdges[r, c]
    modifies strongEdges, weakEdges
    ensures Masks(ToSeq(mag), strongEdges, weakEdges, low, high)
    ensures Indexes(strongSet, StrongCells(ToSeq(mag), high), mag.Length0, mag.Length1)
    ensures Indexes(weakSet, WeakCells(ToSeq(mag), low, high), mag.Length0, mag.Length1)
  {
    var rows, columns := mag.Length0, mag.Length1;
    strongSet, weakSet := {}, {};
    ghost var strong: set<Cell> := {};
    ghost var weak: set<Cell> := {};
    var index := 0;
    for r := 0 to rows
      invariant index == columns * r
      invariant strongSet == IndexSet(strong, columns) && weakSet == IndexSet(weak, columns)
      invariant Classified(mag, strong, weak, low, high, r, 0)
      invariant MasksOf(strongEdges, weakEdges, strong, weak)
    {
      index, strongSet, weakSet, strong, weak :=
        ClassifyRow(mag, strongEdges, weakEdges, low, high, r, index, strongSet, weakSet, strong, weak);
    }
    CellsOfGrid(mag, strong, weak, high, low);
  }

  /** One row of the classification loop, with the running index and the sets so far. */
  method ClassifyRow(mag: array2<int>, strongEdges: array2<bool>, weakEdges: array2<bool>, low: int, high: int,
                     r: int, index: int, strongSet: set<int>, weakSet: set<int>, ghost strong: set<Cell>, ghost weak: set<Cell>)
    returns (index': int, strongSet': set<int>, weakSet': set<int>, ghost strong': set<Cell>, ghost weak': set<Cell>)
    requires 0 <= r < mag.Length0 && mag.Length1 >= 1
    requires strongEdges.Length0 == mag.Length0 && strongEdges.Length1 == mag.Length1
    requires weakEdges.Length0 == mag.Length0 && weakEdges.Length1 == mag.Length1
    requires strongEdges != weakEdges
    requires index == mag.Length1 * r
    requires strongSet == IndexSet(strong, mag.Length1) && weakSet == IndexSet(weak, mag.Length1)
    requires Classified(mag, strong, weak, low, high, r, 0)
    requires MasksOf(strongEdges, weakEdges, strong, weak)
    modifies strongEdges, weakEdges
    ensures index' == mag.Length1 * (r + 1)
    ensures strongSet' == IndexSet(strong', mag.Length1) && weakSet' == IndexSet(weak', mag.Length1)
    ensures Classified(mag, strong', weak', low, high, r + 1, 0)
    ensures MasksOf(strongEdges, weakEdges, strong', weak')
  {
    var columns := mag.Length1;
    index', strongSet', weakSet', strong', weak' := index, strongSet, weakSet, strong, weak;
    for c := 0 to columns
      invariant index' == columns * r + c
      invariant strongSet' == IndexSet(strong', columns) && weakSet' == IndexSet(weak', columns)
      invariant Classified(mag, strong', weak', low, high, r, c)
      invariant MasksOf(strongEdges, weakEdges, strong', weak')
    {
      index', strongSet', weakSet', strong', weak' :=
        ClassifyPixel(mag, strongEdges, weakEdges, low, high, r, c, index', strongSet', weakSet', strong', weak');
    }
    assert columns * (r + 1) == columns * r + columns;
    NextRow(mag, strong', weak', low, high, r);
  }

  /** One pixel of the classification loop: strong, weak, or neither. */
  method ClassifyPixel(mag: array2<int>, strongEdges: array2<bool>, weakEdges: array2<bool>, low: int, high: int,
                       r: int, c: int, index: int, strongSet: set<int>, weakSet: set<int>,
                       ghost strong: set<Cell>, ghost weak: set<Cell>)
    returns (index': int, strongSet': set<int>, weakSet': set<int>, ghost strong': set<Cell>, ghost weak': set<Cell>)
    requires 0 <= r < mag.Length0 && 0 <= c < mag.Length1
    requires strongEdges.Length0 == mag.Length0 && strongEdges.Length1 == mag.Length1
    requires strongEdges != weakEdges
    requires index == mag.Length1 * r + c
    requires strongSet == IndexSet(strong, mag.Length1) && weakSet == IndexSet(weak, mag.Length1)
    requires Classified(mag, strong, weak, low, high, r, c)
    requires MasksOf(strongEdges, weakEdges, strong, weak)
    modifies strongEdges, weakEdges
    ensures index' == index + 1
    ensures strongSet' == IndexSet(strong', mag.Length1) && weakSet' == IndexSet(weak', mag.Length1)
    ensures Classified(mag, strong', weak', low, high, r, c + 1)
    ensures MasksOf(strongEdges, weakEdges, strong', weak')
  {
    var columns := mag.Length1;
    ClassifiedNext(mag, strong, weak, low, high, r, c);
    index', strongSet', weakSet', strong', weak' := index, strongSet, weakSet, strong, weak;
    if mag[r, c] >= high {
      IndexSetAdd(strong, (r, c), columns);
      strongSet' := strongSet + {index};
      strong' := strong + {(r, c)};
      strongEdges[r, c] := true;
    } else if mag[r, c] >= low {
      IndexSetAdd(weak, (r, c), columns);
      weakSet' := weakSet + {index};
      weak' := weak + {(r, c)};
      weakEdges[r, c] := true;
    }
    index' := index + 1;
  }

  /** Classifying pixel (r, c) extends the sets for the pixels before it to those up to it. */
  lemma ClassifiedNext(mag: array2<int>, strong: set<Cell>, weak: set<Cell>, low: int, high: int, r: int, c: int)
    requires 0 <= r < mag.Length0 && 0 <= c < mag.Length1
    requires Classified(mag, strong, weak, low, high, r, c)
    ensures Classified(mag, if mag[r, c] >= high then strong + {(r, c)} else strong,
                       if low <= mag[r, c] < high then weak + {(r, c)} else weak, low, high, r, c + 1)
  {
  }

  lemma NextRow(mag: array2<int>, strong: set<Cell>, weak: set<Cell>, low: int, high: int, r: int)
    requires Classified(mag, strong, weak, low, high, r, mag.Length1)
    ensures Classified(mag, strong, weak, low, high, r + 1, 0)
  {
    forall x ensures Before(x, r, mag.Length1, mag.Length1) <==> Before(x, r + 1, 0, mag.Length1) {
    }
  }

  /** Pixel x comes before (r, c) in row-major order, in a grid `columns` wide. */
  predicate Before(x: Cell, r: int, c: int, columns: int)
  {
    0 <= x.0 && 0 <= x.1 < columns && (x.0 < r || (x.0 == r && x.1 < c))
  }

  /** `strong` and `weak` hold the strong and weak pixels among those before (r, c). */
  ghost predicate Classified(mag: array2<int>, strong: set<Cell>, weak: set<Cell>, low: int, high: int, r: int, c: int)
    reads mag
  {
    && (forall x :: x in strong <==> Before(x, r, c, mag.Length1) && x.0 < mag.Length0 && mag[x.0, x.1] >= high)
    && (forall x :: x in weak <==> Before(x, r, c, mag.Length1) && x.0 < mag.Length0 && low <= mag[x.0, x.1] < high)
  }

  /** The two boolean grids mark exactly the pixels of `strong` and of `weak`. */
  ghost predicate MasksOf(strongEdges: array2<bool>, weakEdges: array2<bool>, strong: set<Cell>, weak: set<Cell>)
    reads strongEdges, weakEdges
  {
    && weakEdges.Length0 == strongEdges.Length0 && weakEdges.Length1 == strongEdges.Length1
    && forall a, b :: 0 <= a < strongEdges.Length0 && 0 <= b < strongEdges.Length1 ==>
      (strongEdges[a, b] <==> (a, b) in strong) && (weakEdges[a, b] <==> (a, b) in weak)
  }

  /** The ghost pixel sets built by Classify are the strong and weak pixels of the grid. */
  lemma CellsOfGrid(mag: array2<int>, strong: set<Cell>, weak: set<Cell>, high: int, low: int)
    requires Classified(mag, strong, weak, low, high, mag.Length0, 0)
    ensures strong == StrongCells(ToSeq(mag), high) && weak == WeakCells(ToSeq(mag), low, high)
  {
    StrongOfGrid(mag, strong, weak, high, low);
    WeakOfGrid(mag, strong, weak, high, low);
  }

  lemma StrongOfGrid(mag: array2<int>, strong: set<Cell>, weak: set<Cell>, high: int, low: int)
    requires Classified(mag, strong, weak, low, high, mag.Length0, 0)
    ensures strong == StrongCells(ToSeq(mag), high)
  {
    var g := ToSeq(mag);
    forall x | x in StrongCells(g, high) ensures x in strong {
      var r, c :| 0 <= r < |g| && 0 <= c < |g[r]| && g[r][c] >= high && x == (r, c);
    }
    forall x | x in strong ensures x in StrongCells(g, high) {
      assert x == (x.0, x.1);
    }
  }

  lemma WeakOfGrid(mag: array2<int>, strong: set<Cell>, weak: set<Cell>, high: int, low: int)
    requires Classified(mag, strong, weak, low, high, mag.Length0, 0)
    ensures weak == WeakCells(ToSeq(mag), low, high)
  {
    var g := ToSeq(mag);
    forall x | x in WeakCells(g, low, high) ensures x in weak {
      var r, c :| 0 <= r < |g| && 0 <= c < |g[r]| && low <= g[r][c] < high && x == (r, c);
    }
    forall x | x in weak ensures x in WeakCells(g, low, high) {
      assert x == (x.0, x.1);
    }
  }

  /** An edge grid holding exactly the pixels of `cells`. */
  ghost predicate EdgesAre(edges: array2<bool>, cells: set<Cell>)
    reads edges
  {
    forall r, c :: 0 <= r < edges.Length0 && 0 <= c < edges.Length1 ==> (edges[r, c] <==> (r, c) in cells)
  }

  /** Edges set for `before` and the pixels of `pushed` are the edges of any set with exactly those members. */
  lemma EdgesGrown(edges: array2<bool>, before: set<Cell>, pushed: seq<Cell>, after: set<Cell>)
    requires forall r, c :: 0 <= r < edges.Length0 && 0 <= c < edges.Length1 ==>
      (edges[r, c] <==> (r, c) in before || (r, c) in pushed)
    requires forall x :: x in after <==> x in before || x in pushed
    ensures EdgesAre(edges, after)
  {
  }

  /**
   * What `findEdges` leaves behind, from the settings (norm, automatic
   * thresholds, minimum edge size, the thresholds it starts with) and the
   * gradients: the suppressed magnitudes `g`, the thresholds used, the two
   * masks, and the edges hysteresis accepts.
   */
  ghost predicate Detected(l1Norm: bool, calcThreshold: bool, minEdgeSize: int, low0: int, high0: int,
                           gx: seq<seq<int>>, gy: seq<seq<int>>, suppress: Suppressor, centroids: Clustering,
                           low: int, high: int, edges: array2<bool>, strongEdges: array2<bool>, weakEdges: array2<bool>,
                           g: seq<seq<int>>)
    requires GradientsOk(gx, gy)
    reads edges, strongEdges, weakEdges
  {
    && edges.Length0 == |gx| && edges.Length1 == |gx[0]|
    && g == Suppressed(l1Norm, gx, gy, suppress, low0)
    && (!calcThreshold ==> low == low0 && high == high0)
    && (calcThreshold ==> (low, high) == AutoThresholds(centroids(g).0, centroids(g).1))
    && Masks(g, strongEdges, weakEdges, low, high)
    && EdgesAre(edges, HysteresisEdges(g, low, high, minEdgeSize))
  }

  // ---------------------------------------------------------------------

  /** CannyEdgeDetector.Builder: the settings a detector is built with. */
  class Builder {
    var calcThreshold: bool
    var lowThreshold: int
    var highThreshold: int
    var l1Norm: bool
    var minEdgeSize: int

    /** Thresholds given explicitly are in range and ordered. */
    ghost predicate Valid()
      reads this
    {
      calcThreshold || 0 <= lowThreshold <= highThreshold <= 255
    }

    /** The defaults: automatic thresholds, L2 norm, no minimum edge size. */
    constructor ()
      ensures calcThreshold && !l1Norm && minEdgeSize == 0
      ensures lowThreshold == 0 && highThreshold == 0
      ensures Valid()
    {
      calcThreshold := true;
      lowThreshold := 0;
      highThreshold := 0;
      l1Norm := false;
      minEdgeSize := 0;
    }

    /**
     * `thresholds(low, high)`: rejected (the source throws
     * IllegalArgumentException, leaving the builder as it was) unless
     * 0 <= low <= high <= 255; accepted, it switches automatic thresholds off.
     */
    method Thresholds(low: int, high: int) returns (ok: bool)
      modifies this
      ensures ok <==> 0 <= low <= high <= 255
      ensures ok ==> !calcThreshold && lowThreshold == low && highThreshold == high
      ensures ok ==> l1Norm == old(l1Norm) && minEdgeSize == old(minEdgeSize)
      ensures !ok ==> unchanged(this)
      ensures old(Valid()) ==> Valid()
    {
      if low > high || low < 0 || high > 255 {
        return false;
      }
      calcThreshold := false;
      lowThreshold := low;
      highThreshold := high;
      return true;
    }

    method SetL1Norm(l1: bool)
      modifies this
      ensures l1Norm == l1
      ensures calcThreshold == old(calcThreshold) && lowThreshold == old(lowThreshold)
      ensures highThreshold == old(highThreshold) && minEdgeSize == old(minEdgeSize)
    {
      l1Norm := l1;
    }

    /** Any value is accepted: the minimum edge size is not validated. */
    method SetMinEdgeSize(size: int)
      modifies this
      ensures minEdgeSize == size
      ensures calcThreshold == old(calcThreshold) && lowThreshold == old(lowThreshold)
      ensures highThreshold == old(highThreshold) && l1Norm == old(l1Norm)
    {
      minEdgeSize := size;
    }
  }

  class CannyEdgeDetector {
    var l1Norm: bool
    var calcThreshold: bool
    var highThreshold: int
    var lowThreshold: int
    var minEdgeSize: int
    var edges: array2<bool>
    var strongEdges: array2<bool>
    var weakEdges: array2<bool>
    var rows: int
    var columns: int
    /** The magnitude grid after suppression, as classified. */
    ghost var magnitude: seq<seq<int>>

    /**
     * `new Builder(image)...build()`: the builder's settings (explicit
     * thresholds only when automatic ones are off; the int fields default to
     * 0 otherwise), then `findEdges` on the gradients of the image.
     */
    constructor (builder: Builder, gx: seq<seq<int>>, gy: seq<seq<int>>,
                 suppress: Suppressor, centroids: Clustering)
      requires GradientsOk(gx, gy)
      ensures l1Norm == builder.l1Norm && minEdgeSize == builder.minEdgeSize
      ensures calcThreshold == builder.calcThreshold
      ensures rows == |gx| && columns == |gx[0]|
      ensures edges.Length0 == rows && edges.Length1 == columns
      ensures magnitude == Suppressed(l1Norm, gx, gy, suppress, if builder.calcThreshold then 0 else builder.lowThreshold)
      ensures !calcThreshold ==> lowThreshold == builder.lowThreshold && highThreshold == builder.highThreshold
      ensures calcThreshold ==> (lowThreshold, highThreshold) == AutoThresholds(centroids(magnitude).0, centroids(magnitude).1)
      ensures builder.Valid() ==> lowThreshold <= highThreshold
      ensures Masks(magnitude, strongEdges, weakEdges, lowThreshold, highThreshold)
      ensures EdgesAre(edges, HysteresisEdges(magnitude, lowThreshold, highThreshold, minEdgeSize))
    {
      l1Norm := builder.l1Norm;
      minEdgeSize := builder.minEdgeSize;
      calcThreshold := builder.calcThreshold;
      if !builder.calcThreshold {
        lowThreshold := builder.lowThreshold;
        highThreshold := builder.highThreshold;
      } else {
        lowThreshold := 0;
        highThreshold := 0;
      }
      rows := |gx|;
      columns := |gx[0]|;
      edges := new bool[0, 0];
      strongEdges := edges;
      weakEdges := edges;
      magnitude := [];
      new;
      FindEdges(gx, gy, suppress, centroids);
    }

    /**
     * `detectEdges`: a detector built with minimum edge size 10, thresholds
     * 15 and 35 and the L2 norm, its edges shown black on white. The
     * suppression therefore runs with low threshold 15.
     */
    static method DetectEdges(gx: seq<seq<int>>, gy: seq<seq<int>>, suppress: Suppressor, centroids: Clustering)
      returns (raster: array2<Threshold.Rgb>)
      requires GradientsOk(gx, gy)
      ensures raster.Length0 == |gx[0]| && raster.Length1 == |gx|
      ensures forall r, c :: 0 <= r < |gx| && 0 <= c < |gx[0]| ==>
        raster[c, r] == if (r, c) in HysteresisEdges(Suppressed(false, gx, gy, suppress, 15), 15, 35, 10)
                        then Threshold.Black else Threshold.White
    {
      var builder := new Builder();
      builder.SetMinEdgeSize(10);
      var ok := builder.Thresholds(15, 35);
      builder.SetL1Norm(false);
      var detector := new CannyEdgeDetector(builder, gx, gy, suppress, centroids);
      raster := Threshold.ApplyThresholdReversed(detector.edges);
    }

    /**
     * `findEdges` from the gradient grids on; the grid size it reads off
     * the convolved images is already set from `gx`.
     */
    method FindEdges(gx: seq<seq<int>>, gy: seq<seq<int>>, suppress: Suppressor, centroids: Clustering)
      requires GradientsOk(gx, gy) && rows == |gx| && columns == |gx[0]|
      modifies this
      ensures l1Norm == old(l1Norm) && minEdgeSize == old(minEdgeSize) && calcThreshold == old(calcThreshold)
      ensures rows == old(rows) && columns == old(columns)
      ensures Detected(l1Norm, calcThreshold, minEdgeSize, old(lowThreshold), old(highThreshold), gx, gy, suppress, centroids,
                       lowThreshold, highThreshold, edges, strongEdges, weakEdges, magnitude)
    {
      var low, high, edgeGrid, strongGrid, weakGrid, g := Detect(gx, gy, suppress, centroids);
      lowThreshold, highThreshold, edges, strongEdges, weakEdges, magnitude :=
        low, high, edgeGrid, strongGrid, weakGrid, g;
    }

    /**
     * The body of `findEdges` once the grid size is set: magnitudes,
     * suppression, thresholds, classification and linking, into fresh grids.
     */
    method Detect(gx: seq<seq<int>>, gy: seq<seq<int>>, suppress: Suppressor, centroids: Clustering)
      returns (low: int, high: int, edgeGrid: array2<bool>, strongGrid: array2<bool>, weakGrid: array2<bool>,
               ghost g: seq<seq<int>>)
      requires GradientsOk(gx, gy) && rows == |gx| && columns == |gx[0]|
      ensures Detected(l1Norm, calcThreshold, minEdgeSize, lowThreshold, highThreshold, gx, gy, suppress, centroids,
                       low, high, edgeGrid, strongGrid, weakGrid, g)
    {
      var mag := SuppressedMagnitudes(gx, gy, suppress);
      low, high := lowThreshold, highThreshold;
      if calcThreshold {
        var c := centroids(ToSeq(mag));
        var t := AutoThresholds(c.0, c.1);
        low, high := t.0, t.1;
      }
      edgeGrid, strongGrid, weakGrid := ClassifyAndLink(mag, low, high);
      g := ToSeq(mag);
    }

    /** The three boolean grids of `findEdges`, filled by the classification loop and the linking loop. */
    method ClassifyAndLink(mag: array2<int>, low: int, high: int)
      returns (edgeGrid: array2<bool>, strongGrid: array2<bool>, weakGrid: array2<bool>)
      requires mag.Length0 == rows && mag.Length1 == columns && columns >= 1
      ensures edgeGrid.Length0 == rows && edgeGrid.Length1 == columns
      ensures Masks(ToSeq(mag), strongGrid, weakGrid, low, high)
      ensures EdgesAre(edgeGrid, HysteresisEdges(ToSeq(mag), low, high, minEdgeSize))
    {
      edgeGrid := new bool[rows, columns]((_, _) => false);
      weakGrid := new bool[rows, columns]((_, _) => false);
      strongGrid := new bool[rows, columns]((_, _) => false);
      var strongSet, weakSet := Classify(mag, strongGrid, weakGrid, low, high);
      ghost var g := ToSeq(mag);
      Link(edgeGrid, strongSet, weakSet, StrongCells(g, high), WeakCells(g, low, high));
    }

    /**
     * The magnitude loop followed by the suppression loop; the three boolean
     * grids `findEdges` allocates between the two are independent of both.
     */
    method SuppressedMagnitudes(gx: seq<seq<int>>, gy: seq<seq<int>>, suppress: Suppressor) returns (mag: array2<int>)
      requires GradientsOk(gx, gy)
      ensures fresh(mag) && mag.Length0 == |gx| && mag.Length1 == |gx[0]|
      ensures ToSeq(mag) == Suppressed(l1Norm, gx, gy, suppress, lowThreshold)
    {
      mag := Magnitudes(gx, gy);
      MatrixExt(ToSeq(mag), MagnitudeGrid(l1Norm, gx, gy), |gx|, |gx[0]|);
      SuppressNonMaxima(mag, gx, gy, suppress);
    }

    /** The first loop of `findEdges`: every pixel's gradient magnitude. */
    method Magnitudes(gx: seq<seq<int>>, gy: seq<seq<int>>) returns (mag: array2<int>)
      requires GradientsOk(gx, gy)
      ensures fresh(mag) && mag.Length0 == |gx| && mag.Length1 == |gx[0]|
      ensures forall i, j :: 0 <= i < |gx| && 0 <= j < |gx[0]| ==> mag[i, j] == Magnitude(l1Norm, gx[i][j], gy[i][j])
    {
      var rows, columns := |gx|, |gx[0]|;
      mag := new int[rows, columns];
      for i := 0 to rows
        invariant forall a, b :: 0 <= a < i && 0 <= b < columns ==> mag[a, b] == Magnitude(l1Norm, gx[a][b], gy[a][b])
      {
        for j := 0 to columns
          invariant forall a, b :: 0 <= a < i && 0 <= b < columns ==> mag[a, b] == Magnitude(l1Norm, gx[a][b], gy[a][b])
          invariant forall b :: 0 <= b < j ==> mag[i, b] == Magnitude(l1Norm, gx[i][b], gy[i][b])
        {
          mag[i, j] := Magnitude(l1Norm, gx[i][j], gy[i][j]);
        }
      }
    }

    /** The suppression loop, with the current low threshold (still 0 when it is to be computed). */
    method SuppressNonMaxima(mag: array2<int>, gx: seq<seq<int>>, gy: seq<seq<int>>, suppress: Suppressor)
      requires GradientsOk(gx, gy) && mag.Length0 == |gx| && mag.Length1 == |gx[0]|
      modifies mag
      ensures ToSeq(mag) == SuppressFrom(old(ToSeq(mag)), gx, gy, suppress, lowThreshold, 0, 0)
    {
      var rows, columns := |gx|, |gx[0]|;
      ghost var target := SuppressFrom(ToSeq(mag), gx, gy, suppress, lowThreshold, 0, 0);
      for i := 0 to rows
        invariant SuppressFrom(ToSeq(mag), gx, gy, suppress, lowThreshold, i, 0) == target
      {
        for j := 0 to columns
          invariant SuppressFrom(ToSeq(mag), gx, gy, suppress, lowThreshold, i, j) == target
        {
          ghost var before := ToSeq(mag);
          if suppress(ToSeq(mag), gx[i][j], gy[i][j], i, j, lowThreshold) {
            mag[i, j] := 0;
            MatrixExt(ToSeq(mag), before[i := before[i][j := 0]], rows, columns);
          }
        }
      }
    }

    /**
     * The linking loop: a depth-first search from every strong pixel, in
     * whatever order the HashSet yields them; the pixels a search pushed
     * become edges when there are at least minEdgeSize of them.
     */
    method Link(edges: array2<bool>, strongSet: set<int>, weakSet: set<int>, ghost strong: set<Cell>, ghost weak: set<Cell>)
      requires columns >= 1
      requires edges.Length0 == rows && edges.Length1 == columns
      requires EdgesAre(edges, {})
      requires Indexes(strongSet, strong, rows, columns) && Indexes(weakSet, weak, rows, columns)
      modifies edges
      ensures EdgesAre(edges, Accepted(strong + weak, strong, minEdgeSize))
    {
      ghost var sw := strong + weak;
      IndexesFacts(strongSet, strong, rows, columns);
      IndexesFacts(weakSet, weak, rows, columns);
      assert CandidateIndices(strongSet, weakSet, sw, rows, columns);
      var marked := new bool[rows, columns]((_, _) => false);
      assert MarkedCells(marked) == {};
      var remaining := strongSet;
      ghost var done: set<Cell> := {};
      while remaining != {}
        invariant remaining <= strongSet && done <= strong
        invariant forall i :: i in strongSet && i !in remaining ==> Ind2Sub(i, columns) in done
        invariant marked.Length0 == rows && marked.Length1 == columns
        invariant Covering(sw, done, MarkedCells(marked), rows, columns)
        invariant EdgesAre(edges, Accepted(sw, done, minEdgeSize))
        decreases remaining
      {
        var strongIndex :| strongIndex in remaining;
        LinkFrom(edges, marked, strongIndex, strongSet, weakSet, sw, done);
        SeedDone(strongSet, remaining, done, strongIndex, columns);
        remaining := remaining - {strongIndex};
        done := done + {Ind2Sub(strongIndex, columns)};
      }
      forall x | x in strong ensures x in done {
        Ind2SubSub2Ind(x.0, x.1, columns);
      }
      assert done == strong;
    }

    /** Once `strongIndex` is taken out of `remaining`, its cell joins the seeds done. */
    static lemma SeedDone(strongSet: set<int>, remaining: set<int>, done: set<Cell>, strongIndex: int, columns: int)
      requires columns >= 1 && strongIndex in remaining
      requires forall i :: i in strongSet && i !in remaining ==> Ind2Sub(i, columns) in done
      ensures forall i :: i in strongSet && i !in remaining - {strongIndex} ==>
        Ind2Sub(i, columns) in done + {Ind2Sub(strongIndex, columns)}
    {
    }

    /**
     * One turn of the linking loop, from the strong pixel `strongIndex`:
     * the search, then the edges it contributes; `done` holds the seeds
     * of the turns before.
     */
    method LinkFrom(edges: array2<bool>, marked: array2<bool>, strongIndex: int, strongSet: set<int>, weakSet: set<int>,
                    ghost sw: set<Cell>, ghost done: set<Cell>)
      requires columns >= 1
      requires edges.Length0 == rows && edges.Length1 == columns
      requires marked.Length0 == rows && marked.Length1 == columns && marked != edges
      requires CandidateIndices(strongSet, weakSet, sw, rows, columns)
      requires InGrid(rows, columns, Ind2Sub(strongIndex, columns)) && Ind2Sub(strongIndex, columns) in sw
      requires Covering(sw, done, MarkedCells(marked), rows, columns)
      requires EdgesAre(edges, Accepted(sw, done, minEdgeSize))
      modifies edges, marked
      ensures Covering(sw, done + {Ind2Sub(strongIndex, columns)}, MarkedCells(marked), rows, columns)
      ensures EdgesAre(edges, Accepted(sw, done + {Ind2Sub(strongIndex, columns)}, minEdgeSize))
    {
      var seed := Ind2Sub(strongIndex, columns);
      var toAdd, pushed := SearchFrom(marked, seed.0, seed.1, strongSet, weakSet, sw, done);
      KeepIfLarge(edges, toAdd, pushed, Accepted(sw, done, minEdgeSize), Accepted(sw, done + {seed}, minEdgeSize));
    }

    /**
     * The search of one turn, from the strong pixel `(r, c)` with an empty
     * `toAdd`: the marks then cover `done` and the seed, and the pixels
     * pushed are exactly what the seed adds to the accepted edges when
     * there are enough of them.
     */
    method SearchFrom(marked: array2<bool>, r: int, c: int, strongSet: set<int>, weakSet: set<int>,
                      ghost sw: set<Cell>, ghost done: set<Cell>)
      returns (toAdd: seq<int>, ghost pushed: seq<Cell>)
      requires columns >= 1
      requires marked.Length0 == rows && marked.Length1 == columns
      requires CandidateIndices(strongSet, weakSet, sw, rows, columns)
      requires InGrid(rows, columns, (r, c)) && (r, c) in sw
      requires Covering(sw, done, MarkedCells(marked), rows, columns)
      modifies marked
      ensures Covering(sw, done + {(r, c)}, MarkedCells(marked), rows, columns)
      ensures toAdd == Indices(pushed, columns)
      ensures forall k :: 0 <= k < |pushed| ==> InGrid(rows, columns, pushed[k])
      ensures forall x :: x in Accepted(sw, done + {(r, c)}, minEdgeSize) <==>
        x in Accepted(sw, done, minEdgeSize) || (|pushed| >= minEdgeSize && x in pushed)
    {
      ghost var m0 := MarkedCells(marked);
      ReachRefl(sw, (r, c));
      toAdd, pushed := Dfs(r, c, weakSet, strongSet, marked, [], sw, (r, c));
      LinkStep(sw, rows, columns, done, m0, MarkedCells(marked), pushed, (r, c), minEdgeSize);
      assert toAdd == Indices(pushed, columns);
      forall k | 0 <= k < |pushed| ensures InGrid(rows, columns, pushed[k]) {
        assert pushed[k] in pushed;
      }
    }

    /** `if (toAdd.size() >= minEdgeSize)`: the pixels a search pushed become edges only when there are enough of them. */
    method KeepIfLarge(edges: array2<bool>, toAdd: seq<int>, ghost pushed: seq<Cell>, ghost before: set<Cell>, ghost after: set<Cell>)
      requires columns >= 1
      requires edges.Length0 == rows && edges.Length1 == columns
      requires forall k :: 0 <= k < |pushed| ==> InGrid(rows, columns, pushed[k])
      requires toAdd == Indices(pushed, columns)
      requires EdgesAre(edges, before)
      requires forall x :: x in after <==> x in before || (|pushed| >= minEdgeSize && x in pushed)
      modifies edges
      ensures EdgesAre(edges, after)
    {
      if |toAdd| >= minEdgeSize {
        MarkEdges(edges, toAdd, pushed, before);
        EdgesGrown(edges, before, pushed, after);
      } else {
        EdgesGrown(edges, before, [], after);
      }
    }

    /** `for (int edgeIndex : toAdd)`: every pixel pushed becomes an edge. */
    method MarkEdges(edges: array2<bool>, toAdd: seq<int>, ghost pushed: seq<Cell>, ghost before: set<Cell>)
      requires columns >= 1
      requires edges.Length0 == rows && edges.Length1 == columns
      requires forall k :: 0 <= k < |pushed| ==> InGrid(rows, columns, pushed[k])
      requires toAdd == Indices(pushed, columns)
      requires EdgesAre(edges, before)
      modifies edges
      ensures forall r, c :: 0 <= r < rows && 0 <= c < columns ==>
        (edges[r, c] <==> (r, c) in before || (r, c) in pushed)
    {
      for k := 0 to |toAdd|
        invariant forall r, c :: 0 <= r < rows && 0 <= c < columns ==>
          (edges[r, c] <==> (r, c) in before || (r, c) in pushed[..k])
      {
        Ind2SubSub2Ind(pushed[k].0, pushed[k].1, columns);
        edges[Ind2Sub(toAdd[k], columns).0, Ind2Sub(toAdd[k], columns).1] := true;
      }
      assert pushed[..|toAdd|] == pushed;
    }

    /**
     * `dfs`: mark (r, c) if it is in the grid and unmarked; if it is strong
     * or weak, push its index and search its eight neighbours in turn.
     * `pushed` lists the pixels pushed; `seed` is the strong pixel the
     * search started from.
     */
    method Dfs(r: int, c: int, weakSet: set<int>, strongSet: set<int>, marked: array2<bool>, toAdd: seq<int>,
               ghost sw: set<Cell>, ghost seed: Cell)
      returns (toAdd': seq<int>, ghost pushed: seq<Cell>)
      requires columns >= 1 && marked.Length0 == rows && marked.Length1 == columns
      requires CandidateIndices(strongSet, weakSet, sw, rows, columns)
      requires InGrid(rows, columns, (r, c)) && (r, c) in sw ==> Reach(sw, seed, (r, c))
      modifies marked
      decreases GridCells(rows, columns) - MarkedCells(marked), 3
      ensures Explored(sw, rows, columns, seed, old(MarkedCells(marked)), MarkedCells(marked), pushed)
      ensures toAdd' == toAdd + Indices(pushed, columns)
      ensures InGrid(rows, columns, (r, c)) ==> (r, c) in MarkedCells(marked)
      ensures !InGrid(rows, columns, (r, c)) || (r, c) in old(MarkedCells(marked)) ==>
        pushed == [] && MarkedCells(marked) == old(MarkedCells(marked))
    {
      if r < 0 || r >= rows || c < 0 || c >= columns || marked[r, c] {
        ExploredNothing(sw, rows, columns, seed, MarkedCells(marked));
        return toAdd, [];
      }
      ghost var x := (r, c);
      ghost var m0 := MarkedCells(marked);
      marked[r, c] := true;
      ghost var m1 := MarkedCells(marked);
      assert m1 == m0 + {x};
      var index := Sub2Ind(r, c, columns);
      if index in weakSet || index in strongSet {
        ghost var acc;
        toAdd', acc := SearchNeighbours(r, c, weakSet, strongSet, marked, toAdd + [index], sw, seed, m0);
        ghost var mk := MarkedCells(marked);
        ExploredFrom(sw, rows, columns, seed, m0, m1, mk, x, acc);
        assert Indices([x], columns) == [index];
        IndicesExtend(toAdd, [x], acc, columns);
        pushed := [x] + acc;
      } else {
        ExploredNonCandidate(sw, rows, columns, seed, m0, x);
        toAdd', pushed := toAdd, [];
      }
    }

    /**
     * The eight recursive calls `dfs` makes from the candidate pixel x,
     * freshly marked on top of `m0`; `acc` lists the pixels they push.
     */
    method SearchNeighbours(r: int, c: int, weakSet: set<int>, strongSet: set<int>, marked: array2<bool>, toAdd: seq<int>,
                            ghost sw: set<Cell>, ghost seed: Cell, ghost m0: set<Cell>)
      returns (toAdd': seq<int>, ghost acc: seq<Cell>)
      requires columns >= 1 && marked.Length0 == rows && marked.Length1 == columns
      requires CandidateIndices(strongSet, weakSet, sw, rows, columns)
      requires Reach(sw, seed, (r, c)) && (r, c) in GridCells(rows, columns) && (r, c) !in m0
      requires MarkedCells(marked) == m0 + {(r, c)}
      modifies marked
      decreases GridCells(rows, columns) - m0, 2
      ensures Explored(sw, rows, columns, seed, m0 + {(r, c)}, MarkedCells(marked), acc)
      ensures NeighboursMarked((r, c), 8, MarkedCells(marked), rows, columns)
      ensures toAdd' == toAdd + Indices(acc, columns)
    {
      ghost var x := (r, c);
      ghost var base := toAdd;
      toAdd', acc := toAdd, [];
      ExploredNothing(sw, rows, columns, seed, m0 + {x});
      toAdd', acc := VisitRow(r - 1, c, weakSet, strongSet, marked, toAdd', sw, seed, x, m0, base, acc, 0);
      toAdd', acc := Visit(r, c - 1, weakSet, strongSet, marked, toAdd', sw, seed, x, m0, base, acc, 3);
      toAdd', acc := Visit(r, c + 1, weakSet, strongSet, marked, toAdd', sw, seed, x, m0, base, acc, 4);
      toAdd', acc := VisitRow(r + 1, c, weakSet, strongSet, marked, toAdd', sw, seed, x, m0, base, acc, 5);
    }

    /**
     * The three recursive calls of `dfs` from x on the row `row` above or
     * below it, left to right: neighbours k, k + 1 and k + 2 of x.
     */
    method VisitRow(row: int, c: int, weakSet: set<int>, strongSet: set<int>, marked: array2<bool>, toAdd: seq<int>,
                    ghost sw: set<Cell>, ghost seed: Cell, ghost x: Cell, ghost m0: set<Cell>, ghost base: seq<int>,
                    ghost acc: seq<Cell>, ghost k: int)
      returns (toAdd': seq<int>, ghost acc': seq<Cell>)
      requires columns >= 1 && marked.Length0 == rows && marked.Length1 == columns
      requires CandidateIndices(strongSet, weakSet, sw, rows, columns)
      requires Reach(sw, seed, x) && x in GridCells(rows, columns) && x !in m0
      requires 0 <= k && k + 2 < 8
      requires (row, c - 1) == Neighbour(x, k) && (row, c) == Neighbour(x, k + 1) && (row, c + 1) == Neighbour(x, k + 2)
      requires Explored(sw, rows, columns, seed, m0 + {x}, MarkedCells(marked), acc)
      requires NeighboursMarked(x, k, MarkedCells(marked), rows, columns)
      requires toAdd == base + Indices(acc, columns)
      modifies marked
      decreases GridCells(rows, columns) - m0, 1
      ensures Explored(sw, rows, columns, seed, m0 + {x}, MarkedCells(marked), acc')
      ensures NeighboursMarked(x, k + 3, MarkedCells(marked), rows, columns)
      ensures toAdd' == base + Indices(acc', columns)
    {
      toAdd', acc' := Visit(row, c - 1, weakSet, strongSet, marked, toAdd, sw, seed, x, m0, base, acc, k);
      toAdd', acc' := Visit(row, c, weakSet, strongSet, marked, toAdd', sw, seed, x, m0, base, acc', k + 1);
      toAdd', acc' := Visit(row, c + 1, weakSet, strongSet, marked, toAdd', sw, seed, x, m0, base, acc', k + 2);
    }

    /**
     * One of the eight recursive calls of `dfs` from the candidate pixel x,
     * on its k-th neighbour (r, c), after the calls before it pushed `acc`.
     */
    method Visit(r: int, c: int, weakSet: set<int>, strongSet: set<int>, marked: array2<bool>, toAdd: seq<int>,
                 ghost sw: set<Cell>, ghost seed: Cell, ghost x: Cell, ghost m0: set<Cell>, ghost base: seq<int>,
                 ghost acc: seq<Cell>, ghost k: int)
      returns (toAdd': seq<int>, ghost acc': seq<Cell>)
      requires columns >= 1 && marked.Length0 == rows && marked.Length1 == columns
      requires CandidateIndices(strongSet, weakSet, sw, rows, columns)
      requires Reach(sw, seed, x) && x in GridCells(rows, columns) && x !in m0
      requires 0 <= k < 8 && (r, c) == Neighbour(x, k)
      requires Explored(sw, rows, columns, seed, m0 + {x}, MarkedCells(marked), acc)
      requires NeighboursMarked(x, k, MarkedCells(marked), rows, columns)
      requires toAdd == base + Indices(acc, columns)
      modifies marked
      decreases GridCells(rows, columns) - m0, 0
      ensures Explored(sw, rows, columns, seed, m0 + {x}, MarkedCells(marked), acc')
      ensures NeighboursMarked(x, k + 1, MarkedCells(marked), rows, columns)
      ensures toAdd' == base + Indices(acc', columns)
    {
      ghost var mk := MarkedCells(marked);
      Shrinks(GridCells(rows, columns), m0, mk, x);
      NeighbourReach(sw, rows, columns, seed, x, (r, c));
      ghost var p;
      toAdd', p := Dfs(r, c, weakSet, strongSet, marked, toAdd, sw, seed);
      SearchStep(sw, rows, columns, seed, m0 + {x}, mk, MarkedCells(marked), acc, p, x, k, (r, c));
      IndicesExtend(base, acc, p, columns);
      acc' := acc + p;
    }
  }
}
