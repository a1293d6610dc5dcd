/**
 * Threshold.java: the mean threshold shared by the single-threshold
 * detectors, and the rules that render an edge grid as a raster.
 *
 * A raster is an `array2<Rgb>` indexed [x, y] = [column, row], because the
 * source writes grid cell (row, col) with `raster.setPixel(col, row, ...)`:
 * the raster is the transpose of the grid it renders.
 */
module Threshold {
  import opened Grids
  import opened JavaArith

  datatype Rgb = Rgb(red: int, green: int, blue: int)

  const Black := Rgb(0, 0, 0)
  const White := Rgb(255, 255, 255)
  const Blue := Rgb(0, 0, 255)
  const Green := Rgb(0, 255, 0)

  /**
   * The mean of every entry, cast to int. Statistics.calcMean is not part
   * of this model; its result is taken to be the exact arithmetic mean.
   */
  function CalcThresholdEdges(magnitude: seq<seq<int>>): (t: int)
    requires Count(magnitude) > 0
    ensures var sum, n := GridSum(magnitude), Count(magnitude);
      && (sum >= 0 ==> n * t <= sum < n * t + n)
      && (sum < 0 ==> n * t - n < sum <= n * t)
  {
    TruncDivBounds(GridSum(magnitude), Count(magnitude));
    TruncDiv(GridSum(magnitude), Count(magnitude))
  }

  /** The threshold lies between the smallest and the largest entry. */
  lemma ThresholdBetween(magnitude: seq<seq<int>>, lo: int, hi: int)
    requires Count(magnitude) > 0
    requires forall i, j :: 0 <= i < |magnitude| && 0 <= j < |magnitude[i]| ==>
      lo <= magnitude[i][j] <= hi
    ensures lo <= CalcThresholdEdges(magnitude) <= hi
  {
    GridSumAtLeast(magnitude, lo);
    GridSumAtMost(magnitude, hi);
    TruncDivLower(GridSum(magnitude), Count(magnitude), lo);
    TruncDivUpper(GridSum(magnitude), Count(magnitude), hi);
  }

  /** Some entry reaches the threshold: `mag >= threshold` marks at least one pixel. */
  lemma SomeEntryReachesThreshold(magnitude: seq<seq<int>>)
    requires Count(magnitude) > 0
    ensures exists i, j ::
      0 <= i < |magnitude| && 0 <= j < |magnitude[i]| && magnitude[i][j] >= CalcThresholdEdges(magnitude)
  {
    var t := CalcThresholdEdges(magnitude);
    if forall i, j :: 0 <= i < |magnitude| && 0 <= j < |magnitude[i]| ==> magnitude[i][j] < t {
      GridSumAtMost(magnitude, t - 1);
      TruncDivUpper(GridSum(magnitude), Count(magnitude), t - 1);
      assert false;
    }
  }

  /** Grid `pixels` rendered white where the intensity is strictly above `threshold`, black elsewhere. */
  method ApplyThreshold(pixels: array2<int>, threshold: int) returns (raster: array2<Rgb>)
    requires pixels.Length0 >= 1
    ensures fresh(raster)
    ensures raster.Length0 == pixels.Length1 && raster.Length1 == pixels.Length0
    ensures forall row, col :: 0 <= row < pixels.Length0 && 0 <= col < pixels.Length1 ==>
      raster[col, row] == if pixels[row, col] > threshold then White else Black
  {
    var height, width := pixels.Length0, pixels.Length1;
    raster := new Rgb[width, height]((_, _) => Black);
    for row := 0 to height
      invariant forall r, c :: 0 <= r < row && 0 <= c < width ==>
        raster[c, r] == if pixels[r, c] > threshold then White else Black
    {
      for col := 0 to width
        invariant forall r, c :: 0 <= r < row && 0 <= c < width ==>
          raster[c, r] == if pixels[r, c] > threshold then White else Black
        invariant forall c :: 0 <= c < col ==>
          raster[c, row] == if pixels[row, c] > threshold then White else Black
      {
        raster[col, row] := if pixels[row, col] > threshold then White else Black;
      }
    }
  }

  /** Edge grid rendered white for edges and black for the rest. */
  method ApplyThresholdToEdges(pixels: array2<bool>) returns (raster: array2<Rgb>)
    requires pixels.Length0 >= 1
    ensures fresh(raster)
    ensures raster.Length0 == pixels.Length1 && raster.Length1 == pixels.Length0
    ensures forall row, col :: 0 <= row < pixels.Length0 && 0 <= col < pixels.Length1 ==>
      raster[col, row] == if pixels[row, col] then White else Black
  {
    var height, width := pixels.Length0, pixels.Length1;
    raster := new Rgb[width, height]((_, _) => Black);
    for row := 0 to height
      invariant forall r, c :: 0 <= r < row && 0 <= c < width ==>
        raster[c, r] == if pixels[r, c] then White else Black
    {
      for col := 0 to width
        invariant forall r, c :: 0 <= r < row && 0 <= c < width ==>
          raster[c, r] == if pixels[r, c] then White else Black
        invariant forall c :: 0 <= c < col ==>
          raster[c, row] == if pixels[row, c] then White else Black
      {
        raster[col, row] := if pixels[row, col] then White else Black;
      }
    }
  }

  /** Edge grid rendered black for edges on a white background. */
  method ApplyThresholdReversed(pixels: array2<bool>) returns (raster: array2<Rgb>)
    requires pixels.Length0 >= 1
    ensures fresh(raster)
    ensures raster.Length0 == pixels.Length1 && raster.Length1 == pixels.Length0
    ensures forall row, col :: 0 <= row < pixels.Length0 && 0 <= col < pixels.Length1 ==>
      raster[col, row] == if pixels[row, col] then Black else White
  {
    var height, width := pixels.Length0, pixels.Length1;
    raster := new Rgb[width, height]((_, _) => White);
    for row := 0 to height
      invariant forall r, c :: 0 <= r < row && 0 <= c < width ==>
        raster[c, r] == if pixels[r, c] then Black else White
    {
      for col := 0 to width
        invariant forall r, c :: 0 <= r < row && 0 <= c < width ==>
          raster[c, r] == if pixels[r, c] then Black else White
        invariant forall c :: 0 <= c < col ==>
          raster[c, row] == if pixels[row, c] then Black else White
      {
        raster[col, row] := if pixels[row, col] then Black else White;
      }
    }
  }

  /** The colour a Canny pixel gets: green when strong (even if also weak), blue when only weak, white otherwise. */
  function CannyColour(weak: bool, strong: bool): (c: Rgb)
    ensures c == Green <==> strong
    ensures c == Blue <==> !strong && weak
    ensures c == White <==> !strong && !weak
  {
    if strong then Green else if weak then Blue else White
  }

  /** Weak and strong masks rendered in two colours; the size is taken from the weak mask. */
  method ApplyThresholdWeakStrongCanny(weakEdges: array2<bool>, strongEdges: array2<bool>)
    returns (raster: array2<Rgb>)
    requires weakEdges.Length0 >= 1
    requires strongEdges.Length0 >= weakEdges.Length0 && strongEdges.Length1 >= weakEdges.Length1
    ensures fresh(raster)
    ensures raster.Length0 == weakEdges.Length1 && raster.Length1 == weakEdges.Length0
    ensures forall row, col :: 0 <= row < weakEdges.Length0 && 0 <= col < weakEdges.Length1 ==>
      raster[col, row] == CannyColour(weakEdges[row, col], strongEdges[row, col])
  {
    var height, width := weakEdges.Length0, weakEdges.Length1;
    raster := new Rgb[width, height]((_, _) => White);
    for row := 0 to height
      invariant forall r, c :: 0 <= r < row && 0 <= c < width ==>
        raster[c, r] == CannyColour(weakEdges[r, c], strongEdges[r, c])
    {
      for col := 0 to width
        invariant forall r, c :: 0 <= r < row && 0 <= c < width ==>
          raster[c, r] == CannyColour(weakEdges[r, c], strongEdges[r, c])
        invariant forall c :: 0 <= c < col ==>
          raster[c, row] == CannyColour(weakEdges[row, c], strongEdges[row, c])
      {
        if strongEdges[row, col] {
          raster[col, row] := Green;
        } else if weakEdges[row, col] {
          raster[col, row] := Blue;
        } else {
          raster[col, row] := White;
        }
      }
    }
  }

  /**
   * Non-edge pixels white; edge pixels take the colour of the original
   * raster after the source's black-point rescaling, which works in floating
   * point and is given here as the function `rescale`.
   */
  method ApplyThresholdOriginal(edges: array2<bool>, original: array2<Rgb>, rescale: Rgb -> Rgb)
    returns (raster: array2<Rgb>)
    requires edges.Length0 >= 1
    requires forall row, col :: 0 <= row < edges.Length0 && 0 <= col < edges.Length1 && edges[row, col] ==>
      col < original.Length0 && row < original.Length1
    ensures fresh(raster)
    ensures raster.Length0 == edges.Length1 && raster.Length1 == edges.Length0
    ensures forall row, col :: 0 <= row < edges.Length0 && 0 <= col < edges.Length1 ==>
      raster[col, row] == if edges[row, col] then rescale(original[col, row]) else White
  {
    var height, width := edges.Length0, edges.Length1;
    raster := new Rgb[width, height]((_, _) => White);
    for row := 0 to height
      invariant forall r, c :: 0 <= r < row && 0 <= c < width ==>
        raster[c, r] == if edges[r, c] then rescale(original[c, r]) else White
    {
      for col := 0 to width
        invariant forall r, c :: 0 <= r < row && 0 <= c < width ==>
          raster[c, r] == if edges[r, c] then rescale(original[c, r]) else White
        invariant forall c :: 0 <= c < col ==>
          raster[c, row] == if edges[row, c] then rescale(original[c, row]) else White
      {
        if !edges[row, col] {
          raster[col, row] := White;
        } else {
          raster[col, row] := rescale(original[col, row]);
        }
      }
    }
  }

  /**
   * The reversed rendering of an edge grid is the plain rendering with black
   * and white swapped, pixel by pixel: any two rasters meeting the contracts
   * of ApplyThresholdToEdges and ApplyThresholdReversed for the same grid.
   */
  lemma ReversedIsSwap(edges: array2<bool>, plain: array2<Rgb>, reversed: array2<Rgb>)
    requires plain.Length0 == edges.Length1 && plain.Length1 == edges.Length0
    requires reversed.Length0 == edges.Length1 && reversed.Length1 == edges.Length0
    requires forall row, col :: 0 <= row < edges.Length0 && 0 <= col < edges.Length1 ==>
      plain[col, row] == if edges[row, col] then White else Black
    requires forall row, col :: 0 <= row < edges.Length0 && 0 <= col < edges.Length1 ==>
      reversed[col, row] == if edges[row, col] then Black else White
    ensures forall x, y :: 0 <= x < plain.Length0 && 0 <= y < plain.Length1 ==>
      (plain[x, y] == Black || plain[x, y] == White) && reversed[x, y] == Swap(plain[x, y])
  {
    forall x, y | 0 <= x < plain.Length0 && 0 <= y < plain.Length1
      ensures (plain[x, y] == Black || plain[x, y] == White) && reversed[x, y] == Swap(plain[x, y])
    {
      assert plain[x, y] == if edges[y, x] then White else Black;
      assert reversed[x, y] == if edges[y, x] then Black else White;
    }
  }

  function Swap(c: Rgb): (d: Rgb)
    requires c == Black || c == White
    ensures d == Black || d == White
    ensures d != c
  {
    if c == Black then White else Black
  }
}
