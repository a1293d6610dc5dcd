# Edge detection: a Dafny model of the integer image logic

This project models the integer image-processing core of an edge-detection
application written in Java: the Canny detector, the Roberts Cross, Prewitt
and Laplacian detectors, the thresholding and rendering helpers, the
convolution kernels, the padding policies, the hypotenuse norms and the
rule that picks a fresh file name when an image is saved.

Grids the source receives from collaborators (the convolved gradient and
Laplacian responses) are `seq<seq<int>>`. Grids the source allocates and
fills (magnitudes, edge masks, kernels) are `array2`, filled by methods
with loops. The detectors whose fields are set by `findEdges` or
`detectEdges` are classes.

The main result is about Canny. The hysteresis linking loop visits the strong
pixels in whatever order the HashSet yields them (`:|`), and runs a recursive
depth-first search from each one. Whatever that order is, it produces exactly
the edges defined in `Hysteresis.HysteresisEdges`:

- the candidates are the strong and weak pixels;
- two candidates are linked when an 8-connected path of candidates joins them;
- an edge pixel is a candidate whose 8-connected component of candidates
  contains a strong pixel and has at least `minEdgeSize` pixels.

Modules, one per source file:

- `Grids`: shared grid helpers.
- `JavaArith`: Java's truncating `int` cast of a quotient.
- `Hypotenuse`
- `Padding`
- `ConvolutionKernel`
- `Threshold`
- `CannyIndex`: `sub2ind`/`ind2sub`.
- `Hysteresis`: the graph-theoretic statement of linking.
- `Canny`: the Builder and the detector.
- `GradientDetectors`: Roberts Cross and Prewitt.
- `Laplacian`
- `ImageFileHandler`

## Model

| member | source | states |
|---|---|---|
| Canny.Magnitude | src/main/java/seproject/model/edgedetector/detectors/CannyEdgeDetector.java:202-204 | The magnitude is at least each of abs(gx) and abs(gy) and at most their sum. It is zero exactly when both components are zero. |
| Canny.SuppressOnlyZeroes | src/main/java/seproject/model/edgedetector/detectors/CannyEdgeDetector.java:117-123 | After the suppression sweep, every pixel either keeps its magnitude or is 0; nothing else is ever written. |
| Canny.SuppressNothing | src/main/java/seproject/model/edgedetector/detectors/CannyEdgeDetector.java:117-123 | When the suppression test never fires, the sweep leaves the magnitude grid unchanged. |
| Canny.TruncReal | src/main/java/seproject/model/edgedetector/detectors/CannyEdgeDetector.java:141-142 | The `(int)` cast of a centroid truncates toward zero: its absolute value is within 1 below the real's, and its sign is kept unless the result is 0. |
| Canny.TruncRealMonotone | src/main/java/seproject/model/edgedetector/detectors/CannyEdgeDetector.java:140-142 | Truncation toward zero preserves order. |
| Canny.AutoThresholds | src/main/java/seproject/model/edgedetector/detectors/CannyEdgeDetector.java:140-142 | The automatic thresholds are the two truncated centroids, low <= high, whichever centroid is smaller. |
| Canny.IndexesFacts | src/main/java/seproject/model/edgedetector/detectors/CannyEdgeDetector.java:145-160 | A HashSet of flat indices and the pixel set it stands for agree both ways: every index decodes to one of the pixels and re-encodes to itself, and an in-grid pixel's index is in the set iff the pixel is. |
| Canny.Classify | src/main/java/seproject/model/edgedetector/detectors/CannyEdgeDetector.java:145-160 | The strong mask marks exactly mag >= high, and the weak mask exactly low <= mag < high. strongSet and weakSet hold exactly the row-major indices of those pixels. |
| Canny.ClassifyRow | src/main/java/seproject/model/edgedetector/detectors/CannyEdgeDetector.java:149-160 | One row of the classification: the running index advances by `columns`, and every pixel up to the end of the row is classified into masks and sets. |
| Canny.ClassifyPixel | src/main/java/seproject/model/edgedetector/detectors/CannyEdgeDetector.java:151-158 | One pixel: strong takes priority over weak; the index advances by one; masks and sets stay in step. |
| Canny.ClassifiedNext | src/main/java/seproject/model/edgedetector/detectors/CannyEdgeDetector.java:151-157 | Adding pixel (r, c) to the strong set iff mag >= high, and to the weak set iff low <= mag < high, classifies every pixel up to (r, c). |
| Canny.CellsOfGrid | src/main/java/seproject/model/edgedetector/detectors/CannyEdgeDetector.java:148-160 | Once every row is done, the sets built are exactly the strong and the weak pixels of the grid. |
| Canny.EdgesGrown | src/main/java/seproject/model/edgedetector/detectors/CannyEdgeDetector.java:167-169 | Setting the pushed pixels on top of the edges already set gives the edge grid of the enlarged accepted set. |
| Canny.Builder.constructor | src/main/java/seproject/model/edgedetector/detectors/CannyEdgeDetector.java:56-66 | The builder's defaults: automatic thresholds, L2 norm, minimum edge size 0, both thresholds 0. |
| Canny.Builder.Thresholds | src/main/java/seproject/model/edgedetector/detectors/CannyEdgeDetector.java:68-75 | Accepted iff 0 <= low <= high <= 255. When accepted, automatic thresholds are switched off and both values are stored. When rejected (the exception), nothing changes. Explicit thresholds stay ordered and in range. |
| Canny.Builder.SetL1Norm | src/main/java/seproject/model/edgedetector/detectors/CannyEdgeDetector.java:77-80 | Sets the norm flag and nothing else. |
| Canny.Builder.SetMinEdgeSize | src/main/java/seproject/model/edgedetector/detectors/CannyEdgeDetector.java:82-85 | Sets the minimum edge size without validation and changes nothing else. |
| Canny.CannyEdgeDetector.constructor | src/main/java/seproject/model/edgedetector/detectors/CannyEdgeDetector.java:46-54 | Copies the builder's settings (explicit thresholds only when automatic ones are off). Suppression runs with low threshold 0 in automatic mode. With automatic thresholds, they come from the centroids of the suppressed magnitudes. Thresholds from a valid builder are ordered. The masks classify the suppressed magnitudes, and the edges are exactly HysteresisEdges of them. |
| Canny.CannyEdgeDetector.DetectEdges | src/main/java/seproject/model/edgedetector/detectors/CannyEdgeDetector.java:214-230 | With minimum edge size 10, thresholds 15/35 and the L2 norm, the raster is black exactly on the hysteresis edges of the magnitudes suppressed at low threshold 15, and white elsewhere (transposed to [x, y]). |
| Canny.CannyEdgeDetector.FindEdges | src/main/java/seproject/model/edgedetector/detectors/CannyEdgeDetector.java:92-172 | Settings and dimensions are kept. The magnitudes are suppressed with the low threshold held on entry. Thresholds are either the explicit ones or AutoThresholds of the centroids. The masks classify the suppressed grid, and the edges are HysteresisEdges of it. |
| Canny.CannyEdgeDetector.Detect | src/main/java/seproject/model/edgedetector/detectors/CannyEdgeDetector.java:105-171 | The whole pipeline of `findEdges` as a relation from the settings and gradients to the thresholds, masks and edge grid it produces. |
| Canny.CannyEdgeDetector.ClassifyAndLink | src/main/java/seproject/model/edgedetector/detectors/CannyEdgeDetector.java:145-171 | For a magnitude grid and thresholds: the two masks classify it, and the edge grid holds exactly its hysteresis edges. |
| Canny.CannyEdgeDetector.SuppressedMagnitudes | src/main/java/seproject/model/edgedetector/detectors/CannyEdgeDetector.java:105-123 | A fresh grid holding the magnitudes after the in-place suppression sweep, with the current low threshold. |
| Canny.CannyEdgeDetector.Magnitudes | src/main/java/seproject/model/edgedetector/detectors/CannyEdgeDetector.java:105-111 | A fresh rows x columns grid with the hypotenuse of the gradient at every pixel. |
| Canny.CannyEdgeDetector.SuppressNonMaxima | src/main/java/seproject/model/edgedetector/detectors/CannyEdgeDetector.java:117-123 | Row-major sweep that zeroes a pixel when the suppression test fires on the grid as it stands. Each test sees the zeroes already written. |
| Canny.CannyEdgeDetector.Link | src/main/java/seproject/model/edgedetector/detectors/CannyEdgeDetector.java:162-171 | Starting from an empty edge grid, after the loop over the strong set in any order, the edges are exactly the candidates linked to a strong pixel whose component has at least minEdgeSize pixels. |
| Canny.CannyEdgeDetector.SeedDone | src/main/java/seproject/model/edgedetector/detectors/CannyEdgeDetector.java:165 | Taking a strong index out of the remaining ones moves its pixel into the seeds already visited. |
| Canny.CannyEdgeDetector.LinkFrom | src/main/java/seproject/model/edgedetector/detectors/CannyEdgeDetector.java:166-170 | One iteration: the marks stay closed and linked to the visited seeds, and the edge grid equals the accepted set for the visited seeds plus this one. |
| Canny.CannyEdgeDetector.SearchFrom | src/main/java/seproject/model/edgedetector/detectors/CannyEdgeDetector.java:166 | The search from a strong pixel pushes the flat indices of the pushed pixels. The pixels accepted after adding this seed are those accepted before plus the pushed ones, when there are at least minEdgeSize of them. |
| Canny.CannyEdgeDetector.KeepIfLarge | src/main/java/seproject/model/edgedetector/detectors/CannyEdgeDetector.java:167-169 | The pushed pixels become edges exactly when the stack holds at least minEdgeSize of them; otherwise the edges are unchanged. |
| Canny.CannyEdgeDetector.MarkEdges | src/main/java/seproject/model/edgedetector/detectors/CannyEdgeDetector.java:168-169 | Decoding each index of the stack sets exactly its pixel. The edge grid becomes the old edges plus the pushed pixels. |
| Canny.CannyEdgeDetector.Dfs | src/main/java/seproject/model/edgedetector/detectors/CannyEdgeDetector.java:174-192 | Out of the grid or already marked: nothing changes. Otherwise (r, c) gets marked. The pixels pushed are distinct. They are exactly the candidates newly marked, all linked to the seed. Every in-grid neighbour of a pushed pixel ends marked, and the stack grows by their indices in push order. |
| Canny.CannyEdgeDetector.SearchNeighbours | src/main/java/seproject/model/edgedetector/detectors/CannyEdgeDetector.java:183-190 | The eight recursive calls in source order leave all in-grid neighbours of the pixel marked, and extend the exploration. |
| Canny.CannyEdgeDetector.VisitRow | src/main/java/seproject/model/edgedetector/detectors/CannyEdgeDetector.java:183-185 | Three consecutive neighbour calls (one row of the 3 x 3 window) extend the exploration by three neighbours. |
| Canny.CannyEdgeDetector.Visit | src/main/java/seproject/model/edgedetector/detectors/CannyEdgeDetector.java:186-187 | One neighbour call extends the exploration by one neighbour. |
| CannyIndex.Sub2Ind | src/main/java/seproject/model/edgedetector/detectors/CannyEdgeDetector.java:198-200 | Row-major layout: a pixel whose column is in range gets an index in the r-th block of `columns` consecutive indices. |
| CannyIndex.Ind2Sub | src/main/java/seproject/model/edgedetector/detectors/CannyEdgeDetector.java:194-196 | The decoded row and column recompose the index (columns * row + column == index). For a non-negative index the row is non-negative and the column is in [0, columns), with Java's truncating division. |
| CannyIndex.Sub2IndInRange | src/main/java/seproject/model/edgedetector/detectors/CannyEdgeDetector.java:198-200 | The flat index of an in-grid pixel lies in [0, rows * columns). |
| CannyIndex.Ind2SubSub2Ind | src/main/java/seproject/model/edgedetector/detectors/CannyEdgeDetector.java:194-200 | ind2sub inverts sub2ind for every pixel with 0 <= c < columns. |
| CannyIndex.Sub2IndInd2Sub | src/main/java/seproject/model/edgedetector/detectors/CannyEdgeDetector.java:194-200 | For an index in [0, rows * columns), ind2sub gives an in-grid pixel, and sub2ind inverts it. |
| CannyIndex.Sub2IndInjective | src/main/java/seproject/model/edgedetector/detectors/CannyEdgeDetector.java:198-200 | Distinct in-grid pixels have distinct flat indices. |
| Hysteresis.StrongWeakPartition | src/main/java/seproject/model/edgedetector/detectors/CannyEdgeDetector.java:151-157 | No pixel is both strong and weak. For low <= high, a pixel is a candidate iff its magnitude is at least low. |
| Hysteresis.ReachSym | src/main/java/seproject/model/edgedetector/detectors/CannyEdgeDetector.java:183-190 | 8-connectivity through candidates is symmetric, because the search visits all eight neighbours. |
| Hysteresis.ReachTrans | src/main/java/seproject/model/edgedetector/detectors/CannyEdgeDetector.java:183-190 | Linking through candidates is transitive. |
| Hysteresis.ComponentShared | src/main/java/seproject/model/edgedetector/detectors/CannyEdgeDetector.java:183-190 | Linked candidates have the same component. |
| Hysteresis.ClosedReach | src/main/java/seproject/model/edgedetector/detectors/CannyEdgeDetector.java:175-190 | When the marks are closed under candidate neighbours, everything linked to a marked pixel is marked. |
| Hysteresis.ExploredFrom | src/main/java/seproject/model/edgedetector/detectors/CannyEdgeDetector.java:178-191 | Marking a candidate linked to the seed, then exploring all its neighbours, explores the pixel followed by what the neighbours pushed. |
| Hysteresis.ExploredTrans | src/main/java/seproject/model/edgedetector/detectors/CannyEdgeDetector.java:183-190 | Two explorations in a row compose, with their pushes concatenated. |
| Hysteresis.ExploredNonCandidate | src/main/java/seproject/model/edgedetector/detectors/CannyEdgeDetector.java:178-180 | Marking a pixel that is neither weak nor strong pushes nothing. |
| Hysteresis.Neighbour | src/main/java/seproject/model/edgedetector/detectors/CannyEdgeDetector.java:183-190 | Each of the eight recursive calls goes to an 8-neighbour. |
| Hysteresis.NeighbourCases | src/main/java/seproject/model/edgedetector/detectors/CannyEdgeDetector.java:183-190 | Every 8-neighbour is one of the eight calls. |
| Hysteresis.AllNeighboursMarked | src/main/java/seproject/model/edgedetector/detectors/CannyEdgeDetector.java:183-190 | After the eight calls, every in-grid 8-neighbour is marked. |
| Hysteresis.DistinctCard | src/main/java/seproject/model/edgedetector/detectors/CannyEdgeDetector.java:167 | A stack of distinct pixels has as many entries as pixels, so `toAdd.size()` measures the component. |
| Hysteresis.AcceptedInsert | src/main/java/seproject/model/edgedetector/detectors/CannyEdgeDetector.java:165-169 | Adding a seed adds its whole component if that component is large enough, and nothing otherwise. |
| Hysteresis.LinkStep | src/main/java/seproject/model/edgedetector/detectors/CannyEdgeDetector.java:165-170 | A search from a strong seed keeps the loop invariant. It pushes either the seed's whole component (seed not yet marked) or nothing (seed already reached from an earlier seed), so the edges added match the accepted set. |
| Hysteresis.SearchStep | src/main/java/seproject/model/edgedetector/detectors/CannyEdgeDetector.java:183-190 | One more neighbour call extends the exploration and the count of neighbours handled. |
| Hysteresis.ReachClosedExplored | src/main/java/seproject/model/edgedetector/detectors/CannyEdgeDetector.java:174-192 | From unmarked closed marks, the search from a seed pushes every candidate linked to it, i.e. its whole component. |
| Hysteresis.AcceptedAreCandidates | src/main/java/seproject/model/edgedetector/detectors/CannyEdgeDetector.java:180-181 | Only strong or weak pixels ever become edges. |
| Hysteresis.AcceptedClosedUnderReach | src/main/java/seproject/model/edgedetector/detectors/CannyEdgeDetector.java:183-190 | Edges are closed under linking: a candidate linked to an edge is an edge. |
| Hysteresis.SeedsAcceptedWhenNoMinimum | src/main/java/seproject/model/edgedetector/detectors/CannyEdgeDetector.java:167 | With minEdgeSize <= 1 (the default 0), every strong pixel is an edge. |
| Hysteresis.UnlinkedNeverAccepted | src/main/java/seproject/model/edgedetector/detectors/CannyEdgeDetector.java:165-171 | A pixel linked to no strong pixel is never an edge. |
| Hysteresis.IsolatedReach | src/main/java/seproject/model/edgedetector/detectors/CannyEdgeDetector.java:167 | A candidate with no candidate among its 8 neighbours reaches only itself. |
| Hysteresis.IsolatedSeedFiltered | src/main/java/seproject/model/edgedetector/detectors/CannyEdgeDetector.java:167 | In any grid, whatever the seeds, a pixel with no candidate among its 8 neighbours is never an edge once minEdgeSize is at least 2: its component is itself alone. |
| Hysteresis.AcceptedMonotone | src/main/java/seproject/model/edgedetector/detectors/CannyEdgeDetector.java:165-171 | Fewer candidates, fewer seeds or a larger minimum never yield more edges. |
| Hysteresis.HighThresholdMonotone | src/main/java/seproject/model/edgedetector/detectors/CannyEdgeDetector.java:151-157 | Raising the high threshold (low fixed) never adds edges. |
| Threshold.CalcThresholdEdges | src/main/java/seproject/model/edgedetector/util/Threshold.java:13-15 | The threshold is the mean of all entries cast to int, i.e. truncated toward zero. For a non-negative sum, t * count <= sum < (t + 1) * count. For a negative sum, (t - 1) * count < sum <= t * count. |
| Threshold.ThresholdBetween | src/main/java/seproject/model/edgedetector/util/Threshold.java:8-15 | The mean threshold lies between any lower and any upper bound of the grid. |
| Threshold.SomeEntryReachesThreshold | src/main/java/seproject/model/edgedetector/util/Threshold.java:13-15 | Some entry is at least the mean threshold. |
| Threshold.ApplyThreshold | src/main/java/seproject/model/edgedetector/util/Threshold.java:24-41 | A new width x height raster, in which pixel (col, row) is white iff the intensity is strictly above the threshold, black otherwise. |
| Threshold.ApplyThresholdToEdges | src/main/java/seproject/model/edgedetector/util/Threshold.java:48-65 | A new raster: edge pixels are white and the others black, transposed to [x, y]. |
| Threshold.ApplyThresholdReversed | src/main/java/seproject/model/edgedetector/util/Threshold.java:72-89 | A new raster: edge pixels are black and the others white, transposed to [x, y]. |
| Threshold.ReversedIsSwap | src/main/java/seproject/model/edgedetector/util/Threshold.java:48-89 | For one edge grid, the raster of applyThresholdReversed is the raster of applyThreshold(boolean[][]) with black and white swapped at every pixel. |
| Threshold.CannyColour | src/main/java/seproject/model/edgedetector/util/Threshold.java:111-117 | Green iff strong; blue iff weak and not strong; white iff neither. |
| Threshold.ApplyThresholdWeakStrongCanny | src/main/java/seproject/model/edgedetector/util/Threshold.java:97-122 | A new raster takes its size from the weak mask, and every pixel gets CannyColour of its weak and strong flags. |
| Threshold.ApplyThresholdOriginal | src/main/java/seproject/model/edgedetector/util/Threshold.java:130-166 | A new raster: non-edges are white. Edges take the rescaled colour of the original pixel at the same (x, y); the original image is read only at edge pixels. |
| Hypotenuse.Abs | src/main/java/seproject/model/edgedetector/util/Hypotenuse.java:12 | The absolute value is x or -x, and never negative. |
| Hypotenuse.L1 | src/main/java/seproject/model/edgedetector/util/Hypotenuse.java:11-13 | The L1 norm dominates both absolute values. |
| Hypotenuse.L2 | src/main/java/seproject/model/edgedetector/util/Hypotenuse.java:21-23 | The L2 norm, truncated to int as its callers do, is the integer square root: r*r <= x*x + y*y < (r+1)*(r+1). |
| Hypotenuse.FloorSqrt | src/main/java/seproject/model/edgedetector/util/Hypotenuse.java:22 | The floor of the square root of a non-negative integer. |
| Hypotenuse.L1ZeroIff | src/main/java/seproject/model/edgedetector/util/Hypotenuse.java:11-13 | The L1 norm is zero iff both arguments are. |
| Hypotenuse.L1Symmetries | src/main/java/seproject/model/edgedetector/util/Hypotenuse.java:11-13 | The L1 norm is symmetric in x and y and ignores their signs. |
| Hypotenuse.L1Bounds | src/main/java/seproject/model/edgedetector/util/Hypotenuse.java:11-13 | max(abs(x), abs(y)) <= L1 <= 2 * max(abs(x), abs(y)). |
| Hypotenuse.L2Bounds | src/main/java/seproject/model/edgedetector/util/Hypotenuse.java:21-23 | The L2 norm is at least each absolute value and at most the L1 norm. |
| Padding.Describe | src/main/java/seproject/model/edgedetector/imagederivatives/Padding.java:6-15 | The description `toString` returns for each of the four policies, the source's "z_n1" in the circular one included; each starts with the policy's name. |
| Padding.DescribeInjective | src/main/java/seproject/model/edgedetector/imagederivatives/Padding.java:6-15 | `toString` tells the four policies apart: equal descriptions mean equal policies. |
| Padding.MinLength | src/main/java/seproject/model/edgedetector/imagederivatives/Padding.java:9-12 | Every policy needs one element except symmetric padding, whose border z_2 needs two. |
| Padding.Pad | src/main/java/seproject/model/edgedetector/imagederivatives/Padding.java:9-12 | Padding adds one element on each side and keeps z in the middle. |
| Padding.PadMatchesExtension | src/main/java/seproject/model/edgedetector/imagederivatives/Padding.java:9-12 | The padded row is positions -1 .. n of the policy's unbounded extension of the row: zeros outside, the nearest end repeated, the row mirrored about its end elements, or the row repeated with period n. |
| Padding.PadConstant | src/main/java/seproject/model/edgedetector/imagederivatives/Padding.java:9-12 | A constant row pads to a constant row under every policy (under zero padding only a row of zeros). |
| Padding.BorderValues | src/main/java/seproject/model/edgedetector/imagederivatives/Padding.java:10-12 | Except for zero padding, every border element is taken from z. |
| ConvolutionKernel.GaussianNumerators | src/main/java/seproject/model/edgedetector/imagederivatives/ConvolutionKernel.java:5-10 | The numerators of GAUSSIAN_KERNEL: a 5 x 5 table of positive weights, none larger than the centre weight. |
| ConvolutionKernel.GaussianDenominator | src/main/java/seproject/model/edgedetector/imagederivatives/ConvolutionKernel.java:6-10 | The common denominator 159 of GAUSSIAN_KERNEL is the sum of its numerators, so the kernel sums to one. |
| ConvolutionKernel.GaussianLargeNumerators | src/main/java/seproject/model/edgedetector/imagederivatives/ConvolutionKernel.java:12-19 | The numerators of GAUSSIAN_KERNEL_LARGE: a 5 x 5 table of positive weights, none larger than the centre weight. |
| ConvolutionKernel.GaussianLargeDenominator | src/main/java/seproject/model/edgedetector/imagederivatives/ConvolutionKernel.java:13-19 | The common denominator 256 of GAUSSIAN_KERNEL_LARGE is the sum of its numerators and the square of the sum of the row 1 4 6 4 1. |
| ConvolutionKernel.GaussianNormalised | src/main/java/seproject/model/edgedetector/imagederivatives/ConvolutionKernel.java:6-10 | The 5 x 5 Gaussian numerators sum to the denominator 159, so the kernel sums to 1. |
| ConvolutionKernel.GaussianSymmetric | src/main/java/seproject/model/edgedetector/imagederivatives/ConvolutionKernel.java:6-10 | The Gaussian kernel is symmetric under transposition and under both mirror flips. |
| ConvolutionKernel.GaussianLargeIsOuterProduct | src/main/java/seproject/model/edgedetector/imagederivatives/ConvolutionKernel.java:13-19 | The large kernel is the outer product of the binomial row 1 4 6 4 1 with itself. |
| ConvolutionKernel.GaussianLargeNormalised | src/main/java/seproject/model/edgedetector/imagederivatives/ConvolutionKernel.java:13-19 | The large kernel's numerators sum to 256 = 16 * 16, so it sums to 1. |
| ConvolutionKernel.AveragingKernel | src/main/java/seproject/model/edgedetector/imagederivatives/ConvolutionKernel.java:24-32 | Fails (NegativeArraySizeException) iff r < 0. Otherwise r entries, each of them 1/r. |
| ConvolutionKernel.AveragingKernel2 | src/main/java/seproject/model/edgedetector/imagederivatives/ConvolutionKernel.java:37-46 | Fails (NegativeArraySizeException) iff r < 0 or c < 0. Otherwise r x c entries, each of them 1/(r*c). |
| ConvolutionKernel.NormalisedSumsToOne | src/main/java/seproject/model/edgedetector/imagederivatives/ConvolutionKernel.java:69-74 | For positive weights, the window sum is positive and the normalised weights sum to exactly 1. |
| ConvolutionKernel.GaussianStoresInBounds | src/main/java/seproject/model/edgedetector/imagederivatives/ConvolutionKernel.java:56-65 | For a non-negative size, the last store `kernel[halfSize + halfSize]` is inside the array exactly when the size is odd. For an even size, including 0, it lands at index `size`. |
| ConvolutionKernel.GenerateGaussianKernel | src/main/java/seproject/model/edgedetector/imagederivatives/ConvolutionKernel.java:55-77 | Fails with NegativeArraySize exactly when size < 0. Fails with IndexOutOfBounds exactly when the size is even and non-negative (0 included). Succeeds exactly for odd size >= 1. On success the kernel is size x size, and entry (a, b) is the weight at offset (a - size/2, b - size/2) divided by the positive total of the window. |
| ConvolutionKernel.FillWindow | src/main/java/seproject/model/edgedetector/imagederivatives/ConvolutionKernel.java:60-67 | Fills every entry with its weight and returns the sum over the window. |
| ConvolutionKernel.NormaliseInPlace | src/main/java/seproject/model/edgedetector/imagederivatives/ConvolutionKernel.java:69-74 | Divides every entry by the sum, in place. |
| GradientDetectors.XKernel | src/main/java/seproject/model/edgedetector/detectors/RobertsCrossEdgeDetector.java:20-24 | X_KERNEL of Roberts cross (2 x 2) and of Prewitt (3 x 3, PrewittEdgeDetector.java:21-26): a square table of the operator's size with weights -1, 0 and 1. |
| GradientDetectors.YKernel | src/main/java/seproject/model/edgedetector/detectors/PrewittEdgeDetector.java:28-32 | Y_KERNEL of Prewitt and of Roberts cross (RobertsCrossEdgeDetector.java:26-29): for both operators, X_KERNEL turned a quarter counter-clockwise. |
| GradientDetectors.KernelsBalanced | src/main/java/seproject/model/edgedetector/detectors/RobertsCrossEdgeDetector.java:20-29 | Both operators' kernels are square (2 x 2 Roberts, 3 x 3 Prewitt) and sum to 0, so a flat image has zero gradient. |
| GradientDetectors.HypotGrid | src/main/java/seproject/model/edgedetector/detectors/RobertsCrossEdgeDetector.java:52-57 | The magnitude grid has the response's shape, and every entry is non-negative. |
| GradientDetectors.AtLeastMonotone | src/main/java/seproject/model/edgedetector/detectors/PrewittEdgeDetector.java:66 | Raising the threshold never adds edges. |
| GradientDetectors.SomeEdge | src/main/java/seproject/model/edgedetector/detectors/PrewittEdgeDetector.java:62-68 | The mean threshold is non-negative, and at least one pixel reaches it, so every image gets at least one edge. |
| GradientDetectors.Magnitudes | src/main/java/seproject/model/edgedetector/detectors/PrewittEdgeDetector.java:53-59 | A fresh rows x columns grid holding the truncated hypotenuse of the two responses at every pixel. |
| GradientDetectors.MarkAtLeast | src/main/java/seproject/model/edgedetector/detectors/RobertsCrossEdgeDetector.java:60-66 | A pixel is an edge iff its magnitude is at least the threshold. |
| GradientDetectors.GradientEdgeDetector.constructor | src/main/java/seproject/model/edgedetector/detectors/RobertsCrossEdgeDetector.java:15-18 | A new detector for the operator, with no edges and zero dimensions and threshold. |
| GradientDetectors.GradientEdgeDetector.DetectEdges | src/main/java/seproject/model/edgedetector/detectors/RobertsCrossEdgeDetector.java:31-73 | Stores the dimensions and the mean of the magnitudes as threshold. Edges are magnitude >= threshold. The raster is black on the edges and white elsewhere. |
| Laplacian.Kernel | src/main/java/seproject/model/edgedetector/detectors/LaplacianEdgeDetector.java:16-20 | The 3 x 3 Laplacian kernel: only the centre weight is positive, and the eight around it are equal. |
| Laplacian.KernelBalanced | src/main/java/seproject/model/edgedetector/detectors/LaplacianEdgeDetector.java:16-20 | The kernel is 8 at the centre and -1 around it, and sums to 0. |
| Laplacian.ExceedMonotone | src/main/java/seproject/model/edgedetector/detectors/LaplacianEdgeDetector.java:55 | Raising the threshold never adds edges. |
| Laplacian.ZeroResponseNeverEdge | src/main/java/seproject/model/edgedetector/detectors/LaplacianEdgeDetector.java:55 | With a non-negative threshold, a pixel with zero response is not an edge. |
| Laplacian.MeanThreshold | src/main/java/seproject/model/edgedetector/detectors/LaplacianEdgeDetector.java:49 | The threshold lies between the least and greatest response. If it is negative (the mean of the signed responses), every pixel is an edge. |
| Laplacian.MarkExceeding | src/main/java/seproject/model/edgedetector/detectors/LaplacianEdgeDetector.java:52-57 | A pixel is an edge iff the absolute response is strictly above the threshold. |
| Laplacian.LaplacianEdgeDetector.constructor | src/main/java/seproject/model/edgedetector/detectors/LaplacianEdgeDetector.java:23 | No edges yet and threshold 0. |
| Laplacian.LaplacianEdgeDetector.FromResponse | src/main/java/seproject/model/edgedetector/detectors/LaplacianEdgeDetector.java:33-35 | Construction runs findEdges: threshold is the mean, and the edges are the pixels whose absolute response exceeds it. |
| Laplacian.LaplacianEdgeDetector.FindEdges | src/main/java/seproject/model/edgedetector/detectors/LaplacianEdgeDetector.java:38-58 | The threshold is the mean response. A fresh edge grid of the response's shape marks abs(response) > threshold. |
| Laplacian.LaplacianEdgeDetector.DetectEdges | src/main/java/seproject/model/edgedetector/detectors/LaplacianEdgeDetector.java:72-83 | The raster is black where abs(response) exceeds the mean response and white elsewhere. |
| ImageFileHandler.LastIndexOf | src/main/java/seproject/controller/ImageFileHandler.java:129 | -1 when the character is absent. Otherwise the position of an occurrence with none after it. |
| ImageFileHandler.SplitName | src/main/java/seproject/controller/ImageFileHandler.java:128-130 | Splitting fails (the substring exception on index -1) iff the name has no '.'. Otherwise base + extension is the name. |
| ImageFileHandler.SplitNameParts | src/main/java/seproject/controller/ImageFileHandler.java:129-130 | When the name has a '.', the extension starts at the last one: a '.' followed by no other '.'. |
| ImageFileHandler.DecimalValue | src/main/java/seproject/controller/ImageFileHandler.java:137 | The decimal text of the counter reads back as the counter. |
| ImageFileHandler.CandidateInjective | src/main/java/seproject/controller/ImageFileHandler.java:132-137 | Different counters give different file names. |
| ImageFileHandler.FirstFreeUnique | src/main/java/seproject/controller/ImageFileHandler.java:135-138 | There is only one first free counter. |
| ImageFileHandler.PendingShrinks | src/main/java/seproject/controller/ImageFileHandler.java:135-138 | Each taken name the loop skips removes one from the finite set of existing names still ahead, so the loop ends. |
| ImageFileHandler.GenerateNewFileName | src/main/java/seproject/controller/ImageFileHandler.java:127-141 | Fails iff the name has no '.'. Otherwise returns base + k + extension for the least k >= 1 whose name is not taken. The result is never an existing name. |

## Left out

- Reading and writing image files, `BufferedImage`, `ImageIO`, Grayscale conversion and the JavaFX controllers are not modelled. Detectors take their convolved responses as inputs, and rasters are `array2<Rgb>` indexed [x, y].
- ImageConvolution is not part of this model. The Gaussian smoothing and the gradient or Laplacian convolutions enter as the response grids they produce.
- NonMaximumSuppression (with the edge direction) is not part of this model. It enters as the function parameter `suppress`, which sees the magnitude grid as it stands, the gradient, the pixel and the low threshold.
- KMeans is not part of this model. Its first two centroids enter as the function parameter `centroids` of the suppressed magnitudes.
- Statistics.calcMean is not part of this model. The mean threshold is taken to be the exact arithmetic mean, cast to int by truncation toward zero; grids are at least 1 x 1.
- Floating point: `Math.hypot` and `Math.sqrt` are idealised as the exact integer square root (`Hypotenuse.L2`).
- The Gaussian weight of `generateGaussianKernel` (exp and pi) is a positive function parameter, and kernel entries are reals.
- The black-point rescaling of `applyThresholdOriginal` is a function parameter.
- Hypotenuse.L1: the source works on doubles; the model works on the integer gradients its only caller passes.
- Java `int` overflow is not modelled: `Math.abs(Integer.MIN_VALUE)`, `columns * r + c` in sub2ind, sums of large magnitudes, and the file-name counter after 2^31 - 1 retries are all unbounded integers here.
- Canny.CannyEdgeDetector.constructor: the Builder does not hold the image. The gradients of the image are passed to the detector's constructor instead, and `build()` is that constructor.
- Canny.CannyEdgeDetector.constructor sets `rows` and `columns` before calling `FindEdges`, which the source does inside `findEdges`; both end with the same values.
- The public no-argument Canny constructor, `getEdges` and `getThreshold` are field reads in the model. The `Laplacian(String filePath)` constructor reads a file and is left out with the rest of the I/O.
- Laplacian.LaplacianEdgeDetector.FromResponse takes the Laplacian response of the smoothed image rather than the gray image, because the convolutions are not modelled.
- RobertsCrossEdgeDetector and PrewittEdgeDetector share every line except their kernels and are modelled as one class, `GradientDetectors.GradientEdgeDetector`, parameterised by `Operator`. The citations for the two files are the same operations.
- The doc comment of `applyThreshold(int[][], int)` says a pixel above the threshold is black, while the code makes it white. `Threshold.ApplyThreshold` follows the code.
- The Stack `toAdd` is a sequence of flat indices and the HashSets are sets; the order in which the strong set is iterated is left open by a choice, so the result is proved for every order.
- Recursion depth: the source's `dfs` may overflow the Java call stack on large components; the model's recursion is unbounded.
- The order of allocating `edges`, `weakEdges` and `strongEdges` relative to the magnitude loop is not observable and not modelled.
- Degenerate sizes: `new BufferedImage` throws for a zero width or height, and the renderers read `pixels[0]`. The models of the renderers require at least one row. They return an empty raster for zero columns where the source throws. The Canny model requires gradients at least 1 x 1 and of the same shape; the source would fail on an empty grid, and on a smaller y response only by indexing out of bounds.
- Threshold.ApplyThresholdWeakStrongCanny: requires the strong mask to be at least as large as the weak one. The source throws ArrayIndexOutOfBoundsException when it is smaller; the model does not produce that error.
- The save flow around `generateNewFileName` (its guard and the file chooser) is controller I/O; the existing files of the directory are the parameter `existing`.
