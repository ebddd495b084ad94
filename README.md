# Verified model of the image-processing kernels of mathematical-image-processing

This Dafny project models the small C++ image kernels of the repository and proves
what they compute:

- `isodata/improc.h` — the morphology operators, binarisation, the two histograms and
  the isodata threshold:
  - Grey-scale `dilation` and `erosion` over a square window clipped to the image.
  - `opening` and `closing`, which compose the two through a temporary image.
  - `threshold`.
  - `computeHistogram` and `computeCumulativeHistogram`.
  - The `isodata` fixed-point iteration with its `phi` lambda.
- `filters/main.cpp` — three functions:
  - `correlate`, the variant that stores each sum into an 8-bit image.
  - `medianFilter`.
  - `binomialCoefficient`.
- `canny-edges/main.cpp` — `correlate` with a float result, and the non-maximum
  suppression done by `canny_edges`.

Images are two-dimensional buffers (`array2`), and the C++ loops are methods with loop
invariants. Each method is proved against a specification function on the value type
`Rasters.Raster`; the ghost function `Rasters.Pixels` reads a buffer as a raster. What
the kernels promise is then proved as lemmas about those functions:

- For a window size >= 0, erosion lies below the image and dilation above it.
- Opening lies below the image and closing above it.
- Histogram bins count pixels, and the cumulative histogram ends at the pixel count.
- The isodata loop stops only on an exact fixed point.
- Correlation is additive, and negating the kernel negates the result.
- The median filter's value is a window value or a padding zero, at a fixed rank.
- Non-maximum suppression marks exactly the strict maxima along the chosen step.

Modules and files:

| file | module | what it holds |
|---|---|---|
| `rasters.dfy` | `Rasters` | `Byte`, `Raster`, `Pixels`, `Extensionality` |
| `morphology.dfy` | `Morphology` | `dilation`, `erosion`, `opening`, `closing` |
| `histogram.dfy` | `Histograms` | `threshold`, `computeHistogram`, `computeCumulativeHistogram` |
| `isodata.dfy` | `Isodata` | `isodata` and `phi` |
| `correlation.dfy` | `Correlation` | the correlation sum shared by both `correlate` functions |
| `filters.dfy` | `Filters` | `correlate` (uchar result), `medianFilter`, sorting |
| `binomial.dfy` | `Binomial` | `binomialCoefficient` |
| `canny.dfy` | `CannyEdges` | `correlate` (float result), non-maximum suppression |

Things the model makes explicit:

- **Isodata on doubled iterates.**
  - Both divisions in `phi` divide `int` arrays, so each class mean is a truncated integer.
  - `theta` starts at 127.5 and is always a multiple of 0.5. The model tracks T = 2·theta.
  - The loop reads index T/2. The `< 1e-3` exit test is exact equality of iterates
    (`ExitTestIsEquality`). The final `round(theta)` is (T + 1)/2.
- **Swapped kernel offsets.** Both `correlate` functions use `filter.rows / 2` as the
  column offset and `filter.cols / 2` as the row offset. The model keeps this.
  - `SquareDeltaKernelIsIdentity`: a centred kernel is still centred when it is square.
  - `NonSquareDeltaKernelShifts`: a 1×3 delta kernel reads a shifted pixel.
- **The rank of the median.** `medianFilter` sorts (2·size+1)² slots. These are the
  in-bounds window values followed by zeros. It takes slot 2·size+1, which is the
  element with 2·size+1 slots at or below it (`MedianRank`). That is not the middle slot
  ((2·size+1)² − 1)/2, so the filter is a low rank filter; the model keeps the index as
  written.

## Model

| member | source | states |
|---|---|---|
| Morphology.WindowSupIsMax | isodata/improc.h:19-29 | the running maximum over a rectangle of rows and columns is at least every sample in it, and is one of them unless it is the seed 0 |
| Morphology.WindowInfIsMin | isodata/improc.h:49-59 | the running minimum over a rectangle is at most every sample in it, and is one of them unless it is the seed 255 |
| Morphology.DilateAtIsWindowMax | isodata/improc.h:18-30 | dilation at (y, x) bounds every in-bounds pixel of the window of half-width windowSize and equals one of them, or is the seed 0 |
| Morphology.ErodeAtIsWindowMin | isodata/improc.h:48-60 | erosion at (y, x) is below every in-bounds window pixel and equals one of them, or is the seed 255 |
| Morphology.NegativeWindowGivesSeeds | isodata/improc.h:18-21 | with windowSize < 0 the clipped window is empty: dilation gives 0 and erosion 255 |
| Morphology.ErosionBelowDilation | isodata/improc.h:13-64 | for windowSize >= 0, erosion(in) <= in <= dilation(in) at every pixel |
| Morphology.ConstantImageUnchanged | isodata/improc.h:19-60 | for windowSize >= 0 a constant image is a fixed point of both dilation and erosion |
| Morphology.OpeningBelowImage | isodata/improc.h:71-76 | dilation of the erosion never exceeds the image, for any windowSize |
| Morphology.ClosingAboveImage | isodata/improc.h:83-88 | erosion of the dilation is never below the image, for any windowSize |
| Morphology.DilationAt | isodata/improc.h:18-29 | the two inner loops leave in `sup` the dilation value at (y, x) over the clipped window |
| Morphology.ErosionAt | isodata/improc.h:48-59 | the two inner loops leave in `inf` the erosion value at (y, x) over the clipped window |
| Morphology.Dilation | isodata/improc.h:11-34 | every pixel of `out` is the window maximum of `in` |
| Morphology.Erosion | isodata/improc.h:41-64 | every pixel of `out` is the window minimum of `in` |
| Morphology.Opening | isodata/improc.h:71-76 | `out` is the dilation of the erosion of `in`, and is at most `in` at every pixel |
| Morphology.Closing | isodata/improc.h:83-88 | `out` is the erosion of the dilation of `in`, and is at least `in` at every pixel |
| Histograms.Threshold | isodata/improc.h:95-111 | `out` is the binarised image: every pixel 0 or 255, and 255 exactly when the input is at or above the threshold (the contract of Binarize) |
| Histograms.BinarizeAntitone | isodata/improc.h:101-108 | raising the threshold can only turn 255 pixels into 0 pixels |
| Histograms.ScanVisitsEveryPixelOnce | isodata/improc.h:125-131 | the column-major visiting order lists rows*cols samples, pixel (y, x) at position x*rows + y |
| Histograms.HistogramOfCounts | isodata/improc.h:129 | after the increments, bin v holds the number of occurrences of v among the visited samples |
| Histograms.HistogramOfTotal | isodata/improc.h:119-131 | the 256 bins add up to the number of samples visited |
| Histograms.HistogramCountsPixels | isodata/improc.h:117-133 | bin v of an image's histogram is the number of its pixels equal to v, and the bins sum to rows*cols |
| Histograms.ZeroBins | isodata/improc.h:120-123 | the first loop leaves all 256 bins at 0 |
| Histograms.CountColumn | isodata/improc.h:127-130 | the inner loop adds one count per pixel of column x to the bins |
| Histograms.CountPixels | isodata/improc.h:125-131 | from zeroed bins the two pixel loops leave the histogram of the image |
| Histograms.ComputeHistogram | isodata/improc.h:117-133 | a fresh 256-bin array holding the histogram of the image |
| Histograms.Cumulative | isodata/improc.h:141-146 | the running sums satisfy c[0] = h[0] and c[i] = h[i] + c[i-1] |
| Histograms.CumulativeMonotone | isodata/improc.h:139-148 | for non-negative bins the cumulative histogram never decreases and its last entry is the total |
| Histograms.CumulativeHistogramTotal | isodata/improc.h:139-148 | the cumulative histogram of an image ends at rows*cols |
| Histograms.ComputeCumulativeHistogram | isodata/improc.h:139-148 | a fresh array holding the running sums of `hist` |
| Isodata.CDivTruncates | isodata/improc.h:169 | C++ integer division truncates toward zero: negating either operand negates the quotient, and on non-negative operands it is floor division |
| Isodata.HalfFloor | isodata/improc.h:168 | `static_cast<int>(theta)` of theta = T/2 >= 0 is T/2 on integers |
| Isodata.HalfRound | isodata/improc.h:182 | `std::round(theta)` of theta = T/2 >= 0 is (T + 1)/2 |
| Isodata.ExitTestIsEquality | isodata/improc.h:175 | on half-integers, `|theta - newTheta| < 1e-3` holds exactly when the two are equal |
| Isodata.RoundedThreshold | isodata/improc.h:182 | the rounded threshold r of T satisfies T = 2r or T = 2r - 1 |
| Isodata.WeightBins | isodata/improc.h:160-163 | bin i is multiplied by i in place |
| Isodata.CumulativesAreWeightedPair | isodata/improc.h:157-164 | `cumsum` is non-negative and nondecreasing, `cumsum2[0]` is 0, and each step of `cumsum2` is the step of `cumsum` times its grey level |
| Isodata.WeightedBelow | isodata/improc.h:164 | the grey levels summed up to level i are at most i per counted pixel |
| Isodata.WeightedBetween | isodata/improc.h:164 | the grey levels of the pixels in (i, j] lie between i + 1 and j per pixel |
| Isodata.Phi | isodata/improc.h:167-170 | on a histogram's cumulative pair with both classes non-empty, phi's doubled value (the two truncated class means added up) lies in [i + 1, i + 255] within [1, 509], so the next index stays in range |
| Isodata.Run | isodata/improc.h:172-180 | the loop ends on a valid index; it ends Converged only on a fixed point of phi and EmptyPartition only where phi would divide by zero |
| Isodata.ConvergedIsFixedPoint | isodata/improc.h:172-180 | every iterate stays in [1, 509]; the loop only stops on phi(theta) == theta, and reports an empty class only where phi would divide by zero |
| Isodata.MoreFuelSameFixedPoint | isodata/improc.h:173-180 | a run that converged gives the same result with any larger iteration budget |
| Isodata.FixedPoint | isodata/improc.h:172-180 | the loop on float theta, with the source's index cast, divisions and exit test, ends as the doubled-iterate run does |
| Isodata.PhiOfTwoLevels | isodata/improc.h:167-170 | splitting a two-level histogram anywhere between its levels p and q gives phi = (p + q)/2 |
| Isodata.TwoLevelsConverge | isodata/improc.h:154-182 | a histogram with n > 0 pixels at p <= 127 and m > 0 pixels at q > 127, and none elsewhere, converges to theta = (p + q)/2, whose rounding separates p from q |
| Isodata.HistogramOfLevels | isodata/improc.h:117-133 | samples of grey levels p and q only leave every other bin of the histogram at zero |
| Isodata.PixelIsCounted | isodata/improc.h:117-133 | the histogram bin of every pixel's grey level is positive |
| Isodata.TwoLevelImageConverges | isodata/improc.h:154-182 | an image whose pixels take exactly the two grey levels p <= 127 < q makes `isodata` converge to theta = (p + q)/2 and binarise at a threshold in (p, q] |
| Isodata.ConstantImageDividesByZero | isodata/improc.h:169 | on a single-level image one class at the first split is empty, so `phi` divides by zero at once |
| Isodata.IsodataThresholdInRange | isodata/improc.h:172-182 | a converged run yields a threshold in [1, 255] |
| Isodata.ThresholdAtRounded | isodata/improc.h:182 | the rounded theta, passed as a uchar, binarises the image at (T + 1)/2 |
| Isodata.Isodata | isodata/improc.h:154-186 | the outcome is the run of the image's cumulative histograms; on convergence `out` is binarised at a threshold in [1, 255], otherwise `out` is untouched |
| Correlation.AccumulateColumn | filters/main.cpp:23-34 | the innermost loop adds the in-bounds terms of kernel column jj, skipping out-of-bounds positions |
| Correlation.CorrelateAt | filters/main.cpp:21-35 | the two kernel loops accumulate the zero-padded correlation sum for pixel (i, j) |
| Correlation.CorrelationAdditive | canny-edges/main.cpp:30-42 | correlating with the sum of two kernels gives the sum of the two correlations |
| Correlation.CorrelationNegated | canny-edges/main.cpp:148-149 | correlating with the negated kernel gives the negated correlation |
| Correlation.CentredDeltaKernel | filters/main.cpp:13-14 | with the swapped offsets a kernel that is 1 at its centre reads the image at (i + rows/2 - cols/2, j + cols/2 - rows/2), or gives 0 out of bounds |
| Correlation.SquareDeltaKernelIsIdentity | filters/main.cpp:13-14 | for a square kernel the centred delta returns the pixel itself |
| Correlation.NonSquareDeltaKernelShifts | filters/main.cpp:13-14 | the 1x3 kernel [0 1 0] returns pixel (i - 1, j + 1), not (i, j) |
| Filters.TruncToByte | filters/main.cpp:37 | the float-to-uchar store truncates toward zero: b <= v < b + 1 for v >= 0, and 0 for v in (-1, 0) |
| Filters.Correlate | filters/main.cpp:9-42 | with odd kernel dimensions, a fresh image of the input's size whose pixel (i, j) is the truncated zero-padded correlation sum |
| Filters.SortPermutes | filters/main.cpp:77 | the sorted slots are a permutation of the slots |
| Filters.SortSorted | filters/main.cpp:77 | the sorted slots are in ascending order |
| Filters.SortedUnique | filters/main.cpp:77 | two ascending sequences with the same elements are equal |
| Filters.StdSortIsSort | filters/main.cpp:77 | whatever algorithm `std::sort` uses, its result is the model's sorted sequence |
| Filters.SlotsExceedIndex | filters/main.cpp:51-52 | for size >= 1 slot 2*size+1 lies inside the N = (2*size+1)^2 slots |
| Filters.WindowValuesInWindow | filters/main.cpp:62-75 | every gathered value is the value of an in-bounds pixel of the window |
| Filters.WindowGathersEveryPixelOnce | filters/main.cpp:62-75 | the converse: the gathered values are the window's in-bounds pixels one to one, each in-bounds pixel read at exactly one slot |
| Filters.PaddedSlots | filters/main.cpp:59-75 | every slot holds a window value or a padding zero |
| Filters.MedianIsZeroOrWindowValue | filters/main.cpp:59-78 | the stored value is 0 or the value of some pixel in the window |
| Filters.MedianRank | filters/main.cpp:77-78 | the stored value has the 2*size+1 sorted slots before it at or below it and all later slots at or above it |
| Filters.Fill | filters/main.cpp:60 | every slot of `values` is set to 0 |
| Filters.GatherSample | filters/main.cpp:64-73 | an in-bounds window position appends its value at slot n and advances n; an out-of-bounds one changes nothing |
| Filters.GatherColumn | filters/main.cpp:63-74 | the inner window loop appends the in-bounds values of one image column, top to bottom, and leaves the later slots alone |
| Filters.GatherWindow | filters/main.cpp:59-75 | after the fill and both window loops, `values` holds the window's in-bounds values column by column, then zeros |
| Filters.MedianAt | filters/main.cpp:59-78 | the value stored for (i, j) is slot 2*size+1 of the sorted slots |
| Filters.MedianFilter | filters/main.cpp:49-83 | for size >= 1, a fresh image of the input's size holding that value at every pixel |
| Binomial.BinomDiagonal | filters/main.cpp:92-94 | C(n, n) = 1 |
| Binomial.BinomOne | filters/main.cpp:104-106 | C(n, 1) = n |
| Binomial.BinomSymmetric | filters/main.cpp:100-102 | the reduction k := n - k does not change C(n, k) |
| Binomial.BinomAbsorption | filters/main.cpp:116 | k * C(n, k) = n * C(n - 1, k - 1), which is why each `res /= i` divides exactly |
| Binomial.MultiplicativeIsBinom | filters/main.cpp:108-119 | after round i of the loop `res` is C(n - k + i, i) |
| Binomial.BinomialCoefficient | filters/main.cpp:90-120 | 1 for k == 0 or k == n, 0 for k > n, 1 for negative k below n; for 0 <= k <= n, C(n, k) when no product exceeds INT_MAX and -1 otherwise |
| Binomial.Wrap32 | filters/main.cpp:110 | the 32-bit two's complement result of a product: in int range and congruent to it modulo 2^32 |
| Binomial.AsWrittenRounds | filters/main.cpp:108-119 | the rounds as written, with wrapping products, give -1 or a non-negative int from a non-negative int `res` |
| Binomial.AsWrittenBinomial | filters/main.cpp:90-120 | `binomialCoefficient` as written returns -1 or a non-negative int for every int n |
| Binomial.AsWrittenRoundsExact | filters/main.cpp:108-119 | while no product exceeds INT_MAX, the rounds as written carry `res` = C(n - k + i - 1, i - 1) to C(n, k) |
| Binomial.AsWrittenAgrees | filters/main.cpp:90-120 | for 0 <= k <= n, the function as written returns C(n, k) whenever no product exceeds INT_MAX: only a wrapped product makes it wrong |
| Binomial.AsWrittenValue | filters/main.cpp:108-119 | the function as written returns 14209041 for (31, 15) |
| Binomial.ExactValue | filters/main.cpp:108-119 | C(31, 15) = 300540195, and the last product of the loop for (31, 15) exceeds INT_MAX |
| Binomial.AsWrittenWrapsSilently | filters/main.cpp:110-114 | for (31, 15) the `res < 0` test misses a wrapped product: 14209041 is returned although C(31, 15) = 300540195 |
| CannyEdges.Correlate | canny-edges/main.cpp:18-50 | with odd kernel dimensions, a fresh float image of the input's size holding the zero-padded correlation sum at every pixel |
| CannyEdges.StepOf | canny-edges/main.cpp:60-75 | the step is (0, 1), (1, 1) or (1, 0), and a NaN orientation keeps the default (0, 1) |
| CannyEdges.StepDependsOnMagnitude | canny-edges/main.cpp:63-75 | only abs(orientation) matters, and larger angles never step back towards (0, 1) |
| CannyEdges.ChooseStep | canny-edges/main.cpp:60-75 | the branches on abs(orientation) against pi/8 and 3pi/8 set (i_step, j_step) to StepOf |
| CannyEdges.NeighbourTest | canny-edges/main.cpp:77-89 | the pixel passes exactly when neither neighbour at plus or minus the step is in the image with a gradient at least its own |
| CannyEdges.EdgeTest | canny-edges/main.cpp:59-91 | the pixel is marked exactly when its gradient exceeds the threshold and no neighbour along its step blocks it |
| CannyEdges.EdgeIsStrictMaximumAlongStep | canny-edges/main.cpp:59-91 | an edge is exactly a pixel above the threshold whose gradient strictly exceeds every in-bounds neighbour along its step |
| CannyEdges.EdgesShrinkAsThresholdRises | canny-edges/main.cpp:59 | raising the threshold only removes edges |
| CannyEdges.NoAdjacentEdgesAlongStep | canny-edges/main.cpp:77-89 | two neighbours along a shared step are never both edges |
| CannyEdges.SuppressColumn | canny-edges/main.cpp:56-92 | column j of `canny` becomes 255 at the edges and 0 elsewhere; other columns keep their values |
| CannyEdges.NonMaximumSuppression | canny-edges/main.cpp:55-94 | `canny` becomes the binary edge image of `grad` and `orientation`, which stay unchanged |

## Left out

- The `main` functions and all I/O are not modelled. This covers `isodata/main.cpp`, image reading and writing, colour conversion, windows, trackbars and `imshow`.
- The `canny_edges` callback signature and its global Mats are not modelled. `grad`, `orientation`, `canny` and the global `threshold` (canny-edges/main.cpp:4) become parameters.
- OpenCV's saturating Mat subtraction and the blend in the filters driver are not modelled, because they are foreign library semantics.
- Kernel construction with `std::exp` and its normalisation is not modelled, because it is floating-point transcendental work. Kernels are inputs.
- The gradient magnitude (`sqrt`) and orientation (`atan` of a quotient) are not modelled, for the same reason. They are inputs to the suppression, and an orientation may be NaN.
- Float samples, weights and sums are exact reals. IEEE rounding in the correlation sums is not modelled. The comparisons in `canny_edges` use the double values of pi/8 and 3pi/8, written out exactly.
- Filters.Correlate: requires every sum to truncate into a uchar (`StoresFit`), because the float-to-uchar store at filters/main.cpp:37 is undefined outside (-1, 256).
- Filters.Correlate, Filters.MedianFilter: the result is a fresh image, not a clone of the input. Every pixel of the clone is overwritten, so its initial contents never show.
- Morphology.Opening, Morphology.Closing: the temporary is a fresh buffer, not `cv::Mat::zeros`. Every pixel of it is written before it is read.
- Filters.MedianAt: takes the sorted sequence `Sort(values[..])` rather than sorting `values` in place. StdSortIsSort shows that every ascending permutation equals it.
- Outputs must be distinct from inputs (`out != img`). The by-value sharing of `cv::Mat` headers is not modelled.
- Isodata.Isodata: the source loop has no iteration cap. The model runs at most `maxIterations` evaluations of `phi` and reports `NoConvergence` when the budget runs out.
- Isodata.Isodata: where `phi` would divide by zero (undefined behaviour in C++), the model stops with `EmptyPartition` and leaves `out` untouched.
- Isodata.Phi: takes only a cumulative pair of a histogram (`WeightedPair`), the only arrays `isodata` passes to `phi`.
- Isodata.Run: evaluates `phi` at most `fuel` times, for the same reason as Isodata.Isodata's `maxIterations`.
- Isodata.Isodata: the `int` sums of `cumsum2` are unbounded, so their overflow on images of more than about 8.4 million pixels is not modelled.
- Binomial.BinomialCoefficient: requires `n - k` to fit an int when k <= n, because the subtraction at filters/main.cpp:100 is reached only then and would otherwise overflow (undefined behaviour).
- Binomial.AsWrittenBinomial: models signed overflow as two's complement wrap-around, which C++ leaves undefined.

## Findings

| source | as written | input that shows it | evidently intended | confidence | as-written member | corrected member |
|---|---|---|---|---|---|---|
| filters/main.cpp:110-114 | overflow is detected only by `res < 0` after `res *= (n - (k - i))`, but a wrapped product can be positive | n = 31, k = 15: at i = 15 the product 145422675 * 31 wraps to 213135629, and the function returns 14209041 although C(31, 15) = 300540195 | return -1 whenever a product exceeds INT_MAX, otherwise C(n, k) | not executed | Binomial.AsWrittenWrapsSilently | Binomial.BinomialCoefficient |
