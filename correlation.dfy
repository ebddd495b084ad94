/**
 * Direct zero-padded correlation of an 8-bit image with a kernel, as both `correlate`
 * functions compute it (filters/main.cpp and canny-edges/main.cpp). Samples and weights
 * are exact reals standing in for float.
 *
 * Both sources name `filter.rows / 2` "width" and use it as the COLUMN offset, and
 * `filter.cols / 2` "height" used as the ROW offset. The model keeps that: the kernel is
 * centred only when it is square (CentredDeltaKernel, SquareDeltaKernelIsIdentity).
 */
module Correlation {
  import opened Rasters

  /** The column offset of the source (`width = filter.rows / 2`). */
  function ColumnOffset(filter: Raster<real>): int { filter.rows / 2 }

  /** The row offset of the source (`height = filter.cols / 2`). */
  function RowOffset(filter: Raster<real>): int { filter.cols / 2 }

  /** A sample times a kernel weight: `image.at<unsigned char>(..) * filter.at<float>(..)`. */
  function Weigh(sample: Byte, weight: real): real { sample as real * weight }

  /** Contribution of kernel cell (ii, jj) to output (i, j); zero when the image position is outside. */
  function Term(image: Raster<Byte>, filter: Raster<real>, i: int, j: int, ii: int, jj: int): real
    requires image.Valid() && filter.Valid() && filter.InBounds(ii, jj)
  {
    var r, c := i + ii - RowOffset(filter), j + jj - ColumnOffset(filter);
    if image.InBounds(r, c) then Weigh(image.At(r, c), filter.At(ii, jj)) else 0.0
  }

  /** Sum of the terms of kernel column jj over kernel rows 0..n-1: the innermost loop. */
  function ColumnSum(image: Raster<Byte>, filter: Raster<real>, i: int, j: int, jj: int, n: nat): real
    requires image.Valid() && filter.Valid() && 0 <= jj < filter.cols && n <= filter.rows
  {
    if n == 0 then 0.0 else ColumnSum(image, filter, i, j, jj, n - 1) + Term(image, filter, i, j, n - 1, jj)
  }

  /** Sum over kernel columns 0..m-1. */
  function PartialSum(image: Raster<Byte>, filter: Raster<real>, i: int, j: int, m: nat): real
    requires image.Valid() && filter.Valid() && m <= filter.cols
  {
    if m == 0 then 0.0 else PartialSum(image, filter, i, j, m - 1) + ColumnSum(image, filter, i, j, m - 1, filter.rows)
  }

  /** The value accumulated for output pixel (i, j). */
  function CorrelationAt(image: Raster<Byte>, filter: Raster<real>, i: int, j: int): real
    requires image.Valid() && filter.Valid()
  {
    PartialSum(image, filter, i, j, filter.cols)
  }

  /** The correlated image: same size as the input, one accumulated value per pixel. */
  function CorrelationOf(image: Raster<Byte>, filter: Raster<real>): (r: Raster<real>)
    requires image.Valid() && filter.Valid()
    ensures r.Valid() && r.rows == image.rows && r.cols == image.cols
    ensures forall i, j :: 0 <= i < image.rows && 0 <= j < image.cols ==> r.At(i, j) == CorrelationAt(image, filter, i, j)
  {
    Raster(image.rows, image.cols,
      seq(image.rows, i requires 0 <= i < image.rows =>
        seq(image.cols, j requires 0 <= j < image.cols => CorrelationAt(image, filter, i, j))))
  }

  // ---------------------------------------------------------------- linearity in the kernel

  /** h is the pointwise sum f + g of two kernels of its own size. */
  predicate IsSum(h: Raster<real>, f: Raster<real>, g: Raster<real>)
    requires h.Valid() && f.Valid() && g.Valid()
  {
    && f.rows == h.rows && f.cols == h.cols && g.rows == h.rows && g.cols == h.cols
    && forall ii, jj :: 0 <= ii < h.rows && 0 <= jj < h.cols ==> h.At(ii, jj) == f.At(ii, jj) + g.At(ii, jj)
  }

  /** h is the pointwise negation of a kernel of its own size. */
  predicate IsNegation(h: Raster<real>, f: Raster<real>)
    requires h.Valid() && f.Valid()
  {
    && f.rows == h.rows && f.cols == h.cols
    && forall ii, jj :: 0 <= ii < h.rows && 0 <= jj < h.cols ==> h.At(ii, jj) == -f.At(ii, jj)
  }

  lemma TermAdditive(image: Raster<Byte>, h: Raster<real>, f: Raster<real>, g: Raster<real>, i: int, j: int, ii: int, jj: int)
    requires image.Valid() && h.Valid() && f.Valid() && g.Valid() && IsSum(h, f, g) && h.InBounds(ii, jj)
    ensures Term(image, h, i, j, ii, jj) == Term(image, f, i, j, ii, jj) + Term(image, g, i, j, ii, jj)
  {
    var r, c := i + ii - RowOffset(h), j + jj - ColumnOffset(h);
    if image.InBounds(r, c) {
      var v := image.At(r, c) as real;
      assert h.At(ii, jj) == f.At(ii, jj) + g.At(ii, jj);
      assert v * h.At(ii, jj) == v * f.At(ii, jj) + v * g.At(ii, jj);
    }
  }

  lemma {:induction false} ColumnSumAdditive(image: Raster<Byte>, h: Raster<real>, f: Raster<real>, g: Raster<real>,
                                             i: int, j: int, jj: int, n: nat)
    requires image.Valid() && h.Valid() && f.Valid() && g.Valid() && IsSum(h, f, g)
    requires 0 <= jj < h.cols && n <= h.rows
    ensures ColumnSum(image, h, i, j, jj, n) == ColumnSum(image, f, i, j, jj, n) + ColumnSum(image, g, i, j, jj, n)
  {
    if n > 0 {
      ColumnSumAdditive(image, h, f, g, i, j, jj, n - 1);
      TermAdditive(image, h, f, g, i, j, n - 1, jj);
    }
  }

  lemma {:induction false} PartialSumAdditive(image: Raster<Byte>, h: Raster<real>, f: Raster<real>, g: Raster<real>,
                                              i: int, j: int, m: nat)
    requires image.Valid() && h.Valid() && f.Valid() && g.Valid() && IsSum(h, f, g)
    requires m <= h.cols
    ensures PartialSum(image, h, i, j, m) == PartialSum(image, f, i, j, m) + PartialSum(image, g, i, j, m)
  {
    if m > 0 {
      PartialSumAdditive(image, h, f, g, i, j, m - 1);
      ColumnSumAdditive(image, h, f, g, i, j, m - 1, h.rows);
    }
  }

  /** Correlating with the sum of two kernels gives the sum of the two correlations. */
  lemma CorrelationAdditive(image: Raster<Byte>, h: Raster<real>, f: Raster<real>, g: Raster<real>, i: int, j: int)
    requires image.Valid() && h.Valid() && f.Valid() && g.Valid() && IsSum(h, f, g)
    ensures CorrelationAt(image, h, i, j) == CorrelationAt(image, f, i, j) + CorrelationAt(image, g, i, j)
  {
    PartialSumAdditive(image, h, f, g, i, j, h.cols);
  }

  lemma TermNegated(image: Raster<Byte>, h: Raster<real>, f: Raster<real>, i: int, j: int, ii: int, jj: int)
    requires image.Valid() && h.Valid() && f.Valid() && IsNegation(h, f) && h.InBounds(ii, jj)
    ensures Term(image, h, i, j, ii, jj) == -Term(image, f, i, j, ii, jj)
  {
    var r, c := i + ii - RowOffset(h), j + jj - ColumnOffset(h);
    if image.InBounds(r, c) {
      var v := image.At(r, c) as real;
      assert h.At(ii, jj) == -f.At(ii, jj);
      assert v * h.At(ii, jj) == -(v * f.At(ii, jj));
    }
  }

  lemma {:induction false} ColumnSumNegated(image: Raster<Byte>, h: Raster<real>, f: Raster<real>, i: int, j: int, jj: int, n: nat)
    requires image.Valid() && h.Valid() && f.Valid() && IsNegation(h, f)
    requires 0 <= jj < h.cols && n <= h.rows
    ensures ColumnSum(image, h, i, j, jj, n) == -ColumnSum(image, f, i, j, jj, n)
  {
    if n > 0 {
      ColumnSumNegated(image, h, f, i, j, jj, n - 1);
      TermNegated(image, h, f, i, j, n - 1, jj);
    }
  }

  lemma {:induction false} PartialSumNegated(image: Raster<Byte>, h: Raster<real>, f: Raster<real>, i: int, j: int, m: nat)
    requires image.Valid() && h.Valid() && f.Valid() && IsNegation(h, f)
    requires m <= h.cols
    ensures PartialSum(image, h, i, j, m) == -PartialSum(image, f, i, j, m)
  {
    if m > 0 {
      PartialSumNegated(image, h, f, i, j, m - 1);
      ColumnSumNegated(image, h, f, i, j, m - 1, h.rows);
    }
  }

  /** Correlating with the negated kernel negates the result (how canny_edges derives its second gradient kernels). */
  lemma CorrelationNegated(image: Raster<Byte>, h: Raster<real>, f: Raster<real>, i: int, j: int)
    requires image.Valid() && h.Valid() && f.Valid() && IsNegation(h, f)
    ensures CorrelationAt(image, h, i, j) == -CorrelationAt(image, f, i, j)
  {
    PartialSumNegated(image, h, f, i, j, h.cols);
  }

  // ---------------------------------------------------------------- centring

  /** The kernel is 1.0 at its centre cell (rows/2, cols/2) and 0.0 elsewhere. */
  predicate IsCentredDelta(f: Raster<real>)
    requires f.Valid()
  {
    && f.rows >= 1 && f.cols >= 1
    && forall ii, jj :: 0 <= ii < f.rows && 0 <= jj < f.cols ==>
         f.At(ii, jj) == if ii == f.rows / 2 && jj == f.cols / 2 then 1.0 else 0.0
  }

  /** What a centred delta kernel reads: image position (i + rows/2 - cols/2, j + cols/2 - rows/2). */
  function DeltaReads(image: Raster<Byte>, f: Raster<real>, i: int, j: int): real
    requires image.Valid() && f.Valid()
  {
    var r, c := i + f.rows / 2 - f.cols / 2, j + f.cols / 2 - f.rows / 2;
    if image.InBounds(r, c) then image.At(r, c) as real else 0.0
  }

  lemma {:induction false} DeltaColumnSum(image: Raster<Byte>, f: Raster<real>, i: int, j: int, jj: int, n: nat)
    requires image.Valid() && f.Valid() && IsCentredDelta(f) && 0 <= jj < f.cols && n <= f.rows
    ensures ColumnSum(image, f, i, j, jj, n) ==
      if jj == f.cols / 2 && n > f.rows / 2 then DeltaReads(image, f, i, j) else 0.0
  {
    if n > 0 {
      DeltaColumnSum(image, f, i, j, jj, n - 1);
    }
  }

  lemma {:induction false} DeltaPartialSum(image: Raster<Byte>, f: Raster<real>, i: int, j: int, m: nat)
    requires image.Valid() && f.Valid() && IsCentredDelta(f) && m <= f.cols
    ensures PartialSum(image, f, i, j, m) == if m > f.cols / 2 then DeltaReads(image, f, i, j) else 0.0
  {
    if m > 0 {
      DeltaPartialSum(image, f, i, j, m - 1);
      DeltaColumnSum(image, f, i, j, m - 1, f.rows);
    }
  }

  /**
   * Because the offsets are swapped, a kernel that is 1 at its centre reads the image
   * at (i + rows/2 - cols/2, j + cols/2 - rows/2), or contributes nothing out of bounds.
   */
  lemma CentredDeltaKernel(image: Raster<Byte>, f: Raster<real>, i: int, j: int)
    requires image.Valid() && f.Valid() && IsCentredDelta(f)
    ensures CorrelationAt(image, f, i, j) == DeltaReads(image, f, i, j)
  {
    DeltaPartialSum(image, f, i, j, f.cols);
  }

  /** For a square kernel the swap is harmless: the centred delta (the 1x1 kernel [1.0] among them) is the identity. */
  lemma SquareDeltaKernelIsIdentity(image: Raster<Byte>, f: Raster<real>, i: int, j: int)
    requires image.Valid() && f.Valid() && IsCentredDelta(f) && f.rows == f.cols
    requires image.InBounds(i, j)
    ensures CorrelationAt(image, f, i, j) == image.At(i, j) as real
  {
    CentredDeltaKernel(image, f, i, j);
  }

  /** A 1x3 kernel [0 1 0] does not read pixel (i, j) but (i - 1, j + 1). */
  lemma NonSquareDeltaKernelShifts(image: Raster<Byte>, f: Raster<real>, i: int, j: int)
    requires image.Valid() && f.Valid() && f.rows == 1 && f.cols == 3 && IsCentredDelta(f)
    requires image.InBounds(i - 1, j + 1)
    ensures CorrelationAt(image, f, i, j) == image.At(i - 1, j + 1) as real
  {
    CentredDeltaKernel(image, f, i, j);
  }

  // ---------------------------------------------------------------- the accumulation loops

  /** The innermost loop of `correlate` for kernel column jj: add its in-bounds terms to `value`. */
  method AccumulateColumn(image: array2<Byte>, filter: array2<real>, i: int, j: int, jj: int, value0: real) returns (value: real)
    requires 0 <= jj < filter.Length1
    ensures value == value0 + ColumnSum(Pixels(image), Pixels(filter), i, j, jj, filter.Length0)
  {
    ghost var g, f := Pixels(image), Pixels(filter);
    var width := filter.Length0 / 2;
    var height := filter.Length1 / 2;
    value := value0;
    for ii := 0 to filter.Length0
      invariant value == value0 + ColumnSum(g, f, i, j, jj, ii)
    {
      if j + jj - width < 0 || j + jj - width > image.Length1 - 1 {
        continue;
      }
      if i + ii - height < 0 || i + ii - height > image.Length0 - 1 {
        continue;
      }
      value := value + Weigh(image[i + ii - height, j + jj - width], filter[ii, jj]);
    }
  }

  /** The two inner loops of `correlate`: accumulate `value` over the kernel footprint, column by column. */
  method CorrelateAt(image: array2<Byte>, filter: array2<real>, i: int, j: int) returns (value: real)
    ensures value == CorrelationAt(Pixels(image), Pixels(filter), i, j)
  {
    value := 0.0;
    for jj := 0 to filter.Length1
      invariant value == PartialSum(Pixels(image), Pixels(filter), i, j, jj)
    {
      value := AccumulateColumn(image, filter, i, j, jj, value);
    }
  }
}
