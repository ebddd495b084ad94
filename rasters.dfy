/** Single-channel rasters: the 8-bit sample type and the value view of an image buffer. */
module Rasters {

  /** An unsigned 8-bit intensity (OpenCV's uchar). */
  type Byte = x: int | 0 <= x < 256

  /** A rows-by-cols grid of samples; px[y][x] is the sample at row y, column x. */
  datatype Raster<T> = Raster(rows: nat, cols: nat, px: seq<seq<T>>)
  {
    /** Every row holds exactly `cols` samples. */
    predicate Valid() {
      |px| == rows && forall y :: 0 <= y < rows ==> |px[y]| == cols
    }

    predicate InBounds(y: int, x: int) {
      0 <= y < rows && 0 <= x < cols
    }

    function At(y: int, x: int): T
      requires Valid() && InBounds(y, x)
    {
      px[y][x]
    }
  }

  /** The raster held by a 2-D buffer: rows are the first dimension, columns the second. */
  ghost function Pixels<T>(a: array2<T>): (g: Raster<T>)
    reads a
    ensures g.Valid() && g.rows == a.Length0 && g.cols == a.Length1
    ensures forall y, x :: 0 <= y < a.Length0 && 0 <= x < a.Length1 ==> g.At(y, x) == a[y, x]
  {
    Raster(a.Length0, a.Length1,
      seq(a.Length0, y requires 0 <= y < a.Length0 reads a =>
        seq(a.Length1, x requires 0 <= x < a.Length1 reads a => a[y, x])))
  }

  /** Two rasters of the same shape that agree at every pixel are equal. */
  lemma Extensionality<T>(g: Raster<T>, h: Raster<T>)
    requires g.Valid() && h.Valid() && g.rows == h.rows && g.cols == h.cols
    requires forall y, x :: 0 <= y < g.rows && 0 <= x < g.cols ==> g.At(y, x) == h.At(y, x)
    ensures g == h
  {
    forall y | 0 <= y < g.rows
      ensures g.px[y] == h.px[y]
    {
      forall x | 0 <= x < g.cols
        ensures g.px[y][x] == h.px[y][x]
      {
        assert g.At(y, x) == h.At(y, x);
      }
    }
  }
}
