/**
 * Grayscale morphology of isodata/improc.h: dilation and erosion take the maximum
 * (minimum) over a square window of half-width `windowSize` clipped to the image,
 * and opening and closing compose them through a temporary buffer.
 */
module Morphology {
  import opened Rasters

  function Max(a: int, b: int): int { if a < b then b else a }
  function Min(a: int, b: int): int { if a < b then a else b }

  /** (yy, xx) lies in the square window of half-width w around (y, x). */
  predicate InWindow(y: int, x: int, w: int, yy: int, xx: int) {
    y - w <= yy <= y + w && x - w <= xx <= x + w
  }

  // ---------------------------------------------------------------- specification

  /** Maximum of column x over rows y0..y1 (inclusive), seeded with 0: the inner loop of dilation. */
  function ColumnSup(g: Raster<Byte>, x: int, y0: int, y1: int): Byte
    requires g.Valid() && 0 <= x < g.cols && 0 <= y0 && (y0 <= y1 ==> y1 < g.rows)
    decreases y1 - y0
  {
    if y1 < y0 then 0 else Max(ColumnSup(g, x, y0, y1 - 1), g.At(y1, x))
  }

  /** Maximum over columns x0..x1 and rows y0..y1 (inclusive), seeded with 0. */
  function WindowSup(g: Raster<Byte>, y0: int, y1: int, x0: int, x1: int): Byte
    requires g.Valid() && 0 <= y0 && (y0 <= y1 ==> y1 < g.rows) && 0 <= x0 && (x0 <= x1 ==> x1 < g.cols)
    decreases x1 - x0
  {
    if x1 < x0 then 0 else Max(WindowSup(g, y0, y1, x0, x1 - 1), ColumnSup(g, x1, y0, y1))
  }

  /** Minimum of column x over rows y0..y1 (inclusive), seeded with 255: the inner loop of erosion. */
  function ColumnInf(g: Raster<Byte>, x: int, y0: int, y1: int): Byte
    requires g.Valid() && 0 <= x < g.cols && 0 <= y0 && (y0 <= y1 ==> y1 < g.rows)
    decreases y1 - y0
  {
    if y1 < y0 then 255 else Min(ColumnInf(g, x, y0, y1 - 1), g.At(y1, x))
  }

  /** Minimum over columns x0..x1 and rows y0..y1 (inclusive), seeded with 255. */
  function WindowInf(g: Raster<Byte>, y0: int, y1: int, x0: int, x1: int): Byte
    requires g.Valid() && 0 <= y0 && (y0 <= y1 ==> y1 < g.rows) && 0 <= x0 && (x0 <= x1 ==> x1 < g.cols)
    decreases x1 - x0
  {
    if x1 < x0 then 255 else Min(WindowInf(g, y0, y1, x0, x1 - 1), ColumnInf(g, x1, y0, y1))
  }

  /** Dilation at (y, x): the window bounds are clipped with max(0, .) and min(size - 1, .). */
  function DilateAt(g: Raster<Byte>, y: int, x: int, w: int): Byte
    requires g.Valid() && g.InBounds(y, x)
  {
    WindowSup(g, Max(0, y - w), Min(g.rows - 1, y + w), Max(0, x - w), Min(g.cols - 1, x + w))
  }

  function ErodeAt(g: Raster<Byte>, y: int, x: int, w: int): Byte
    requires g.Valid() && g.InBounds(y, x)
  {
    WindowInf(g, Max(0, y - w), Min(g.rows - 1, y + w), Max(0, x - w), Min(g.cols - 1, x + w))
  }

  function Dilate(g: Raster<Byte>, w: int): (r: Raster<Byte>)
    requires g.Valid()
    ensures r.Valid() && r.rows == g.rows && r.cols == g.cols
    ensures forall y, x :: 0 <= y < g.rows && 0 <= x < g.cols ==> r.At(y, x) == DilateAt(g, y, x, w)
  {
    Raster(g.rows, g.cols,
      seq(g.rows, y requires 0 <= y < g.rows =>
        seq(g.cols, x requires 0 <= x < g.cols => DilateAt(g, y, x, w))))
  }

  function Erode(g: Raster<Byte>, w: int): (r: Raster<Byte>)
    requires g.Valid()
    ensures r.Valid() && r.rows == g.rows && r.cols == g.cols
    ensures forall y, x :: 0 <= y < g.rows && 0 <= x < g.cols ==> r.At(y, x) == ErodeAt(g, y, x, w)
  {
    Raster(g.rows, g.cols,
      seq(g.rows, y requires 0 <= y < g.rows =>
        seq(g.cols, x requires 0 <= x < g.cols => ErodeAt(g, y, x, w))))
  }

  // ---------------------------------------------------------------- what the window reductions mean

  lemma {:induction false} ColumnSupIsMax(g: Raster<Byte>, x: int, y0: int, y1: int)
    requires g.Valid() && 0 <= x < g.cols && 0 <= y0 && (y0 <= y1 ==> y1 < g.rows)
    ensures forall yy :: y0 <= yy <= y1 ==> g.At(yy, x) <= ColumnSup(g, x, y0, y1)
    ensures ColumnSup(g, x, y0, y1) == 0
         || exists yy :: y0 <= yy <= y1 && g.At(yy, x) == ColumnSup(g, x, y0, y1)
    decreases y1 - y0
  {
    if y0 <= y1 {
      ColumnSupIsMax(g, x, y0, y1 - 1);
    }
  }

  lemma {:induction false} WindowSupIsMax(g: Raster<Byte>, y0: int, y1: int, x0: int, x1: int)
    requires g.Valid() && 0 <= y0 && (y0 <= y1 ==> y1 < g.rows) && 0 <= x0 && (x0 <= x1 ==> x1 < g.cols)
    ensures forall yy, xx :: y0 <= yy <= y1 && x0 <= xx <= x1 ==> g.At(yy, xx) <= WindowSup(g, y0, y1, x0, x1)
    ensures WindowSup(g, y0, y1, x0, x1) == 0
         || exists yy, xx :: y0 <= yy <= y1 && x0 <= xx <= x1 && g.At(yy, xx) == WindowSup(g, y0, y1, x0, x1)
    decreases x1 - x0
  {
    if x0 <= x1 {
      WindowSupIsMax(g, y0, y1, x0, x1 - 1);
      ColumnSupIsMax(g, x1, y0, y1);
    }
  }

  lemma {:induction false} ColumnInfIsMin(g: Raster<Byte>, x: int, y0: int, y1: int)
    requires g.Valid() && 0 <= x < g.cols && 0 <= y0 && (y0 <= y1 ==> y1 < g.rows)
    ensures forall yy :: y0 <= yy <= y1 ==> ColumnInf(g, x, y0, y1) <= g.At(yy, x)
    ensures ColumnInf(g, x, y0, y1) == 255
         || exists yy :: y0 <= yy <= y1 && g.At(yy, x) == ColumnInf(g, x, y0, y1)
    decreases y1 - y0
  {
    if y0 <= y1 {
      ColumnInfIsMin(g, x, y0, y1 - 1);
    }
  }

  lemma {:induction false} WindowInfIsMin(g: Raster<Byte>, y0: int, y1: int, x0: int, x1: int)
    requires g.Valid() && 0 <= y0 && (y0 <= y1 ==> y1 < g.rows) && 0 <= x0 && (x0 <= x1 ==> x1 < g.cols)
    ensures forall yy, xx :: y0 <= yy <= y1 && x0 <= xx <= x1 ==> WindowInf(g, y0, y1, x0, x1) <= g.At(yy, xx)
    ensures WindowInf(g, y0, y1, x0, x1) == 255
         || exists yy, xx :: y0 <= yy <= y1 && x0 <= xx <= x1 && g.At(yy, xx) == WindowInf(g, y0, y1, x0, x1)
    decreases x1 - x0
  {
    if x0 <= x1 {
      WindowInfIsMin(g, y0, y1, x0, x1 - 1);
      ColumnInfIsMin(g, x1, y0, y1);
    }
  }

  /**
   * Dilation at (y, x) is the maximum of the in-bounds samples of the window: it bounds
   * each of them and is one of them, unless it is the seed 0 (an empty window, w < 0).
   */
  lemma DilateAtIsWindowMax(g: Raster<Byte>, y: int, x: int, w: int)
    requires g.Valid() && g.InBounds(y, x)
    ensures forall yy, xx :: g.InBounds(yy, xx) && InWindow(y, x, w, yy, xx) ==> g.At(yy, xx) <= DilateAt(g, y, x, w)
    ensures DilateAt(g, y, x, w) == 0
         || exists yy, xx :: g.InBounds(yy, xx) && InWindow(y, x, w, yy, xx) && g.At(yy, xx) == DilateAt(g, y, x, w)
  {
    WindowSupIsMax(g, Max(0, y - w), Min(g.rows - 1, y + w), Max(0, x - w), Min(g.cols - 1, x + w));
  }

  /** Erosion at (y, x) is the minimum of the in-bounds window samples, or the seed 255. */
  lemma ErodeAtIsWindowMin(g: Raster<Byte>, y: int, x: int, w: int)
    requires g.Valid() && g.InBounds(y, x)
    ensures forall yy, xx :: g.InBounds(yy, xx) && InWindow(y, x, w, yy, xx) ==> ErodeAt(g, y, x, w) <= g.At(yy, xx)
    ensures ErodeAt(g, y, x, w) == 255
         || exists yy, xx :: g.InBounds(yy, xx) && InWindow(y, x, w, yy, xx) && g.At(yy, xx) == ErodeAt(g, y, x, w)
  {
    WindowInfIsMin(g, Max(0, y - w), Min(g.rows - 1, y + w), Max(0, x - w), Min(g.cols - 1, x + w));
  }

  /** The seeds survive only for an empty window: with w < 0 dilation is 0 and erosion 255 everywhere. */
  lemma NegativeWindowGivesSeeds(g: Raster<Byte>, y: int, x: int, w: int)
    requires g.Valid() && g.InBounds(y, x) && w < 0
    ensures DilateAt(g, y, x, w) == 0 && ErodeAt(g, y, x, w) == 255
  {
    assert Min(g.cols - 1, x + w) < Max(0, x - w);
  }

  // ---------------------------------------------------------------- properties of the operators

  /** For windowSize >= 0 the window contains the pixel itself: erosion <= image <= dilation. */
  lemma ErosionBelowDilation(g: Raster<Byte>, w: int)
    requires g.Valid() && w >= 0
    ensures forall y, x :: 0 <= y < g.rows && 0 <= x < g.cols ==>
      Erode(g, w).At(y, x) <= g.At(y, x) <= Dilate(g, w).At(y, x)
  {
    forall y, x | 0 <= y < g.rows && 0 <= x < g.cols
      ensures Erode(g, w).At(y, x) <= g.At(y, x) <= Dilate(g, w).At(y, x)
    {
      DilateAtIsWindowMax(g, y, x, w);
      ErodeAtIsWindowMin(g, y, x, w);
      assert InWindow(y, x, w, y, x);
    }
  }

  /** A constant image is returned unchanged by erosion and by dilation, for every windowSize >= 0. */
  lemma ConstantImageUnchanged(g: Raster<Byte>, w: int, c: Byte)
    requires g.Valid() && w >= 0
    requires forall y, x :: 0 <= y < g.rows && 0 <= x < g.cols ==> g.At(y, x) == c
    ensures Dilate(g, w) == g && Erode(g, w) == g
  {
    forall y, x | 0 <= y < g.rows && 0 <= x < g.cols
      ensures Dilate(g, w).At(y, x) == g.At(y, x) && Erode(g, w).At(y, x) == g.At(y, x)
    {
      DilateAtIsWindowMax(g, y, x, w);
      ErodeAtIsWindowMin(g, y, x, w);
      assert InWindow(y, x, w, y, x);
    }
    Extensionality(Dilate(g, w), g);
    Extensionality(Erode(g, w), g);
  }

  /** Opening (erosion, then dilation of the result) never exceeds the image, for any windowSize. */
  lemma OpeningBelowImage(g: Raster<Byte>, w: int)
    requires g.Valid()
    ensures forall y, x :: 0 <= y < g.rows && 0 <= x < g.cols ==> Dilate(Erode(g, w), w).At(y, x) <= g.At(y, x)
  {
    var e := Erode(g, w);
    forall y, x | 0 <= y < g.rows && 0 <= x < g.cols
      ensures Dilate(e, w).At(y, x) <= g.At(y, x)
    {
      DilateAtIsWindowMax(e, y, x, w);
      if DilateAt(e, y, x, w) != 0 {
        var yy, xx :| e.InBounds(yy, xx) && InWindow(y, x, w, yy, xx) && e.At(yy, xx) == DilateAt(e, y, x, w);
        ErodeAtIsWindowMin(g, yy, xx, w);
        assert InWindow(yy, xx, w, y, x);
      }
    }
  }

  /** Closing (dilation, then erosion of the result) is never below the image, for any windowSize. */
  lemma ClosingAboveImage(g: Raster<Byte>, w: int)
    requires g.Valid()
    ensures forall y, x :: 0 <= y < g.rows && 0 <= x < g.cols ==> g.At(y, x) <= Erode(Dilate(g, w), w).At(y, x)
  {
    var d := Dilate(g, w);
    forall y, x | 0 <= y < g.rows && 0 <= x < g.cols
      ensures g.At(y, x) <= Erode(d, w).At(y, x)
    {
      ErodeAtIsWindowMin(d, y, x, w);
      if ErodeAt(d, y, x, w) != 255 {
        var yy, xx :| d.InBounds(yy, xx) && InWindow(y, x, w, yy, xx) && d.At(yy, xx) == ErodeAt(d, y, x, w);
        DilateAtIsWindowMax(g, yy, xx, w);
        assert InWindow(yy, xx, w, y, x);
      }
    }
  }

  // ---------------------------------------------------------------- the loops of improc.h

  /** The two inner loops of dilation: the running maximum `sup` over the clipped window. */
  method DilationAt(img: array2<Byte>, y: int, x: int, windowSize: int) returns (sup: Byte)
    requires 0 <= y < img.Length0 && 0 <= x < img.Length1
    ensures sup == DilateAt(Pixels(img), y, x, windowSize)
  {
    ghost var g := Pixels(img);
    var y0, y1 := Max(0, y - windowSize), Min(img.Length0 - 1, y + windowSize);
    var x0, x1 := Max(0, x - windowSize), Min(img.Length1 - 1, x + windowSize);
    sup := 0;
    var xx := x0;
    while xx <= x1
      invariant x0 <= xx && (xx <= x1 + 1 || xx == x0)
      invariant sup == WindowSup(g, y0, y1, x0, xx - 1)
    {
      var yy := y0;
      while yy <= y1
        invariant y0 <= yy && (yy <= y1 + 1 || yy == y0)
        invariant sup == Max(WindowSup(g, y0, y1, x0, xx - 1), ColumnSup(g, xx, y0, yy - 1))
      {
        var val := img[yy, xx];
        if val > sup {
          sup := val;
        }
        yy := yy + 1;
      }
      xx := xx + 1;
    }
  }

  /** The two inner loops of erosion: the running minimum `inf` over the clipped window. */
  method ErosionAt(img: array2<Byte>, y: int, x: int, windowSize: int) returns (inf: Byte)
    requires 0 <= y < img.Length0 && 0 <= x < img.Length1
    ensures inf == ErodeAt(Pixels(img), y, x, windowSize)
  {
    ghost var g := Pixels(img);
    var y0, y1 := Max(0, y - windowSize), Min(img.Length0 - 1, y + windowSize);
    var x0, x1 := Max(0, x - windowSize), Min(img.Length1 - 1, x + windowSize);
    inf := 255;
    var xx := x0;
    while xx <= x1
      invariant x0 <= xx && (xx <= x1 + 1 || xx == x0)
      invariant inf == WindowInf(g, y0, y1, x0, xx - 1)
    {
      var yy := y0;
      while yy <= y1
        invariant y0 <= yy && (yy <= y1 + 1 || yy == y0)
        invariant inf == Min(WindowInf(g, y0, y1, x0, xx - 1), ColumnInf(g, xx, y0, yy - 1))
      {
        var val := img[yy, xx];
        if val < inf {
          inf := val;
        }
        yy := yy + 1;
      }
      xx := xx + 1;
    }
  }

  /** dilation(in, out, windowSize): every pixel of `out` becomes the window maximum of `in`. */
  method Dilation(img: array2<Byte>, out: array2<Byte>, windowSize: int)
    requires out != img && out.Length0 == img.Length0 && out.Length1 == img.Length1
    modifies out
    ensures Pixels(out) == Dilate(Pixels(img), windowSize)
  {
    ghost var g := Pixels(img);
    for x := 0 to img.Length1
      invariant forall yy, xx :: 0 <= yy < img.Length0 && 0 <= xx < x ==> out[yy, xx] == DilateAt(g, yy, xx, windowSize)
    {
      for y := 0 to img.Length0
        invariant forall yy, xx :: 0 <= yy < img.Length0 && 0 <= xx < x ==> out[yy, xx] == DilateAt(g, yy, xx, windowSize)
        invariant forall yy :: 0 <= yy < y ==> out[yy, x] == DilateAt(g, yy, x, windowSize)
      {
        var sup := DilationAt(img, y, x, windowSize);
        out[y, x] := sup;
      }
    }
    Extensionality(Pixels(out), Dilate(g, windowSize));
  }

  /** erosion(in, out, windowSize): every pixel of `out` becomes the window minimum of `in`. */
  method Erosion(img: array2<Byte>, out: array2<Byte>, windowSize: int)
    requires out != img && out.Length0 == img.Length0 && out.Length1 == img.Length1
    modifies out
    ensures Pixels(out) == Erode(Pixels(img), windowSize)
  {
    ghost var g := Pixels(img);
    for x := 0 to img.Length1
      invariant forall yy, xx :: 0 <= yy < img.Length0 && 0 <= xx < x ==> out[yy, xx] == ErodeAt(g, yy, xx, windowSize)
    {
      for y := 0 to img.Length0
        invariant forall yy, xx :: 0 <= yy < img.Length0 && 0 <= xx < x ==> out[yy, xx] == ErodeAt(g, yy, xx, windowSize)
        invariant forall yy :: 0 <= yy < y ==> out[yy, x] == ErodeAt(g, yy, x, windowSize)
      {
        var inf := ErosionAt(img, y, x, windowSize);
        out[y, x] := inf;
      }
    }
    Extensionality(Pixels(out), Erode(g, windowSize));
  }

  /** opening(in, out, windowSize): erosion into a zeroed temporary, then dilation into `out`. */
  method Opening(img: array2<Byte>, out: array2<Byte>, windowSize: int)
    requires out != img && out.Length0 == img.Length0 && out.Length1 == img.Length1
    modifies out
    ensures Pixels(out) == Dilate(Erode(Pixels(img), windowSize), windowSize)
    ensures forall y, x :: 0 <= y < img.Length0 && 0 <= x < img.Length1 ==> out[y, x] <= img[y, x]
  {
    var tempOut := new Byte[img.Length0, img.Length1];
    Erosion(img, tempOut, windowSize);
    Dilation(tempOut, out, windowSize);
    OpeningBelowImage(Pixels(img), windowSize);
  }

  /** closing(in, out, windowSize): dilation into a zeroed temporary, then erosion into `out`. */
  method Closing(img: array2<Byte>, out: array2<Byte>, windowSize: int)
    requires out != img && out.Length0 == img.Length0 && out.Length1 == img.Length1
    modifies out
    ensures Pixels(out) == Erode(Dilate(Pixels(img), windowSize), windowSize)
    ensures forall y, x :: 0 <= y < img.Length0 && 0 <= x < img.Length1 ==> img[y, x] <= out[y, x]
  {
    var tempOut := new Byte[img.Length0, img.Length1];
    Dilation(img, tempOut, windowSize);
    Erosion(tempOut, out, windowSize);
    ClosingAboveImage(Pixels(img), windowSize);
  }
}
