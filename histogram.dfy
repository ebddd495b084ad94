/**
 * Binarisation and the 256-bin histograms of isodata/improc.h: `threshold`,
 * `computeHistogram` and `computeCumulativeHistogram`.
 */
module Histograms {
  import opened Rasters

  // ---------------------------------------------------------------- threshold

  /** The binarised image: 0 below the threshold, 255 at or above it. */
  function Binarize(g: Raster<Byte>, t: Byte): (r: Raster<Byte>)
    requires g.Valid()
    ensures r.Valid() && r.rows == g.rows && r.cols == g.cols
    ensures forall y, x :: g.InBounds(y, x) ==> r.At(y, x) == 0 || r.At(y, x) == 255
    ensures forall y, x :: g.InBounds(y, x) ==> (r.At(y, x) == 255 <==> g.At(y, x) >= t)
  {
    Raster(g.rows, g.cols,
      seq(g.rows, y requires 0 <= y < g.rows =>
        seq(g.cols, x requires 0 <= x < g.cols => if g.At(y, x) < t then 0 else 255)))
  }

  /** Raising the threshold can only turn white pixels black. */
  lemma BinarizeAntitone(g: Raster<Byte>, s: Byte, t: Byte)
    requires g.Valid() && s <= t
    ensures forall y, x :: g.InBounds(y, x) ==> Binarize(g, t).At(y, x) <= Binarize(g, s).At(y, x)
  {
  }

  /** `threshold`: column by column, each pixel becomes 0 or 255. */
  method Threshold(img: array2<Byte>, out: array2<Byte>, threshold: Byte)
    requires out != img && out.Length0 == img.Length0 && out.Length1 == img.Length1
    modifies out
    ensures Pixels(out) == Binarize(Pixels(img), threshold)
  {
    ghost var g := Pixels(img);
    for x := 0 to img.Length1
      invariant forall y, xx :: 0 <= y < img.Length0 && 0 <= xx < x ==> out[y, xx] == Binarize(g, threshold).At(y, xx)
    {
      for y := 0 to img.Length0
        invariant forall yy, xx :: 0 <= yy < img.Length0 && 0 <= xx < x ==> out[yy, xx] == Binarize(g, threshold).At(yy, xx)
        invariant forall yy :: 0 <= yy < y ==> out[yy, x] == Binarize(g, threshold).At(yy, x)
      {
        if img[y, x] < threshold {
          out[y, x] := 0;
        } else {
          out[y, x] := 255;
        }
      }
    }
    Extensionality(Pixels(out), Binarize(g, threshold));
  }

  // ---------------------------------------------------------------- visiting order

  /** Column x of the raster, top to bottom. */
  function Column(g: Raster<Byte>, x: int): seq<Byte>
    requires g.Valid() && 0 <= x < g.cols
  {
    seq(g.rows, y requires 0 <= y < g.rows => g.At(y, x))
  }

  /** The samples of columns 0..m-1, in the order the histogram loop visits them. */
  function ScanColumns(g: Raster<Byte>, m: nat): seq<Byte>
    requires g.Valid() && m <= g.cols
  {
    if m == 0 then [] else ScanColumns(g, m - 1) + Column(g, m - 1)
  }

  /** Every sample of the raster, column-major. */
  function Scan(g: Raster<Byte>): seq<Byte>
    requires g.Valid()
  {
    ScanColumns(g, g.cols)
  }

  /** Visiting pixel (y, x) appends it to the scan so far. */
  lemma ScanStep(g: Raster<Byte>, done: seq<Byte>, x: int, y: int)
    requires g.Valid() && 0 <= x < g.cols && 0 <= y < g.rows
    ensures done + Column(g, x)[..y + 1] == (done + Column(g, x)[..y]) + [g.At(y, x)]
  {
    assert Column(g, x)[..y + 1] == Column(g, x)[..y] + [g.At(y, x)];
  }

  lemma {:induction false} ScanColumnsLength(g: Raster<Byte>, m: nat)
    requires g.Valid() && m <= g.cols
    ensures |ScanColumns(g, m)| == m * g.rows
  {
    if m > 0 {
      ScanColumnsLength(g, m - 1);
      NextColumnStart(m - 1, g.rows);
    }
  }

  lemma NextColumnStart(m: int, r: int)
    ensures m * r + r == (m + 1) * r
  {
  }

  /** Pixel (y, x) of the first m columns sits at position x*rows + y of their scan. */
  lemma {:induction false} ScanColumnsAt(g: Raster<Byte>, m: nat, x: int, y: int)
    requires g.Valid() && m <= g.cols && 0 <= y < g.rows && 0 <= x < m
    ensures x * g.rows + y < |ScanColumns(g, m)| && ScanColumns(g, m)[x * g.rows + y] == g.At(y, x)
  {
    ScanColumnsLength(g, m - 1);
    ScanColumnsLength(g, m);
    if x < m - 1 {
      ScanColumnsAt(g, m - 1, x, y);
    }
  }

  /** The scan lists every pixel exactly once: pixel (y, x) sits at position x*rows + y. */
  lemma ScanVisitsEveryPixelOnce(g: Raster<Byte>)
    requires g.Valid()
    ensures |Scan(g)| == g.rows * g.cols
    ensures forall y, x :: g.InBounds(y, x) ==> x * g.rows + y < |Scan(g)| && Scan(g)[x * g.rows + y] == g.At(y, x)
  {
    ScanColumnsLength(g, g.cols);
    forall y, x | g.InBounds(y, x)
      ensures x * g.rows + y < |Scan(g)| && Scan(g)[x * g.rows + y] == g.At(y, x)
    {
      ScanColumnsAt(g, g.cols, x, y);
    }
  }

  // ---------------------------------------------------------------- histogram

  /** The 256 counts left by incrementing bin s[k] for each k in turn, from all zeros. */
  function HistogramOf(s: seq<Byte>): (h: seq<int>)
    ensures |h| == 256
  {
    if s == [] then seq(256, v => 0)
    else
      var p := HistogramOf(s[..|s| - 1]);
      p[s[|s| - 1] := p[s[|s| - 1]] + 1]
  }

  /** The histogram of an image: its samples counted in visiting order. */
  function Histogram(g: Raster<Byte>): (h: seq<int>)
    requires g.Valid()
    ensures |h| == 256
  {
    HistogramOf(Scan(g))
  }

  /** Sum of the first n entries. */
  function Prefix(h: seq<int>, n: nat): int
    requires n <= |h|
  {
    if n == 0 then 0 else Prefix(h, n - 1) + h[n - 1]
  }

  lemma HistogramOfSnoc(s: seq<Byte>, e: Byte)
    ensures HistogramOf(s + [e]) == HistogramOf(s)[e := HistogramOf(s)[e] + 1]
  {
    assert (s + [e])[..|s|] == s;
  }

  /** Bin v counts the occurrences of v. */
  lemma {:induction false} HistogramOfCounts(s: seq<Byte>)
    ensures forall v :: 0 <= v < 256 ==> HistogramOf(s)[v] == multiset(s)[v]
  {
    if s != [] {
      var t, e := s[..|s| - 1], s[|s| - 1];
      assert s == t + [e];
      HistogramOfCounts(t);
    }
  }

  lemma {:induction false} PrefixOfZeros(n: nat)
    requires n <= 256
    ensures Prefix(seq(256, v => 0), n) == 0
  {
    if n > 0 {
      PrefixOfZeros(n - 1);
    }
  }

  lemma {:induction false} PrefixOfIncrement(h: seq<int>, v: int, n: nat)
    requires 0 <= v < |h| && n <= |h|
    ensures Prefix(h[v := h[v] + 1], n) == Prefix(h, n) + (if v < n then 1 else 0)
  {
    if n > 0 {
      PrefixOfIncrement(h, v, n - 1);
    }
  }

  /** The 256 bins add up to the number of samples counted. */
  lemma {:induction false} HistogramOfTotal(s: seq<Byte>)
    ensures Prefix(HistogramOf(s), 256) == |s|
  {
    if s == [] {
      PrefixOfZeros(256);
    } else {
      var t, e := s[..|s| - 1], s[|s| - 1];
      HistogramOfTotal(t);
      PrefixOfIncrement(HistogramOf(t), e, 256);
    }
  }

  /** `computeHistogram`: bin v is the number of pixels with value v, and the bins sum to rows*cols. */
  lemma HistogramCountsPixels(g: Raster<Byte>)
    requires g.Valid()
    ensures forall v :: 0 <= v < 256 ==> Histogram(g)[v] == multiset(Scan(g))[v]
    ensures Prefix(Histogram(g), 256) == g.rows * g.cols
  {
    HistogramOfCounts(Scan(g));
    HistogramOfTotal(Scan(g));
    ScanVisitsEveryPixelOnce(g);
  }

  /** `computeHistogram`: a fresh zeroed 256-bin array, incremented once per pixel, column by column. */
  method ComputeHistogram(img: array2<Byte>) returns (hist: array<int>)
    ensures fresh(hist) && hist[..] == Histogram(Pixels(img))
  {
    hist := new int[256];
    ZeroBins(hist);
    CountPixels(img, hist);
  }

  /** The first loop of `computeHistogram`: every bin set to 0. */
  method ZeroBins(hist: array<int>)
    requires hist.Length == 256
    modifies hist
    ensures hist[..] == HistogramOf([])
  {
    for i := 0 to 256
      invariant forall k :: 0 <= k < i ==> hist[k] == 0
    {
      hist[i] := 0;
    }
  }

  /** The pixel loops of `computeHistogram`: columns left to right, one increment per pixel. */
  method CountPixels(img: array2<Byte>, hist: array<int>)
    requires hist.Length == 256 && hist[..] == HistogramOf([])
    modifies hist
    ensures hist[..] == Histogram(Pixels(img))
  {
    ghost var g := Pixels(img);
    ghost var seen: seq<Byte> := [];
    for x := 0 to img.Length1
      invariant seen == ScanColumns(g, x)
      invariant hist[..] == HistogramOf(seen)
    {
      CountColumn(img, hist, x, seen);
      seen := seen + Column(g, x);
    }
  }

  /** The inner loop of `computeHistogram` for column x: one increment per pixel, top to bottom. */
  method CountColumn(img: array2<Byte>, hist: array<int>, x: int, ghost seen: seq<Byte>)
    requires 0 <= x < img.Length1 && hist.Length == 256 && hist[..] == HistogramOf(seen)
    modifies hist
    ensures hist[..] == HistogramOf(seen + Column(Pixels(img), x))
  {
    ghost var g := Pixels(img);
    ghost var counted := seen;
    for y := 0 to img.Length0
      invariant counted == seen + Column(g, x)[..y]
      invariant hist[..] == HistogramOf(counted)
    {
      ScanStep(g, seen, x, y);
      HistogramOfSnoc(counted, img[y, x]);
      hist[img[y, x]] := hist[img[y, x]] + 1;
      counted := counted + [img[y, x]];
    }
    assert Column(g, x)[..img.Length0] == Column(g, x);
  }

  // ---------------------------------------------------------------- cumulative histogram

  /** The running sums h[0] + ... + h[i] for every bin i. */
  function Cumulative(h: seq<int>): (c: seq<int>)
    requires |h| == 256
    ensures |c| == 256
    ensures c[0] == h[0] && forall i :: 0 < i < 256 ==> c[i] == h[i] + c[i - 1]
  {
    assert Prefix(h, 1) == h[0];
    seq(256, i requires 0 <= i < 256 => Prefix(h, i + 1))
  }

  /** For non-negative bins the running sums never decrease, and the last one is the total. */
  lemma CumulativeMonotone(h: seq<int>)
    requires |h| == 256 && forall v :: 0 <= v < 256 ==> h[v] >= 0
    ensures forall i, j :: 0 <= i <= j < 256 ==> Cumulative(h)[i] <= Cumulative(h)[j]
    ensures Cumulative(h)[255] == Prefix(h, 256)
  {
    forall i, j | 0 <= i <= j < 256
      ensures Cumulative(h)[i] <= Cumulative(h)[j]
    {
      PrefixMonotone(h, i + 1, j + 1);
    }
  }

  lemma {:induction false} PrefixMonotone(h: seq<int>, m: nat, n: nat)
    requires m <= n <= |h| && forall v :: 0 <= v < |h| ==> h[v] >= 0
    ensures Prefix(h, m) <= Prefix(h, n)
    decreases n - m
  {
    if m < n {
      PrefixMonotone(h, m, n - 1);
    }
  }

  /** The cumulative histogram of an image ends at the pixel count. */
  lemma CumulativeHistogramTotal(g: Raster<Byte>)
    requires g.Valid()
    ensures Cumulative(Histogram(g))[255] == g.rows * g.cols
  {
    HistogramCountsPixels(g);
  }

  /** `computeCumulativeHistogram`: cumsum[0] = hist[0], then cumsum[i] = hist[i] + cumsum[i-1]. */
  method ComputeCumulativeHistogram(hist: array<int>) returns (cumsum: array<int>)
    requires hist.Length == 256
    ensures fresh(cumsum) && cumsum[..] == Cumulative(hist[..])
  {
    cumsum := new int[256];
    cumsum[0] := hist[0];
    for i := 1 to 256
      invariant forall k :: 0 <= k < i ==> cumsum[k] == Prefix(hist[..], k + 1)
    {
      cumsum[i] := hist[i] + cumsum[i - 1];
    }
  }
}
