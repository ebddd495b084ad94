/**
 * The spatial filters of filters/main.cpp: `correlate`, which stores each
 * accumulated value into an 8-bit image, and `medianFilter`.
 */
module Filters {
  import opened Rasters
  import opened Correlation

  // ---------------------------------------------------------------- correlate

  /**
   * The float-to-uchar store `filteredImage.at<unsigned char>(i, j) = value`: the
   * conversion truncates toward zero and is defined only when the result fits a uchar.
   */
  function TruncToByte(v: real): (b: Byte)
    requires -1.0 < v < 256.0
    ensures v >= 0.0 ==> b as real <= v < b as real + 1.0
    ensures v < 0.0 ==> b == 0
  {
    if v < 0.0 then 0 else v.Floor
  }

  /** Every accumulated value truncates to a uchar. */
  ghost predicate StoresFit(image: array2<Byte>, filter: array2<real>)
    reads image, filter
  {
    forall i, j :: 0 <= i < image.Length0 && 0 <= j < image.Length1 ==>
      -1.0 < CorrelationAt(Pixels(image), Pixels(filter), i, j) < 256.0
  }

  /**
   * `correlate` of filters/main.cpp: the kernel must have odd dimensions, and
   * pixel (i, j) of the result is the zero-padded correlation sum, truncated to uchar.
   */
  method Correlate(image: array2<Byte>, filter: array2<real>) returns (filtered: array2<Byte>)
    requires filter.Length0 % 2 == 1 && filter.Length1 % 2 == 1
    requires StoresFit(image, filter)
    ensures fresh(filtered) && filtered.Length0 == image.Length0 && filtered.Length1 == image.Length1
    ensures forall i, j :: 0 <= i < image.Length0 && 0 <= j < image.Length1 ==>
      filtered[i, j] == TruncToByte(CorrelationAt(Pixels(image), Pixels(filter), i, j))
  {
    filtered := new Byte[image.Length0, image.Length1];
    for j := 0 to image.Length1
      invariant forall ii, jj :: 0 <= ii < image.Length0 && 0 <= jj < j ==>
        filtered[ii, jj] == TruncToByte(CorrelationAt(Pixels(image), Pixels(filter), ii, jj))
    {
      for i := 0 to image.Length0
        invariant forall ii, jj :: 0 <= ii < image.Length0 && 0 <= jj < j ==>
          filtered[ii, jj] == TruncToByte(CorrelationAt(Pixels(image), Pixels(filter), ii, jj))
        invariant forall ii :: 0 <= ii < i ==>
          filtered[ii, j] == TruncToByte(CorrelationAt(Pixels(image), Pixels(filter), ii, j))
      {
        var value := CorrelateAt(image, filter, i, j);
        filtered[i, j] := TruncToByte(value);
      }
    }
  }

  // ---------------------------------------------------------------- sorting

  predicate Sorted(s: seq<Byte>) {
    forall p, q :: 0 <= p < q < |s| ==> s[p] <= s[q]
  }

  /** Insert x into a sorted sequence, before the first element not below it. */
  function Insert(x: Byte, s: seq<Byte>): (r: seq<Byte>)
    ensures |r| == |s| + 1
  {
    if s == [] then [x]
    else if x <= s[0] then [x] + s
    else [s[0]] + Insert(x, s[1..])
  }

  lemma {:induction false} InsertPermutes(x: Byte, s: seq<Byte>)
    ensures multiset(Insert(x, s)) == multiset(s) + multiset{x}
  {
    if s != [] && x > s[0] {
      InsertPermutes(x, s[1..]);
      assert s == [s[0]] + s[1..];
    }
  }

  /** Inserting a value no smaller than a bound into values no smaller than it keeps them so. */
  lemma {:induction false} InsertAbove(x: Byte, s: seq<Byte>, lo: int)
    requires lo <= x && forall k :: 0 <= k < |s| ==> lo <= s[k]
    ensures forall k :: 0 <= k < |Insert(x, s)| ==> lo <= Insert(x, s)[k]
  {
    if s != [] && x > s[0] {
      InsertAbove(x, s[1..], lo);
    }
  }

  lemma {:induction false} InsertSorted(x: Byte, s: seq<Byte>)
    requires Sorted(s)
    ensures Sorted(Insert(x, s))
  {
    if s != [] && x > s[0] {
      var t := s[1..];
      InsertSorted(x, t);
      InsertAbove(x, t, s[0]);
      var r := Insert(x, s);
      assert r == [s[0]] + Insert(x, t);
    }
  }

  /** Insertion sort: the ascending rearrangement that `std::sort` produces. */
  function Sort(s: seq<Byte>): (r: seq<Byte>)
    ensures |r| == |s|
  {
    if s == [] then [] else Insert(s[0], Sort(s[1..]))
  }

  lemma {:induction false} SortPermutes(s: seq<Byte>)
    ensures multiset(Sort(s)) == multiset(s)
  {
    if s != [] {
      SortPermutes(s[1..]);
      InsertPermutes(s[0], Sort(s[1..]));
      assert s == [s[0]] + s[1..];
    }
  }

  lemma {:induction false} SortSorted(s: seq<Byte>)
    ensures Sorted(Sort(s))
  {
    if s != [] {
      SortSorted(s[1..]);
      InsertSorted(s[0], Sort(s[1..]));
    }
  }

  /** The head of an ascending sequence is at most each of its elements. */
  lemma SortedHeadIsLeast(a: seq<Byte>, x: Byte)
    requires Sorted(a) && x in multiset(a)
    ensures a[0] <= x
  {
    var q :| 0 <= q < |a| && a[q] == x;
  }

  lemma SortedTail(a: seq<Byte>)
    requires Sorted(a) && a != []
    ensures Sorted(a[1..])
  {
    forall p, q | 0 <= p < q < |a| - 1
      ensures a[1..][p] <= a[1..][q]
    {
      assert a[1..][p] == a[p + 1] && a[1..][q] == a[q + 1];
    }
  }

  lemma TailMultiset(a: seq<Byte>)
    requires a != []
    ensures multiset(a[1..]) == multiset(a) - multiset{a[0]}
  {
    assert a == [a[0]] + a[1..];
  }

  /** An ascending sequence is determined by its multiset, so any sort yields Sort(s). */
  lemma {:induction false} SortedUnique(a: seq<Byte>, b: seq<Byte>)
    requires Sorted(a) && Sorted(b) && multiset(a) == multiset(b)
    ensures a == b
    decreases |a|
  {
    assert |a| == |multiset(a)| == |multiset(b)| == |b|;
    if a != [] {
      SortedHeadIsLeast(a, b[0]);
      SortedHeadIsLeast(b, a[0]);
      assert a[0] == b[0];
      TailMultiset(a);
      TailMultiset(b);
      SortedTail(a);
      SortedTail(b);
      SortedUnique(a[1..], b[1..]);
      assert a == [a[0]] + a[1..] && b == [b[0]] + b[1..];
    }
  }

  /** Whatever algorithm `std::sort` uses, its output is Sort of its input. */
  lemma StdSortIsSort(s: seq<Byte>, t: seq<Byte>)
    requires Sorted(t) && multiset(t) == multiset(s)
    ensures t == Sort(s)
  {
    SortSorted(s);
    SortPermutes(s);
    SortedUnique(t, Sort(s));
  }

  // ---------------------------------------------------------------- the median window

  /** In-bounds values of image column c at rows i - s .. i - s + n - 1, top to bottom. */
  function ColumnValues(g: Raster<Byte>, i: int, c: int, s: int, n: nat): (v: seq<Byte>)
    requires g.Valid()
    ensures |v| <= n
  {
    if n == 0 then []
    else
      var y := i - s + n - 1;
      ColumnValues(g, i, c, s, n - 1) + (if g.InBounds(y, c) then [g.At(y, c)] else [])
  }

  /** In-bounds values of the window columns j - s .. j - s + m - 1, each column top to bottom. */
  function WindowValues(g: Raster<Byte>, i: int, j: int, s: int, m: nat): (v: seq<Byte>)
    requires g.Valid() && s >= 0
    ensures |v| <= m * (2 * s + 1)
  {
    if m == 0 then []
    else WindowValues(g, i, j, s, m - 1) + ColumnValues(g, i, j - s + m - 1, s, 2 * s + 1)
  }

  /** The N = (2s+1)^2 slots of `values`: the window's in-bounds values, then zeros. */
  function Padded(g: Raster<Byte>, s: int, i: int, j: int): (v: seq<Byte>)
    requires g.Valid() && s >= 0
    ensures |v| == (2 * s + 1) * (2 * s + 1)
  {
    var w := WindowValues(g, i, j, s, 2 * s + 1);
    w + seq((2 * s + 1) * (2 * s + 1) - |w|, k => 0)
  }

  /** What `medianFilter` stores at (i, j): element 2s+1 of the sorted slots. */
  function MedianOf(g: Raster<Byte>, s: int, i: int, j: int): Byte
    requires g.Valid() && s >= 1
  {
    SlotsExceedIndex(s);
    Sort(Padded(g, s, i, j))[2 * s + 1]
  }

  /** With size >= 1 slot 2*size+1 exists: N = (2s+1)^2 >= 3(2s+1). */
  lemma SlotsExceedIndex(s: int)
    requires s >= 1
    ensures 2 * s + 1 < (2 * s + 1) * (2 * s + 1)
  {
    var w := 2 * s + 1;
    assert w * w == w * (w - 1) + w;
    assert w * (w - 1) >= w * 1;
  }

  /** (y, x) is an image position inside the window of half-width s around (i, j). */
  predicate InMedianWindow(g: Raster<Byte>, s: int, i: int, j: int, y: int, x: int) {
    g.InBounds(y, x) && i - s <= y <= i + s && j - s <= x <= j + s
  }

  /** v is the value of some image pixel inside the window of half-width s around (i, j). */
  ghost predicate IsWindowValue(g: Raster<Byte>, s: int, i: int, j: int, v: int)
    requires g.Valid()
  {
    exists y, x :: InMedianWindow(g, s, i, j, y, x) && g.At(y, x) == v
  }

  lemma {:induction false} ColumnValuesInWindow(g: Raster<Byte>, i: int, j: int, s: int, c: int, n: nat)
    requires g.Valid() && n <= 2 * s + 1 && j - s <= c <= j + s
    ensures forall k :: 0 <= k < |ColumnValues(g, i, c, s, n)| ==> IsWindowValue(g, s, i, j, ColumnValues(g, i, c, s, n)[k])
  {
    if n > 0 {
      ColumnValuesInWindow(g, i, j, s, c, n - 1);
      var before, v := ColumnValues(g, i, c, s, n - 1), ColumnValues(g, i, c, s, n);
      var top := i - s + n - 1;
      forall k | 0 <= k < |v|
        ensures IsWindowValue(g, s, i, j, v[k])
      {
        if k < |before| {
          assert v[k] == before[k];
        } else {
          assert InMedianWindow(g, s, i, j, top, c) && v[k] == g.At(top, c);
        }
      }
    }
  }

  lemma {:induction false} WindowValuesInWindow(g: Raster<Byte>, i: int, j: int, s: int, m: nat)
    requires g.Valid() && s >= 0 && m <= 2 * s + 1
    ensures forall k :: 0 <= k < |WindowValues(g, i, j, s, m)| ==> IsWindowValue(g, s, i, j, WindowValues(g, i, j, s, m)[k])
  {
    if m > 0 {
      WindowValuesInWindow(g, i, j, s, m - 1);
      var c := j - s + m - 1;
      var before, col := WindowValues(g, i, j, s, m - 1), ColumnValues(g, i, c, s, 2 * s + 1);
      ColumnValuesInWindow(g, i, j, s, c, 2 * s + 1);
      var v := WindowValues(g, i, j, s, m);
      forall k | 0 <= k < |v|
        ensures IsWindowValue(g, s, i, j, v[k])
      {
        if k < |before| {
          assert v[k] == before[k];
        } else {
          assert v[k] == col[k - |before|];
        }
      }
    }
  }

  /** The positions ColumnValues reads, in the same order. */
  function ColumnPositions(g: Raster<Byte>, i: int, c: int, s: int, n: nat): seq<(int, int)>
    requires g.Valid()
  {
    if n == 0 then []
    else
      var y := i - s + n - 1;
      ColumnPositions(g, i, c, s, n - 1) + (if g.InBounds(y, c) then [(y, c)] else [])
  }

  /** The positions WindowValues reads, in the same order. */
  function WindowPositions(g: Raster<Byte>, i: int, j: int, s: int, m: nat): seq<(int, int)>
    requires g.Valid() && s >= 0
  {
    if m == 0 then []
    else WindowPositions(g, i, j, s, m - 1) + ColumnPositions(g, i, j - s + m - 1, s, 2 * s + 1)
  }

  /**
   * Column c of the window yields the in-bounds pixels of rows i - s .. i - s + n - 1,
   * each once and top to bottom.
   */
  lemma ColumnPositionsExact(g: Raster<Byte>, i: int, c: int, s: int, n: nat)
    requires g.Valid()
    ensures var v, p := ColumnValues(g, i, c, s, n), ColumnPositions(g, i, c, s, n);
      && |p| == |v|
      && (forall k :: 0 <= k < |p| ==>
            g.InBounds(p[k].0, p[k].1) && p[k].1 == c && i - s <= p[k].0 < i - s + n && v[k] == g.At(p[k].0, p[k].1))
      && (forall y :: g.InBounds(y, c) && i - s <= y < i - s + n ==> (y, c) in p)
      && (forall k, l :: 0 <= k < l < |p| ==> p[k].0 < p[l].0)
  {
    ColumnPositionsRead(g, i, c, s, n);
    ColumnPositionsCover(g, i, c, s, n);
    ColumnPositionsAscend(g, i, c, s, n);
  }

  lemma {:induction false} ColumnPositionsRead(g: Raster<Byte>, i: int, c: int, s: int, n: nat)
    requires g.Valid()
    ensures var v, p := ColumnValues(g, i, c, s, n), ColumnPositions(g, i, c, s, n);
      && |p| == |v|
      && (forall k :: 0 <= k < |p| ==>
            g.InBounds(p[k].0, p[k].1) && p[k].1 == c && i - s <= p[k].0 < i - s + n && v[k] == g.At(p[k].0, p[k].1))
  {
    if n > 0 {
      ColumnPositionsRead(g, i, c, s, n - 1);
    }
  }

  lemma {:induction false} ColumnPositionsCover(g: Raster<Byte>, i: int, c: int, s: int, n: nat)
    requires g.Valid()
    ensures forall y :: g.InBounds(y, c) && i - s <= y < i - s + n ==> (y, c) in ColumnPositions(g, i, c, s, n)
  {
    if n > 0 {
      ColumnPositionsCover(g, i, c, s, n - 1);
    }
  }

  lemma {:induction false} ColumnPositionsAscend(g: Raster<Byte>, i: int, c: int, s: int, n: nat)
    requires g.Valid()
    ensures forall k :: 0 <= k < |ColumnPositions(g, i, c, s, n)| ==> ColumnPositions(g, i, c, s, n)[k].0 < i - s + n
    ensures forall k, l :: 0 <= k < l < |ColumnPositions(g, i, c, s, n)| ==>
      ColumnPositions(g, i, c, s, n)[k].0 < ColumnPositions(g, i, c, s, n)[l].0
  {
    if n > 0 {
      ColumnPositionsAscend(g, i, c, s, n - 1);
      var before, p := ColumnPositions(g, i, c, s, n - 1), ColumnPositions(g, i, c, s, n);
      var y := i - s + n - 1;
      assert p == before + (if g.InBounds(y, c) then [(y, c)] else []);
      forall k | 0 <= k < |p|
        ensures p[k].0 < i - s + n
      {
        if k < |before| {
          assert p[k] == before[k];
        } else {
          assert p[k] == (y, c);
        }
      }
      forall k, l | 0 <= k < l < |p|
        ensures p[k].0 < p[l].0
      {
        assert p[k] == before[k];
        if l < |before| {
          assert p[l] == before[l];
        }
      }
    }
  }

  /**
   * Window columns j - s .. j - s + m - 1 yield their in-bounds pixels, each once and
   * column by column.
   */
  lemma {:induction false} WindowPositionsExact(g: Raster<Byte>, i: int, j: int, s: int, m: nat)
    requires g.Valid() && s >= 0
    ensures var v, p := WindowValues(g, i, j, s, m), WindowPositions(g, i, j, s, m);
      && |p| == |v|
      && (forall k :: 0 <= k < |p| ==>
            g.InBounds(p[k].0, p[k].1) && i - s <= p[k].0 <= i + s && j - s <= p[k].1 < j - s + m &&
            v[k] == g.At(p[k].0, p[k].1))
      && (forall y, x :: g.InBounds(y, x) && i - s <= y <= i + s && j - s <= x < j - s + m ==> (y, x) in p)
      && (forall k, l :: 0 <= k < l < |p| ==> p[k] != p[l])
  {
    if m > 0 {
      var c := j - s + m - 1;
      WindowPositionsExact(g, i, j, s, m - 1);
      ColumnPositionsExact(g, i, c, s, 2 * s + 1);
      var before, col := WindowPositions(g, i, j, s, m - 1), ColumnPositions(g, i, c, s, 2 * s + 1);
      var p := before + col;
      forall k, l | 0 <= k < l < |p|
        ensures p[k] != p[l]
      {
        if k < |before| && |before| <= l {
          assert p[k].1 < c == p[l].1;
        } else if |before| <= k {
          assert p[k].0 < p[l].0;
        }
      }
    }
  }

  /**
   * The converse of WindowValuesInWindow: the gathered values are the window's in-bounds
   * pixels one to one. Slot k holds the pixel at position p[k] of the window, every
   * in-bounds pixel of the window has a slot, and no pixel has two.
   */
  lemma WindowGathersEveryPixelOnce(g: Raster<Byte>, s: int, i: int, j: int)
    requires g.Valid() && s >= 0
    ensures var v, p := WindowValues(g, i, j, s, 2 * s + 1), WindowPositions(g, i, j, s, 2 * s + 1);
      && |p| == |v|
      && (forall k :: 0 <= k < |p| ==> InMedianWindow(g, s, i, j, p[k].0, p[k].1) && v[k] == g.At(p[k].0, p[k].1))
      && (forall y, x :: InMedianWindow(g, s, i, j, y, x) ==> (y, x) in p)
      && (forall k, l :: 0 <= k < l < |p| ==> p[k] != p[l])
  {
    WindowPositionsExact(g, i, j, s, 2 * s + 1);
  }

  /** Every slot holds a window value or a padding zero. */
  lemma PaddedSlots(g: Raster<Byte>, s: int, i: int, j: int)
    requires g.Valid() && s >= 0
    ensures forall k :: 0 <= k < |Padded(g, s, i, j)| ==> Padded(g, s, i, j)[k] == 0 || IsWindowValue(g, s, i, j, Padded(g, s, i, j)[k])
  {
    var w := WindowValues(g, i, j, s, 2 * s + 1);
    WindowValuesInWindow(g, i, j, s, 2 * s + 1);
    var p := Padded(g, s, i, j);
    forall k | 0 <= k < |p|
      ensures p[k] == 0 || IsWindowValue(g, s, i, j, p[k])
    {
      if k < |w| {
        assert p[k] == w[k];
      }
    }
  }

  /** The stored value is a zero from a padding slot or the value of some pixel in the window. */
  lemma MedianIsZeroOrWindowValue(g: Raster<Byte>, s: int, i: int, j: int)
    requires g.Valid() && s >= 1
    ensures MedianOf(g, s, i, j) == 0 || IsWindowValue(g, s, i, j, MedianOf(g, s, i, j))
  {
    var p := Padded(g, s, i, j);
    var t := Sort(p);
    SlotsExceedIndex(s);
    var r := t[2 * s + 1];
    SortPermutes(p);
    assert r in multiset(t);
    assert r in multiset(p);
    var k :| 0 <= k < |p| && p[k] == r;
    PaddedSlots(g, s, i, j);
  }

  /** The stored element has 2s+1 slots at or below it and the rest at or above it. */
  lemma MedianRank(g: Raster<Byte>, s: int, i: int, j: int)
    requires g.Valid() && s >= 1
    ensures var t := Sort(Padded(g, s, i, j));
      && (forall k :: 0 <= k < 2 * s + 1 ==> t[k] <= MedianOf(g, s, i, j))
      && (forall k :: 2 * s + 1 < k < |t| ==> MedianOf(g, s, i, j) <= t[k])
  {
    var t := Sort(Padded(g, s, i, j));
    SlotsExceedIndex(s);
    SortSorted(Padded(g, s, i, j));
    assert MedianOf(g, s, i, j) == t[2 * s + 1];
  }

  /** Before column m of the window is visited, a whole column of free slots remains. */
  lemma ColumnFits(g: Raster<Byte>, i: int, j: int, s: int, m: nat)
    requires g.Valid() && s >= 0 && m < 2 * s + 1
    ensures |WindowValues(g, i, j, s, m)| + 2 * s + 1 <= (2 * s + 1) * (2 * s + 1)
  {
    SlotArithmetic(|WindowValues(g, i, j, s, m)|, m, 2 * s + 1);
  }

  lemma SlotArithmetic(a: int, m: int, w: int)
    requires 0 <= m < w && a <= m * w
    ensures a + w <= w * w
  {
    assert w * w == (w - 1) * w + w;
    assert m * w <= (w - 1) * w;
  }

  lemma ColumnValuesStep(g: Raster<Byte>, i: int, c: int, s: int, n: nat)
    requires g.Valid() && n >= 1
    ensures ColumnValues(g, i, c, s, n) == ColumnValues(g, i, c, s, n - 1) +
      (if g.InBounds(i - s + n - 1, c) then [g.At(i - s + n - 1, c)] else [])
  {
  }

  lemma WindowValuesStep(g: Raster<Byte>, i: int, j: int, s: int, m: nat)
    requires g.Valid() && s >= 0 && m >= 1
    ensures WindowValues(g, i, j, s, m) == WindowValues(g, i, j, s, m - 1) + ColumnValues(g, i, j - s + m - 1, s, 2 * s + 1)
  {
  }

  /**
   * One round of the window loops of `medianFilter`: a position (y, c) inside the image
   * has its value copied to slot n, which advances; any other position is skipped.
   */
  method GatherSample(image: array2<Byte>, values: array<Byte>, n0: int, y: int, c: int) returns (n: int)
    requires 0 <= n0 < values.Length
    modifies values
    ensures n == n0 + (if Pixels(image).InBounds(y, c) then 1 else 0)
    ensures values[..n] == old(values[..n0]) + (if Pixels(image).InBounds(y, c) then [Pixels(image).At(y, c)] else [])
    ensures forall l :: n <= l < values.Length ==> values[l] == old(values[l])
  {
    n := n0;
    if c < 0 || c > image.Length1 - 1 {
      return;
    }
    if y < 0 || y > image.Length0 - 1 {
      return;
    }
    values[n] := image[y, c];
    n := n + 1;
  }

  /**
   * The inner window loop of `medianFilter` for window column c: the in-bounds
   * values of rows i - size .. i + size are copied to slots n, n + 1, ...
   */
  method GatherColumn(image: array2<Byte>, values: array<Byte>, n0: int, size: int, i: int, c: int) returns (n: int)
    requires size >= 0 && 0 <= n0 && n0 + 2 * size + 1 <= values.Length
    requires forall l :: n0 <= l < values.Length ==> values[l] == 0
    modifies values
    ensures n0 <= n <= values.Length
    ensures values[..n] == old(values[..n0]) + ColumnValues(Pixels(image), i, c, size, 2 * size + 1)
    ensures forall l :: n <= l < values.Length ==> values[l] == 0
  {
    ghost var g := Pixels(image);
    ghost var before := values[..n0];
    n := n0;
    for ii := -size to size + 1
      invariant n0 <= n <= n0 + ii + size
      invariant values[..n] == before + ColumnValues(g, i, c, size, ii + size)
      invariant forall l :: n <= l < values.Length ==> values[l] == 0
    {
      ColumnValuesStep(g, i, c, size, ii + size + 1);
      n := GatherSample(image, values, n, i + ii, c);
    }
  }

  /** `std::fill(values.begin(), values.end(), 0)`. */
  method Fill(values: array<Byte>)
    modifies values
    ensures forall l :: 0 <= l < values.Length ==> values[l] == 0
  {
    for k := 0 to values.Length
      invariant forall l :: 0 <= l < k ==> values[l] == 0
    {
      values[k] := 0;
    }
  }

  /**
   * The buffer `values` of `medianFilter` for one pixel: all N slots set to zero, then
   * the in-bounds window values copied to the front by the two window loops, counted in n.
   */
  method GatherWindow(image: array2<Byte>, values: array<Byte>, size: int, i: int, j: int)
    requires size >= 0 && values.Length == (2 * size + 1) * (2 * size + 1)
    modifies values
    ensures values[..] == Padded(Pixels(image), size, i, j)
  {
    ghost var g := Pixels(image);
    var N := values.Length;
    Fill(values);
    var n := 0;
    assert values[..n] == [] == WindowValues(g, i, j, size, 0);
    for jj := -size to size + 1
      invariant 0 <= n <= N
      invariant values[..n] == WindowValues(g, i, j, size, jj + size)
      invariant forall l :: n <= l < N ==> values[l] == 0
    {
      ghost var done := values[..n];
      ColumnFits(g, i, j, size, jj + size);
      n := GatherColumn(image, values, n, size, i, j + jj);
      assert values[..n] == done + ColumnValues(g, i, j + jj, size, 2 * size + 1);
      WindowValuesStep(g, i, j, size, jj + size + 1);
    }
    assert values[..] == values[..n] + values[n..];
    assert values[n..] == seq(N - n, k => 0);
  }

  /** One pixel of `medianFilter`: refill the slots, sort them, and take slot 2*size+1. */
  method MedianAt(image: array2<Byte>, values: array<Byte>, size: int, i: int, j: int) returns (median: Byte)
    requires size >= 1 && values.Length == (2 * size + 1) * (2 * size + 1)
    modifies values
    ensures median == MedianOf(Pixels(image), size, i, j)
  {
    GatherWindow(image, values, size, i, j);
    var sorted := Sort(values[..]);
    SlotsExceedIndex(size);
    median := sorted[2 * size + 1];
  }

  /** The image `medianFilter` returns. */
  function MedianImage(g: Raster<Byte>, s: int): (r: Raster<Byte>)
    requires g.Valid() && s >= 1
    ensures r.Valid() && r.rows == g.rows && r.cols == g.cols
    ensures forall i, j :: g.InBounds(i, j) ==> r.At(i, j) == MedianOf(g, s, i, j)
  {
    Raster(g.rows, g.cols,
      seq(g.rows, i requires 0 <= i < g.rows =>
        seq(g.cols, j requires 0 <= j < g.cols => MedianOf(g, s, i, j))))
  }

  /**
   * `medianFilter`: one buffer of N = (2*size+1)^2 slots, reused for every pixel; each
   * pixel of the result is MedianOf its window. The source needs size >= 1: with size 0
   * it reads slot 1 of a one-slot buffer.
   */
  method MedianFilter(image: array2<Byte>, size: int) returns (filtered: array2<Byte>)
    requires size >= 1
    ensures fresh(filtered) && Pixels(filtered) == MedianImage(Pixels(image), size)
  {
    ghost var g := Pixels(image);
    var N := (2 * size + 1) * (2 * size + 1);
    var values := new Byte[N]((k) => 0);
    filtered := new Byte[image.Length0, image.Length1];
    for j := 0 to image.Length1
      invariant forall ii, jj :: 0 <= ii < image.Length0 && 0 <= jj < j ==> filtered[ii, jj] == MedianOf(g, size, ii, jj)
    {
      for i := 0 to image.Length0
        invariant forall ii, jj :: 0 <= ii < image.Length0 && 0 <= jj < j ==> filtered[ii, jj] == MedianOf(g, size, ii, jj)
        invariant forall ii :: 0 <= ii < i ==> filtered[ii, j] == MedianOf(g, size, ii, j)
      {
        var median := MedianAt(image, values, size, i, j);
        filtered[i, j] := median;
      }
    }
    Extensionality(Pixels(filtered), MedianImage(g, size));
  }
}
