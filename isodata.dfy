/**
 * The isodata threshold of isodata/improc.h.
 *
 * `cumsum` and `cumsum2` are `int` arrays, so both divisions in `phi` are integer
 * divisions that truncate, `phi` is half an integer, and `theta`, starting at 127.5,
 * is always a multiple of 0.5. The model tracks T = 2*theta as an integer: the
 * loop index is T/2, the next iterate is
 *   T' = cumsum2[i]/cumsum[i] + (cumsum2[255] - cumsum2[i])/(cumsum[255] - cumsum[i]),
 * the `< 1e-3` exit test holds exactly when T' == T, and the threshold is
 * round(theta) = (T + 1)/2.
 */
module Isodata {
  import opened Rasters
  import opened Histograms

  // ---------------------------------------------------------------- arithmetic

  /** C++ integer division: the quotient is truncated toward zero. */
  function CDiv(a: int, b: int): (q: int)
    requires b != 0
    ensures a >= 0 && b > 0 ==> q == a / b
  {
    var m := (if a < 0 then -a else a) / (if b < 0 then -b else b);
    if (a < 0) == (b < 0) then m else -m
  }

  /** Truncation toward zero: the quotient is odd in each operand, and floor division on non-negative ones. */
  lemma CDivTruncates(a: int, b: int)
    requires b != 0
    ensures CDiv(-a, b) == -CDiv(a, b) && CDiv(a, -b) == -CDiv(a, b)
    ensures a >= 0 && b > 0 ==> CDiv(a, b) == a / b
  {
  }

  function Distance(a: real, b: real): real { if a < b then b - a else a - b }

  /** The `theta` value a doubled iterate stands for. */
  function Half(t: int): real { t as real / 2.0 }

  /** `static_cast<int>(theta)` for theta = t/2 >= 0 is t/2 on integers. */
  lemma HalfFloor(t: int)
    requires t >= 0
    ensures Half(t).Floor == t / 2
  {
    var q := t / 2;
    assert t == 2 * q || t == 2 * q + 1;
    assert q as real <= Half(t) < q as real + 1.0;
  }

  /** `std::round(theta)` (halves away from zero) for theta = t/2 >= 0 is (t + 1)/2. */
  lemma HalfRound(t: int)
    requires t >= 0
    ensures (Half(t) + 0.5).Floor == (t + 1) / 2
  {
    var q := (t + 1) / 2;
    assert t + 1 == 2 * q || t + 1 == 2 * q + 1;
    assert q as real <= Half(t) + 0.5 < q as real + 1.0;
  }

  /** The exit test `|theta - newTheta| < 1e-3` on two half-integers is plain equality. */
  lemma ExitTestIsEquality(t: int, u: int)
    ensures Distance(Half(t), Half(u)) < 0.001 <==> t == u
  {
    if t != u {
      assert t <= u - 1 || u <= t - 1;
      assert Distance(Half(t), Half(u)) >= 0.5;
    }
  }

  /** In a division a/b by a positive b, bounds lo*b <= a <= hi*b carry over to the quotient. */
  lemma DivBounds(a: int, b: int, lo: int, hi: int)
    requires b > 0 && lo * b <= a <= hi * b
    ensures lo <= a / b <= hi
  {
    var q := a / b;
    assert q * b <= a < q * b + b;
    assert q * b + b == (q + 1) * b;
    assert hi * b < (hi + 1) * b;
    CancelFactor(lo, q + 1, b);
    CancelFactor(q, hi + 1, b);
  }

  lemma CancelFactor(x: int, y: int, b: int)
    requires b > 0 && x * b < y * b
    ensures x < y
  {
  }

  // ---------------------------------------------------------------- the two cumulative histograms

  /** `hist[i] *= i`: bin i multiplied by its grey level. */
  function Weighted(h: seq<int>): (w: seq<int>)
    requires |h| == 256
    ensures |w| == 256
  {
    seq(256, i requires 0 <= i < 256 => h[i] * i)
  }

  /**
   * cs counts pixels up to each grey level and cs2 sums their grey levels: cs is
   * non-negative and nondecreasing, cs2 starts at 0, and each step of cs2 is the
   * step of cs times its grey level.
   */
  predicate WeightedPair(cs: seq<int>, cs2: seq<int>) {
    && |cs| == 256 && |cs2| == 256
    && cs[0] >= 0 && cs2[0] == 0
    && forall i :: 0 < i < 256 ==> cs[i - 1] <= cs[i] && cs2[i] - cs2[i - 1] == i * (cs[i] - cs[i - 1])
  }

  /** The cumulative histograms `isodata` builds from a histogram form a weighted pair. */
  lemma CumulativesAreWeightedPair(h: seq<int>)
    requires |h| == 256 && forall v :: 0 <= v < 256 ==> h[v] >= 0
    ensures WeightedPair(Cumulative(h), Cumulative(Weighted(h)))
  {
    var cs, cs2 := Cumulative(h), Cumulative(Weighted(h));
    assert Weighted(h)[0] == 0;
    forall i | 0 < i < 256
      ensures cs[i - 1] <= cs[i] && cs2[i] - cs2[i - 1] == i * (cs[i] - cs[i - 1])
    {
      assert cs[i] - cs[i - 1] == h[i];
      assert cs2[i] - cs2[i - 1] == Weighted(h)[i] == h[i] * i;
    }
  }

  lemma {:induction false} CountsNonNegative(cs: seq<int>, cs2: seq<int>, i: int, j: int)
    requires WeightedPair(cs, cs2) && 0 <= i <= j < 256
    ensures 0 <= cs[i] <= cs[j]
    decreases j
  {
    if i < j {
      CountsNonNegative(cs, cs2, i, j - 1);
    } else if i > 0 {
      CountsNonNegative(cs, cs2, i - 1, i - 1);
    }
  }

  /** The grey levels summed up to level i are at most i per pixel. */
  lemma {:induction false} WeightedBelow(cs: seq<int>, cs2: seq<int>, i: int)
    requires WeightedPair(cs, cs2) && 0 <= i < 256
    ensures 0 <= cs2[i] <= i * cs[i]
  {
    if i > 0 {
      WeightedBelow(cs, cs2, i - 1);
      CountsNonNegative(cs, cs2, i - 1, i);
      var d := cs[i] - cs[i - 1];
      assert cs2[i] == cs2[i - 1] + i * d;
      assert (i - 1) * cs[i - 1] + i * d == i * cs[i] - cs[i - 1];
    }
  }

  /** The grey levels of the pixels in (i, j] lie between i + 1 and j per pixel. */
  lemma {:induction false} WeightedBetween(cs: seq<int>, cs2: seq<int>, i: int, j: int)
    requires WeightedPair(cs, cs2) && 0 <= i <= j < 256
    ensures (i + 1) * (cs[j] - cs[i]) <= cs2[j] - cs2[i] <= j * (cs[j] - cs[i])
    decreases j
  {
    if i < j {
      WeightedBetween(cs, cs2, i, j - 1);
      CountsNonNegative(cs, cs2, i, j - 1);
      CountsNonNegative(cs, cs2, j - 1, j);
      BetweenStep(i, j, cs[j - 1] - cs[i], cs[j] - cs[j - 1], cs2[j - 1] - cs2[i], cs2[j] - cs2[i]);
    }
  }

  /** One step of WeightedBetween on plain integers: e pixels so far, d more at level j. */
  lemma BetweenStep(i: int, j: int, e: int, d: int, w: int, w': int)
    requires 0 <= i < j && e >= 0 && d >= 0
    requires (i + 1) * e <= w <= (j - 1) * e && w' == w + j * d
    ensures (i + 1) * (e + d) <= w' <= j * (e + d)
  {
    assert (i + 1) * d <= j * d;
    assert (i + 1) * (e + d) == (i + 1) * e + (i + 1) * d;
    assert j * (e + d) == j * e + j * d;
  }

  // ---------------------------------------------------------------- phi

  /** Both classes at the split of iterate t hold pixels: `phi` divides by neither count being zero. */
  predicate Splits(cs: seq<int>, t: int)
    requires |cs| == 256 && 0 <= t < 512
  {
    cs[t / 2] != 0 && cs[255] - cs[t / 2] != 0
  }

  /**
   * The `phi` lambda on doubled iterates: the mean grey level below the split plus the
   * mean grey level above it. For a histogram's cumulative pair the lower mean lies in
   * [0, i] and the upper mean in [i + 1, 255], so phi's doubled value lies in
   * [i + 1, i + 255] within [1, 509]: every iterate stays a valid index and rounds to a
   * grey level.
   */
  function Phi(cs: seq<int>, cs2: seq<int>, t: int): (next: int)
    requires WeightedPair(cs, cs2) && 0 <= t < 512 && Splits(cs, t)
    ensures t / 2 < 255
    ensures t / 2 + 1 <= next <= t / 2 + 255
    ensures 1 <= next <= 509
  {
    var i := t / 2;
    ClassMeansInRange(cs, cs2, i);
    CDiv(cs2[i], cs[i]) + CDiv(cs2[255] - cs2[i], cs[255] - cs[i])
  }

  /** With both classes non-empty, the lower class mean is in [0, i] and the upper one in [i + 1, 255]. */
  lemma ClassMeansInRange(cs: seq<int>, cs2: seq<int>, i: int)
    requires WeightedPair(cs, cs2) && 0 <= i < 256 && cs[i] != 0 && cs[255] - cs[i] != 0
    ensures i < 255
    ensures 0 <= CDiv(cs2[i], cs[i]) <= i
    ensures i + 1 <= CDiv(cs2[255] - cs2[i], cs[255] - cs[i]) <= 255
  {
    CountsNonNegative(cs, cs2, i, 255);
    CountsNonNegative(cs, cs2, 0, i);
    WeightedBelow(cs, cs2, i);
    WeightedBetween(cs, cs2, i, 255);
    DivBounds(cs2[i], cs[i], 0, i);
    DivBounds(cs2[255] - cs2[i], cs[255] - cs[i], i + 1, 255);
  }

  // ---------------------------------------------------------------- the iteration

  /** How the fixed-point loop ends, with the doubled iterate it ends on. */
  datatype Convergence =
    | Converged(twiceTheta: int)       // phi(theta) == theta: the loop breaks
    | EmptyPartition(twiceTheta: int)  // phi would divide by zero (undefined behaviour in C++)
    | NoConvergence(twiceTheta: int)   // the iteration budget ran out

  /**
   * The loop of `isodata` from doubled iterate t, with at most `fuel` evaluations of phi.
   * It ends on a valid index; it reports convergence only on a fixed point of phi, and an
   * empty class only where phi would divide by zero.
   */
  function Run(cs: seq<int>, cs2: seq<int>, t: int, fuel: nat): (r: Convergence)
    requires WeightedPair(cs, cs2) && 0 <= t < 512
    ensures 0 <= r.twiceTheta < 512
    ensures r.Converged? ==> Splits(cs, r.twiceTheta) && Phi(cs, cs2, r.twiceTheta) == r.twiceTheta
    ensures r.EmptyPartition? ==> !Splits(cs, r.twiceTheta)
    decreases fuel
  {
    if fuel == 0 then NoConvergence(t)
    else if !Splits(cs, t) then EmptyPartition(t)
    else
      var next := Phi(cs, cs2, t);
      if next == t then Converged(t)
      else Run(cs, cs2, next, fuel - 1)
  }

  /**
   * The loop only stops on a fixed point of phi, and every doubled iterate lies in
   * [1, 509], so the threshold (t + 1)/2 is a grey level in [1, 255].
   */
  lemma {:induction false} ConvergedIsFixedPoint(cs: seq<int>, cs2: seq<int>, t: int, fuel: nat)
    requires WeightedPair(cs, cs2) && 1 <= t <= 509
    ensures var r := Run(cs, cs2, t, fuel);
      && 1 <= r.twiceTheta <= 509
      && (r.Converged? ==> Splits(cs, r.twiceTheta) && Phi(cs, cs2, r.twiceTheta) == r.twiceTheta)
      && (r.EmptyPartition? ==> !Splits(cs, r.twiceTheta))
    decreases fuel
  {
    if fuel > 0 && Splits(cs, t) && Phi(cs, cs2, t) != t {
      ConvergedIsFixedPoint(cs, cs2, Phi(cs, cs2, t), fuel - 1);
    }
  }

  /** A larger budget does not change a run that converged. */
  lemma {:induction false} MoreFuelSameFixedPoint(cs: seq<int>, cs2: seq<int>, t: int, fuel: nat, more: nat)
    requires WeightedPair(cs, cs2) && 0 <= t < 512 && fuel <= more
    requires Run(cs, cs2, t, fuel).Converged?
    ensures Run(cs, cs2, t, more) == Run(cs, cs2, t, fuel)
    decreases fuel
  {
    if Phi(cs, cs2, t) != t {
      MoreFuelSameFixedPoint(cs, cs2, Phi(cs, cs2, t), fuel - 1, more - 1);
    }
  }

  // ---------------------------------------------------------------- two worked cases

  /** A histogram with n pixels at grey level p, m at grey level q and none elsewhere. */
  function TwoLevels(p: int, n: int, q: int, m: int): (h: seq<int>)
    ensures |h| == 256
  {
    seq(256, v => if v == p then n else if v == q then m else 0)
  }

  lemma {:induction false} PrefixOfTwoLevels(p: int, n: int, q: int, m: int, k: nat)
    requires 0 <= p < q < 256 && k <= 256
    ensures Prefix(TwoLevels(p, n, q, m), k) == (if p < k then n else 0) + (if q < k then m else 0)
  {
    if k > 0 {
      PrefixOfTwoLevels(p, n, q, m, k - 1);
    }
  }

  lemma WeightedTwoLevels(p: int, n: int, q: int, m: int)
    requires 0 <= p < q < 256
    ensures Weighted(TwoLevels(p, n, q, m)) == TwoLevels(p, n * p, q, m * q)
  {
  }

  lemma CancelDivision(p: int, n: int)
    requires n > 0 && p >= 0
    ensures CDiv(p * n, n) == p
  {
    DivBounds(p * n, n, p, p);
  }

  /** The running sum of a two-level histogram at bin i. */
  lemma CumulativeOfTwoLevels(p: int, n: int, q: int, m: int, i: int)
    requires 0 <= p < q < 256 && 0 <= i < 256
    ensures Cumulative(TwoLevels(p, n, q, m))[i] == (if p <= i then n else 0) + (if q <= i then m else 0)
  {
    PrefixOfTwoLevels(p, n, q, m, i + 1);
  }

  /** Splitting a two-level histogram anywhere between p and q puts each level in its own class: phi is p + q. */
  lemma PhiOfTwoLevels(p: int, n: int, q: int, m: int, t: int)
    requires 0 <= p < q < 256 && n > 0 && m > 0 && 0 <= t < 512 && p <= t / 2 < q
    ensures var cs, cs2 := Cumulative(TwoLevels(p, n, q, m)), Cumulative(TwoLevels(p, n * p, q, m * q));
      WeightedPair(cs, cs2) && Splits(cs, t) && Phi(cs, cs2, t) == p + q
  {
    CumulativesAreWeightedPair(TwoLevels(p, n, q, m));
    WeightedTwoLevels(p, n, q, m);
    CumulativeOfTwoLevels(p, n, q, m, t / 2);
    CumulativeOfTwoLevels(p, n, q, m, 255);
    CumulativeOfTwoLevels(p, n * p, q, m * q, t / 2);
    CumulativeOfTwoLevels(p, n * p, q, m * q, 255);
    CancelDivision(p, n);
    CancelDivision(q, m);
  }

  /** A run that moves from t to u (or stays at t == u) and then stays at u converges to u within two evaluations. */
  lemma RunSettlesInTwo(cs: seq<int>, cs2: seq<int>, t: int, u: int, fuel: nat)
    requires WeightedPair(cs, cs2) && 0 <= t < 512 && 0 <= u < 512 && fuel >= 2
    requires Splits(cs, t) && Phi(cs, cs2, t) == u && Splits(cs, u) && Phi(cs, cs2, u) == u
    ensures Run(cs, cs2, t, fuel) == Converged(u)
  {
    if t != u {
      assert Run(cs, cs2, u, fuel - 1) == Converged(u);
    }
  }

  /**
   * Two grey levels p <= 127 < q, both present: the first step lands on p + q, which
   * phi keeps, so the loop converges to theta = (p + q)/2, whose rounding separates p from q.
   */
  lemma TwoLevelsConverge(p: int, n: int, q: int, m: int, fuel: nat)
    requires 0 <= p <= 127 < q < 256 && n > 0 && m > 0 && fuel >= 2
    ensures var h := TwoLevels(p, n, q, m);
      && WeightedPair(Cumulative(h), Cumulative(Weighted(h)))
      && Run(Cumulative(h), Cumulative(Weighted(h)), 255, fuel) == Converged(p + q)
      && p < RoundedThreshold(p + q) <= q
  {
    var h := TwoLevels(p, n, q, m);
    CumulativesAreWeightedPair(h);
    WeightedTwoLevels(p, n, q, m);
    PhiOfTwoLevels(p, n, q, m, 255);
    PhiOfTwoLevels(p, n, q, m, p + q);
    RunSettlesInTwo(Cumulative(h), Cumulative(Weighted(h)), 255, p + q, fuel);
  }

  /** The histogram of an image whose pixels all have grey level c. */
  lemma {:induction false} HistogramOfConstant(s: seq<Byte>, c: Byte)
    requires forall k :: 0 <= k < |s| ==> s[k] == c
    ensures HistogramOf(s) == seq(256, v => if v == c then |s| else 0)
  {
    if s != [] {
      HistogramOfConstant(s[..|s| - 1], c);
    }
  }

  /** An image whose pixels all have grey level p or q is scanned into samples p or q. */
  lemma {:induction false} ScanOfLevels(g: Raster<Byte>, p: Byte, q: Byte, m: nat)
    requires g.Valid() && m <= g.cols
    requires forall y, x :: g.InBounds(y, x) ==> g.At(y, x) == p || g.At(y, x) == q
    ensures forall k :: 0 <= k < |ScanColumns(g, m)| ==> ScanColumns(g, m)[k] == p || ScanColumns(g, m)[k] == q
  {
    if m > 0 {
      ScanOfLevels(g, p, q, m - 1);
    }
  }

  /**
   * On an image of a single grey level one of the two classes at the first split
   * (level 127) is empty, so `phi` divides by zero at once.
   */
  lemma ConstantImageDividesByZero(g: Raster<Byte>, c: Byte, fuel: nat)
    requires g.Valid() && fuel >= 1
    requires forall y, x :: g.InBounds(y, x) ==> g.At(y, x) == c
    ensures IsodataRun(g, fuel) == EmptyPartition(255)
  {
    ScanOfLevels(g, c, c, g.cols);
    HistogramOfConstant(Scan(g), c);
    var N := |Scan(g)|;
    var h := Histogram(g);
    HistogramNonNegative(g);
    CumulativesAreWeightedPair(h);
    var cs := Cumulative(h);
    assert cs[127] == Prefix(h, 128) && cs[255] == Prefix(h, 256);
    if c < 255 {
      assert h == TwoLevels(c, N, 255, 0);
      PrefixOfTwoLevels(c, N, 255, 0, 128);
      PrefixOfTwoLevels(c, N, 255, 0, 256);
    } else {
      assert h == TwoLevels(0, 0, 255, N);
      PrefixOfTwoLevels(0, 0, 255, N, 128);
      PrefixOfTwoLevels(0, 0, 255, N, 256);
    }
    assert !Splits(cs, 255);
  }

  /** Samples of grey levels p and q only leave every other bin at zero. */
  lemma {:induction false} HistogramOfLevels(s: seq<Byte>, p: Byte, q: Byte)
    requires forall k :: 0 <= k < |s| ==> s[k] == p || s[k] == q
    ensures HistogramOf(s) == TwoLevels(p, HistogramOf(s)[p], q, HistogramOf(s)[q])
  {
    if s != [] {
      HistogramOfLevels(s[..|s| - 1], p, q);
    }
  }

  /** The bin of any pixel's grey level is positive. */
  lemma PixelIsCounted(g: Raster<Byte>, y: int, x: int)
    requires g.Valid() && g.InBounds(y, x)
    ensures Histogram(g)[g.At(y, x)] > 0
  {
    ScanVisitsEveryPixelOnce(g);
    HistogramCountsPixels(g);
    var v := g.At(y, x);
    assert Scan(g)[x * g.rows + y] == v;
    assert v in multiset(Scan(g));
  }

  /**
   * An image with pixels at two grey levels p <= 127 < q and at no other: `isodata`
   * converges to theta = (p + q)/2, and the threshold it binarises at separates p from q.
   */
  lemma TwoLevelImageConverges(g: Raster<Byte>, p: Byte, q: Byte, fuel: nat)
    requires g.Valid() && p <= 127 < q && fuel >= 2
    requires forall y, x :: g.InBounds(y, x) ==> g.At(y, x) == p || g.At(y, x) == q
    requires exists y, x :: g.InBounds(y, x) && g.At(y, x) == p
    requires exists y, x :: g.InBounds(y, x) && g.At(y, x) == q
    ensures IsodataRun(g, fuel) == Converged(p + q)
    ensures p < RoundedThreshold(p + q) <= q
  {
    ScanOfLevels(g, p, q, g.cols);
    HistogramOfLevels(Scan(g), p, q);
    var yp, xp :| g.InBounds(yp, xp) && g.At(yp, xp) == p;
    var yq, xq :| g.InBounds(yq, xq) && g.At(yq, xq) == q;
    PixelIsCounted(g, yp, xp);
    PixelIsCounted(g, yq, xq);
    TwoLevelsConverge(p, Histogram(g)[p], q, Histogram(g)[q], fuel);
  }

  /** `round(theta)` for a doubled iterate. */
  function RoundedThreshold(t: int): (r: int)
    requires t >= 0
    ensures t == 2 * r || t == 2 * r - 1
  {
    (t + 1) / 2
  }

  /** The loop of `isodata`: iterate phi from theta = 127.5 until it no longer moves. */
  method FixedPoint(cumsum: array<int>, cumsum2: array<int>, maxIterations: nat) returns (outcome: Convergence)
    requires WeightedPair(cumsum[..], cumsum2[..])
    ensures outcome == Run(cumsum[..], cumsum2[..], 255, maxIterations)
  {
    ghost var cs, cs2 := cumsum[..], cumsum2[..];
    var theta: real := 0.5 * 255.0;
    ghost var t := 255;
    var iterations := 0;
    while iterations < maxIterations
      invariant iterations <= maxIterations
      invariant 0 <= t < 512 && theta == Half(t)
      invariant Run(cs, cs2, 255, maxIterations) == Run(cs, cs2, t, maxIterations - iterations)
      decreases maxIterations - iterations
    {
      HalfFloor(t);
      var i := theta.Floor;
      if cumsum[i] == 0 || cumsum[255] - cumsum[i] == 0 {
        return EmptyPartition((2.0 * theta).Floor);
      }
      var newTheta := 0.5 * ((CDiv(cumsum2[i], cumsum[i]) + CDiv(cumsum2[255] - cumsum2[i], cumsum[255] - cumsum[i])) as real);
      ghost var next := Phi(cs, cs2, t);
      assert newTheta == Half(next);
      ExitTestIsEquality(t, next);
      if Distance(theta, newTheta) < 0.001 {
        return Converged((2.0 * theta).Floor);
      }
      theta := newTheta;
      t := next;
      iterations := iterations + 1;
    }
    return NoConvergence((2.0 * theta).Floor);
  }

  // ---------------------------------------------------------------- isodata

  /** The run `isodata` performs on an image. */
  function IsodataRun(g: Raster<Byte>, maxIterations: nat): Convergence
    requires g.Valid()
  {
    var h := Histogram(g);
    HistogramNonNegative(g);
    CumulativesAreWeightedPair(h);
    Run(Cumulative(h), Cumulative(Weighted(h)), 255, maxIterations)
  }

  lemma HistogramNonNegative(g: Raster<Byte>)
    requires g.Valid()
    ensures forall v :: 0 <= v < 256 ==> Histogram(g)[v] >= 0
  {
    HistogramCountsPixels(g);
  }

  /** A converged run of `isodata` yields a threshold in [1, 255]. */
  lemma IsodataThresholdInRange(g: Raster<Byte>, maxIterations: nat)
    requires g.Valid() && IsodataRun(g, maxIterations).Converged?
    ensures 1 <= IsodataRun(g, maxIterations).twiceTheta && 1 <= RoundedThreshold(IsodataRun(g, maxIterations).twiceTheta) <= 255
  {
    var h := Histogram(g);
    HistogramNonNegative(g);
    CumulativesAreWeightedPair(h);
    ConvergedIsFixedPoint(Cumulative(h), Cumulative(Weighted(h)), 255, maxIterations);
  }

  /**
   * `isodata`: histogram, cumulative histogram, grey-level-weighted cumulative
   * histogram, the fixed-point loop, and a threshold at round(theta). When the loop
   * does not converge (or would divide by zero) the output is left untouched.
   */
  method Isodata(img: array2<Byte>, out: array2<Byte>, maxIterations: nat) returns (outcome: Convergence)
    requires out != img && out.Length0 == img.Length0 && out.Length1 == img.Length1
    modifies out
    ensures outcome == IsodataRun(Pixels(img), maxIterations)
    ensures outcome.Converged? ==>
      1 <= outcome.twiceTheta && 1 <= RoundedThreshold(outcome.twiceTheta) <= 255 &&
      Pixels(out) == Binarize(Pixels(img), RoundedThreshold(outcome.twiceTheta))
    ensures !outcome.Converged? ==> Pixels(out) == old(Pixels(out))
  {
    ghost var g := Pixels(img);
    var hist := ComputeHistogram(img);
    var cumsum := ComputeCumulativeHistogram(hist);
    ghost var h := hist[..];
    WeightBins(hist);
    var cumsum2 := ComputeCumulativeHistogram(hist);
    HistogramNonNegative(g);
    CumulativesAreWeightedPair(h);
    outcome := FixedPoint(cumsum, cumsum2, maxIterations);
    assert outcome == IsodataRun(g, maxIterations);
    if outcome.Converged? {
      IsodataThresholdInRange(g, maxIterations);
      ThresholdAtRounded(img, out, outcome.twiceTheta);
    }
  }

  /**
   * The last step of `isodata`: theta = t/2 rounded half away from zero, converted to
   * the `uchar` parameter of `threshold` (modulo 256), which keeps a grey level as it is.
   */
  method ThresholdAtRounded(img: array2<Byte>, out: array2<Byte>, t: int)
    requires out != img && out.Length0 == img.Length0 && out.Length1 == img.Length1
    requires t >= 1 && RoundedThreshold(t) <= 255
    modifies out
    ensures Pixels(out) == Binarize(Pixels(img), RoundedThreshold(t))
  {
    var theta := t as real / 2.0;
    HalfRound(t);
    var rounded := (theta + 0.5).Floor;
    ByteCastKeeps(rounded);
    Threshold(img, out, rounded % 256);
  }

  /** Converting an int in [0, 255] to `uchar` leaves it unchanged. */
  lemma ByteCastKeeps(x: int)
    requires 0 <= x < 256
    ensures x % 256 == x
  {
  }

  /** The loop `hist[i] *= i` of `isodata`, in place. */
  method WeightBins(hist: array<int>)
    requires hist.Length == 256
    modifies hist
    ensures hist[..] == Weighted(old(hist[..]))
  {
    for i := 0 to 256
      invariant forall k :: 0 <= k < i ==> hist[k] == old(hist[k]) * k
      invariant forall k :: i <= k < 256 ==> hist[k] == old(hist[k])
    {
      hist[i] := hist[i] * i;
    }
  }
}
