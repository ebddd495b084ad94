/**
 * canny-edges/main.cpp: the float-output `correlate` that computes the two gradient
 * images, and the non-maximum suppression of `canny_edges`, which marks a pixel 255
 * when its gradient magnitude exceeds the threshold and strictly exceeds both
 * in-bounds neighbours along the step chosen from its gradient orientation.
 *
 * Magnitude and orientation come from `sqrt` and `atan` in the caller and are inputs
 * here; float samples are exact reals, and an orientation may be NaN (0/0 under atan).
 */
module CannyEdges {
  import opened Rasters
  import opened Correlation

  // ---------------------------------------------------------------- correlate

  /**
   * `correlate` of canny-edges/main.cpp: the kernel must have odd dimensions; the
   * result is a fresh zero-initialised float image of the input's size whose pixel
   * (i, j) is the zero-padded correlation sum.
   */
  method Correlate(image: array2<Byte>, filter: array2<real>) returns (filtered: array2<real>)
    requires filter.Length0 % 2 == 1 && filter.Length1 % 2 == 1
    ensures fresh(filtered)
    ensures Pixels(filtered) == CorrelationOf(Pixels(image), Pixels(filter))
  {
    ghost var g, f := Pixels(image), Pixels(filter);
    filtered := new real[image.Length0, image.Length1]((i, j) => 0.0);
    for j := 0 to image.Length1
      invariant forall ii, jj :: 0 <= ii < image.Length0 && 0 <= jj < j ==> filtered[ii, jj] == CorrelationAt(g, f, ii, jj)
    {
      for i := 0 to image.Length0
        invariant forall ii, jj :: 0 <= ii < image.Length0 && 0 <= jj < j ==> filtered[ii, jj] == CorrelationAt(g, f, ii, jj)
        invariant forall ii :: 0 <= ii < i ==> filtered[ii, j] == CorrelationAt(g, f, ii, j)
      {
        var value := CorrelateAt(image, filter, i, j);
        filtered[i, j] := value;
      }
    }
    Extensionality(Pixels(filtered), CorrelationOf(g, f));
  }

  // ---------------------------------------------------------------- the step from the orientation

  /** A float orientation in radians, or NaN. */
  datatype Orientation = Radians(value: real) | NaN

  /** M_PI/8 and 3*M_PI/8 as the doubles the comparisons use, written out exactly. */
  const PiOver8: real := 0.392699081698724139499745433568023145198822021484375
  const ThreePiOver8: real := 1.178097245096172418499236300704069435596466064453125

  function Abs(x: real): real { if x < 0.0 then -x else x }

  /** The offsets (i_step, j_step) to the two neighbours that are compared. */
  datatype Step = Step(di: int, dj: int)

  /**
   * The step chosen from |orientation|: (0, 1) below pi/8, (1, 1) from pi/8 up to
   * 3pi/8, (1, 0) from 3pi/8 on. A NaN fails every comparison and keeps the default (0, 1).
   */
  function StepOf(o: Orientation): (s: Step)
    ensures s == Step(0, 1) || s == Step(1, 1) || s == Step(1, 0)
    ensures o.NaN? ==> s == Step(0, 1)
  {
    if o.Radians? && Abs(o.value) < PiOver8 then Step(0, 1)
    else if o.Radians? && PiOver8 <= Abs(o.value) < ThreePiOver8 then Step(1, 1)
    else if o.Radians? && Abs(o.value) >= ThreePiOver8 then Step(1, 0)
    else Step(0, 1)
  }

  /** Only |orientation| matters, and larger angles never step back towards (0, 1). */
  lemma StepDependsOnMagnitude(a: real, b: real)
    ensures StepOf(Radians(-a)) == StepOf(Radians(a))
    ensures Abs(a) <= Abs(b) && StepOf(Radians(a)) != Step(0, 1) ==> StepOf(Radians(b)) != Step(0, 1)
    ensures Abs(a) <= Abs(b) && StepOf(Radians(a)) == Step(1, 0) ==> StepOf(Radians(b)) == Step(1, 0)
  {
  }

  // ---------------------------------------------------------------- non-maximum suppression

  /** Gradient and orientation images of one shape. */
  predicate SameShape(g: Raster<real>, o: Raster<Orientation>) {
    g.Valid() && o.Valid() && g.rows == o.rows && g.cols == o.cols
  }

  /** (y, x) is in the image and its gradient is at least the one at (i, j): (i, j) is suppressed. */
  predicate BlockedBy(g: Raster<real>, i: int, j: int, y: int, x: int)
    requires g.Valid() && g.InBounds(i, j)
  {
    g.InBounds(y, x) && g.At(i, j) <= g.At(y, x)
  }

  /** Neither neighbour at plus or minus step s from (i, j) blocks it. */
  predicate Unblocked(g: Raster<real>, i: int, j: int, s: Step)
    requires g.Valid() && g.InBounds(i, j)
  {
    !BlockedBy(g, i, j, i - s.di, j - s.dj) && !BlockedBy(g, i, j, i + s.di, j + s.dj)
  }

  /** The test of `canny_edges` for pixel (i, j): above the threshold and blocked by neither neighbour. */
  predicate IsEdge(g: Raster<real>, o: Raster<Orientation>, threshold: int, i: int, j: int)
    requires SameShape(g, o) && g.InBounds(i, j)
  {
    g.At(i, j) > threshold as real && Unblocked(g, i, j, StepOf(o.At(i, j)))
  }

  /** The `canny` image: 255 at the edges, 0 everywhere else. */
  function Edges(g: Raster<real>, o: Raster<Orientation>, threshold: int): (r: Raster<real>)
    requires SameShape(g, o)
    ensures r.Valid() && r.rows == g.rows && r.cols == g.cols
    ensures forall i, j :: g.InBounds(i, j) ==> r.At(i, j) == 0.0 || r.At(i, j) == 255.0
    ensures forall i, j :: g.InBounds(i, j) ==> (r.At(i, j) == 255.0 <==> IsEdge(g, o, threshold, i, j))
  {
    Raster(g.rows, g.cols,
      seq(g.rows, i requires 0 <= i < g.rows =>
        seq(g.cols, j requires 0 <= j < g.cols => if IsEdge(g, o, threshold, i, j) then 255.0 else 0.0)))
  }

  /** (y, x) is one of the two points at plus or minus the step from (i, j). */
  predicate AlongStep(s: Step, i: int, j: int, y: int, x: int) {
    (y == i - s.di && x == j - s.dj) || (y == i + s.di && x == j + s.dj)
  }

  /**
   * An edge is a strict local maximum of the gradient along its step: it exceeds the
   * threshold and every in-bounds neighbour on the step line, and the converse holds.
   * Neighbours outside the image never suppress.
   */
  lemma EdgeIsStrictMaximumAlongStep(g: Raster<real>, o: Raster<Orientation>, threshold: int, i: int, j: int)
    requires SameShape(g, o) && g.InBounds(i, j)
    ensures IsEdge(g, o, threshold, i, j) <==>
      && g.At(i, j) > threshold as real
      && forall y, x :: AlongStep(StepOf(o.At(i, j)), i, j, y, x) && g.InBounds(y, x) ==> g.At(y, x) < g.At(i, j)
  {
    var s := StepOf(o.At(i, j));
    if forall y, x :: AlongStep(s, i, j, y, x) && g.InBounds(y, x) ==> g.At(y, x) < g.At(i, j) {
      assert AlongStep(s, i, j, i - s.di, j - s.dj);
      assert AlongStep(s, i, j, i + s.di, j + s.dj);
    }
  }

  /** Raising the threshold only removes edges. */
  lemma EdgesShrinkAsThresholdRises(g: Raster<real>, o: Raster<Orientation>, lo: int, hi: int)
    requires SameShape(g, o) && lo <= hi
    ensures forall i, j :: g.InBounds(i, j) && IsEdge(g, o, hi, i, j) ==> IsEdge(g, o, lo, i, j)
    ensures forall i, j :: g.InBounds(i, j) ==> Edges(g, o, hi).At(i, j) <= Edges(g, o, lo).At(i, j)
  {
  }

  /** Two neighbours along a shared step are never both edges: the suppression thins ridges. */
  lemma NoAdjacentEdgesAlongStep(g: Raster<real>, o: Raster<Orientation>, threshold: int, i: int, j: int)
    requires SameShape(g, o) && g.InBounds(i, j)
    requires var s := StepOf(o.At(i, j));
      g.InBounds(i + s.di, j + s.dj) && StepOf(o.At(i + s.di, j + s.dj)) == s
    ensures var s := StepOf(o.At(i, j));
      !(IsEdge(g, o, threshold, i, j) && IsEdge(g, o, threshold, i + s.di, j + s.dj))
  {
  }

  /** The step selection of `canny_edges`: (0, 1) unless one of the two range tests applies. */
  method ChooseStep(a: Orientation) returns (iStep: int, jStep: int)
    ensures Step(iStep, jStep) == StepOf(a)
  {
    iStep, jStep := 0, 1;
    if a.Radians? && Abs(a.value) < PiOver8 {
    } else if a.Radians? && PiOver8 <= Abs(a.value) < ThreePiOver8 {
      iStep, jStep := 1, 1;
    } else if a.Radians? && Abs(a.value) >= ThreePiOver8 {
      iStep, jStep := 1, 0;
    }
  }

  /** The two neighbour tests of `canny_edges`: a neighbour in the image whose gradient is at least this one's blocks. */
  method NeighbourTest(grad: array2<real>, i: int, j: int, iStep: int, jStep: int) returns (mark: bool)
    requires 0 <= i < grad.Length0 && 0 <= j < grad.Length1
    ensures mark == Unblocked(Pixels(grad), i, j, Step(iStep, jStep))
  {
    if 0 <= i - iStep < grad.Length0 && 0 <= j - jStep < grad.Length1 && grad[i, j] <= grad[i - iStep, j - jStep] {
      return false;
    }
    if 0 <= i + iStep < grad.Length0 && 0 <= j + jStep < grad.Length1 && grad[i, j] <= grad[i + iStep, j + jStep] {
      return false;
    }
    return true;
  }

  /**
   * The test of `canny_edges` for one pixel: the threshold, the step from the
   * orientation, then each neighbour in turn; a blocking neighbour ends the test.
   */
  method EdgeTest(grad: array2<real>, orientation: array2<Orientation>, threshold: int, i: int, j: int) returns (mark: bool)
    requires orientation.Length0 == grad.Length0 && orientation.Length1 == grad.Length1
    requires 0 <= i < grad.Length0 && 0 <= j < grad.Length1
    ensures mark == IsEdge(Pixels(grad), Pixels(orientation), threshold, i, j)
  {
    if grad[i, j] <= threshold as real {
      return false;
    }
    var iStep, jStep := ChooseStep(orientation[i, j]);
    mark := NeighbourTest(grad, i, j, iStep, jStep);
  }

  /**
   * `canny_edges`: column by column, each `canny` pixel is set to 0 and then to 255
   * when it passes EdgeTest. `grad` and `orientation` are only read, so a later call
   * with a new threshold sees them unchanged.
   */
  method NonMaximumSuppression(grad: array2<real>, orientation: array2<Orientation>, canny: array2<real>, threshold: int)
    requires canny != grad
    requires orientation.Length0 == grad.Length0 && orientation.Length1 == grad.Length1
    requires canny.Length0 == grad.Length0 && canny.Length1 == grad.Length1
    modifies canny
    ensures unchanged(grad, orientation)
    ensures Pixels(canny) == Edges(Pixels(grad), Pixels(orientation), threshold)
  {
    ghost var g, o := Pixels(grad), Pixels(orientation);
    for j := 0 to grad.Length1
      invariant forall ii, jj :: 0 <= ii < grad.Length0 && 0 <= jj < j ==>
        canny[ii, jj] == if IsEdge(g, o, threshold, ii, jj) then 255.0 else 0.0
    {
      SuppressColumn(grad, orientation, canny, threshold, j, g, o);
    }
    Extensionality(Pixels(canny), Edges(g, o, threshold));
  }

  /**
   * The inner loop of `canny_edges` over column j, top to bottom; other columns keep
   * their values. The test reads only `grad` and `orientation`, so it is taken before
   * the pixel is set to 0 and then, for an edge, to 255.
   */
  method SuppressColumn(grad: array2<real>, orientation: array2<Orientation>, canny: array2<real>, threshold: int, j: int,
                        ghost g: Raster<real>, ghost o: Raster<Orientation>)
    requires canny != grad
    requires g == Pixels(grad) && o == Pixels(orientation)
    requires orientation.Length0 == grad.Length0 && orientation.Length1 == grad.Length1
    requires canny.Length0 == grad.Length0 && canny.Length1 == grad.Length1
    requires 0 <= j < grad.Length1
    modifies canny
    ensures forall ii :: 0 <= ii < grad.Length0 ==>
      canny[ii, j] == if IsEdge(g, o, threshold, ii, j) then 255.0 else 0.0
    ensures forall ii, jj :: 0 <= ii < grad.Length0 && 0 <= jj < grad.Length1 && jj != j ==>
      canny[ii, jj] == old(canny[ii, jj])
  {
    for i := 0 to grad.Length0
      invariant forall ii :: 0 <= ii < i ==>
        canny[ii, j] == if IsEdge(g, o, threshold, ii, j) then 255.0 else 0.0
      invariant forall ii, jj :: 0 <= ii < grad.Length0 && 0 <= jj < grad.Length1 && jj != j ==>
        canny[ii, jj] == old(canny[ii, jj])
    {
      var mark := EdgeTest(grad, orientation, threshold, i, j);
      canny[i, j] := 0.0;
      if mark {
        canny[i, j] := 255.0;
      }
    }
  }
}
