/** The fit calculator: scales an image's natural (height, width) into a
    measure box, one branch per orientation regime. */
module ImgResizer {
  import opened Common

  /** A measure box both of whose sides are positive (the editor canvas). */
  predicate ValidMeasure(measure: Size) {
    measure.height > 0.0 && measure.width > 0.0
  }

  /** Natural pixel sizes are never negative; (0, 0) stands for "not known yet". */
  predicate ValidNatural(height: real, width: real) {
    height >= 0.0 && width >= 0.0
  }

  /** `r` has the aspect ratio height : width (compared by cross-multiplying,
      so a zero side is allowed). */
  predicate SameAspect(r: Size, height: real, width: real) {
    r.height * width == height * r.width
  }

  /** The fitted (height, width) of an image of natural size (height, width)
      inside `measure`. The seven cases are tried in the order of the source;
      the last one returns the input unchanged. */
  function Fit(height: real, width: real, measure: Size): (r: Size)
    requires ValidMeasure(measure) && ValidNatural(height, width)
    // the aspect ratio is kept in every branch, the fall-through included
    ensures SameAspect(r, height, width)
  {
    if height > width && height > measure.height then
      FitPortraitOversized(height, width, measure)
    else if height > width && height < measure.height then
      FitPortraitUndersized(height, width, measure)
    else if height < width && width > measure.width then
      FitLandscapeOversized(height, width, measure)
    else if height < width && width < measure.width then
      FitLandscapeUndersized(height, width, measure)
    else if height == width && measure.height > measure.width then
      FitSquare(measure.width)
    else if height == width && measure.height < measure.width then
      FitSquare(measure.height)
    else
      Size(height, width)
  }

  /** A square image becomes a square of the given side. */
  function FitSquare(target: real): (r: Size)
    ensures r.height == r.width == target
  {
    Size(target, target)
  }

  /** Portrait images are contained in the measure box and touch it on one side. */
  lemma FitPortraitContained(height: real, width: real, measure: Size)
    requires ValidMeasure(measure) && ValidNatural(height, width)
    requires height > width && height != measure.height
    ensures var r := Fit(height, width, measure);
      && r.width <= measure.width && r.height <= measure.height
      && (r.width == measure.width || r.height == measure.height)
  {
  }

  /** Landscape images come out exactly as wide as the measure box. */
  lemma FitLandscapeFullWidth(height: real, width: real, measure: Size)
    requires ValidMeasure(measure) && ValidNatural(height, width)
    requires height < width && width != measure.width
    ensures Fit(height, width, measure).width == measure.width
  {
  }

  /** A square image becomes a square whose side is the measure's shorter side. */
  lemma FitSquareSide(side: real, measure: Size)
    requires ValidMeasure(measure) && side >= 0.0
    ensures measure.height > measure.width ==> Fit(side, side, measure) == Size(measure.width, measure.width)
    ensures measure.height < measure.width ==> Fit(side, side, measure) == Size(measure.height, measure.height)
  {
  }

  /** The boundary cases return the natural size unchanged. */
  lemma FitBoundaryUnchanged(height: real, width: real, measure: Size)
    requires ValidMeasure(measure) && ValidNatural(height, width)
    requires || (height > width && height == measure.height)
             || (height < width && width == measure.width)
             || (height == width && measure.height == measure.width)
    ensures Fit(height, width, measure) == Size(height, width)
  {
  }

  /** A positive natural size is never fitted to a box with a zero or negative side. */
  lemma FitPositive(height: real, width: real, measure: Size)
    requires ValidMeasure(measure) && height > 0.0 && width > 0.0
    ensures Fit(height, width, measure).height > 0.0 && Fit(height, width, measure).width > 0.0
  {
  }

  /** A landscape image wider than the measure: shrink to the measure's width. */
  function FitLandscapeOversized(height: real, width: real, measure: Size): (r: Size)
    requires ValidMeasure(measure) && ValidNatural(height, width)
    requires height < width && width > measure.width
    ensures SameAspect(r, height, width)
    ensures r.width == measure.width
  {
    var proportions := width / measure.width;
    assert height / proportions == height * measure.width / width;
    Size(height / proportions, measure.width)
  }

  /** A landscape image narrower than the measure: grow to the measure's width. */
  function FitLandscapeUndersized(height: real, width: real, measure: Size): (r: Size)
    requires ValidMeasure(measure) && ValidNatural(height, width)
    requires height < width && width < measure.width
    ensures SameAspect(r, height, width)
    ensures r.width == measure.width
  {
    var proportions := measure.width / width;
    Size(height * proportions, measure.width)
  }

  /** A portrait image taller than the measure: shrink to the measure's height,
      unless the width would then overflow, in which case fit the width. */
  function FitPortraitOversized(height: real, width: real, measure: Size): (r: Size)
    requires ValidMeasure(measure) && ValidNatural(height, width)
    requires height > width && height > measure.height
    ensures SameAspect(r, height, width)
    ensures r.width <= measure.width && r.height <= measure.height
    ensures r.width == measure.width || r.height == measure.height
  {
    var proportions := height / measure.height;
    PortraitOversized(height, width, measure);
    if width / proportions > measure.width then
      var miniProportions := height / width;
      Size(measure.width * miniProportions, measure.width)
    else
      Size(measure.height, width / proportions)
  }

  /** A portrait image shorter than the measure: grow to the measure's height,
      unless the width would then overflow, in which case fit the width. */
  function FitPortraitUndersized(height: real, width: real, measure: Size): (r: Size)
    requires ValidMeasure(measure) && ValidNatural(height, width)
    requires height > width && height < measure.height
    ensures SameAspect(r, height, width)
    ensures r.width <= measure.width && r.height <= measure.height
    ensures r.width == measure.width || r.height == measure.height
  {
    var proportions := measure.height / height;
    PortraitUndersized(height, width, measure);
    if width * proportions > measure.width then
      var miniProportions := height / width;
      Size(measure.width * miniProportions, measure.width)
    else
      Size(measure.height, width * proportions)
  }

  lemma PortraitOversized(height: real, width: real, measure: Size)
    requires ValidMeasure(measure) && ValidNatural(height, width)
    requires height > width && height > measure.height
    ensures var p := height / measure.height;
      && p > 0.0
      && (width / p > measure.width ==>
            && width > 0.0
            && (measure.width * (height / width)) * width == height * measure.width
            && measure.width * (height / width) <= measure.height)
      && (!(width / p > measure.width) ==>
            && measure.height * width == height * (width / p)
            && width / p <= measure.width)
  {
    var p := height / measure.height;
    assert p * measure.height == height;
    assert width / p == width * measure.height / height;
    if width / p > measure.width {
      assert width * measure.height > measure.width * height;
      CrossDivide(measure.width, height, width, measure.height);
    }
  }

  lemma PortraitUndersized(height: real, width: real, measure: Size)
    requires ValidMeasure(measure) && ValidNatural(height, width)
    requires height > width && height < measure.height
    ensures var p := measure.height / height;
      && (width * p > measure.width ==>
            && width > 0.0
            && (measure.width * (height / width)) * width == height * measure.width
            && measure.width * (height / width) <= measure.height)
      && (!(width * p > measure.width) ==>
            && measure.height * width == height * (width * p)
            && width * p <= measure.width)
  {
    var p := measure.height / height;
    assert width * p == width * measure.height / height;
    if width * p > measure.width {
      assert width * measure.height > measure.width * height;
      CrossDivide(measure.width, height, width, measure.height);
    }
  }

  /** `a * (b / c) < d` whenever `c * d > a * b`, for positive `c`. */
  lemma CrossDivide(a: real, b: real, c: real, d: real)
    requires c > 0.0 && c * d > a * b
    ensures a * (b / c) <= d
  {
    assert a * (b / c) == (a * b) / c;
    assert (a * b) / c < (c * d) / c;
  }

  /** An independent description of what a fit must be, regime by regime:
      portrait images get the box of their aspect ratio that fits inside the
      measure and touches it; landscape images are stretched or shrunk to the
      measure's width; square images become a square of the measure's shorter
      side; the boundary cases are left alone. */
  ghost predicate FitSpec(height: real, width: real, measure: Size, r: Size) {
    if height > width && height != measure.height then
      && r.height * width == height * r.width
      && r.width <= measure.width && r.height <= measure.height
      && (r.width == measure.width || r.height == measure.height)
    else if height < width && width != measure.width then
      r.width == measure.width && r.height * width == height * measure.width
    else if height == width && measure.height > measure.width then
      r == Size(measure.width, measure.width)
    else if height == width && measure.height < measure.width then
      r == Size(measure.height, measure.height)
    else
      r == Size(height, width)
  }

  /** The fit calculator meets the regime-by-regime description. */
  lemma FitMeetsSpec(height: real, width: real, measure: Size)
    requires ValidMeasure(measure) && ValidNatural(height, width)
    ensures FitSpec(height, width, measure, Fit(height, width, measure))
  {
  }

  /** The description admits one box only, so it pins the fit down completely:
      whatever order the branches are tried in, the result is the same. */
  lemma FitSpecUnique(height: real, width: real, measure: Size, r1: Size, r2: Size)
    requires ValidMeasure(measure) && ValidNatural(height, width)
    requires FitSpec(height, width, measure, r1) && FitSpec(height, width, measure, r2)
    ensures r1 == r2
  {
    if height > width && height != measure.height {
      PortraitBoxUnique(height, width, measure, r1, r2);
    } else if height < width && width != measure.width {
      LandscapeBoxUnique(height, width, measure, r1, r2);
    }
  }

  lemma LandscapeBoxUnique(height: real, width: real, measure: Size, r1: Size, r2: Size)
    requires width > 0.0
    requires r1.width == measure.width && r1.height * width == height * measure.width
    requires r2.width == measure.width && r2.height * width == height * measure.width
    ensures r1 == r2
  {
    CancelPositive(r1.height, r2.height, width);
  }

  lemma PortraitBoxUnique(height: real, width: real, measure: Size, r1: Size, r2: Size)
    requires ValidMeasure(measure) && ValidNatural(height, width) && height > width
    requires r1.height * width == height * r1.width && r2.height * width == height * r2.width
    requires r1.width <= measure.width && r1.height <= measure.height
    requires r2.width <= measure.width && r2.height <= measure.height
    requires r1.width == measure.width || r1.height == measure.height
    requires r2.width == measure.width || r2.height == measure.height
    ensures r1 == r2
  {
    if width == 0.0 {
      assert height * r1.width == 0.0 && height * r2.width == 0.0;
      ZeroProduct(height, r1.width);
      ZeroProduct(height, r2.width);
    } else if r1.width == measure.width && r2.width == measure.width {
      CancelPositive(r1.height, r2.height, width);
    } else if r1.height == measure.height && r2.height == measure.height {
      assert height * r1.width == height * r2.width;
      CancelPositive(r1.width, r2.width, height);
    } else {
      // one box touches the width, the other the height: both bounds are then tight
      if r1.width == measure.width {
        MixedBoxes(height, width, measure, r1, r2);
      } else {
        MixedBoxes(height, width, measure, r2, r1);
      }
    }
  }

  lemma MixedBoxes(height: real, width: real, measure: Size, a: Size, b: Size)
    requires ValidMeasure(measure) && height > width > 0.0
    requires a.height * width == height * a.width && b.height * width == height * b.width
    requires a.width == measure.width && a.height <= measure.height
    requires b.height == measure.height && b.width <= measure.width
    ensures a == b
  {
    assert a.height * width == height * measure.width;
    assert measure.height * width == height * b.width;
    assert height * b.width <= height * measure.width by {
      MulLeft(height, b.width, measure.width);
    }
    assert a.height * width <= measure.height * width by {
      MulLeft(width, a.height, measure.height);
    }
    assert a.height * width == measure.height * width;
    CancelPositive(a.height, measure.height, width);
    assert height * measure.width == height * b.width;
    CancelPositive(measure.width, b.width, height);
  }

  /** Landscape images are not contained: on a wide measure box a nearly
      square landscape image comes out taller than the box. */
  lemma LandscapeMayOverflow()
    ensures Fit(9.0, 10.0, Size(600.0, 800.0)) == Size(720.0, 800.0)
    ensures Fit(9.0, 10.0, Size(600.0, 800.0)).height > 600.0
  {
  }
}
