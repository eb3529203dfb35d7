/** The rotate button: the rotation snaps to the next quarter turn and the
    displayed image is re-laid-out for its new orientation. */
module Rotation {
  import opened Common
  import opened ViewState
  import ImgResizer

  /** The rotation the button moves to from `rot`. Non-negative values go to
      the next quarter strictly above; values in (-6, 0) are first read as the
      equivalent angle in (0, 6) and go to the quarter at or above it; anything
      else goes back to upright. */
  function RotateStep(rot: real): (r: real)
    ensures IsQuarter(r)
  {
    if (0.0 <= rot < 1.5) || (-6.0 < rot <= -4.5) then 1.5
    else if (1.5 <= rot < 3.0) || (-4.5 < rot <= -3.0) then 3.0
    else if (3.0 <= rot < 4.5) || (-3.0 < rot <= -1.5) then 4.5
    else 0.0
  }

  /** The quarter with index `k`, where index 4 wraps round to upright. */
  function QuarterOf(k: int): real {
    if k >= 4 then 0.0 else k as real * 1.5
  }

  /** Reference definition of the step by whole quarters: the quarter strictly
      above a non-negative rotation, or the quarter at or above the equivalent
      positive angle of a negative one. */
  function QuarterAbove(rot: real): real {
    if rot >= 0.0 then QuarterOf((rot / 1.5).Floor + 1)
    else if rot > -6.0 then QuarterOf(-((-(rot + 6.0)) / 1.5).Floor)
    else 0.0
  }

  lemma RotateStepIsQuarterAbove(rot: real)
    ensures RotateStep(rot) == QuarterAbove(rot)
  {
    if 0.0 <= rot < 1.5 {
      assert (rot / 1.5).Floor == 0;
    } else if 1.5 <= rot < 3.0 {
      assert (rot / 1.5).Floor == 1;
    } else if 3.0 <= rot < 4.5 {
      assert (rot / 1.5).Floor == 2;
    } else if rot >= 4.5 {
      assert (rot / 1.5).Floor >= 3;
    } else if -6.0 < rot <= -4.5 {
      assert ((-(rot + 6.0)) / 1.5).Floor == -1;
    } else if -4.5 < rot <= -3.0 {
      assert ((-(rot + 6.0)) / 1.5).Floor == -2;
    } else if -3.0 < rot <= -1.5 {
      assert ((-(rot + 6.0)) / 1.5).Floor == -3;
    } else if -1.5 < rot < 0.0 {
      assert ((-(rot + 6.0)) / 1.5).Floor == -4;
    }
  }

  /** From a quarter the step is exactly one quarter turn, and four presses
      come back to the start. */
  lemma QuarterTurnCycle(rot: real)
    requires IsQuarter(rot)
    ensures RotateStep(rot) == (if rot == 4.5 then 0.0 else rot + 1.5)
    ensures EvenParity(RotateStep(rot)) <==> !EvenParity(rot)
    ensures RotateStep(RotateStep(RotateStep(RotateStep(rot)))) == rot
  {
  }

  /** The rotation gesture's start: the rotation and whether an aspect ratio
      is locked. */
  datatype RotationContext = RotationContext(rotate: real, aspect: bool)

  function RotationStart(v: View): (ctx: RotationContext)
    ensures ctx.rotate == v.rot && ctx.aspect == v.aspectLocked
  {
    RotationContext(v.rot, v.aspectLocked)
  }

  /** A move of the rotation gesture. The handler reports `rotation` in
      radians and the code adds it unconverted to `rot`, which counts in
      60-degree units; the sum is reduced with JavaScript's `% 6`. Without an
      aspect lock the crop window opens to the whole canvas. */
  function RotationActive(v: View, ctx: RotationContext, rotation: real): (r: View)
    ensures -6.0 < r.rot < 6.0
    // the shown angle is the requested one, up to whole turns
    ensures ((ctx.rotate + rotation - r.rot) / 6.0).Floor as real == (ctx.rotate + rotation - r.rot) / 6.0
    ensures -6.0 < ctx.rotate + rotation < 6.0 ==> r.rot == ctx.rotate + rotation
    ensures !ctx.aspect ==> r.top == 0.0 && r.bottom == 0.0 && r.left == 0.0 && r.right == 0.0
    ensures ctx.aspect ==> r.top == v.top && r.bottom == v.bottom && r.left == v.left && r.right == v.right
    ensures r == v.(rot := r.rot, top := r.top, bottom := r.bottom, left := r.left, right := r.right)
  {
    var rot := RemSix(ctx.rotate + rotation);
    if ctx.aspect then v.(rot := rot)
    else v.(rot := rot, top := 0.0, bottom := 0.0, left := 0.0, right := 0.0)
  }

  /** After any rotation gesture, one press of the button lands on a quarter
      again, and the window reopened by a free gesture is centred. */
  lemma GestureThenPress(v: View, ctx: RotationContext, rotation: real, observedRot: real)
    requires Measured(v) && !ctx.aspect
    ensures var g := RotationActive(v, ctx, rotation);
      && CenteredInsets(g)
      && IsQuarter(Rotate(g, observedRot).rot)
      && Rotate(g, observedRot).rot == QuarterAbove(g.rot)
  {
    RotateStepIsQuarterAbove(RotationActive(v, ctx, rotation).rot);
  }

  /** A negative exact quarter is not advanced: it is sent to the same angle
      written as a positive quarter, so the press turns nothing on screen. */
  lemma NegativeQuarterStays(rot: real)
    requires rot == -1.5 || rot == -3.0 || rot == -4.5
    ensures RotateStep(rot) == rot + 6.0
  {
  }

  /** The new image size and the (unclamped) centring insets. */
  datatype Layout = Layout(imgHeight: real, imgWidth: real, vertical: real, horizontal: real)

  /** The insets centre the image's extent at `scale` in the given parity. */
  predicate CentresExtent(l: Layout, scale: real, even: bool) {
    var e := Extent(l.imgHeight, l.imgWidth, scale, even);
    && l.vertical == (EditorHeight - e.height) / 2.0
    && l.horizontal == (EditorWidth - e.width) / 2.0
  }

  /** The one branch of the upright layout that centres the unturned extent:
      a landscape image narrower than the canvas's own aspect. */
  predicate NarrowLandscape(h: real, w: real)
    requires h > 0.0 && w > 0.0
  {
    h <= w && w / h < EditorWidth / EditorHeight
  }

  /** Layout after a press made from an upright (even) rotation: the image
      will be shown sideways. */
  function LayoutFromUpright(h: real, w: real, scale: real): (r: Layout)
    requires h > 0.0 && w > 0.0
    ensures r.imgHeight > 0.0 && r.imgWidth > 0.0
    ensures !NarrowLandscape(h, w) ==> CentresExtent(r, scale, false)
    ensures NarrowLandscape(h, w) ==> CentresExtent(r, scale, true)
  {
    if h > w then
      var width := w / (h / EditorWidth);
      Layout(EditorWidth, width, (EditorHeight - width * scale) / 2.0,
             (EditorWidth - EditorWidth * scale) / 2.0)
    else if w / h < EditorWidth / EditorHeight then
      var width := h * (h / w);
      Layout(EditorWidth, width, (EditorHeight - EditorWidth * scale) / 2.0,
             (EditorWidth - width * scale) / 2.0)
    else
      var height := h * (EditorHeight / w);
      Layout(height, EditorHeight, (EditorHeight - EditorHeight * scale) / 2.0,
             (EditorWidth - height * scale) / 2.0)
  }

  /** Layout after a press made from a sideways (odd or free) rotation: the
      image will be shown upright. */
  function LayoutFromSideways(h: real, w: real, scale: real): (r: Layout)
    requires h > 0.0 && w > 0.0
    ensures r.imgHeight > 0.0 && r.imgWidth > 0.0
    ensures CentresExtent(r, scale, true)
  {
    QuotientSign(h, w);
    QuotientSign(w, h);
    QuotientSign(EditorHeight, h);
    QuotientSign(w, EditorWidth);
    if h > w then
      if h / w < EditorHeight / EditorWidth then
        var height := h * (h / w);
        ProductSign(h, h / w);
        Layout(height, EditorWidth, (EditorHeight - height * scale) / 2.0,
               (EditorWidth - EditorWidth * scale) / 2.0)
      else
        var width := w * (EditorHeight / h);
        ProductSign(w, EditorHeight / h);
        Layout(EditorHeight, width, (EditorHeight - EditorHeight * scale) / 2.0,
               (EditorWidth - width * scale) / 2.0)
    else
      var height := h / (w / EditorWidth);
      QuotientSign(h, w / EditorWidth);
      Layout(height, EditorWidth, (EditorHeight - height * scale) / 2.0,
             (EditorWidth - EditorWidth * scale) / 2.0)
  }

  /** The layout the handler picks, by the parity of `observedRot`: the value
      the handler reads back from the rotation right after starting the
      spring towards the new quarter. The animation library decides whether
      that read yields the old value or the new target, so it is a parameter;
      the layouts are written for the old value. */
  function RotatedLayout(v: View, scale: real, observedRot: real): (r: Layout)
    requires Measured(v)
  {
    if EvenParity(observedRot) then LayoutFromUpright(v.imgHeight, v.imgWidth, scale)
    else LayoutFromSideways(v.imgHeight, v.imgWidth, scale)
  }

  /** Pressing the rotate button. An aspect lock first puts the scale back to
      1; the rotation snaps to the next quarter; the image gets its new size,
      the insets are centred and clamped at 0, and the translation is
      cleared. When the parity is read from the rotation before the press,
      the insets hug the image's extent at its new rotation. */
  function Rotate(v: View, observedRot: real): (r: View)
    requires Measured(v)
    ensures r.rot == RotateStep(v.rot) && IsQuarter(r.rot)
    ensures Measured(r) && CenteredInsets(r)
    ensures r.x == 0.0 && r.y == 0.0
    ensures r.scale == (if v.aspectLocked then 1.0 else v.scale)
    ensures r.aspectLocked == v.aspectLocked && r.cropMode == v.cropMode
    ensures observedRot == v.rot && IsQuarter(v.rot)
            && !(EvenParity(v.rot) && NarrowLandscape(v.imgHeight, v.imgWidth)) ==>
              InsetsFitExtent(r)
  {
    var scale := if v.aspectLocked then 1.0 else v.scale;
    var l := RotatedLayout(v, scale, observedRot);
    var r := v.(scale := scale, rot := RotateStep(v.rot),
                imgHeight := l.imgHeight, imgWidth := l.imgWidth,
                top := Max0(l.vertical), bottom := Max0(l.vertical),
                left := Max0(l.horizontal), right := Max0(l.horizontal),
                x := 0.0, y := 0.0);
    QuarterTurnCycleWhenQuarter(v.rot);
    r
  }

  lemma QuarterTurnCycleWhenQuarter(rot: real)
    ensures IsQuarter(rot) ==> (EvenParity(RotateStep(rot)) <==> !EvenParity(rot))
  {
  }

  /** The layout that centres the unturned extent only exists on a canvas
      wider than it is tall. */
  lemma NarrowLandscapeNeedsWideCanvas(h: real, w: real)
    requires h > 0.0 && w > 0.0
    requires NarrowLandscape(h, w)
    ensures EditorWidth > EditorHeight
  {
    QuotientAtLeastOne(w, h);
    QuotientAtLeastOne(EditorWidth, EditorHeight);
  }

  /** The sideways-to-upright branch for a portrait image taller than the
      canvas's own proportions. */
  predicate TallPortrait(h: real, w: real)
    requires h > 0.0 && w > 0.0
  {
    h > w && h / w < EditorHeight / EditorWidth
  }

  /** The turned image keeps the proportions of the one on screen, except in
      the narrow-landscape branch and in the tall-portrait branch from a
      sideways rotation, which keeps them exactly when the image height is
      the canvas width (the height an upright-to-sideways press produces). */
  lemma RotateKeepsAspect(v: View, observedRot: real)
    requires Measured(v)
    requires !(EvenParity(observedRot) && NarrowLandscape(v.imgHeight, v.imgWidth))
    ensures var r := Rotate(v, observedRot);
      var same := ImgResizer.SameAspect(Size(r.imgHeight, r.imgWidth), v.imgHeight, v.imgWidth);
      if !EvenParity(observedRot) && TallPortrait(v.imgHeight, v.imgWidth)
      then same <==> v.imgHeight == EditorWidth
      else same
  {
    var scale := if v.aspectLocked then 1.0 else v.scale;
    if EvenParity(observedRot) {
      UprightLayoutAspect(v.imgHeight, v.imgWidth, scale);
    } else {
      SidewaysLayoutAspect(v.imgHeight, v.imgWidth, scale);
    }
  }

  lemma UprightLayoutAspect(h: real, w: real, scale: real)
    requires h > 0.0 && w > 0.0 && !NarrowLandscape(h, w)
    ensures var l := LayoutFromUpright(h, w, scale);
      ImgResizer.SameAspect(Size(l.imgHeight, l.imgWidth), h, w)
  {
    if h > w {
      DivideByQuotient(w, h, EditorWidth);
    } else {
      MulQuotient(h, EditorHeight, w);
    }
  }

  lemma SidewaysLayoutAspect(h: real, w: real, scale: real)
    requires h > 0.0 && w > 0.0
    ensures var l := LayoutFromSideways(h, w, scale);
      var same := ImgResizer.SameAspect(Size(l.imgHeight, l.imgWidth), h, w);
      if TallPortrait(h, w) then same <==> h == EditorWidth else same
  {
    var l := LayoutFromSideways(h, w, scale);
    if TallPortrait(h, w) {
      assert l.imgHeight == h * (h / w) && l.imgWidth == EditorWidth;
      SquareOverWidth(h, w, l.imgHeight);
      SquareAspect(h, l.imgHeight * w, EditorWidth);
    } else if h > w {
      MulQuotient(w, EditorHeight, h);
    } else {
      DivideByQuotient(h, w, EditorWidth);
    }
  }

  /** `(a / (b / c)) * b == a * c` for positive `b`, `c`. */
  lemma DivideByQuotient(a: real, b: real, c: real)
    requires b > 0.0 && c > 0.0
    ensures (a / (b / c)) * b == a * c
  {
    assert a / (b / c) == a * c / b;
  }

  /** `(a * (c / b)) * b == a * c` for positive `b`. */
  lemma MulQuotient(a: real, c: real, b: real)
    requires b > 0.0
    ensures (a * (c / b)) * b == a * c
  {
  }

  /** `h * (h / w)` times `w` is `h * h`. */
  lemma SquareOverWidth(h: real, w: real, height: real)
    requires w > 0.0 && height == h * (h / w)
    ensures height * w == h * h
  {
  }

  /** A cross product equal to `h * h` matches `h * c` exactly when `h == c`. */
  lemma SquareAspect(h: real, cross: real, c: real)
    requires h > 0.0 && cross == h * h
    ensures cross == h * c <==> h == c
  {
    if cross == h * c {
      CancelPositive(h, c, h);
    }
  }
}
