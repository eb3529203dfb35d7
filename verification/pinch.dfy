/** The pinch gesture: zooming the image, with the crop window following the
    image when free and held in place (with a lower bound on the zoom) while
    an aspect ratio is locked. */
module Pinch {
  import opened Common
  import opened ViewState
  import Pan

  /** Lower and upper bound of a free zoom (both excluded). */
  const MinFreeScale: real := 0.3
  const MaxScale: real := 10.0
  /** A zoom-out by more than this, over one gesture, re-centres the image. */
  const RecentreDrop: real := 0.3

  /** What the gesture records when it starts. The bottom and right insets are
      stored negated but are never read again. */
  datatype PinchContext = PinchContext(
    scale: real,
    t: real, b: real, l: real, r: real,
    rotate: real,
    aspect: bool)

  function PinchStart(v: View): (ctx: PinchContext)
    ensures ctx.scale == v.scale && ctx.t == v.top && ctx.l == v.left
    ensures ctx.b <= 0.0 && (ctx.b == -v.bottom || ctx.b == v.bottom)
    ensures ctx.r <= 0.0 && (ctx.r == -v.right || ctx.r == v.right)
    ensures ctx.rotate == v.rot && ctx.aspect == v.aspectLocked
  {
    PinchContext(v.scale, v.top, if v.bottom > 0.0 then -v.bottom else v.bottom,
                 v.left, if v.right > 0.0 then -v.right else v.right,
                 v.rot, v.aspectLocked)
  }

  /** The scale the fingers ask for: the start scale plus the gesture's
      relative change. */
  function Requested(ctx: PinchContext, eventScale: real): real {
    ctx.scale + (eventScale - 1.0)
  }

  /** The side of the image that must keep covering the canvas while an
      aspect ratio is locked: its width when the window is taller than wide
      (top inset above left inset), its height otherwise. */
  function LockedSide(v: View, ctx: PinchContext): (r: real)
    ensures r == (if ctx.t > ctx.l then ViewExtent(v.(scale := 1.0)).width
                  else ViewExtent(v.(scale := 1.0)).height)
  {
    var even := EvenParity(v.rot);
    if ctx.t > ctx.l then (if even then v.imgWidth else v.imgHeight)
    else (if even then v.imgHeight else v.imgWidth)
  }

  /** The canvas dimension the locked side is compared with. */
  function LockedTarget(ctx: PinchContext): real {
    if ctx.t > ctx.l then EditorWidth else EditorHeight
  }

  /** `s >= target / side` as the source evaluates it: dividing by a zero side
      gives +Infinity, which no finite scale reaches. */
  predicate AtLeastQuotient(s: real, target: real, side: real) {
    side != 0.0 && s >= target / side
  }

  /** Whether a locked pinch accepts the requested scale. */
  predicate LockedAccepts(v: View, ctx: PinchContext, s: real) {
    AtLeastQuotient(s, LockedTarget(ctx), LockedSide(v, ctx)) && s <= MaxScale
  }

  /** The scale after a pinch step. */
  function PinchScale(v: View, ctx: PinchContext, eventScale: real): (r: real)
    ensures var s := Requested(ctx, eventScale);
      if !ctx.aspect then
        (MinFreeScale < s < MaxScale ==> r == s) && (!(MinFreeScale < s < MaxScale) ==> r == v.scale)
      else
        (LockedAccepts(v, ctx, s) ==> r == s) && (!LockedAccepts(v, ctx, s) ==> r == v.scale)
  {
    var s := Requested(ctx, eventScale);
    if !ctx.aspect then (if s > MinFreeScale && s < MaxScale then s else v.scale)
    else if LockedAccepts(v, ctx, s) then s
    else v.scale
  }

  /** A pinch step. Free: the scale is taken inside (0.3, 10) and the window
      is re-centred on the image's new extent (the parity read from the
      rotation at the start), or opened fully at a free rotation. Locked: the
      window stays where it was at the start. Insets are clamped at 0. */
  function PinchActive(v: View, ctx: PinchContext, eventScale: real): (r: View)
    ensures r == v.(scale := r.scale, top := r.top, bottom := r.bottom,
                    left := r.left, right := r.right)
    ensures r.scale == PinchScale(v, ctx, eventScale)
    ensures CenteredInsets(r)
    ensures !ctx.aspect && !IsQuarter(v.rot) ==> r.top == 0.0 && r.left == 0.0
    ensures !ctx.aspect && ctx.rotate == v.rot && IsQuarter(v.rot) ==> InsetsFitExtent(r)
    ensures ctx.aspect ==> r.top == Max0(ctx.t) && r.left == Max0(ctx.l)
  {
    var scale := PinchScale(v, ctx, eventScale);
    var insets: (real, real) :=
      if ctx.aspect then (ctx.t, ctx.l)
      else if !IsQuarter(v.rot) then (0.0, 0.0)
      else
        var e := Extent(v.imgHeight, v.imgWidth, scale, EvenParity(ctx.rotate));
        ((EditorHeight - e.height) / 2.0, (EditorWidth - e.width) / 2.0);
    v.(scale := scale, top := Max0(insets.0), bottom := Max0(insets.0),
       left := Max0(insets.1), right := Max0(insets.1))
  }

  /** Free zooming keeps the scale inside (0.3, 10) once it is there. */
  lemma FreeScaleStaysInRange(v: View, ctx: PinchContext, eventScale: real)
    requires !ctx.aspect
    requires MinFreeScale < v.scale < MaxScale
    ensures MinFreeScale < PinchActive(v, ctx, eventScale).scale < MaxScale
  {
  }

  /** No pinch step takes the scale above 10 from at or below it. */
  lemma ScaleNeverExceedsMax(v: View, ctx: PinchContext, eventScale: real)
    requires v.scale <= MaxScale
    ensures PinchActive(v, ctx, eventScale).scale <= MaxScale
  {
  }

  /** With the aspect locked, the image keeps covering the canvas along the
      locked side: if it did before the step, it does after. */
  lemma LockedKeepsCover(v: View, ctx: PinchContext, eventScale: real)
    requires ctx.aspect && Measured(v)
    requires v.scale * LockedSide(v, ctx) >= LockedTarget(ctx)
    ensures var r := PinchActive(v, ctx, eventScale);
      r.scale * LockedSide(r, ctx) >= LockedTarget(ctx)
  {
    var r := PinchActive(v, ctx, eventScale);
    var s := Requested(ctx, eventScale);
    assert LockedSide(r, ctx) == LockedSide(v, ctx);
    if LockedAccepts(v, ctx, s) {
      QuotientBound(s, LockedTarget(ctx), LockedSide(v, ctx));
    }
  }

  /** `s >= t / d` with `d > 0` gives `s * d >= t`. */
  lemma QuotientBound(s: real, t: real, d: real)
    requires d > 0.0 && s >= t / d
    ensures s * d >= t
  {
    MulLeft(d, t / d, s);
  }

  /** Ending the gesture: a zoom-out by more than 0.3 since the start sends
      the image back to the centre; otherwise nothing moves. */
  function PinchEnd(v: View, ctx: PinchContext): (r: View)
    ensures ctx.scale - v.scale > RecentreDrop ==> r == v.(x := 0.0, y := 0.0)
    ensures ctx.scale - v.scale <= RecentreDrop ==> r == v
  {
    if ctx.scale - v.scale > RecentreDrop then v.(x := 0.0, y := 0.0) else v
  }

  /** What the re-centring is for: when the window is centred and the image's
      extent still covers it on both axes, the re-centred image lies inside
      the pan's bounds and covers the window, so a crop-mode pan that
      follows starts in bounds. */
  lemma PinchEndLandsInBounds(v: View, ctx: PinchContext)
    requires ctx.scale - v.scale > RecentreDrop
    requires v.left == v.right && v.top == v.bottom
    requires ViewExtent(v).width >= EditorWidth - v.left - v.right
    requires ViewExtent(v).height >= EditorHeight - v.top - v.bottom
    ensures var r := PinchEnd(v, ctx);
      var b := Pan.PanBounds(r);
      && b.minX <= r.x <= b.maxX && b.minY <= r.y <= b.maxY
      && Pan.CoversX(r, r.x) && Pan.CoversY(r, r.y)
  {
    var r := PinchEnd(v, ctx);
    assert ViewExtent(r) == ViewExtent(v);
    Pan.PanRangeIffCovers(r);
    Pan.CentredBoundsCover(r, r.x, r.y);
  }
}
