/** The pan gesture: moving the image under the crop window, bounded while
    cropping and springing back to the window's edges otherwise. */
module Pan {
  import opened Common
  import opened ViewState

  /** What the gesture records when it starts: the translation and whether
      crop mode was on. */
  datatype PanContext = PanContext(x: real, y: real, crop: bool)

  function PanStart(v: View): (ctx: PanContext)
    ensures ctx.x == v.x && ctx.y == v.y && ctx.crop == v.cropMode
  {
    PanContext(v.x, v.y, v.cropMode)
  }

  /** The pan's translation bounds as the code computes them. For a centred
      window they are the translations for which the image still covers it
      (`CentredBoundsCover`); when opposite insets differ, the code's range is
      the mirror image of the covering one. */
  datatype Bounds = Bounds(minX: real, maxX: real, minY: real, maxY: real)

  function PanBounds(v: View): (b: Bounds)
    // each range is as wide as the amount by which the image's extent
    // exceeds the crop window in that direction
    ensures b.maxX - b.minX == ViewExtent(v).width - (EditorWidth - v.left - v.right)
    ensures b.maxY - b.minY == ViewExtent(v).height - (EditorHeight - v.top - v.bottom)
    // a centred window gives a range centred on 0
    ensures v.left == v.right ==> b.minX == -b.maxX
    ensures v.top == v.bottom ==> b.minY == -b.maxY
  {
    var e := ViewExtent(v);
    Bounds((EditorWidth - e.width - v.left * 2.0) / 2.0,
           (e.width - EditorWidth + v.right * 2.0) / 2.0,
           (EditorHeight - 2.0 * v.top - e.height) / 2.0,
           (e.height - EditorHeight + 2.0 * v.bottom) / 2.0)
  }

  /** One axis of the free-mode spring-back: past the upper bound the value is
      sent to it; at or below the lower bound it is sent there instead. */
  function SpringBack(p: real, lo: real, hi: real): (r: real)
    ensures p <= lo ==> r == lo
    ensures lo < p && p >= hi ==> r == hi
    ensures lo < p < hi ==> r == p
    ensures lo <= hi ==> lo <= r <= hi
  {
    var afterHi := if p >= hi then hi else p;
    if p <= lo then lo else afterHi
  }

  /** One axis of the crop-mode move: taken only when it stays in bounds. */
  function Bounded(p: real, current: real, lo: real, hi: real): (r: real)
    ensures lo <= p <= hi ==> r == p
    ensures !(lo <= p <= hi) ==> r == current
    ensures lo <= current <= hi ==> lo <= r <= hi
  {
    if p >= lo && p <= hi then p else current
  }

  /** A move of the pan gesture by (tx, ty) from where it started. At a free
      (non-quarter) rotation the image follows the finger; otherwise crop
      mode only accepts in-bound positions and free mode springs back. */
  function PanActive(v: View, ctx: PanContext, tx: real, ty: real): (r: View)
    ensures r == v.(x := r.x, y := r.y)
    ensures !IsQuarter(v.rot) ==> r.x == ctx.x + tx && r.y == ctx.y + ty
    ensures IsQuarter(v.rot) && ctx.crop ==>
              var b := PanBounds(v);
              && (b.minX <= ctx.x + tx <= b.maxX ==> r.x == ctx.x + tx)
              && (!(b.minX <= ctx.x + tx <= b.maxX) ==> r.x == v.x)
              && (b.minY <= ctx.y + ty <= b.maxY ==> r.y == ctx.y + ty)
              && (!(b.minY <= ctx.y + ty <= b.maxY) ==> r.y == v.y)
    ensures IsQuarter(v.rot) && !ctx.crop ==>
              var b := PanBounds(v);
              && (b.minX <= b.maxX ==> b.minX <= r.x <= b.maxX)
              && (b.minY <= b.maxY ==> b.minY <= r.y <= b.maxY)
              && (b.minX < ctx.x + tx < b.maxX ==> r.x == ctx.x + tx)
              && (b.minY < ctx.y + ty < b.maxY ==> r.y == ctx.y + ty)
  {
    var x := ctx.x + tx;
    var y := ctx.y + ty;
    var b := PanBounds(v);
    if !IsQuarter(v.rot) then v.(x := x, y := y)
    else if ctx.crop then
      v.(x := Bounded(x, v.x, b.minX, b.maxX), y := Bounded(y, v.y, b.minY, b.maxY))
    else
      v.(x := SpringBack(x, b.minX, b.maxX), y := SpringBack(y, b.minY, b.maxY))
  }

  /** While cropping at a quarter rotation, a translation inside the bounds
      stays inside them, whatever the finger does. */
  lemma CropPanStaysInBounds(v: View, ctx: PanContext, tx: real, ty: real)
    requires IsQuarter(v.rot) && ctx.crop
    requires var b := PanBounds(v); b.minX <= v.x <= b.maxX && b.minY <= v.y <= b.maxY
    ensures var r := PanActive(v, ctx, tx, ty);
      var b := PanBounds(r);
      b.minX <= r.x <= b.maxX && b.minY <= r.y <= b.maxY
  {
    var r := PanActive(v, ctx, tx, ty);
    assert PanBounds(r) == PanBounds(v);
  }

  /** The horizontal range is non-empty exactly when the image's extent
      covers the crop window's width, and likewise vertically. */
  lemma PanRangeIffCovers(v: View)
    ensures PanBounds(v).minX <= PanBounds(v).maxX <==>
              ViewExtent(v).width >= EditorWidth - v.left - v.right
    ensures PanBounds(v).minY <= PanBounds(v).maxY <==>
              ViewExtent(v).height >= EditorHeight - v.top - v.bottom
  {
  }

  /** When the window hugs an image no larger than the canvas, the image has
      no room to move: both ranges shrink to the single point 0. */
  lemma HuggedImageCannotMove(v: View)
    requires InsetsFitExtent(v)
    requires ViewExtent(v).width <= EditorWidth && ViewExtent(v).height <= EditorHeight
    ensures PanBounds(v) == Bounds(0.0, 0.0, 0.0, 0.0)
  {
  }

  /** On a non-empty range the spring-back is the ordinary clamp; on an
      empty one it lands on the lower bound exactly when the finger is at or
      below it, and on the upper bound otherwise. */
  lemma SpringBackIsClamp(p: real, lo: real, hi: real)
    ensures lo <= hi ==> SpringBack(p, lo, hi) == Clamp(p, lo, hi)
    ensures lo > hi ==> SpringBack(p, lo, hi) == (if p <= lo then lo else hi)
  {
  }

  /** The image, centred on the canvas and moved by `x` horizontally, spans
      the crop window's width: its left edge is at or left of the window's,
      and its right edge at or right of it. */
  predicate CoversX(v: View, x: real) {
    var w := ViewExtent(v).width;
    (EditorWidth - w) / 2.0 + x <= v.left && (EditorWidth + w) / 2.0 + x >= EditorWidth - v.right
  }

  /** The same along the vertical axis. */
  predicate CoversY(v: View, y: real) {
    var h := ViewExtent(v).height;
    (EditorHeight - h) / 2.0 + y <= v.top && (EditorHeight + h) / 2.0 + y >= EditorHeight - v.bottom
  }

  /** For a window centred along an axis, a translation lies within the
      code's bounds on that axis exactly when the moved image covers the
      window along it. */
  lemma CentredBoundsCover(v: View, x: real, y: real)
    ensures v.left == v.right ==> (PanBounds(v).minX <= x <= PanBounds(v).maxX <==> CoversX(v, x))
    ensures v.top == v.bottom ==> (PanBounds(v).minY <= y <= PanBounds(v).maxY <==> CoversY(v, y))
  {
  }

  /** With unequal insets the code's range differs from the covering one:
      on a 100-wide canvas, a 100-wide image under a window with left inset
      10 and right inset 0 covers the window at every translation in
      [0, 10], but the code's range is [-10, 0]. */
  lemma OffCentreBoundsMirrored(v: View)
    requires EditorWidth == 100.0 && ViewExtent(v).width == 100.0
    requires v.left == 10.0 && v.right == 0.0
    ensures PanBounds(v).minX == -10.0 && PanBounds(v).maxX == 0.0
    ensures CoversX(v, 10.0) && !(10.0 <= PanBounds(v).maxX)
  {
  }
}
