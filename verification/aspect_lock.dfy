/** Locking the crop window to an aspect ratio: the window is shaped to the
    ratio and centred, and the image is zoomed so that it spans the window
    along one axis. Clearing the lock re-fits the current image. */
module AspectLock {
  import opened Common
  import opened ViewState
  import Snapshots
  import ImgResizer

  /** The (vertical, horizontal) inset pair of a locked window. */
  datatype Insets = Insets(vertical: real, horizontal: real)

  predicate ValidRatio(a: Snapshots.AspectValue) {
    a.x > 0.0 && a.y > 0.0
  }

  /** `(c / d) * d == c` for non-zero `d`. */
  lemma DivMul(c: real, d: real)
    requires d != 0.0
    ensures (c / d) * d == c
  {
  }

  /** The window for ratio x : y (width : height). A ratio wider than tall
      takes the full canvas width; any other takes the full canvas height. */
  function AspectInsets(a: Snapshots.AspectValue): (r: Insets)
    requires ValidRatio(a)
    // the window (canvas minus both insets) has the ratio x : y
    ensures (EditorWidth - 2.0 * r.horizontal) * a.y == (EditorHeight - 2.0 * r.vertical) * a.x
    ensures a.x > a.y ==> r.horizontal == 0.0
    ensures a.x <= a.y ==> r.vertical == 0.0
  {
    if a.x > a.y then
      var r := Insets((EditorHeight - (EditorWidth * a.y) / a.x) / 2.0, 0.0);
      DivMul(EditorWidth * a.y, a.x);
      r
    else
      var r := Insets(0.0, (EditorWidth - (EditorHeight * a.x) / a.y) / 2.0);
      DivMul(EditorHeight * a.x, a.y);
      r
  }

  /** The zoom chosen for the locked window, by image orientation, ratio
      orientation and rotation parity. Where the window's free side would
      leave a gap next to the image, the zoom makes the image span it;
      otherwise the image spans the canvas along the other axis, or keeps
      scale 1 when it already covers the window. */
  function AspectScale(v: View, a: Snapshots.AspectValue, ins: Insets): (r: real)
    requires Measured(v) && ValidRatio(a) && ins == AspectInsets(a)
    ensures r > 0.0
  {
    var h, w := v.imgHeight, v.imgWidth;
    var even := EvenParity(v.rot);
    AspectWindowPositive(a);
    if h > w then
      if a.x > a.y then ScalePortraitWide(h, w, even, ins.vertical, ins.horizontal)
      else ScalePortraitTall(h, w, even, ins.vertical, ins.horizontal)
    else
      if a.x > a.y then ScaleLandscapeWide(h, w, even, ins.vertical, ins.horizontal)
      else ScaleLandscapeTall(h, w, even, ins.vertical, ins.horizontal)
  }

  /** Portrait image, ratio wider than tall (the window spans the canvas width). */
  function ScalePortraitWide(h: real, w: real, even: bool, vertical: real, horizontal: real): (r: real)
    requires h > 0.0 && w > 0.0 && horizontal == 0.0 && EditorHeight - 2.0 * vertical > 0.0
    ensures r > 0.0
    ensures even ==> w * r == EditorWidth - 2.0 * horizontal
    ensures !even ==> w * r == EditorHeight - 2.0 * vertical
                      || (r == 1.0 && w >= EditorHeight - 2.0 * vertical)
  {
    QuotientSign(EditorWidth, w);
    QuotientSign(EditorHeight - 2.0 * vertical, w);
    DivMul(EditorWidth, w);
    DivMul(EditorHeight - 2.0 * vertical, w);
    if even then
      (if (EditorWidth - w) / 2.0 > horizontal then (EditorWidth - 2.0 * horizontal) / w
       else EditorWidth / w)
    else
      (if (EditorHeight - w) / 2.0 > vertical then (EditorHeight - 2.0 * vertical) / w
       else 1.0)
  }

  /** Portrait image, ratio at least as tall as wide (the window spans the
      canvas height). */
  function ScalePortraitTall(h: real, w: real, even: bool, vertical: real, horizontal: real): (r: real)
    requires h > 0.0 && w > 0.0 && vertical == 0.0 && EditorWidth - 2.0 * horizontal > 0.0
    ensures r > 0.0
    ensures even ==> w * r == EditorWidth - 2.0 * horizontal || h * r == EditorHeight - 2.0 * vertical
    ensures !even ==> w * r == EditorHeight - 2.0 * vertical
  {
    QuotientSign(EditorWidth - 2.0 * horizontal, w);
    QuotientSign(EditorHeight, h);
    QuotientSign(EditorHeight, w);
    DivMul(EditorWidth - 2.0 * horizontal, w);
    DivMul(EditorHeight, h);
    DivMul(EditorHeight, w);
    if even then
      (if (EditorWidth - w) / 2.0 > horizontal then (EditorWidth - 2.0 * horizontal) / w
       else EditorHeight / h)
    else EditorHeight / w
  }

  /** Landscape or square image, ratio wider than tall. */
  function ScaleLandscapeWide(h: real, w: real, even: bool, vertical: real, horizontal: real): (r: real)
    requires h > 0.0 && w > 0.0 && horizontal == 0.0 && EditorHeight - 2.0 * vertical > 0.0
    ensures r > 0.0
    ensures even ==> h * r == EditorHeight - 2.0 * vertical
                     || (r == 1.0 && h >= EditorHeight - 2.0 * vertical)
    ensures !even ==> h * r == EditorWidth - 2.0 * horizontal
  {
    QuotientSign(EditorHeight - 2.0 * vertical, h);
    QuotientSign(EditorWidth, h);
    DivMul(EditorHeight - 2.0 * vertical, h);
    DivMul(EditorWidth, h);
    if even then
      (if (EditorHeight - h) / 2.0 > vertical then (EditorHeight - 2.0 * vertical) / h
       else 1.0)
    else EditorWidth / h
  }

  /** Landscape or square image, ratio at least as tall as wide. */
  function ScaleLandscapeTall(h: real, w: real, even: bool, vertical: real, horizontal: real): (r: real)
    requires h > 0.0 && w > 0.0 && vertical == 0.0 && EditorWidth - 2.0 * horizontal > 0.0
    ensures r > 0.0
    ensures even ==> h * r == EditorHeight - 2.0 * vertical
    ensures !even ==> h * r == EditorWidth - 2.0 * horizontal
                      || (r == 1.0 && h >= EditorWidth - 2.0 * horizontal)
  {
    QuotientSign(EditorHeight, h);
    QuotientSign(EditorWidth - 2.0 * horizontal, h);
    DivMul(EditorHeight, h);
    DivMul(EditorWidth - 2.0 * horizontal, h);
    if even then EditorHeight / h
    else
      (if (EditorWidth - h) / 2.0 > horizontal then (EditorWidth - 2.0 * horizontal) / h
       else 1.0)
  }

  /** Both sides of a locked window are positive. */
  lemma AspectWindowPositive(a: Snapshots.AspectValue)
    requires ValidRatio(a)
    ensures EditorWidth - 2.0 * AspectInsets(a).horizontal > 0.0
    ensures EditorHeight - 2.0 * AspectInsets(a).vertical > 0.0
  {
    var r := AspectInsets(a);
    if a.x > a.y {
      QuotientSign(EditorWidth * a.y, a.x);
      ProductSign(EditorWidth, a.y);
      assert EditorHeight - 2.0 * r.vertical == (EditorWidth * a.y) / a.x;
    } else {
      QuotientSign(EditorHeight * a.x, a.y);
      ProductSign(EditorHeight, a.x);
      assert EditorWidth - 2.0 * r.horizontal == (EditorHeight * a.x) / a.y;
    }
  }

  /** An extent `e` at zoom `scale` against a window with the given top and
      left insets: it spans the window exactly along some axis, or the zoom
      is 1 and it already covers the window along some axis. */
  predicate FillsWindow(e: Size, scale: real, top: real, left: real) {
    || e.width == EditorWidth - 2.0 * left
    || e.height == EditorHeight - 2.0 * top
    || (scale == 1.0 && (e.width >= EditorWidth - 2.0 * left || e.height >= EditorHeight - 2.0 * top))
  }

  /** Selecting an aspect ratio: the window takes the ratio, centred, with
      the insets set as computed (they are not clamped); the zoom is chosen
      as above, the translation is cleared and the lock is on. */
  function AspectSelected(v: View, a: Snapshots.AspectValue): (r: View)
    requires Measured(v) && ValidRatio(a)
    ensures (EditorWidth - r.left - r.right) * a.y == (EditorHeight - r.top - r.bottom) * a.x
    ensures r.top == r.bottom && r.left == r.right
    ensures r.top == 0.0 || r.left == 0.0
    ensures r.x == 0.0 && r.y == 0.0
    ensures r.aspectLocked && r.scale > 0.0
    ensures r == v.(scale := r.scale, top := r.top, bottom := r.bottom, left := r.left,
                    right := r.right, x := 0.0, y := 0.0, aspectLocked := true)
  {
    var ins := AspectInsets(a);
    v.(scale := AspectScale(v, a, ins), aspectLocked := true,
       top := ins.vertical, bottom := ins.vertical,
       left := ins.horizontal, right := ins.horizontal,
       x := 0.0, y := 0.0)
  }

  /** After selecting a ratio the image spans the window along one axis, or
      keeps scale 1 because it already covers the window. */
  lemma AspectSelectedFillsWindow(v: View, a: Snapshots.AspectValue)
    requires Measured(v) && ValidRatio(a)
    ensures var r := AspectSelected(v, a);
      FillsWindow(ViewExtent(r), r.scale, r.top, r.left)
  {
    var r := AspectSelected(v, a);
    var ins := AspectInsets(a);
    var h, w, even := v.imgHeight, v.imgWidth, EvenParity(v.rot);
    AspectWindowPositive(a);
    assert ViewExtent(r) == Extent(h, w, r.scale, even);
    if h > w && a.x > a.y {
      FillsPortraitWide(h, w, even, ins.vertical, ins.horizontal);
    } else if h > w {
      FillsPortraitTall(h, w, even, ins.vertical, ins.horizontal);
    } else if a.x > a.y {
      FillsLandscapeWide(h, w, even, ins.vertical, ins.horizontal);
    } else {
      FillsLandscapeTall(h, w, even, ins.vertical, ins.horizontal);
    }
  }

  lemma FillsPortraitWide(h: real, w: real, even: bool, vertical: real, horizontal: real)
    requires h > 0.0 && w > 0.0 && horizontal == 0.0 && EditorHeight - 2.0 * vertical > 0.0
    ensures var s := ScalePortraitWide(h, w, even, vertical, horizontal);
      FillsWindow(Extent(h, w, s, even), s, vertical, horizontal)
  {
  }

  lemma FillsPortraitTall(h: real, w: real, even: bool, vertical: real, horizontal: real)
    requires h > 0.0 && w > 0.0 && vertical == 0.0 && EditorWidth - 2.0 * horizontal > 0.0
    ensures var s := ScalePortraitTall(h, w, even, vertical, horizontal);
      FillsWindow(Extent(h, w, s, even), s, vertical, horizontal)
  {
  }

  lemma FillsLandscapeWide(h: real, w: real, even: bool, vertical: real, horizontal: real)
    requires h > 0.0 && w > 0.0 && horizontal == 0.0 && EditorHeight - 2.0 * vertical > 0.0
    ensures var s := ScaleLandscapeWide(h, w, even, vertical, horizontal);
      FillsWindow(Extent(h, w, s, even), s, vertical, horizontal)
  {
  }

  lemma FillsLandscapeTall(h: real, w: real, even: bool, vertical: real, horizontal: real)
    requires h > 0.0 && w > 0.0 && vertical == 0.0 && EditorWidth - 2.0 * horizontal > 0.0
    ensures var s := ScaleLandscapeTall(h, w, even, vertical, horizontal);
      FillsWindow(Extent(h, w, s, even), s, vertical, horizontal)
  {
  }

  /** Clearing the lock: the view is put to rest and re-fitted to the image of
      the given natural size (the one on screen), and the lock is off. */
  function AspectCleared(v: View, natural: Size): (r: View)
    requires ImgResizer.ValidNatural(natural.height, natural.width)
    ensures !r.aspectLocked
    ensures r.rot == 0.0 && r.scale == 1.0 && r.x == 0.0 && r.y == 0.0
    ensures r == Resize(Rest(v), natural).(aspectLocked := false)
  {
    Resize(Rest(v), natural).(aspectLocked := false)
  }
}
