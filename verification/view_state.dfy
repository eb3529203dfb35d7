/** The live geometry of the editor view — translation, scale, rotation, the
    four crop insets and the displayed image size — and the steps that
    re-fit it or put it back to rest. */
module ViewState {
  import opened Common
  import ImgResizer
  import BtnGroup

  /** The editor view's animated values, each at the target of its animation.
      `rot` counts in units of 60 degrees, so 1.5 is a quarter turn. */
  datatype View = View(
    x: real, y: real,
    scale: real,
    rot: real,
    top: real, bottom: real, left: real, right: real,
    imgHeight: real, imgWidth: real,
    aspectLocked: bool,
    cropMode: bool)

  /** The values the view starts with before any image is measured. */
  function Initial(): (r: View)
    ensures r.scale == 1.0 && r.rot == 0.0 && r.x == 0.0 && r.y == 0.0
    ensures r.top == 0.0 && r.bottom == 0.0 && r.left == 0.0 && r.right == 0.0
    ensures r.imgHeight == 0.0 && r.imgWidth == 0.0
    ensures !r.aspectLocked && !r.cropMode
  {
    View(0.0, 0.0, 1.0, 0.0, 0.0, 0.0, 0.0, 0.0, 0.0, 0.0, false, false)
  }

  /** One of the four rest positions of the rotate button. */
  predicate IsQuarter(rot: real) {
    rot == 0.0 || rot == 1.5 || rot == 3.0 || rot == 4.5
  }

  /** Upright or upside down: the image's height runs vertically. */
  predicate EvenParity(rot: real) {
    rot == 0.0 || rot == 3.0
  }

  /** The image has been measured and displayed. */
  predicate Measured(v: View) {
    v.imgHeight > 0.0 && v.imgWidth > 0.0
  }

  /** The crop window is centred: opposite insets agree and none is negative. */
  predicate CenteredInsets(v: View) {
    v.top == v.bottom && v.left == v.right && v.top >= 0.0 && v.left >= 0.0
  }

  /** The on-screen (vertical, horizontal) extent of an image of size
      (imgHeight, imgWidth) at `scale`: a quarter turn swaps the roles. */
  function Extent(imgHeight: real, imgWidth: real, scale: real, even: bool): (r: Size)
    ensures even ==> r.height == imgHeight * scale && r.width == imgWidth * scale
    ensures !even ==> r.height == imgWidth * scale && r.width == imgHeight * scale
  {
    if even then Size(imgHeight * scale, imgWidth * scale)
    else Size(imgWidth * scale, imgHeight * scale)
  }

  /** The view's own extent, at its current rotation and scale. */
  function ViewExtent(v: View): Size {
    Extent(v.imgHeight, v.imgWidth, v.scale, EvenParity(v.rot))
  }

  /** The crop window hugs the image: each inset is half of what the canvas
      leaves around the image's extent, or 0 where the image overflows. */
  predicate InsetsFitExtent(v: View) {
    var e := ViewExtent(v);
    && v.top == Max0((EditorHeight - e.height) / 2.0) && v.bottom == v.top
    && v.left == Max0((EditorWidth - e.width) / 2.0) && v.right == v.left
  }

  /** The editor canvas as the fit calculator's measure box. */
  function Canvas(): (r: Size)
    ensures ImgResizer.ValidMeasure(r)
  {
    Size(EditorHeight, EditorWidth)
  }

  /** Putting the view to rest: upright, unit scale, centred; the insets, the
      image size and the modes stay as they are. */
  function Rest(v: View): (r: View)
    ensures r.rot == 0.0 && r.scale == 1.0 && r.x == 0.0 && r.y == 0.0
    ensures r.top == v.top && r.bottom == v.bottom && r.left == v.left && r.right == v.right
    ensures r.imgHeight == v.imgHeight && r.imgWidth == v.imgWidth
    ensures r.aspectLocked == v.aspectLocked && r.cropMode == v.cropMode
  {
    v.(rot := 0.0, scale := 1.0, x := 0.0, y := 0.0)
  }

  /** Displaying an image of the given natural size: fit it to the canvas and
      centre the crop window on it. A fit with a zero side leaves the view
      unchanged. */
  function Resize(v: View, natural: Size): (r: View)
    requires ImgResizer.ValidNatural(natural.height, natural.width)
    ensures var fit := ImgResizer.Fit(natural.height, natural.width, Canvas());
      if fit.height != 0.0 && fit.width != 0.0 then
        && r.imgHeight == fit.height && r.imgWidth == fit.width
        && ImgResizer.SameAspect(Size(r.imgHeight, r.imgWidth), natural.height, natural.width)
        && r.top == r.bottom && r.left == r.right
        && r.top + r.bottom + r.imgHeight == EditorHeight
        && r.left + r.right + r.imgWidth == EditorWidth
        && r == v.(imgHeight := r.imgHeight, imgWidth := r.imgWidth,
                   top := r.top, bottom := r.bottom, left := r.left, right := r.right)
      else r == v
  {
    var size := ImgResizer.Fit(natural.height, natural.width, Canvas());
    if size.height != 0.0 && size.width != 0.0 then
      var vertical := (EditorHeight - size.height) / 2.0;
      var horizontal := (EditorWidth - size.width) / 2.0;
      v.(imgHeight := size.height, imgWidth := size.width,
         top := vertical, bottom := vertical, left := horizontal, right := horizontal)
    else
      v
  }

  /** A positive natural size always yields a measured view; a portrait image
      (outside the boundary case of exactly the canvas height, which is kept
      as it is) also gets non-negative, centred insets. */
  lemma ResizeMeasures(v: View, natural: Size)
    requires natural.height > 0.0 && natural.width > 0.0
    ensures Measured(Resize(v, natural))
    ensures natural.height > natural.width && natural.height != EditorHeight ==>
              CenteredInsets(Resize(v, natural))
  {
    ImgResizer.FitPositive(natural.height, natural.width, Canvas());
    if natural.height > natural.width && natural.height != EditorHeight {
      ImgResizer.FitPortraitContained(natural.height, natural.width, Canvas());
    }
  }

  /** Choosing a tool turns crop mode on exactly for the crop tool. */
  function SelectTool(v: View, selected: BtnGroup.SelectedBtn): (r: View)
    ensures r.cropMode <==> selected == BtnGroup.Crop
    ensures r == v.(cropMode := r.cropMode)
  {
    v.(cropMode := selected == BtnGroup.Crop)
  }
}
