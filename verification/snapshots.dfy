/** The two snapshot records kept per history step — the backend settings
    (crop box in natural-pixel space) and the editor settings (the live
    transform) — and the constructors that build their first entries. */
module Snapshots {
  import opened Common

  /** Backend snapshot: natural size, crop box, offset, rotation, border. */
  datatype Settings = Settings(
    height: real, width: real,
    boxHeight: real, boxWidth: real,
    x: real, y: real,
    rotate: real,
    border: string)

  /** The ratio an aspect lock keeps, `x : y` (width : height). */
  datatype AspectValue = AspectValue(x: real, y: real)
  /** An entry of the aspect menu. */
  datatype Aspect = Aspect(id: int, name: string, value: AspectValue)
  datatype Border = Border(color: string, width: real)
  datatype Flip = Flip(horizontal: bool, vertical: bool)

  /** Editor snapshot: the transform as the editor view renders it. */
  datatype EditorSettings = EditorSettings(
    aspect: Option<Aspect>,
    minScale: real,
    proportion: real,
    top: real, bottom: real, left: real, right: real,
    scale: real,
    rotate: real,
    x: real, y: real,
    border: Option<Border>,
    flip: Flip)

  /** What the editor needs from fitting an image: its displayed size, the
      viewport-to-natural proportion and the centring insets. */
  datatype FitResult = FitResult(height: real, width: real, proportion: real, vertical: real, horizontal: real)

  /** A backend snapshot that crops nothing: the box is the whole unrotated,
      unbordered image. */
  predicate IsIdentityCrop(s: Settings) {
    && s.boxHeight == s.height && s.boxWidth == s.width
    && s.x == 0.0 && s.y == 0.0
    && s.rotate == 0.0
    && s.border == ""
  }

  /** An editor snapshot with no transform applied: unit scale, no rotation,
      no translation, no aspect lock, no border, no flip. */
  predicate IsUntransformed(e: EditorSettings) {
    && e.scale == 1.0 && e.minScale == 1.0
    && e.rotate == 0.0
    && e.x == 0.0 && e.y == 0.0
    && e.aspect.None? && e.border.None?
    && !e.flip.horizontal && !e.flip.vertical
  }

  /** First backend entry of a fresh image, from its measured size; an image
      whose size is not known yet gets a zero-sized box. */
  function DefaultSettings(imagesSize: map<int, Size>, index: int): (r: Settings)
    ensures IsIdentityCrop(r)
    ensures index in imagesSize ==>
              r.height == imagesSize[index].height && r.width == imagesSize[index].width
    ensures index !in imagesSize ==>
              r.height == 0.0 && r.width == 0.0 && r.boxHeight == 0.0 && r.boxWidth == 0.0
  {
    var height := if index in imagesSize then imagesSize[index].height else 0.0;
    var width := if index in imagesSize then imagesSize[index].width else 0.0;
    Settings(height, width, height, width, 0.0, 0.0, 0.0, "")
  }

  /** The two backend entries of a restored image: an identity crop of the same
      natural size, then the restored settings themselves. */
  function SettingsPair(settings: Settings): (r: seq<Settings>)
    ensures |r| == 2
    ensures IsIdentityCrop(r[0])
    ensures r[0].height == settings.height && r[0].width == settings.width
    ensures r[1] == settings
  {
    [ Settings(settings.height, settings.width, settings.height, settings.width, 0.0, 0.0, 0.0, ""),
      Settings(settings.height, settings.width, settings.boxHeight, settings.boxWidth,
               settings.x, settings.y, settings.rotate, settings.border) ]
  }

  /** First editor entry of an image: the fitted image, centred, untransformed. */
  function DefaultEditorSettings(img: FitResult): (r: EditorSettings)
    ensures IsUntransformed(r)
    ensures r.top == img.vertical && r.bottom == img.vertical
    ensures r.left == img.horizontal && r.right == img.horizontal
    ensures r.proportion == img.proportion
  {
    EditorSettings(
      None,
      1.0,
      img.proportion,
      img.vertical, img.vertical, img.horizontal, img.horizontal,
      1.0,
      0.0,
      0.0, 0.0,
      None,
      Flip(false, false))
  }

  /** A field-by-field copy of an editor snapshot. */
  function CopyEditorSettings(e: EditorSettings): (r: EditorSettings)
    ensures r == e
  {
    EditorSettings(e.aspect, e.minScale, e.proportion, e.top, e.bottom, e.left, e.right,
                   e.scale, e.rotate, e.x, e.y, e.border, e.flip)
  }

  /** The first entry of a restored pair is what a fresh session would have
      built for an image of that size. */
  lemma SettingsPairStartsFresh(settings: Settings, imagesSize: map<int, Size>, index: int)
    requires index in imagesSize
    requires imagesSize[index] == Size(settings.height, settings.width)
    ensures SettingsPair(settings)[0] == DefaultSettings(imagesSize, index)
  {
  }

  /** Copying is idempotent: copying a copy changes nothing more. */
  lemma CopyIdempotent(e: EditorSettings)
    ensures CopyEditorSettings(CopyEditorSettings(e)) == CopyEditorSettings(e)
  {
  }
}
