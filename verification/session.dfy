/** The editor view's handlers over its whole state: the view geometry, the
    version history it shares with its parent, the selected tool and the
    selected aspect ratio. Loading an image's natural size is outside the
    model: each handler that re-fits an image receives that size. */
module EditorSession {
  import opened Common
  import opened ViewState
  import H = History
  import BtnGroup
  import Snapshots
  import AspectLock
  import CornerCrop
  import Pan

  datatype Session = Session(
    view: View,
    history: H.History,
    selected: BtnGroup.SelectedBtn,
    aspect: Option<Snapshots.AspectValue>,
    original: H.Uri)

  /** The history always has a version under its cursor, its first version
      is the image the editor was opened with, and the view is locked exactly
      while an aspect ratio is selected. */
  predicate Valid(s: Session) {
    && H.Valid(s.history)
    && s.history.cropImages[0] == s.original
    && |s.original| > 0
    && (s.aspect.Some? <==> s.view.aspectLocked)
  }

  /** Opening the editor: the original image is recorded as the only version
      and fitted to the canvas. */
  function Open(original: H.Uri, natural: Size): (s: Session)
    requires |original| > 0
    requires natural.height >= 0.0 && natural.width >= 0.0
    ensures Valid(s)
    ensures s.history.cropImages == [original] && s.history.counter == 0
    ensures s.view == Resize(Initial(), natural)
    ensures s.selected == BtnGroup.NoTool && s.aspect.None?
  {
    Session(Resize(Initial(), natural), H.Reset(original), BtnGroup.NoTool, None, original)
  }

  /** The URI the aspect-clearing step re-fits: the original image at the
      first version, the version under the cursor otherwise. */
  function ShownUri(s: Session): H.Uri
    requires H.Valid(s.history)
  {
    if s.history.counter == 0 then s.original else s.history.cropImages[s.history.counter]
  }

  /** In a valid session that is always the version under the cursor. */
  lemma ShownIsCurrent(s: Session)
    requires Valid(s)
    ensures ShownUri(s) == H.Current(s.history)
  {
  }

  /** Undo: when there is an earlier version, step back to it, put the view to
      rest and fit the earlier image (of natural size `natural`). */
  function OnUndo(s: Session, natural: Size): (r: Session)
    requires natural.height >= 0.0 && natural.width >= 0.0
    ensures r.history == H.Undo(s.history)
    ensures H.CanUndo(s.history) ==> r.view == Resize(Rest(s.view), natural)
    ensures !H.CanUndo(s.history) ==> r == s
    ensures Valid(s) ==> Valid(r)
  {
    if H.CanUndo(s.history) then s.(history := H.Undo(s.history), view := Resize(Rest(s.view), natural))
    else s
  }

  /** Redo: the mirror image of undo. */
  function OnRedo(s: Session, natural: Size): (r: Session)
    requires natural.height >= 0.0 && natural.width >= 0.0
    ensures r.history == H.Redo(s.history)
    ensures H.CanRedo(s.history) ==> r.view == Resize(Rest(s.view), natural)
    ensures !H.CanRedo(s.history) ==> r == s
    ensures Valid(s) ==> Valid(r)
  {
    if H.CanRedo(s.history) then s.(history := H.Redo(s.history), view := Resize(Rest(s.view), natural))
    else s
  }

  /** The aspect selection is set to none. When a ratio was selected, the
      effect that watches the selection puts the view to rest, re-fits the
      shown image (of natural size `natural`) and releases the lock; setting
      an empty selection again changes nothing, so no effect runs. */
  function OnAspectCleared(s: Session, natural: Size): (r: Session)
    requires natural.height >= 0.0 && natural.width >= 0.0
    ensures r.aspect.None?
    ensures r.history == s.history && r.selected == s.selected && r.original == s.original
    ensures s.aspect.Some? ==> r.view == AspectLock.AspectCleared(s.view, natural) && !r.view.aspectLocked
    ensures s.aspect.None? ==> r == s
    ensures Valid(s) ==> Valid(r) && !r.view.aspectLocked
  {
    if s.aspect.Some? then s.(aspect := None, view := AspectLock.AspectCleared(s.view, natural))
    else s
  }

  /** Re-fitting an image at rest a second time changes nothing. */
  lemma RefitIdempotent(v: View, natural: Size)
    requires natural.height >= 0.0 && natural.width >= 0.0
    ensures Resize(Rest(Resize(Rest(v), natural)), natural) == Resize(Rest(v), natural)
  {
  }

  /** Reset: the history starts again from the original image, the view is
      put to rest and re-fitted, and the aspect selection is dropped, which
      releases the lock. */
  function OnReset(s: Session, natural: Size): (r: Session)
    requires |s.original| > 0
    requires natural.height >= 0.0 && natural.width >= 0.0
    ensures r.history.cropImages == [s.original] && r.history.counter == 0
    ensures r.view == Resize(Rest(s.view), natural).(aspectLocked := r.view.aspectLocked)
    ensures r.aspect.None? && r.selected == s.selected && r.original == s.original
    ensures s.aspect.Some? ==> !r.view.aspectLocked
    ensures Valid(s) ==> Valid(r) && !r.view.aspectLocked
  {
    var reset := s.(history := H.Reset(s.original), view := Resize(Rest(s.view), natural));
    RefitIdempotent(s.view, natural);
    OnAspectCleared(reset, natural)
  }

  /** Prefix under which a captured picture is recorded. */
  const JpegDataPrefix: string := "data:image/jpeg;base64,"

  /** A capture of the crop window finished. A non-empty picture is recorded
      as a new version after the cursor and displayed, fitted, with the view
      put to rest; in every case the aspect selection is dropped, which
      releases the lock and re-fits the shown image. `natural` is the natural
      size of the image shown afterwards: the picture when there is one. */
  function OnCaptured(s: Session, picture: string, natural: Size): (r: Session)
    requires Valid(s)
    requires natural.height >= 0.0 && natural.width >= 0.0
    ensures Valid(r) && !r.view.aspectLocked
    ensures r.aspect.None? && r.selected == s.selected && r.original == s.original
    ensures |picture| == 0 ==> r.history == s.history
    ensures |picture| == 0 && s.aspect.None? ==> r == s
    ensures |picture| == 0 && s.aspect.Some? ==> r.view == AspectLock.AspectCleared(s.view, natural)
    ensures |picture| > 0 ==>
              && r.history == H.Commit(s.history, JpegDataPrefix + picture)
              && H.Current(r.history) == JpegDataPrefix + picture
              && r.view == Resize(Rest(s.view), natural).(aspectLocked := false)
  {
    if |picture| > 0 then
      RefitIdempotent(s.view, natural);
      OnAspectCleared(s.(history := H.Commit(s.history, JpegDataPrefix + picture),
                         view := Resize(Rest(s.view), natural)), natural)
    else OnAspectCleared(s, natural)
  }

  /** Pressing a tool button: the selection toggles and crop mode follows
      it. Leaving the crop tool drops the aspect selection, which releases
      the lock and re-fits the shown image (of natural size `natural`). */
  function OnPressTool(s: Session, name: BtnGroup.SelectedBtn, natural: Size): (r: Session)
    requires natural.height >= 0.0 && natural.width >= 0.0
    ensures r.selected == BtnGroup.PressTool(s.selected, name)
    ensures r.view.cropMode <==> r.selected == BtnGroup.Crop
    ensures r.selected == BtnGroup.Crop ==> r.aspect == s.aspect && r.view == SelectTool(s.view, r.selected)
    ensures r.selected != BtnGroup.Crop ==> r.aspect.None?
    ensures r.selected != BtnGroup.Crop && s.aspect.Some? ==>
              r.view == AspectLock.AspectCleared(SelectTool(s.view, r.selected), natural)
    ensures r.history == s.history && r.original == s.original
    ensures Valid(s) ==> Valid(r)
  {
    var selected := BtnGroup.PressTool(s.selected, name);
    var toggled := s.(selected := selected, view := SelectTool(s.view, selected));
    if selected == BtnGroup.Crop then toggled else OnAspectCleared(toggled, natural)
  }

  /** Choosing an aspect ratio in the menu. */
  function OnAspectSelected(s: Session, a: Snapshots.AspectValue): (r: Session)
    requires Measured(s.view) && AspectLock.ValidRatio(a)
    ensures r.aspect == Some(a) && r.view == AspectLock.AspectSelected(s.view, a)
    ensures r.view.aspectLocked
    ensures r.history == s.history
    ensures Valid(s) ==> Valid(r)
  {
    s.(aspect := Some(a), view := AspectLock.AspectSelected(s.view, a))
  }

  /** A corner-handle move; the handles do nothing while a ratio is selected. */
  function OnCornerMove(s: Session, c: CornerCrop.Corner, ctx: CornerCrop.CornerContext,
                        tx: real, ty: real): (r: Session)
    ensures s.aspect.Some? ==> r == s
    ensures s.aspect.None? ==> r == s.(view := CornerCrop.CornerActive(s.view, c, ctx, tx, ty))
    ensures Valid(s) ==> Valid(r)
  {
    if s.aspect.Some? then s else s.(view := CornerCrop.CornerActive(s.view, c, ctx, tx, ty))
  }

  /** With a ratio selected, no sequence of corner moves changes anything:
      the locked window keeps its shape. */
  lemma {:induction false} LockedWindowIgnoresCorners(s: Session, c: CornerCrop.Corner,
      ctx: CornerCrop.CornerContext, moves: seq<(real, real)>)
    requires s.aspect.Some?
    ensures CornerMoves(s, c, ctx, moves) == s
    decreases |moves|
  {
    if |moves| > 0 {
      LockedWindowIgnoresCorners(OnCornerMove(s, c, ctx, moves[0].0, moves[0].1), c, ctx, moves[1..]);
    }
  }

  /** The moves of one handle's gesture, in order: they touch only the view,
      and a valid session stays valid. */
  function CornerMoves(s: Session, c: CornerCrop.Corner, ctx: CornerCrop.CornerContext,
                       moves: seq<(real, real)>): (r: Session)
    ensures r == s.(view := r.view)
    ensures Valid(s) ==> Valid(r)
    decreases |moves|
  {
    if |moves| == 0 then s
    else CornerMoves(OnCornerMove(s, c, ctx, moves[0].0, moves[0].1), c, ctx, moves[1..])
  }

  /** A whole gesture of a corner handle: its moves, then, when the finger
      lifts, a capture of the crop window (`picture`, of natural size
      `natural`). While a ratio is selected the handle has no gesture handler
      at all, so nothing happens. */
  function OnCornerGesture(s: Session, c: CornerCrop.Corner, moves: seq<(real, real)>,
                           picture: string, natural: Size): (r: Session)
    requires Valid(s)
    requires natural.height >= 0.0 && natural.width >= 0.0
    ensures Valid(r)
    ensures s.aspect.Some? ==> r == s
    ensures s.aspect.None? && |picture| == 0 ==> r.history == s.history
    ensures s.aspect.None? && |picture| > 0 ==>
              && r.history == H.Commit(s.history, JpegDataPrefix + picture)
              && r.view.rot == 0.0 && r.view.scale == 1.0 && r.view.x == 0.0 && r.view.y == 0.0
  {
    if s.aspect.Some? then s
    else
      var moved := CornerMoves(s, c, CornerCrop.CornerStart(s.view, c), moves);
      OnCaptured(moved, picture, natural)
  }

  /** The end of a pan: when the gesture started in crop mode, the crop
      window is captured (`picture`, of natural size `natural`); otherwise
      nothing happens. */
  function OnPanEnd(s: Session, ctx: Pan.PanContext, picture: string, natural: Size): (r: Session)
    requires Valid(s)
    requires natural.height >= 0.0 && natural.width >= 0.0
    ensures Valid(r)
    ensures !ctx.crop ==> r == s
    ensures ctx.crop && |picture| > 0 ==> r.history == H.Commit(s.history, JpegDataPrefix + picture)
    ensures ctx.crop ==> r.aspect.None? && !r.view.aspectLocked
  {
    if ctx.crop then OnCaptured(s, picture, natural) else s
  }

  /** Capturing and then undoing returns to the version shown before the
      capture, and redoing shows the captured picture again. */
  lemma CaptureUndoRedo(s: Session, picture: string, n1: Size, n2: Size, n3: Size)
    requires Valid(s) && |picture| > 0
    requires n1.height >= 0.0 && n1.width >= 0.0 && n2.height >= 0.0 && n2.width >= 0.0
    requires n3.height >= 0.0 && n3.width >= 0.0
    ensures var c := OnCaptured(s, picture, n1);
      var u := OnUndo(c, n2);
      && H.Current(u.history) == H.Current(s.history)
      && H.Current(OnRedo(u, n3).history) == JpegDataPrefix + picture
  {
    var c := OnCaptured(s, picture, n1);
    assert H.CanUndo(c.history);
    var u := OnUndo(c, n2);
    assert u.history.counter == s.history.counter;
    assert u.history.cropImages[..s.history.counter + 1] == s.history.cropImages[..s.history.counter + 1];
    assert H.CanRedo(u.history);
  }
}
