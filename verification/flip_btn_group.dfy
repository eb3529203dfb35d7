/** The flip buttons. A button names a flip as the user sees it on screen;
    what it asks for is the negation of one of the image's two flip flags,
    chosen by the rotation recorded in the last editor snapshot. The phone
    and tablet layouts attach the same request to each button, so one
    function serves both. */
module FlipBtnGroup {
  import opened Common
  import opened Snapshots

  /** The two buttons (and the two flip flags of an image). */
  datatype FlipKind = Horizontal | Vertical

  /** The last editor snapshot of the list, if there is one. */
  function Last(es: seq<EditorSettings>): (r: Option<EditorSettings>)
    ensures |es| == 0 <==> r.None?
    ensures |es| > 0 ==> r == Some(es[|es| - 1])
  {
    if |es| == 0 then None else Some(es[|es| - 1])
  }

  /** The screen and the image agree on which flip is which: the last
      snapshot's rotation is 0 or 3. An empty list counts as not agreeing. */
  predicate Aligned(es: seq<EditorSettings>) {
    Last(es).Some? && (Last(es).value.rotate == 0.0 || Last(es).value.rotate == 3.0)
  }

  /** The flag a button request is sent with. Without a snapshot the flag
      read is undefined and its negation is `true`. */
  function Request(es: seq<EditorSettings>, button: FlipKind): (r: bool)
    ensures Last(es).None? ==> r
  {
    match Last(es)
    case None => true
    case Some(e) =>
      var aligned := Aligned(es);
      if button == Horizontal then
        (if aligned then !e.flip.horizontal else !e.flip.vertical)
      else
        (if aligned then !e.flip.vertical else !e.flip.horizontal)
  }

  /** The image flag a button acts on: its own one when the screen and the
      image are aligned, the other one otherwise. */
  function ImageFlag(button: FlipKind, aligned: bool): (k: FlipKind)
    ensures aligned ==> k == button
    ensures !aligned ==> k != button
  {
    if aligned then button
    else if button == Horizontal then Vertical else Horizontal
  }

  function FlagOf(f: Flip, k: FlipKind): bool {
    if k == Horizontal then f.horizontal else f.vertical
  }

  /** A button asks for the negation of the image flag it acts on. */
  lemma RequestNegatesImageFlag(es: seq<EditorSettings>, button: FlipKind)
    requires |es| > 0
    ensures Request(es, button) == !FlagOf(es[|es| - 1].flip, ImageFlag(button, Aligned(es)))
  {
  }

  /** The two buttons always read different flags of the last snapshot: at
      every rotation, between them they ask for the negation of both flags. */
  lemma ButtonsReadBothFlags(es: seq<EditorSettings>)
    requires |es| > 0
    ensures var f := es[|es| - 1].flip;
      && ImageFlag(Horizontal, Aligned(es)) != ImageFlag(Vertical, Aligned(es))
      && {Request(es, Horizontal), Request(es, Vertical)} == {!f.horizontal, !f.vertical}
  {
  }

  /** The request depends on the last snapshot only: not on the earlier ones,
      and not on which snapshot the history cursor points at. */
  lemma RequestReadsLastOnly(es: seq<EditorSettings>, other: seq<EditorSettings>, e: EditorSettings,
                             button: FlipKind)
    ensures Request(es + [e], button) == Request(other + [e], button)
    ensures Request(es + [e], button) == Request([e], button)
  {
    assert Last(es + [e]) == Some(e);
    assert Last(other + [e]) == Some(e);
    assert Last([e]) == Some(e);
  }

  /** Moving the last snapshot from an aligned rotation (0 or 3) to any other
      swaps the flag each button reads. */
  lemma RotationSwapsFlags(es: seq<EditorSettings>, rot: real, button: FlipKind)
    requires |es| > 0 && Aligned(es)
    requires rot != 0.0 && rot != 3.0
    ensures var turned := es[..|es| - 1] + [es[|es| - 1].(rotate := rot)];
      Request(turned, button) == !FlagOf(es[|es| - 1].flip, ImageFlag(button, false))
  {
    var turned := es[..|es| - 1] + [es[|es| - 1].(rotate := rot)];
    assert Last(turned) == Some(es[|es| - 1].(rotate := rot));
  }
}
