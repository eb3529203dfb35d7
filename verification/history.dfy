/** The editor view's linear undo/redo timeline: the list of image versions
    (`cropImages`) and a cursor (`counter`) on the one shown. */
module History {
  import BtnGroup

  /** Image versions are identified by their URI. */
  type Uri = string

  datatype History = History(cropImages: seq<Uri>, counter: nat)

  /** The cursor points at an existing version. */
  predicate Valid(h: History) {
    h.counter < |h.cropImages|
  }

  function Min(a: nat, b: nat): nat {
    if a <= b then a else b
  }

  /** `cropImages.slice(0, counter + 1)`: the versions up to and including the
      cursor, clipped to the list as JavaScript's slice clips. */
  function KeptPrefix(h: History): (r: seq<Uri>)
    ensures |r| == Min(h.counter + 1, |h.cropImages|)
    ensures forall i :: 0 <= i < |r| ==> r[i] == h.cropImages[i]
    ensures Valid(h) ==> |r| == h.counter + 1
  {
    h.cropImages[..Min(h.counter + 1, |h.cropImages|)]
  }

  /** The effect that records a new version: everything after the cursor is
      dropped and the new version goes right after the cursor. An empty URI
      records nothing. The cursor itself is moved by the caller. */
  function Append(h: History, image: Uri): (r: History)
    ensures |image| == 0 ==> r == h
    ensures |image| > 0 ==>
              && r.counter == h.counter
              && |r.cropImages| == |KeptPrefix(h)| + 1
              && r.cropImages[..|r.cropImages| - 1] == KeptPrefix(h)
              && r.cropImages[|r.cropImages| - 1] == image
  {
    if |image| > 0 then History(KeptPrefix(h) + [image], h.counter) else h
  }

  /** A committed edit: the new version is appended after the cursor and the
      cursor moves onto it. */
  function Commit(h: History, image: Uri): (r: History)
    requires Valid(h) && |image| > 0
    ensures Valid(r)
    ensures r.counter == h.counter + 1 == |r.cropImages| - 1
    ensures r.cropImages[..h.counter + 1] == h.cropImages[..h.counter + 1]
    ensures Current(r) == image
    ensures !CanRedo(r)
  {
    var a := Append(h, image);
    History(a.cropImages, h.counter + 1)
  }

  /** The same edit when the cursor update is applied before the append
      reads the cursor (the two state updates batched into one render): the
      append then keeps one more entry than the old cursor. */
  function CommitBatched(h: History, image: Uri): (r: History)
    requires Valid(h) && |image| > 0
    ensures r.counter == h.counter + 1
    ensures r == Append(h.(counter := h.counter + 1), image).(counter := h.counter + 1)
  {
    var a := Append(h.(counter := h.counter + 1), image);
    History(a.cropImages, h.counter + 1)
  }

  /** Both orders agree when there is nothing to redo; otherwise the batched
      order keeps the first redo entry, puts the new version after it and
      leaves the cursor on that stale entry. */
  lemma CommitOrders(h: History, image: Uri)
    requires Valid(h) && |image| > 0
    ensures !CanRedo(h) ==> CommitBatched(h, image) == Commit(h, image)
    ensures CanRedo(h) ==>
              var b := CommitBatched(h, image);
              && b.cropImages == h.cropImages[..h.counter + 2] + [image]
              && Valid(b) && Current(b) == h.cropImages[h.counter + 1]
  {
    if !CanRedo(h) {
      assert h.cropImages[..h.counter + 1] == h.cropImages;
    }
  }

  /** The version on screen. */
  function Current(h: History): Uri
    requires Valid(h)
  {
    h.cropImages[h.counter]
  }

  predicate CanUndo(h: History) {
    h.counter > 0
  }

  predicate CanRedo(h: History) {
    h.counter < |h.cropImages| - 1
  }

  /** Step back one version, if there is one. */
  function Undo(h: History): (r: History)
    ensures r.cropImages == h.cropImages
    ensures CanUndo(h) ==> r.counter == h.counter - 1
    ensures !CanUndo(h) ==> r == h
    ensures Valid(h) ==> Valid(r)
  {
    if h.counter > 0 then h.(counter := h.counter - 1) else h
  }

  /** Step forward one version, if there is one. */
  function Redo(h: History): (r: History)
    ensures r.cropImages == h.cropImages
    ensures CanRedo(h) ==> r.counter == h.counter + 1
    ensures !CanRedo(h) ==> r == h
    ensures Valid(h) ==> Valid(r)
  {
    if h.counter < |h.cropImages| - 1 then h.(counter := h.counter + 1) else h
  }

  /** Reset: the list is emptied, the cursor goes to 0, and the original image
      is recorded again as the only version. */
  function Reset(image: Uri): (r: History)
    requires |image| > 0
    ensures Valid(r) && r.counter == 0 && r.cropImages == [image]
    ensures !CanUndo(r) && !CanRedo(r)
  {
    Append(History([], 0), image)
  }

  /** Undo and redo are inverse steps wherever they move the cursor. */
  lemma UndoThenRedo(h: History)
    requires Valid(h) && CanUndo(h)
    ensures Redo(Undo(h)) == h
  {
  }

  lemma RedoThenUndo(h: History)
    requires Valid(h) && CanRedo(h)
    ensures Undo(Redo(h)) == h
  {
  }

  /** Committing several edits in a row keeps the versions up to the old
      cursor, then lists the new ones in order, with the cursor on the last. */
  function CommitAll(h: History, images: seq<Uri>): (r: History)
    requires Valid(h)
    requires forall i :: 0 <= i < |images| ==> |images[i]| > 0
    ensures Valid(r)
    decreases |images|
  {
    if |images| == 0 then h
    else CommitAll(Commit(h, images[0]), images[1..])
  }

  lemma {:induction false} CommitAllShape(h: History, images: seq<Uri>)
    requires Valid(h)
    requires forall i :: 0 <= i < |images| ==> |images[i]| > 0
    ensures |images| > 0 ==>
              CommitAll(h, images).cropImages == h.cropImages[..h.counter + 1] + images
    ensures CommitAll(h, images).counter == h.counter + |images|
    decreases |images|
  {
    if |images| > 0 {
      var h1 := Commit(h, images[0]);
      CommitAllShape(h1, images[1..]);
      assert h1.cropImages == h.cropImages[..h.counter + 1] + [images[0]];
      if |images| > 1 {
        assert h1.cropImages[..h1.counter + 1] == h1.cropImages;
        assert [images[0]] + images[1..] == images;
      } else {
        assert images == [images[0]];
      }
    }
  }

  /** Undo `n` times. */
  function UndoN(h: History, n: nat): (r: History)
    ensures r.cropImages == h.cropImages
    ensures Valid(h) ==> Valid(r)
    decreases n
  {
    if n == 0 then h else UndoN(Undo(h), n - 1)
  }

  /** Redo `n` times. */
  function RedoN(h: History, n: nat): (r: History)
    ensures r.cropImages == h.cropImages
    ensures Valid(h) ==> Valid(r)
    decreases n
  {
    if n == 0 then h else RedoN(Redo(h), n - 1)
  }

  lemma {:induction false} UndoNMovesBack(h: History, n: nat)
    requires n <= h.counter
    ensures UndoN(h, n) == h.(counter := h.counter - n)
    decreases n
  {
    if n > 0 {
      UndoNMovesBack(Undo(h), n - 1);
    }
  }

  lemma {:induction false} RedoNMovesForward(h: History, n: nat)
    requires h.counter + n < |h.cropImages|
    ensures RedoN(h, n) == h.(counter := h.counter + n)
    decreases n
  {
    if n > 0 {
      RedoNMovesForward(Redo(h), n - 1);
    }
  }

  /** After committing `images`, undoing all of them returns to the version
      shown before, and redoing `j` of them shows the `j`-th committed version:
      the timeline replays the commits in order. */
  lemma ReplayCommits(h: History, images: seq<Uri>, j: nat)
    requires Valid(h)
    requires forall i :: 0 <= i < |images| ==> |images[i]| > 0
    requires j <= |images|
    ensures var back := UndoN(CommitAll(h, images), |images|);
      && Valid(back)
      && Current(back) == Current(h)
      && Current(RedoN(back, j)) == (if j == 0 then Current(h) else images[j - 1])
  {
    var c := CommitAll(h, images);
    CommitAllShape(h, images);
    UndoNMovesBack(c, |images|);
    var back := UndoN(c, |images|);
    assert back.counter == h.counter;
    RedoNMovesForward(back, j);
    if |images| == 0 {
      assert c == h;
    }
  }

  /** Fed a history's own cursor and version count, the tool bar's disabled
      predicates match the handlers exactly: a button is disabled precisely
      when pressing it would leave that history as it is. Which history the
      tool bar is actually fed is up to its parent. */
  lemma RedoButtonMatchesHandler(h: History)
    requires Valid(h)
    ensures BtnGroup.RedoDisabled(h.counter, |h.cropImages|) <==> Redo(h) == h
  {
  }

  lemma UndoButtonMatchesHandler(h: History)
    requires Valid(h)
    ensures BtnGroup.UndoDisabled(h.counter, |h.cropImages|) <==> Undo(h) == h
  {
  }
}
