# Photo editor geometry and history, in Dafny

This project models the numeric core of a React Native photo-editing widget
as pure functions over exact reals.

- **Fit calculator.** `imgResizer` scales an image's natural size into a
  measure box.
- **Snapshot records.** These are the backend settings and editor settings an
  image history is made of. The model covers how the first entries are built
  and copied.
- **Editor view reducers.** Each handler of the editor view becomes a function
  from state to state: the rotate button, the pan, pinch and rotation
  gestures, the four corner handles of the crop window, aspect-ratio locking,
  and the version history (a list of image URIs with a cursor, with append,
  undo, redo and reset).
- **Multi-image editor.** It builds one history per image, fresh or restored
  from saved settings. It also computes the loading progress and the export
  that picks each image's snapshot at its cursor.
- **UI decision rules.** These are the tool toggle and the undo/redo enablement,
  the flag each flip button asks for, and the slider's position-to-value
  mapping.

Animations are replaced by the value they animate to. `EDITOR_WIDTH`,
`EDITOR_HEIGHT` and `SIZE_INSIDE_CROP_ITEMS` come from a constants file that
is not part of this model, so they are positive constants of unknown value.
`Math.round(v)` is `Floor(v + 0.5)`. JavaScript's `%` is written out with
truncation toward zero.

Modules follow the source files:

| module | file |
|---|---|
| `Common` | shared numeric helpers and constants |
| `ImgResizer` | `src/utils/imgResizer.ts` |
| `Snapshots` | `src/utils/functions.ts` |
| `BtnGroup` | `src/components/molecules/BtnGroup/index.tsx` |
| `ViewState`, `History`, `Rotation`, `Pan`, `Pinch`, `CornerCrop`, `AspectLock`, `EditorSession` | `src/components/molecules/EditorView/index.tsx` |
| `Editor` | `src/components/organizm/Editor/index.tsx` |
| `FlipBtnGroup` | `src/components/molecules/FlipBtnGroup/index.tsx` |
| `Slider` | `src/components/atoms/Slider/index.tsx` |

Behaviour of the code worth knowing when reading the model:

- A free pinch accepts a zoom strictly between 0.3 and 10. A locked pinch
  accepts a zoom that keeps the locked side covering the canvas, up to 10.
- A free pinch re-centres the crop window on the image; a locked pinch
  restores the insets recorded at the gesture's start.
- The corner handles are disabled while an aspect ratio is selected.
- A pan is bounded only in crop mode and only at a quarter rotation; in free
  mode at a quarter rotation the image springs back to its bounds during the
  move, and at any other rotation it follows the finger.
- Each rotate press re-derives the image size from the displayed one. Two of
  its branches do not keep the image's proportions (see
  `Rotation.RotateKeepsAspect`).

## Model

| member | source | states |
|---|---|---|
| Common.Max0 | src/components/molecules/EditorView/index.tsx:274-277 | an inset clamp is non-negative, at least its argument, and either the argument or 0 |
| Common.Clamp | src/components/atoms/Slider/index.tsx:50-56 | the slider's clamp stays in `[lo, hi]`, keeps values inside, and sends values below to `lo` and values above to `hi` |
| Common.Round | src/components/atoms/Slider/index.tsx:57 | `Math.round` gives an integer within half a unit of its argument, with halves rounded up |
| Common.RemSix | src/components/molecules/EditorView/index.tsx:472 | JavaScript's `% 6` keeps the dividend's sign, has magnitude below 6, leaves values in (-6, 6) alone, and differs from the dividend by whole turns |
| ImgResizer.Fit | src/utils/imgResizer.ts:6-38 | the fitted size has the natural size's proportions in every branch, including the fall-through |
| ImgResizer.FitSquare | src/utils/imgResizer.ts:31-36 | a square image fits to a square of the chosen side |
| ImgResizer.FitPortraitOversized | src/utils/imgResizer.ts:7-14 | a portrait image taller than the box is shrunk inside the box, touching one of its sides, with proportions kept |
| ImgResizer.FitPortraitUndersized | src/utils/imgResizer.ts:15-22 | a portrait image shorter than the box is grown inside the box, touching one of its sides, with proportions kept |
| ImgResizer.FitLandscapeOversized | src/utils/imgResizer.ts:23-26 | a landscape image wider than the box gets exactly the box width, with proportions kept |
| ImgResizer.FitLandscapeUndersized | src/utils/imgResizer.ts:27-30 | a landscape image narrower than the box gets exactly the box width, with proportions kept |
| ImgResizer.FitPortraitContained | src/utils/imgResizer.ts:7-22 | a portrait image (height not the box height) fits within the box and touches one of its sides |
| ImgResizer.FitLandscapeFullWidth | src/utils/imgResizer.ts:23-30 | a landscape image (width not the box width) gets exactly the box width |
| ImgResizer.FitSquareSide | src/utils/imgResizer.ts:31-36 | a square image takes the box width in a tall box and the box height in a wide box |
| ImgResizer.FitBoundaryUnchanged | src/utils/imgResizer.ts:37 | at the boundaries (height equals the box height, width equals the box width, square in a square box) the size is returned unchanged |
| ImgResizer.FitPositive | src/utils/imgResizer.ts:7-37 | a positive natural size yields a positive fitted size |
| ImgResizer.FitMeetsSpec | src/utils/imgResizer.ts:7-37 | the fit satisfies an independent description: proportions kept, plus per-case containment, full width or side |
| ImgResizer.FitSpecUnique | src/utils/imgResizer.ts:7-37 | that description has exactly one solution, so the fit is determined by it |
| ImgResizer.LandscapeMayOverflow | src/utils/imgResizer.ts:23-30 | a landscape fit can be taller than the box (9x10 in 600x800 becomes 720x800) |
| Snapshots.DefaultSettings | src/utils/functions.ts:6-18 | the first backend entry is an identity crop of the measured size, or of size 0 when none is known |
| Snapshots.SettingsPair | src/utils/functions.ts:20-41 | a restored image gets two backend entries: an identity crop of the same natural size, then the saved entry unchanged |
| Snapshots.DefaultEditorSettings | src/utils/functions.ts:43-66 | the first editor entry is untransformed (unit scale, no rotation, translation, aspect, border or flip) with insets and proportion from the fit |
| Snapshots.CopyEditorSettings | src/utils/functions.ts:68-84 | the field-by-field copy is the identity |
| Snapshots.SettingsPairStartsFresh | src/utils/functions.ts:6-41 | the first restored entry equals the default entry for the same measured size |
| Snapshots.CopyIdempotent | src/utils/functions.ts:68-84 | copying twice is copying once |
| BtnGroup.PressTool | src/components/molecules/BtnGroup/index.tsx:72-78 | pressing the selected tool clears the selection and pressing another selects it |
| BtnGroup.RedoDisabled | src/components/molecules/BtnGroup/index.tsx:121-128 | redo is disabled when the settings list it is given is empty, and, for a cursor on an entry, exactly when no entry follows it; the length is that of `imageSettings`, not of the view's version list |
| BtnGroup.UndoDisabled | src/components/molecules/BtnGroup/index.tsx:135-140 | undo is disabled when the settings list it is given is empty, and, for a cursor on an entry, exactly when no entry precedes it; the length is that of `imageSettings` |
| BtnGroup.PressTwiceDeselects | src/components/molecules/BtnGroup/index.tsx:72-78 | from no selection, two presses of a tool select it and then clear it |
| BtnGroup.PressTwiceToggles | src/components/molecules/BtnGroup/index.tsx:72-78 | two presses of the same tool always give different selections, ending on that tool or on none |
| ViewState.Initial | src/components/molecules/EditorView/index.tsx:90-101 | the shared values start at unit scale, with no rotation, translation, insets or image size, unlocked and not cropping |
| ViewState.Extent | src/components/molecules/EditorView/index.tsx:303-312 | the on-screen extent is the scaled image, with its sides swapped at a sideways rotation |
| ViewState.Rest | src/components/molecules/EditorView/index.tsx:149-158 | the reset puts rotation, scale and translation to rest and keeps insets and image size |
| ViewState.Resize | src/components/molecules/EditorView/index.tsx:118-144 | a fitted image with non-zero sides is shown at its fit, proportions kept, with the window centred on it; a zero-sided fit changes nothing |
| ViewState.ResizeMeasures | src/components/molecules/EditorView/index.tsx:118-144 | a positive natural size gives a measured view, and a portrait image gets non-negative centred insets |
| ViewState.SelectTool | src/components/molecules/EditorView/index.tsx:651-658 | crop mode is on exactly when the crop tool is selected, and nothing else changes |
| History.KeptPrefix | src/components/molecules/EditorView/index.tsx:646 | the slice up to the cursor keeps the first `counter + 1` versions, or all of them when there are fewer |
| History.Append | src/components/molecules/EditorView/index.tsx:644-649 | a non-empty image drops the versions after the cursor and is added last; an empty one changes nothing |
| History.Commit | src/components/molecules/EditorView/index.tsx:644-649 | committing keeps the history valid and the versions up to the cursor; the new image becomes current and last, so there is nothing to redo |
| History.CommitBatched | src/components/molecules/EditorView/index.tsx:644-649 | when the cursor moves before the append runs, the cursor advances by one over the append's result |
| History.CommitOrders | src/components/molecules/EditorView/index.tsx:189-199 | both orders agree when nothing can be redone; otherwise the batched order keeps one stale version and shows it instead of the new image |
| History.Undo | src/components/molecules/EditorView/index.tsx:168-174 | undo moves the cursor back by one when it can and otherwise does nothing; it never changes the versions and keeps the history valid |
| History.Redo | src/components/molecules/EditorView/index.tsx:160-166 | redo moves the cursor forward by one when it can and otherwise does nothing; it never changes the versions and keeps the history valid |
| History.Reset | src/components/molecules/EditorView/index.tsx:176-184 | reset leaves the original image as the only version, with nothing to undo or redo |
| History.UndoThenRedo | src/components/molecules/EditorView/index.tsx:160-174 | redo undoes an undo |
| History.RedoThenUndo | src/components/molecules/EditorView/index.tsx:160-174 | undo undoes a redo |
| History.CommitAll | src/components/molecules/EditorView/index.tsx:644-649 | any sequence of commits keeps the history valid |
| History.CommitAllShape | src/components/molecules/EditorView/index.tsx:644-649 | after N commits the history is the kept prefix followed by the N images in order, with the cursor on the last one |
| History.UndoN | src/components/molecules/EditorView/index.tsx:168-174 | repeated undos never change the versions and keep the history valid |
| History.RedoN | src/components/molecules/EditorView/index.tsx:160-166 | repeated redos never change the versions and keep the history valid |
| History.UndoNMovesBack | src/components/molecules/EditorView/index.tsx:168-174 | N undos from a cursor of at least N move it back by exactly N |
| History.RedoNMovesForward | src/components/molecules/EditorView/index.tsx:160-166 | N redos with N versions ahead move the cursor forward by exactly N |
| History.ReplayCommits | src/components/molecules/EditorView/index.tsx:160-174 | after N commits, N undos return to the version shown before, and j redos from there show the j-th committed image |
| History.RedoButtonMatchesHandler | src/components/molecules/BtnGroup/index.tsx:121-128 | fed a history's own cursor and version count, the redo button's disabled test holds exactly when the redo handler would leave that history alone |
| History.UndoButtonMatchesHandler | src/components/molecules/BtnGroup/index.tsx:135-140 | fed a history's own cursor and version count, the undo button's disabled test holds exactly when the undo handler would leave that history alone |
| Rotation.RotateStep | src/components/molecules/EditorView/index.tsx:209-226 | a press always lands on one of the quarters 0, 1.5, 3, 4.5 |
| Rotation.RotateStepIsQuarterAbove | src/components/molecules/EditorView/index.tsx:209-226 | the four range tests agree with an independent rule: the smallest quarter strictly above the angle, taken modulo a full turn |
| Rotation.QuarterTurnCycle | src/components/molecules/EditorView/index.tsx:209-226 | from a quarter a press advances by one quarter and flips the parity, and four presses come back to the start |
| Rotation.NegativeQuarterStays | src/components/molecules/EditorView/index.tsx:209-226 | a negative exact quarter is sent to the same angle written positively, so it does not turn |
| Rotation.RotationStart | src/components/molecules/EditorView/index.tsx:467-470 | the rotation gesture records the rotation and the lock |
| Rotation.RotationActive | src/components/molecules/EditorView/index.tsx:471-479 | the gesture's angle is start plus rotation modulo 6 (JavaScript's remainder); free, the window opens fully; locked, it is kept |
| Rotation.GestureThenPress | src/components/molecules/EditorView/index.tsx:463-483 | after any free rotation gesture the window is centred, and one press lands on the next quarter above |
| Rotation.LayoutFromUpright | src/components/molecules/EditorView/index.tsx:229-250 | from an upright rotation the new insets centre the sideways extent, except for the narrow-landscape branch, which centres the upright one |
| Rotation.LayoutFromSideways | src/components/molecules/EditorView/index.tsx:251-273 | from a sideways rotation the new insets centre the upright extent |
| Rotation.Rotate | src/components/molecules/EditorView/index.tsx:205-286 | a press snaps to the next quarter, leaves a measured image with centred non-negative insets, clears the translation and, when locked, the zoom; with the parity read before the press, the window hugs the new extent |
| Rotation.NarrowLandscapeNeedsWideCanvas | src/components/molecules/EditorView/index.tsx:237-243 | the branch that centres the unturned extent can only be taken on a canvas wider than tall |
| Rotation.RotateKeepsAspect | src/components/molecules/EditorView/index.tsx:229-273 | the turned image keeps its proportions, except in the tall-portrait branch from sideways, which keeps them exactly when the height equals the canvas width |
| Rotation.UprightLayoutAspect | src/components/molecules/EditorView/index.tsx:229-250 | the upright-to-sideways branches keep the proportions, apart from the narrow-landscape one |
| Rotation.SidewaysLayoutAspect | src/components/molecules/EditorView/index.tsx:251-273 | the sideways-to-upright branches keep the proportions; the tall-portrait branch does so exactly when the height equals the canvas width |
| Pan.PanStart | src/components/molecules/EditorView/index.tsx:292-297 | the pan records the translation and the crop mode |
| Pan.PanBounds | src/components/molecules/EditorView/index.tsx:303-314 | each range is as wide as the extent's overhang over the window, and a centred window gives a range symmetric about 0 |
| Pan.Bounded | src/components/molecules/EditorView/index.tsx:327-333 | in crop mode a coordinate is taken only inside its bounds, so an in-bounds coordinate stays in bounds |
| Pan.SpringBack | src/components/molecules/EditorView/index.tsx:334-352 | in free mode a coordinate at or past a bound goes to that bound (the lower one winning), so a non-empty range always holds it |
| Pan.PanActive | src/components/molecules/EditorView/index.tsx:298-353 | the move changes only the translation: it follows the finger at a free rotation, is bounded in crop mode and springs back otherwise |
| Pan.CropPanStaysInBounds | src/components/molecules/EditorView/index.tsx:316-333 | while cropping at a quarter, an in-bounds translation stays in bounds whatever the finger does |
| Pan.PanRangeIffCovers | src/components/molecules/EditorView/index.tsx:303-314 | a range is non-empty exactly when the image's extent covers the window along that axis |
| Pan.HuggedImageCannotMove | src/components/molecules/EditorView/index.tsx:303-314 | when the window hugs an image no larger than the canvas, both ranges are the single point 0 |
| Pan.CentredBoundsCover | src/components/molecules/EditorView/index.tsx:303-314 | for a window centred along an axis, a translation is within the code's bounds exactly when the moved image covers the window along that axis |
| Pan.OffCentreBoundsMirrored | src/components/molecules/EditorView/index.tsx:307-308 | with unequal left and right insets the code's range is the mirror image of the covering one (a 100-wide image under insets 10 and 0 covers at [0, 10], the code allows [-10, 0]) |
| Pan.SpringBackIsClamp | src/components/molecules/EditorView/index.tsx:334-352 | spring-back is the clamp into the range when it is non-empty |
| Pinch.PinchStart | src/components/molecules/EditorView/index.tsx:381-389 | the pinch records scale, top and left insets, rotation and lock; the bottom and right are stored non-positive |
| Pinch.LockedSide | src/components/molecules/EditorView/index.tsx:418-437 | a locked pinch watches the unscaled extent's width when the window is taller than wide, and its height otherwise |
| Pinch.PinchScale | src/components/molecules/EditorView/index.tsx:391-437 | the requested zoom is taken strictly inside (0.3, 10) when free, and between the covering zoom and 10 when locked; otherwise the zoom is kept |
| Pinch.PinchActive | src/components/molecules/EditorView/index.tsx:390-444 | a pinch changes only zoom and insets; insets stay centred and non-negative, open fully at a free rotation, hug the extent when the rotation is unchanged, and keep the start values when locked |
| Pinch.FreeScaleStaysInRange | src/components/molecules/EditorView/index.tsx:394-397 | a free zoom inside (0.3, 10) stays inside it |
| Pinch.ScaleNeverExceedsMax | src/components/molecules/EditorView/index.tsx:390-437 | no pinch takes the zoom above 10 |
| Pinch.LockedKeepsCover | src/components/molecules/EditorView/index.tsx:415-437 | with the aspect locked, an image covering the canvas along the locked side keeps covering it |
| Pinch.PinchEnd | src/components/molecules/EditorView/index.tsx:445-456 | a zoom-out by more than 0.3 since the start re-centres the image, and nothing moves otherwise |
| Pinch.PinchEndLandsInBounds | src/components/molecules/EditorView/index.tsx:445-456 | after a zoom-out that re-centres, a centred window still covered by the image leaves the image inside the pan's bounds and covering the window, so a following crop-mode pan starts in bounds |
| CornerCrop.CornerStart | src/components/molecules/EditorView/index.tsx:493-496 | a handle records the vertical and horizontal insets of its corner |
| CornerCrop.DragInset | src/components/molecules/EditorView/index.tsx:499-505 | a dragged inset is taken only when it is at least its start value and leaves room for the handles |
| CornerCrop.CornerActive | src/components/molecules/EditorView/index.tsx:497-519 | a handle moves only its own two insets; a moved inset is at least its start value and leaves room for the handles |
| CornerCrop.CornerStepInvariant | src/components/molecules/EditorView/index.tsx:497-519 | a drag step keeps the room for the handles and never moves an inset below its start |
| CornerCrop.CornerGesture | src/components/molecules/EditorView/index.tsx:497-519 | the drag moves of a gesture (each handler's `onActive`; the capture at its end is `EditorSession.OnCornerGesture`) change only the insets |
| CornerCrop.CornerGestureInvariant | src/components/molecules/EditorView/index.tsx:493-519 | over the drag moves of any handle, from the insets recorded at the start (the same `onStart`/`onActive` pattern repeats at 528-554, 563-589 and 598-624), the window only shrinks from the start, keeps room for the handles, and the other corner's insets never change |
| CornerCrop.GestureInvariantFrom | src/components/molecules/EditorView/index.tsx:497-519 | the same drag-move invariant from any intermediate state of the gesture |
| AspectLock.AspectInsets | src/components/molecules/EditorView/index.tsx:667-731 | the locked window has the ratio x : y, and the inset of the axis the ratio fills is 0 |
| AspectLock.AspectWindowPositive | src/components/molecules/EditorView/index.tsx:667-731 | the locked window has positive width and height |
| AspectLock.AspectScale | src/components/molecules/EditorView/index.tsx:667-745 | the zoom chosen for the lock is positive |
| AspectLock.ScalePortraitWide | src/components/molecules/EditorView/index.tsx:668-690 | for a portrait image and a wide ratio, the image spans the window along the axis its width lies on |
| AspectLock.ScalePortraitTall | src/components/molecules/EditorView/index.tsx:691-708 | for a portrait image and a tall ratio, the image spans the window's width or the canvas height upright, and the window height sideways |
| AspectLock.ScaleLandscapeWide | src/components/molecules/EditorView/index.tsx:710-726 | for a landscape image and a wide ratio, the image's height spans the window along its axis |
| AspectLock.ScaleLandscapeTall | src/components/molecules/EditorView/index.tsx:727-745 | for a landscape image and a tall ratio, the image's height spans the window along its axis |
| AspectLock.AspectSelected | src/components/molecules/EditorView/index.tsx:660-757 | selecting a ratio gives a centred window of that ratio with one inset 0, clears the translation, locks, picks a positive zoom and changes nothing else |
| AspectLock.AspectSelectedFillsWindow | src/components/molecules/EditorView/index.tsx:667-745 | after selecting a ratio, the image spans the window along one axis, or keeps zoom 1 because it already covers it |
| AspectLock.AspectCleared | src/components/molecules/EditorView/index.tsx:758-762 | clearing the ratio unlocks, puts the view to rest and re-fits the shown image |
| EditorSession.Open | src/components/molecules/EditorView/index.tsx:639-649 | opening records the original as the only version, fits it, and starts with no tool or aspect |
| EditorSession.ShownIsCurrent | src/components/molecules/EditorView/index.tsx:760 | the image the aspect clearing re-fits is always the version under the cursor |
| EditorSession.OnUndo | src/components/molecules/EditorView/index.tsx:168-174 | undo steps the history back and re-fits the earlier image at rest, or changes nothing at the first version; it keeps the session valid |
| EditorSession.OnRedo | src/components/molecules/EditorView/index.tsx:160-166 | redo steps the history forward and re-fits the later image at rest, or changes nothing at the last version; it keeps the session valid |
| EditorSession.OnReset | src/components/molecules/EditorView/index.tsx:176-184 | reset leaves only the original version, re-fits it at rest and drops the aspect; dropping a selected aspect releases the lock (the effect at 758-762), and a valid session stays valid |
| EditorSession.OnCaptured | src/components/molecules/EditorView/index.tsx:186-202 | a non-empty capture is committed as a JPEG data URI, shown and re-fitted at rest; in every case the aspect is dropped, the lock released through the effect at 758-762, and the session stays valid |
| EditorSession.OnPressTool | src/components/molecules/EditorView/index.tsx:651-658 | crop mode follows the selected tool; leaving the crop tool drops the aspect, and a dropped selection releases the lock and re-fits the shown image (758-762), so a valid session stays valid |
| EditorSession.OnAspectSelected | src/components/molecules/EditorView/index.tsx:660-757 | selecting a ratio locks the view to it and leaves the history alone |
| EditorSession.OnAspectCleared | src/components/molecules/EditorView/index.tsx:758-762 | clearing a selected ratio unlocks and re-fits the view and leaves the history alone; clearing an empty selection changes nothing |
| EditorSession.OnCornerMove | src/components/molecules/EditorView/index.tsx:765-786 | the corner handles do nothing while a ratio is selected |
| EditorSession.CornerMoves | src/components/molecules/EditorView/index.tsx:497-519 | a handle's moves change only the view, and keep a valid session valid |
| EditorSession.OnCornerGesture | src/components/molecules/EditorView/index.tsx:488-522 | a whole handle gesture, its moves then the capture at its end (the `onEnd` at 520-522 and its three copies), keeps the session valid, commits a non-empty capture and leaves the view at rest; with a ratio selected nothing happens (765-786) |
| EditorSession.OnPanEnd | src/components/molecules/EditorView/index.tsx:354-357 | the end of a pan captures exactly when the gesture started in crop mode, committing a non-empty picture and releasing any lock |
| EditorSession.LockedWindowIgnoresCorners | src/components/molecules/EditorView/index.tsx:765-786 | with a ratio selected, no sequence of corner moves changes the session |
| EditorSession.CaptureUndoRedo | src/components/molecules/EditorView/index.tsx:160-202 | capturing then undoing shows the version from before the capture, and redoing shows the capture again |
| Editor.FreshConfig | src/components/organizm/Editor/index.tsx:203-209 | a fresh image has cursor 0, one default backend entry and one untransformed editor entry |
| Editor.RestoredConfig | src/components/organizm/Editor/index.tsx:210-223 | a restored image has cursor 1, the two backend entries of the saved settings, and an untransformed editor entry followed by the saved one |
| Editor.InitImages | src/components/organizm/Editor/index.tsx:183-230 | nothing is built until ready; a fresh session builds every image, a restored one exactly the images with both saved parts; every history is well formed |
| Editor.KeysBelow | src/components/organizm/Editor/index.tsx:160 | the listed keys are keys of the state below the image count |
| Editor.KeysBelowOrdered | src/components/organizm/Editor/index.tsx:160 | every key below the count is listed, in increasing order |
| Editor.KeysBelowFull | src/components/organizm/Editor/index.tsx:160 | with every index present, the keys are 0, 1, ..., n-1 |
| Editor.Pick | src/components/organizm/Editor/index.tsx:162-165 | an index inside the list picks its entry, and one outside picks nothing |
| Editor.Export | src/components/organizm/Editor/index.tsx:158-169 | the export has one entry per key, in key order, with the backend and editor snapshots under that image's cursor |
| Editor.ExportComplete | src/components/organizm/Editor/index.tsx:158-169 | every exported entry of well-formed histories has both parts |
| Editor.FreshExport | src/components/organizm/Editor/index.tsx:158-209 | exporting a fresh session gives, image by image, the default backend entry and an untransformed editor entry |
| Editor.RestoredExport | src/components/organizm/Editor/index.tsx:158-223 | exporting a restored session gives back exactly the saved settings of the complete entries, in index order |
| Editor.Progress | src/components/organizm/Editor/index.tsx:244-248 | the progress is finite exactly when there are images, `NaN` for no images and no sizes; a finite one lies in [0, 100] and is 100 exactly when every size is known |
| Editor.FreshSessionFinishesLoading | src/components/organizm/Editor/index.tsx:232-242 | once every size is known, a fresh session finishes loading |
| FlipBtnGroup.Last | src/components/molecules/FlipBtnGroup/index.tsx:36-37 | the last snapshot is absent exactly for an empty list |
| FlipBtnGroup.Request | src/components/molecules/FlipBtnGroup/index.tsx:45-65 | without a snapshot a button asks for `true` |
| FlipBtnGroup.ImageFlag | src/components/molecules/FlipBtnGroup/index.tsx:35-65 | a button acts on its own flag when aligned and on the other flag otherwise |
| FlipBtnGroup.RequestNegatesImageFlag | src/components/molecules/FlipBtnGroup/index.tsx:107-144 | each button asks for the negation of the image flag it acts on, on both layouts |
| FlipBtnGroup.ButtonsReadBothFlags | src/components/molecules/FlipBtnGroup/index.tsx:107-155 | the two buttons read different flags, so between them they ask for the negation of both |
| FlipBtnGroup.RequestReadsLastOnly | src/components/molecules/FlipBtnGroup/index.tsx:35-52 | the request depends only on the last snapshot, not on earlier ones or the history cursor |
| FlipBtnGroup.RotationSwapsFlags | src/components/molecules/FlipBtnGroup/index.tsx:35-52 | moving the last snapshot off rotation 0 or 3 swaps the flag each button reads |
| Slider.BoxPosition | src/components/atoms/Slider/index.tsx:50-56 | an offset is pulled into the box: the clamp into `[0, width]` for a measured box, and 0 below 0 |
| Slider.Quotient | src/components/atoms/Slider/index.tsx:57 | dividing by a zero proportion is not finite; otherwise the value is within half a unit of the quotient |
| Slider.Read | src/components/atoms/Slider/index.tsx:50-58 | the emitted value is the rounded quotient of the clamped offset, and not finite before calibration |
| Slider.Setup | src/components/atoms/Slider/index.tsx:106-116 | a non-zero measured width sets the box, a proportion mapping the maximum onto it, and the thumb at the current value; otherwise nothing changes |
| Slider.DragActive | src/components/atoms/Slider/index.tsx:67-73 | a drag is followed, unclamped, and its value emitted exactly when it lies within 0.45 of the box |
| Slider.Press | src/components/atoms/Slider/index.tsx:76-121 | a tap does nothing when disabled; otherwise the thumb goes to the clamped point and emits that point's value, the same value as a drag there |
| Slider.PressShowsWhatItEmits | src/components/atoms/Slider/index.tsx:76-86 | after a tap, the emitted value is what the new thumb position reads as |
| Slider.GesturesKeepThumbInRange | src/components/atoms/Slider/index.tsx:67-86 | drags and taps keep the thumb within 0.45 of the box |
| Slider.ReadingInRange | src/components/atoms/Slider/index.tsx:50-58 | once calibrated, every value is a whole number between 0 and the maximum |
| Slider.SetupReadsBack | src/components/atoms/Slider/index.tsx:106-112 | after calibration with a whole value in [0, maximum], the thumb reads back as that value |
| Slider.EmittedInRange | src/components/atoms/Slider/index.tsx:50-112 | after measuring, every drag and tap emits a whole value between 0 and the maximum |
| Slider.DefaultReadingsWithinFifty | src/components/atoms/Slider/index.tsx:43 | with the default maximum, every value lies between 0 and 50 |
| Slider.UnmeasuredReadsNotFinite | src/components/atoms/Slider/index.tsx:47-58 | before measurement every emitted value is not a finite number |

## Left out

- Animation and gesture plumbing (`withTiming`, `withSpring`, `runOnJS`, gesture handlers) are out: each assignment is modelled by its target value.
- Rotation.Rotate: the handler reads the rotation right after starting a spring towards the new quarter. Whether that read gives the old angle or the target depends on the animation library. It is the parameter `observedRot`, and the parity-dependent claims hold when it is the old angle.
- The window-hugging claim in Rotation.Rotate excludes the narrow-landscape branch (source lines 237-243). That branch centres the unturned extent, and its width `h * (h / w)` does not keep the image's proportions. It is reachable only on a canvas wider than tall. Its intended layout cannot be read from the code, so it is described rather than corrected.
- Rotation.RotateKeepsAspect: the tall-portrait branch from a sideways rotation (source lines 253-258) keeps the proportions only when the image height equals the canvas width. This is stated, not corrected, for the same reason.
- Image I/O is out: `Image.getSize`, view measurement, the view-shot capture and the platform check. Each handler that re-fits an image takes the natural size as a parameter. A capture takes the captured picture as a parameter, and a missing capture function is not modelled.
- The ends of the pan and corner gestures start a capture. `EditorSession.OnPanEnd` and `EditorSession.OnCornerGesture` model the trigger and compose `EditorSession.OnCaptured`. The capture's own picture and its natural size are parameters.
- The crop-window mirror state (`setCropView`), `cropStarted`, `transformStarted` and the palette colour are out. They only feed rendering.
- React's state batching is out. `History.Commit` is the order the code intends. `History.CommitBatched` and `History.CommitOrders` state where the other order differs.
- Editor.InitImages: the editor calls the fit with two numbers and expects a proportion and centring insets. That shape matches no fit in the code, so the fit is a function parameter.
- The editor's imperative references (`crop`, `flip`, `aspect`, `palette`) are out. The editor view does not define them.
- The editor view is modelled against the props it declares (src/components/molecules/EditorView/index.tsx:41-53): a ratio `{x, y}` as `selectedAspect`, and `img`, `cropImages`, `setCounter`, `setCropImages` and `setSelectedColor` from its parent. The parent editor (src/components/organizm/Editor/index.tsx:303-325) passes the whole menu item `{id, name, value}` as `selectedAspect` (the menu sets it at src/components/molecules/Modal/index.tsx:121). Its `x` and `y` are then undefined, so the tall-ratio branch runs and its horizontal inset is `NaN`. The parent also omits those five props. The model follows the declared props, so `AspectLock.AspectSelected`, `EditorSession` and `History` describe the view as its interface promises, not as this parent wires it.
- FlipBtnGroup: the editor view defines no `flip` handler (see the imperative references above), so only the requested value is modelled. The phone and tablet layouts attach the same request to each button, and one function models both.
- Slider.Setup: the maximum is a positive parameter. A zero maximum would divide by zero, and the prop defaults to 50.
- NaN and infinite values from zero-sized images are out. Rotation, aspect locking and pinching require a measured image (both sides positive). The three places where a zero divisor is reachable keep JavaScript's outcome: the locked pinch, where `s >= t / 0` is false, the slider before measurement, and the loading progress of an empty image list.
- Floating-point rounding is out: arithmetic is exact.
- The handlers are separate functions, and the effects React chains after them are composed by hand in `EditorSession`: the append after a capture, and the aspect-clearing effect after a reset, a capture or a tool change that drops a selected aspect. The natural size of the image that effect re-fits is a parameter.
- History.RedoButtonMatchesHandler: the tool bar is fed the parent editor's per-image record (its `count` and `settings`), while the handlers read the view's own cursor and versions. Nothing in the code keeps the two in step. The lemma states the agreement for a button fed the handler's own history, which is an assumption about the parent.
- History.UndoButtonMatchesHandler: the same assumption as for the redo button.
- Presentation components (modal, miniatures, header, buttons, icons, loader) are out.
