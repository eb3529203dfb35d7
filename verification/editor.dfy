/** The multi-image editor: one history of snapshots per image, built when the
    session opens (fresh, from measured image sizes, or restored from saved
    settings), and the export that picks each image's snapshot at its
    cursor. */
module Editor {
  import opened Common
  import opened Snapshots

  /** Saved settings for one image, either part of which may be missing. */
  datatype InitialEntry = InitialEntry(settings: Option<Settings>, editorSettings: Option<EditorSettings>)

  /** One image's history: the backend and editor snapshots and the cursor. */
  datatype ImageConfig = ImageConfig(img: string, count: nat, settings: seq<Settings>, editor: seq<EditorSettings>)

  /** The cursor points at an entry of both snapshot lists. */
  predicate WellFormed(c: ImageConfig) {
    c.count < |c.settings| && c.count < |c.editor|
  }

  /** Whether initialisation runs: every image size is known, or saved
      settings were supplied. */
  predicate ReadyToInit(images: seq<string>, imagesSize: map<int, Size>, initial: Option<seq<InitialEntry>>) {
    |imagesSize| == |images| || initial.Some?
  }

  /** A saved entry that carries both parts. */
  predicate Complete(initial: seq<InitialEntry>, i: int) {
    0 <= i < |initial| && initial[i].settings.Some? && initial[i].editorSettings.Some?
  }

  /** The first history entry of image `i` in a fresh session; `fit` stands for
      the size calculation the editor asks for. */
  function FreshConfig(images: seq<string>, imagesSize: map<int, Size>, i: int,
                       fit: (real, real) -> FitResult): (c: ImageConfig)
    requires 0 <= i < |images|
    ensures WellFormed(c) && c.count == 0 && c.img == images[i]
    ensures c.settings == [DefaultSettings(imagesSize, i)]
    ensures |c.editor| == 1 && IsUntransformed(c.editor[0])
  {
    var h := if i in imagesSize then imagesSize[i].height else 0.0;
    var w := if i in imagesSize then imagesSize[i].width else 0.0;
    ImageConfig(images[i], 0, [DefaultSettings(imagesSize, i)], [DefaultEditorSettings(fit(h, w))])
  }

  /** The history of image `i` restored from complete saved settings: an
      untouched first step, then the saved step, with the cursor on it. */
  function RestoredConfig(images: seq<string>, initial: seq<InitialEntry>, i: int,
                          fit: (real, real) -> FitResult): (c: ImageConfig)
    requires 0 <= i < |images| && Complete(initial, i)
    ensures WellFormed(c) && c.count == 1 && c.img == images[i]
    ensures c.settings == SettingsPair(initial[i].settings.value)
    ensures |c.editor| == 2 && IsUntransformed(c.editor[0])
    ensures c.editor[1] == initial[i].editorSettings.value
  {
    var s := initial[i].settings.value;
    ImageConfig(images[i], 1, SettingsPair(s),
                [DefaultEditorSettings(fit(s.height, s.width)),
                 CopyEditorSettings(initial[i].editorSettings.value)])
  }

  /** Session initialisation, keyed by image index. Nothing is built until it
      is ready; a fresh session builds every image, a restored one only the
      images whose saved entry is complete. */
  function InitImages(images: seq<string>, imagesSize: map<int, Size>,
                      initial: Option<seq<InitialEntry>>,
                      fit: (real, real) -> FitResult): (state: map<int, ImageConfig>)
    ensures !ReadyToInit(images, imagesSize, initial) ==> state == map[]
    ensures ReadyToInit(images, imagesSize, initial) && initial.None? ==>
              forall i :: i in state <==> 0 <= i < |images|
    ensures initial.Some? ==>
              forall i :: i in state <==> 0 <= i < |images| && Complete(initial.value, i)
    ensures forall i :: i in state ==> WellFormed(state[i]) && state[i].img == images[i]
  {
    if !ReadyToInit(images, imagesSize, initial) then map[]
    else if initial.None? then
      map i | 0 <= i < |images| :: FreshConfig(images, imagesSize, i, fit)
    else
      map i | 0 <= i < |images| && Complete(initial.value, i) ::
        RestoredConfig(images, initial.value, i, fit)
  }

  /** The keys of `m` below `n`, in increasing order (the order in which
      JavaScript lists integer-like object keys). */
  function KeysBelow<V>(m: map<int, V>, n: nat): (r: seq<int>)
    ensures forall j :: 0 <= j < |r| ==> r[j] in m && 0 <= r[j] < n
  {
    if n == 0 then []
    else KeysBelow(m, n - 1) + (if n - 1 in m then [n - 1] else [])
  }

  /** The list holds every key below `n`, each once, in increasing order. */
  lemma {:induction false} KeysBelowOrdered<V>(m: map<int, V>, n: nat)
    ensures forall k :: k in m && 0 <= k < n ==> k in KeysBelow(m, n)
    ensures forall j, l :: 0 <= j < l < |KeysBelow(m, n)| ==> KeysBelow(m, n)[j] < KeysBelow(m, n)[l]
  {
    if n > 0 {
      KeysBelowOrdered(m, n - 1);
      var prev := KeysBelow(m, n - 1);
      var all := KeysBelow(m, n);
      var tail := if n - 1 in m then [n - 1] else [];
      assert all == prev + tail;
      forall k | k in m && 0 <= k < n
        ensures k in all
      {
        if k < n - 1 {
          assert k in prev;
        } else {
          assert all[|all| - 1] == k;
        }
      }
      forall j, l | 0 <= j < l < |all|
        ensures all[j] < all[l]
      {
        if l < |prev| {
          assert all[j] == prev[j] && all[l] == prev[l];
        } else {
          assert all[l] == n - 1;
          assert all[j] == prev[j];
        }
      }
    }
  }

  /** With every key below `n` present, the keys are exactly 0, 1, ..., n-1. */
  lemma {:induction false} KeysBelowFull<V>(m: map<int, V>, n: nat)
    requires forall k :: 0 <= k < n ==> k in m
    ensures |KeysBelow(m, n)| == n
    ensures forall j :: 0 <= j < n ==> KeysBelow(m, n)[j] == j
  {
    if n > 0 {
      KeysBelowFull(m, n - 1);
      var prev := KeysBelow(m, n - 1);
      var all := KeysBelow(m, n);
      assert n - 1 in m;
      assert all == prev + [n - 1];
      forall j | 0 <= j < n
        ensures all[j] == j
      {
        if j < n - 1 {
          assert all[j] == prev[j];
        }
      }
    }
  }

  /** `list[i]`, or nothing when `i` is out of range (JavaScript's
      `undefined`). */
  function Pick<T>(list: seq<T>, i: int): (r: Option<T>)
    ensures 0 <= i < |list| ==> r == Some(list[i])
    ensures !(0 <= i < |list|) ==> r.None?
  {
    if 0 <= i < |list| then Some(list[i]) else None
  }

  /** What the export hands over for one image. */
  datatype Exported = Exported(settings: Option<Settings>, editorSettings: Option<EditorSettings>)

  /** The export: for every image, in key order, the snapshots under its
      cursor. All keys of the state are below `n` (the number of images). */
  function Export(state: map<int, ImageConfig>, n: nat): (r: seq<Exported>)
    requires forall k :: k in state ==> 0 <= k < n
    ensures var keys := KeysBelow(state, n);
      && |r| == |keys|
      && forall j :: 0 <= j < |r| ==>
           var c := state[keys[j]];
           r[j] == Exported(Pick(c.settings, c.count), Pick(c.editor, c.count))
  {
    var keys := KeysBelow(state, n);
    seq(|keys|, j requires 0 <= j < |keys| =>
      var c := state[keys[j]];
      Exported(Pick(c.settings, c.count), Pick(c.editor, c.count)))
  }

  /** Every exported entry of a well-formed state is present in both parts. */
  lemma ExportComplete(state: map<int, ImageConfig>, n: nat)
    requires forall k :: k in state ==> 0 <= k < n && WellFormed(state[k])
    ensures forall j :: 0 <= j < |Export(state, n)| ==>
              Export(state, n)[j].settings.Some? && Export(state, n)[j].editorSettings.Some?
  {
  }

  /** Exporting a freshly opened session hands back, image by image, the
      untouched first snapshots. */
  lemma FreshExport(images: seq<string>, imagesSize: map<int, Size>, fit: (real, real) -> FitResult)
    requires |imagesSize| == |images|
    ensures var state := InitImages(images, imagesSize, None, fit);
      var out := Export(state, |images|);
      && |out| == |images|
      && forall i :: 0 <= i < |images| ==>
           && out[i].settings == Some(DefaultSettings(imagesSize, i))
           && out[i].editorSettings.Some? && IsUntransformed(out[i].editorSettings.value)
  {
    var state := InitImages(images, imagesSize, None, fit);
    KeysBelowFull(state, |images|);
  }

  /** Exporting a freshly restored session hands back exactly the saved
      settings of every complete entry, in index order. */
  lemma RestoredExport(images: seq<string>, imagesSize: map<int, Size>,
                       initial: seq<InitialEntry>, fit: (real, real) -> FitResult)
    ensures var state := InitImages(images, imagesSize, Some(initial), fit);
      var keys := KeysBelow(state, |images|);
      var out := Export(state, |images|);
      && |out| == |keys|
      && (forall j :: 0 <= j < |keys| ==> Complete(initial, keys[j]))
      && forall j :: 0 <= j < |out| ==>
           out[j] == Exported(initial[keys[j]].settings, initial[keys[j]].editorSettings)
  {
  }

  /** A JavaScript quotient: a finite number, or what dividing by zero gives
      (`NaN` for `0 / 0`, an infinity otherwise). */
  datatype Share = NotANumber | Infinite | Finite(percent: real)

  /** The loading bar: the share of images whose size is known, in percent.
      With no images at all the division is by zero. */
  function Progress(known: nat, total: nat): (r: Share)
    ensures r.Finite? <==> total > 0
    ensures total == 0 ==> (r.NotANumber? <==> known == 0)
    ensures r.Finite? && known <= total ==> 0.0 <= r.percent <= 100.0
    ensures r.Finite? && known <= total ==> (r.percent == 100.0 <==> known == total)
  {
    if total == 0 then (if known == 0 then NotANumber else Infinite)
    else
      var r := (known as real * 100.0) / total as real;
      ProgressScale(known as real, total as real, r);
      Finite(r)
  }

  /** `r == known * 100 / total` with `total > 0` is 100 exactly when
      `known == total`, and lies in [0, 100] when `0 <= known <= total`. */
  lemma ProgressScale(known: real, total: real, r: real)
    requires total > 0.0 && r == (known * 100.0) / total
    ensures r == 100.0 <==> known == total
    ensures 0.0 <= known <= total ==> 0.0 <= r <= 100.0
  {
    assert r * total == known * 100.0;
    if r == 100.0 {
      assert 100.0 * total == known * 100.0;
    }
    if 0.0 <= known <= total {
      if r < 0.0 {
        MulLeft(total, r, 0.0);
      }
      if r > 100.0 {
        MulLeft(total, 100.0, r);
      }
    }
  }

  /** Loading ends once there is a history for every image, or as soon as
      saved settings were supplied. */
  predicate LoadingDone(state: map<int, ImageConfig>, images: seq<string>, initial: Option<seq<InitialEntry>>) {
    |state| == |images| || initial.Some?
  }

  /** Once every size is known a fresh session finishes loading. */
  lemma FreshSessionFinishesLoading(images: seq<string>, imagesSize: map<int, Size>, fit: (real, real) -> FitResult)
    requires |imagesSize| == |images|
    ensures LoadingDone(InitImages(images, imagesSize, None, fit), images, None)
  {
    var state := InitImages(images, imagesSize, None, fit);
    assert state.Keys == Range(|images|);
  }

  /** The indices 0, 1, ..., n-1. */
  function Range(n: nat): (r: set<int>)
    ensures forall i :: i in r <==> 0 <= i < n
    ensures |r| == n
  {
    if n == 0 then {} else Range(n - 1) + {n - 1}
  }
}
