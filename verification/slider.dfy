/** The border-width slider: a thumb offset along a measured box, and the
    integer value read off it by dividing the offset by the box's
    pixels-per-unit proportion. */
module Slider {
  import opened Common

  /** How far a drag may carry the thumb beyond either end of the box. */
  const Deviation: real := 0.45
  /** The maximum value when the caller gives none. */
  const DefaultMaximum: real := 50.0

  /** The thumb's offset, the box width and the pixels per slider unit; all
      three start at 0, before the box is measured. */
  datatype SliderState = SliderState(transformX: real, boxWidth: real, proportion: real)

  function Unmeasured(): SliderState {
    SliderState(0.0, 0.0, 0.0)
  }

  /** What the slider hands to its owner: a whole number, or the `NaN` /
      infinite quotient of dividing by a zero proportion. */
  datatype Reading = NotFinite | Value(n: int)

  /** An offset pulled back into the box: below 0 gives 0, past the width
      gives the width. */
  function BoxPosition(x: real, boxWidth: real): (r: real)
    ensures boxWidth >= 0.0 ==> r == Clamp(x, 0.0, boxWidth)
    ensures x < 0.0 ==> r == 0.0
  {
    if x < 0.0 then 0.0 else if x > boxWidth then boxWidth else x
  }

  /** A position divided by the proportion, rounded half up. */
  function Quotient(pos: real, st: SliderState): (r: Reading)
    ensures st.proportion == 0.0 <==> r.NotFinite?
    ensures st.proportion != 0.0 ==> pos / st.proportion - 0.5 < r.n as real <= pos / st.proportion + 0.5
  {
    if st.proportion == 0.0 then NotFinite else Value(Round(pos / st.proportion))
  }

  /** The value a drag offset stands for: the offset is pulled back into the
      box first. */
  function Read(x: real, st: SliderState): (r: Reading)
    ensures st.proportion == 0.0 <==> r.NotFinite?
    ensures 0.0 <= x <= st.boxWidth ==> r == Quotient(x, st)
  {
    Quotient(BoxPosition(x, st.boxWidth), st)
  }

  /** Once the box is measured: its width is known and positive and the
      proportion maps the maximum value onto it. */
  predicate Calibrated(st: SliderState, maximum: real) {
    maximum > 0.0 && st.boxWidth > 0.0 && st.proportion == st.boxWidth / maximum
  }

  /** The box was measured (`width` is `None` while no measurement exists).
      A non-zero width sets the box, the proportion and the thumb at the
      current value; anything else leaves the state alone (a zero width only
      asks for a new measurement). */
  function Setup(st: SliderState, width: Option<real>, maximum: Positive, sliderValue: real): (r: SliderState)
    ensures width.Some? && width.value > 0.0 ==> Calibrated(r, maximum)
    ensures width.Some? && width.value != 0.0 ==>
              r.boxWidth == width.value && r.proportion * maximum == width.value
              && r.transformX == sliderValue * r.proportion
    ensures !(width.Some? && width.value != 0.0) ==> r == st
  {
    if width.Some? && width.value != 0.0 then
      var p := width.value / maximum;
      SliderState(sliderValue * p, width.value, p)
    else st
  }

  /** Whether a drag to offset `x` is followed. */
  predicate DragAccepts(st: SliderState, x: real) {
    -Deviation <= x <= st.boxWidth + Deviation
  }

  /** A drag step: the offset is where the thumb was when the drag started
      plus the finger's travel. An offset in the tolerated range moves the
      thumb there, unclamped, and emits its reading; any other is ignored. */
  function DragActive(st: SliderState, startX: real, translationX: real): (r: (SliderState, Option<Reading>))
    ensures var x := startX + translationX;
      && (DragAccepts(st, x) ==> r.0 == st.(transformX := x) && r.1 == Some(Read(x, st)))
      && (!DragAccepts(st, x) ==> r.0 == st && r.1.None?)
  {
    var x := startX + translationX;
    if DragAccepts(st, x) then (st.(transformX := x), Some(Read(x, st))) else (st, None)
  }

  /** A tap on the box: unless the slider is disabled the thumb goes to the
      tapped point pulled back into the box and its reading is emitted. */
  function Press(st: SliderState, locationX: real, disabled: bool): (r: (SliderState, Option<Reading>))
    ensures disabled ==> r == (st, None)
    ensures !disabled ==> r.0 == st.(transformX := BoxPosition(locationX, st.boxWidth))
    ensures !disabled ==> r.1 == Some(Quotient(r.0.transformX, st))
    // with a measured box a tap reads the same as a drag to the same point
    ensures !disabled && st.boxWidth >= 0.0 ==>
              0.0 <= r.0.transformX <= st.boxWidth && r.1 == Some(Read(locationX, st))
  {
    if disabled then (st, None)
    else
      var target := BoxPosition(locationX, st.boxWidth);
      (st.(transformX := target), Some(Quotient(target, st)))
  }

  /** A tap emits exactly the value the thumb's new offset reads as. */
  lemma PressShowsWhatItEmits(st: SliderState, locationX: real)
    requires st.boxWidth >= 0.0
    ensures var r := Press(st, locationX, false);
      r.1 == Some(Read(r.0.transformX, r.0))
  {
  }

  /** The thumb stays within the tolerated range around the box. */
  predicate ThumbInRange(st: SliderState) {
    -Deviation <= st.transformX <= st.boxWidth + Deviation
  }

  /** Drags and taps keep the thumb within the tolerated range. */
  lemma GesturesKeepThumbInRange(st: SliderState, startX: real, translationX: real, locationX: real, disabled: bool)
    requires ThumbInRange(st) && st.boxWidth >= 0.0
    ensures ThumbInRange(DragActive(st, startX, translationX).0)
    ensures ThumbInRange(Press(st, locationX, disabled).0)
  {
  }

  /** Once calibrated, every reading is a whole number between 0 and the
      maximum (rounded). */
  lemma ReadingInRange(st: SliderState, maximum: real, x: real)
    requires Calibrated(st, maximum)
    ensures Read(x, st).Value?
    ensures 0 <= Read(x, st).n <= Round(maximum)
  {
    var p := st.proportion;
    var pos := BoxPosition(x, st.boxWidth);
    QuotientSign(st.boxWidth, maximum);
    DivideWithin(pos, st.boxWidth, maximum, p);
    RoundMonotone(0.0, pos / p);
    RoundMonotone(pos / p, maximum);
  }

  /** With `p == w / m`, a position in `[0, w]` divided by `p` lies in `[0, m]`. */
  lemma DivideWithin(pos: real, w: real, m: real, p: real)
    requires w > 0.0 && m > 0.0 && p == w / m && 0.0 <= pos <= w
    ensures 0.0 <= pos / p <= m
  {
    QuotientSign(w, m);
    assert p * m == w;
    var q := pos / p;
    assert q * p == pos;
    if q < 0.0 {
      MulLeft(p, q, 0.0);
    }
    if q > m {
      MulLeft(p, m, q);
    }
  }

  lemma RoundMonotone(a: real, b: real)
    requires a <= b
    ensures Round(a) <= Round(b)
  {
  }

  /** After calibration with a whole value between 0 and the maximum, the
      thumb reads back as exactly that value. */
  lemma SetupReadsBack(st: SliderState, width: real, maximum: Positive, k: int)
    requires width > 0.0
    requires 0 <= k && k as real <= maximum
    ensures var r := Setup(st, Some(width), maximum, k as real);
      Read(r.transformX, r) == Value(k)
  {
    var r := Setup(st, Some(width), maximum, k as real);
    var p := r.proportion;
    QuotientSign(width, maximum);
    assert p * maximum == width;
    MulLeft(p, k as real, maximum);
    ProductSign(p, k as real);
    assert BoxPosition(r.transformX, r.boxWidth) == k as real * p;
    assert (k as real * p) / p == k as real;
  }

  /** Measuring then dragging or tapping anywhere emits a whole value between
      0 and the maximum. */
  lemma EmittedInRange(width: real, maximum: Positive, sliderValue: real,
                       startX: real, translationX: real, locationX: real)
    requires width > 0.0
    ensures var st := Setup(Unmeasured(), Some(width), maximum, sliderValue);
      var d := DragActive(st, startX, translationX).1;
      var t := Press(st, locationX, false).1;
      && (d.Some? ==> d.value.Value? && 0 <= d.value.n <= Round(maximum))
      && t.Some? && t.value.Value? && 0 <= t.value.n <= Round(maximum)
  {
    var st := Setup(Unmeasured(), Some(width), maximum, sliderValue);
    ReadingInRange(st, maximum, startX + translationX);
    ReadingInRange(st, maximum, locationX);
  }

  /** With the default maximum, every reading of a measured slider lies
      between 0 and 50. */
  lemma DefaultReadingsWithinFifty(width: real, sliderValue: real, x: real)
    requires width > 0.0
    ensures var st := Setup(Unmeasured(), Some(width), DefaultMaximum, sliderValue);
      Read(x, st).Value? && 0 <= Read(x, st).n <= 50
  {
    var st := Setup(Unmeasured(), Some(width), DefaultMaximum, sliderValue);
    ReadingInRange(st, DefaultMaximum, x);
  }

  /** Before the box is measured the proportion is 0 and every reading is
      not a finite number. */
  lemma UnmeasuredReadsNotFinite(x: real)
    ensures Read(x, Unmeasured()).NotFinite?
  {
  }
}
