/** Shared vocabulary of the editor model: optional values, the editor's
    fixed viewport constants, sizes, and the handful of JavaScript numeric
    operations the components rely on, written out over exact reals. */
module Common {

  /** A value that may be absent (`undefined` / `null` in the component code). */
  datatype Option<+T> = None | Some(value: T)

  type Positive = r: real | r > 0.0 witness 1.0

  /** Width of the editing canvas; its value lives in a constants file that is
      not part of this model, so only its positivity is known. */
  const EditorWidth: Positive
  /** Height of the editing canvas (same remark as `EditorWidth`). */
  const EditorHeight: Positive
  /** Smallest side the crop window may shrink to while a corner is dragged. */
  const SizeInsideCropItems: Positive

  /** A (height, width) pair: a natural image size, a displayed size or a box. */
  datatype Size = Size(height: real, width: real)

  /** `v > 0 ? v : 0`, the clamp every inset assignment goes through. */
  function Max0(v: real): (r: real)
    ensures r >= 0.0
    ensures r >= v
    ensures r == v || r == 0.0
  {
    if v > 0.0 then v else 0.0
  }

  /** Clamp `v` into `[lo, hi]`, trying the lower bound first, as the slider does. */
  function Clamp(v: real, lo: real, hi: real): (r: real)
    requires lo <= hi
    ensures lo <= r <= hi
    ensures lo <= v <= hi ==> r == v
    ensures v < lo ==> r == lo
    ensures v > hi ==> r == hi
  {
    if v < lo then lo else if v > hi then hi else v
  }

  /** `Math.round` on a finite number: the nearest integer, halves rounded up. */
  function Round(v: real): (r: int)
    ensures v - 0.5 < r as real <= v + 0.5
  {
    (v + 0.5).Floor
  }

  /** Truncation toward zero, the integer part JavaScript's `%` keeps. */
  function Trunc(q: real): (r: int)
    ensures q >= 0.0 ==> 0.0 <= r as real <= q < r as real + 1.0
    ensures q < 0.0 ==> r as real - 1.0 < q <= r as real <= 0.0
  {
    if q >= 0.0 then q.Floor else -((-q).Floor)
  }

  /** JavaScript's `a % 6`, the only remainder the editor takes: the sign
      follows the dividend and the magnitude stays below 6. */
  function RemSix(a: real): (r: real)
    ensures -6.0 < r < 6.0
    ensures a >= 0.0 ==> r >= 0.0
    ensures a <= 0.0 ==> r <= 0.0
    ensures -6.0 < a < 6.0 ==> r == a
    // a and r differ by a whole number of turns
    ensures ((a - r) / 6.0).Floor as real == (a - r) / 6.0
  {
    var k := Trunc(a / 6.0);
    assert (a - (a - 6.0 * k as real)) / 6.0 == k as real;
    a - 6.0 * k as real
  }
  /** A product of a positive number with a positive (non-negative) one is
      positive (non-negative). */
  lemma ProductSign(m: real, d: real)
    requires m > 0.0
    ensures d > 0.0 ==> m * d > 0.0
    ensures d >= 0.0 ==> m * d >= 0.0
  {
  }

  lemma CancelPositive(x: real, y: real, c: real)
    requires c > 0.0 && x * c == y * c
    ensures x == y
  {
  }

  lemma MulLeft(c: real, x: real, y: real)
    requires c > 0.0 && x <= y
    ensures c * x <= c * y
  {
  }

  lemma ZeroProduct(c: real, x: real)
    requires c > 0.0 && c * x == 0.0
    ensures x == 0.0
  {
  }

  /** A quotient of positive numbers is positive. */
  lemma QuotientSign(a: real, b: real)
    requires a > 0.0 && b > 0.0
    ensures a / b > 0.0
  {
  }

  /** Comparing a quotient with 1 compares the two numbers. */
  lemma QuotientAtLeastOne(a: real, b: real)
    requires b > 0.0
    ensures a / b >= 1.0 <==> a >= b
    ensures a / b > 1.0 <==> a > b
  {
    assert (a / b) * b == a;
    if a / b >= 1.0 {
      MulLeft(b, 1.0, a / b);
    } else {
      MulLeft(b, a / b, 1.0);
    }
    if a / b == 1.0 {
      assert a == b;
    }
  }
}
