/** The four corner handles of the crop window. Each drags the two insets that
    meet at its corner; an inset only moves inwards from where the gesture
    started, and never so far that the window gets narrower than the handles
    need. */
module CornerCrop {
  import opened Common
  import opened ViewState

  datatype Corner = TopLeft | TopRight | BottomLeft | BottomRight

  predicate MovesTop(c: Corner) { c == TopLeft || c == TopRight }
  predicate MovesLeft(c: Corner) { c == TopLeft || c == BottomLeft }

  /** The insets the handle recorded when the gesture started: the vertical
      one (top or bottom) and the horizontal one (left or right). */
  datatype CornerContext = CornerContext(vertical: real, horizontal: real)

  function CornerStart(v: View, c: Corner): (ctx: CornerContext)
    ensures ctx.vertical == (if MovesTop(c) then v.top else v.bottom)
    ensures ctx.horizontal == (if MovesLeft(c) then v.left else v.right)
  {
    CornerContext(if MovesTop(c) then v.top else v.bottom,
                  if MovesLeft(c) then v.left else v.right)
  }

  /** One inset of a drag: the start value plus the finger's movement towards
      the window's inside, taken only when it is at least the start value
      and leaves room for the handles before the opposite inset. */
  function DragInset(current: real, start: real, inward: real, opposite: real, dim: real): (r: real)
    ensures var p := start + inward;
      && (p >= start && p <= dim - opposite - SizeInsideCropItems ==> r == p)
      && (!(p >= start && p <= dim - opposite - SizeInsideCropItems) ==> r == current)
  {
    var p := start + inward;
    if p >= start && p <= dim - opposite - SizeInsideCropItems then p else current
  }

  /** A move of a corner handle by (tx, ty). Right and bottom insets grow when
      the finger moves left and up, so their movement is negated. */
  function CornerActive(v: View, c: Corner, ctx: CornerContext, tx: real, ty: real): (r: View)
    // the two insets of the other corners' sides stay as they are
    ensures MovesTop(c) ==> r.bottom == v.bottom
    ensures !MovesTop(c) ==> r.top == v.top
    ensures MovesLeft(c) ==> r.right == v.right
    ensures !MovesLeft(c) ==> r.left == v.left
    // and nothing but the insets changes
    ensures r == v.(top := r.top, bottom := r.bottom, left := r.left, right := r.right)
    // a moved inset is at least its start value and leaves room for the handles
    ensures MovesTop(c) && r.top != v.top ==>
              r.top >= ctx.vertical && r.top + r.bottom <= EditorHeight - SizeInsideCropItems
    ensures !MovesTop(c) && r.bottom != v.bottom ==>
              r.bottom >= ctx.vertical && r.top + r.bottom <= EditorHeight - SizeInsideCropItems
    ensures MovesLeft(c) && r.left != v.left ==>
              r.left >= ctx.horizontal && r.left + r.right <= EditorWidth - SizeInsideCropItems
    ensures !MovesLeft(c) && r.right != v.right ==>
              r.right >= ctx.horizontal && r.left + r.right <= EditorWidth - SizeInsideCropItems
  {
    var r1 := if MovesLeft(c)
      then v.(left := DragInset(v.left, ctx.horizontal, tx, v.right, EditorWidth))
      else v.(right := DragInset(v.right, ctx.horizontal, -tx, v.left, EditorWidth));
    if MovesTop(c)
      then r1.(top := DragInset(v.top, ctx.vertical, ty, v.bottom, EditorHeight))
      else r1.(bottom := DragInset(v.bottom, ctx.vertical, -ty, v.top, EditorHeight))
  }

  /** The crop window leaves room for the handles in both directions. */
  predicate RoomForHandles(v: View) {
    && v.top + v.bottom <= EditorHeight - SizeInsideCropItems
    && v.left + v.right <= EditorWidth - SizeInsideCropItems
  }

  /** The insets a handle moves have not gone below their start values. */
  predicate NotBelowStart(v: View, c: Corner, ctx: CornerContext) {
    && (if MovesTop(c) then v.top else v.bottom) >= ctx.vertical
    && (if MovesLeft(c) then v.left else v.right) >= ctx.horizontal
  }

  /** A drag step keeps room for the handles and never moves an inset below
      where the gesture started. */
  lemma CornerStepInvariant(v: View, c: Corner, ctx: CornerContext, tx: real, ty: real)
    requires RoomForHandles(v) && NotBelowStart(v, c, ctx)
    ensures var r := CornerActive(v, c, ctx, tx, ty);
      RoomForHandles(r) && NotBelowStart(r, c, ctx)
  {
  }

  /** Applying the moves of a whole gesture, in order. */
  function CornerGesture(v: View, c: Corner, ctx: CornerContext, moves: seq<(real, real)>): (r: View)
    ensures r == v.(top := r.top, bottom := r.bottom, left := r.left, right := r.right)
    decreases |moves|
  {
    if |moves| == 0 then v
    else CornerGesture(CornerActive(v, c, ctx, moves[0].0, moves[0].1), c, ctx, moves[1..])
  }

  /** Over a whole gesture started from a window with room for the handles,
      the window only shrinks from where it started and always keeps that
      room; the insets of the other corners never change. */
  lemma {:induction false} CornerGestureInvariant(v: View, c: Corner, moves: seq<(real, real)>)
    requires RoomForHandles(v)
    ensures var ctx := CornerStart(v, c);
      var r := CornerGesture(v, c, ctx, moves);
      && RoomForHandles(r) && NotBelowStart(r, c, ctx)
      && (MovesTop(c) ==> r.bottom == v.bottom)
      && (!MovesTop(c) ==> r.top == v.top)
      && (MovesLeft(c) ==> r.right == v.right)
      && (!MovesLeft(c) ==> r.left == v.left)
  {
    GestureInvariantFrom(v, c, CornerStart(v, c), moves);
  }

  lemma {:induction false} GestureInvariantFrom(v: View, c: Corner, ctx: CornerContext, moves: seq<(real, real)>)
    requires RoomForHandles(v) && NotBelowStart(v, c, ctx)
    ensures var r := CornerGesture(v, c, ctx, moves);
      && RoomForHandles(r) && NotBelowStart(r, c, ctx)
      && (MovesTop(c) ==> r.bottom == v.bottom)
      && (!MovesTop(c) ==> r.top == v.top)
      && (MovesLeft(c) ==> r.right == v.right)
      && (!MovesLeft(c) ==> r.left == v.left)
    decreases |moves|
  {
    if |moves| > 0 {
      var v1 := CornerActive(v, c, ctx, moves[0].0, moves[0].1);
      CornerStepInvariant(v, c, ctx, moves[0].0, moves[0].1);
      GestureInvariantFrom(v1, c, ctx, moves[1..]);
    }
  }
}
