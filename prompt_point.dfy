/**
 * Turning a mouse event into a segment-anything prompt point
 * (`getPoint` and `clamp` in src/lib/segmentation.svelte.ts).
 */
module PromptPoint {

  /**
   * A JavaScript number as far as `getPoint` can produce one: dividing by a
   * zero-sized bounding box yields an infinity or NaN instead of failing.
   */
  datatype Num = Finite(v: real) | PosInf | NegInf | NaN

  /** JavaScript `a / b` on finite operands. */
  function Divide(a: real, b: real): Num
  {
    if b != 0.0 then Finite(a / b)
    else if a > 0.0 then PosInf
    else if a < 0.0 then NegInf
    else NaN
  }

  /** `Math.min(x, m)` for a finite `m`. */
  function MinNum(x: Num, m: real): Num
  {
    match x
    case NaN => NaN
    case PosInf => Finite(m)
    case NegInf => NegInf
    case Finite(v) => Finite(if v <= m then v else m)
  }

  /** `Math.max(x, m)` for a finite `m`. */
  function MaxNum(x: Num, m: real): Num
  {
    match x
    case NaN => NaN
    case PosInf => PosInf
    case NegInf => Finite(m)
    case Finite(v) => Finite(if v >= m then v else m)
  }

  /** `clamp(x, min, max) = Math.max(Math.min(x, max), min)`. */
  function Clamp(x: Num, lo: real, hi: real): (r: Num)
    ensures r == NaN <==> x == NaN
    ensures x != NaN && lo <= hi ==> r.Finite? && lo <= r.v <= hi
    ensures x.Finite? && lo <= x.v <= hi ==> r == x
    ensures lo <= hi && (x == PosInf || (x.Finite? && x.v > hi)) ==> r == Finite(hi)
    ensures lo <= hi && (x == NegInf || (x.Finite? && x.v < lo)) ==> r == Finite(lo)
  {
    MaxNum(MinNum(x, hi), lo)
  }

  /** A prompt point: a position normalised to the bounding box and its label (1 positive, 0 negative). */
  datatype Point = Point(x: Num, y: Num, promptLabel: nat)

  /** What `getPoint` reads of a mouse event. */
  datatype MouseEvent = MouseEvent(clientX: real, clientY: real, button: int)

  /** The bounding client rectangle of the event's target. */
  datatype Rect = Rect(left: real, top: real, width: real, height: real)

  /**
   * The click position relative to the target, normalised and clamped to
   * [0, 1]; the right button (2) gives a negative prompt, every other button
   * a positive one.
   */
  function GetPoint(e: MouseEvent, bb: Rect): (p: Point)
    ensures p.promptLabel <= 1 && (p.promptLabel == 0 <==> e.button == 2)
    ensures bb.width != 0.0 ==> p.x.Finite? && 0.0 <= p.x.v <= 1.0
    ensures bb.height != 0.0 ==> p.y.Finite? && 0.0 <= p.y.v <= 1.0
    ensures (bb.width > 0.0 && bb.left <= e.clientX <= bb.left + bb.width)
              ==> p.x == Finite((e.clientX - bb.left) / bb.width)
    ensures (bb.height > 0.0 && bb.top <= e.clientY <= bb.top + bb.height)
              ==> p.y == Finite((e.clientY - bb.top) / bb.height)
    ensures bb.width == 0.0 ==> (p.x == NaN <==> e.clientX == bb.left)
    ensures bb.height == 0.0 ==> (p.y == NaN <==> e.clientY == bb.top)
  {
    var x := Divide(e.clientX - bb.left, bb.width);
    var y := Divide(e.clientY - bb.top, bb.height);
    Point(Clamp(x, 0.0, 1.0), Clamp(y, 0.0, 1.0), if e.button == 2 then 0 else 1)
  }
}
