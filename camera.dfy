/** The camera of the diagram: the pan offset, the rule that keeps it inside the
    content, the interpolation used by animated pans, and the target chosen when
    the camera follows the selected node. */
module Camera {
  import opened Common

  /** A point in world coordinates (the top-left corner of the viewport when used as
      the pan offset). */
  datatype Pos = Pos(x: real, y: real)

  /** A width and a height. */
  datatype Size = Size(width: real, height: real)

  /** Largest pan offset along one axis that still shows no space beyond the content;
      0 when the content is smaller than the viewport. */
  function UpperBound(content: real, viewport: real): real {
    Max(0.0, content - viewport)
  }

  /** The clamp invariant of the pan offset. With no content only the lower bound
      applies. */
  predicate InBounds(p: Pos, content: Option<Size>, viewport: Size) {
    && 0.0 <= p.x
    && 0.0 <= p.y
    && (content.Some? ==>
          && p.x <= UpperBound(content.value.width, viewport.width)
          && p.y <= UpperBound(content.value.height, viewport.height))
  }

  /** `_fixViewPos`: min against `content - viewport` first, then max against 0, so a
      viewport larger than the content pins the offset to 0. */
  function FixViewPos(pos: Pos, content: Option<Size>, viewport: Size): (r: Pos)
    ensures InBounds(r, content, viewport)
    ensures InBounds(pos, content, viewport) ==> r == pos
    ensures content.None? ==> r == Pos(Max(0.0, pos.x), Max(0.0, pos.y))
    ensures content.Some? && content.value.width <= viewport.width ==> r.x == 0.0
    ensures content.Some? && content.value.height <= viewport.height ==> r.y == 0.0
  {
    var x := if content.Some? then Min(content.value.width - viewport.width, pos.x) else pos.x;
    var y := if content.Some? then Min(content.value.height - viewport.height, pos.y) else pos.y;
    Pos(Max(0.0, x), Max(0.0, y))
  }

  /** Clamping an already clamped offset changes nothing. */
  lemma FixViewPosIdempotent(pos: Pos, content: Option<Size>, viewport: Size)
    ensures FixViewPos(FixViewPos(pos, content, viewport), content, viewport)
            == FixViewPos(pos, content, viewport)
  {
  }

  /** Along each axis the clamped offset is the requested one when that is admissible,
      and otherwise the bound it crossed. */
  lemma FixViewPosNearest(pos: Pos, content: Size, viewport: Size)
    ensures var r := FixViewPos(pos, Some(content), viewport);
            var ux := UpperBound(content.width, viewport.width);
            && (0.0 <= pos.x <= ux ==> r.x == pos.x)
            && (pos.x < 0.0 ==> r.x == 0.0)
            && (pos.x > ux ==> r.x == ux)
  {
  }

  /** The interpolator `d3.interpolate(from, to)` builds for two positions: each
      coordinate is interpolated as `a * (1 - t) + b * t`. */
  datatype Interpolator = Interpolator(start: Pos, target: Pos)

  function Lerp(a: real, b: real, t: real): (r: real)
    ensures t == 0.0 ==> r == a
    ensures t == 1.0 ==> r == b
    ensures a == b ==> r == a
  {
    a * (1.0 - t) + b * t
  }

  /** The interpolator applied to a raw elapsed fraction `t`; d3 does not cap `t`, so
      for `t > 1` the point lies beyond the target. */
  function InterpolateAt(i: Interpolator, t: real): (p: Pos)
    ensures t == 0.0 ==> p == i.start
    ensures t == 1.0 ==> p == i.target
  {
    Pos(Lerp(i.start.x, i.target.x, t), Lerp(i.start.y, i.target.y, t))
  }

  /** Position stored by an animation tick once the elapsed fraction is capped at 1,
      so that the last tick lands on the target. */
  function TickPosition(i: Interpolator, t: real): (p: Pos)
    ensures t >= 1.0 ==> p == i.target
  {
    InterpolateAt(i, Min(t, 1.0))
  }

  /** Interpolating between two values of an interval, by a fraction in [0, 1],
      stays in the interval. */
  lemma {:induction false} LerpWithin(a: real, b: real, t: real, lo: real, hi: real)
    requires 0.0 <= t <= 1.0
    requires lo <= a <= hi && lo <= b <= hi
    ensures lo <= Lerp(a, b, t) <= hi
  {
    LerpAbove(a, b, t, lo);
    LerpBelow(a, b, t, hi);
    MulNonNeg(a - lo, 1.0 - t);
    MulNonNeg(b - lo, t);
    MulNonNeg(hi - a, 1.0 - t);
    MulNonNeg(hi - b, t);
  }

  lemma LerpAbove(a: real, b: real, t: real, lo: real)
    ensures Lerp(a, b, t) - lo == (a - lo) * (1.0 - t) + (b - lo) * t
  {
  }

  lemma LerpBelow(a: real, b: real, t: real, hi: real)
    ensures hi - Lerp(a, b, t) == (hi - a) * (1.0 - t) + (hi - b) * t
  {
  }

  lemma MulNonNeg(x: real, y: real)
    requires 0.0 <= x && 0.0 <= y
    ensures 0.0 <= x * y
  {
  }

  lemma MulMonotone(k: real, s: real, t: real)
    requires 0.0 <= k && 0.0 <= s <= t
    ensures 0.0 <= k * s <= k * t
  {
  }

  /** Corrected ticks never leave the clamp bounds: a tick lies between the start and
      the target, both of which satisfy the invariant. */
  lemma {:induction false} TickPositionInBounds(i: Interpolator, t: real, content: Option<Size>, viewport: Size)
    requires 0.0 <= t
    requires InBounds(i.start, content, viewport) && InBounds(i.target, content, viewport)
    ensures InBounds(TickPosition(i, t), content, viewport)
  {
    var s := Min(t, 1.0);
    var hiX := if content.Some? then UpperBound(content.value.width, viewport.width) else Max(i.start.x, i.target.x);
    var hiY := if content.Some? then UpperBound(content.value.height, viewport.height) else Max(i.start.y, i.target.y);
    LerpWithin(i.start.x, i.target.x, s, 0.0, hiX);
    LerpWithin(i.start.y, i.target.y, s, 0.0, hiY);
  }

  /** The uncapped interpolation as the source applies it: a last tick that fires at
      105% of the duration overshoots a target sitting on the bound and leaves the
      clamp bounds. */
  lemma AsWrittenTickOvershoots()
    ensures var i := Interpolator(Pos(0.0, 0.0), Pos(50.0, 50.0));
            var content := Some(Size(450.0, 350.0));
            var viewport := Size(400.0, 300.0);
            && InBounds(i.start, content, viewport)
            && InBounds(i.target, content, viewport)
            && InterpolateAt(i, 1.05) == Pos(52.5, 52.5)
            && !InBounds(InterpolateAt(i, 1.05), content, viewport)
            && TickPosition(i, 1.05) == i.target
  {
  }

  /** Past the end of the fraction range, interpolation runs on beyond the end
      value, in the direction of travel. */
  lemma LerpPassesEnd(a: real, b: real, t: real)
    requires t > 1.0
    ensures a < b ==> Lerp(a, b, t) > b
    ensures a > b ==> Lerp(a, b, t) < b
  {
    assert Lerp(a, b, t) - b == (b - a) * (t - 1.0);
    if a < b {
      MulPositive(b - a, t - 1.0);
    } else if a > b {
      MulPositive(a - b, t - 1.0);
    }
  }

  lemma MulPositive(x: real, y: real)
    requires 0.0 < x && 0.0 < y
    ensures 0.0 < x * y
  {
  }

  /** As written, every tick whose raw fraction exceeds 1 stores a position strictly
      beyond the target on each axis along which the pan moves. */
  lemma AsWrittenTickPassesTarget(i: Interpolator, t: real)
    requires t > 1.0
    ensures i.start.x < i.target.x ==> InterpolateAt(i, t).x > i.target.x
    ensures i.start.x > i.target.x ==> InterpolateAt(i, t).x < i.target.x
    ensures i.start.y < i.target.y ==> InterpolateAt(i, t).y > i.target.y
    ensures i.start.y > i.target.y ==> InterpolateAt(i, t).y < i.target.y
  {
    LerpPassesEnd(i.start.x, i.target.x, t);
    LerpPassesEnd(i.start.y, i.target.y, t);
  }

  /** Smallest distance kept between the selected node and the viewport's left or top
      edge when the camera follows the selection. */
  const AutoPanMargin: real := 10.0

  /** `_activatePanning`'s target: centre the node in the viewport, but never put it
      closer than the margin to the left or top edge. */
  function AutoPanTarget(nodePos: Pos, nodeSize: Size, viewport: Size): (r: Pos)
    ensures r.x <= nodePos.x - AutoPanMargin && r.y <= nodePos.y - AutoPanMargin
    ensures viewport.width / 2.0 - nodeSize.width / 2.0 >= AutoPanMargin ==>
              r.x + viewport.width / 2.0 == nodePos.x + nodeSize.width / 2.0
    ensures viewport.height / 2.0 - nodeSize.height / 2.0 >= AutoPanMargin ==>
              r.y + viewport.height / 2.0 == nodePos.y + nodeSize.height / 2.0
  {
    Pos(nodePos.x - Max(viewport.width / 2.0 - nodeSize.width / 2.0, AutoPanMargin),
        nodePos.y - Max(viewport.height / 2.0 - nodeSize.height / 2.0, AutoPanMargin))
  }
}
