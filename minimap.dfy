/** The minimap ("control") geometry computed by `_setupControl`: a box in the
    bottom-right corner holding the whole content at a uniform scale, and the overlay
    rectangle that shows which part of the content the viewport currently displays. */
module Minimap {
  import opened Common
  import opened Camera

  /** The viewport size is divided by this to size the box. */
  const BoxScale: real := 5.0
  /** Neither side of the box is ever smaller than this. */
  const MinBoxSide: real := 100.0
  /** Gap between the box and the right and bottom edges of the viewport. */
  const CornerMargin: real := 20.0

  datatype Rect = Rect(x: real, y: real, width: real, height: real)

  /** The values `_setupControl` stores in `_controlInfo` and writes to the overlay. */
  datatype ControlBox = ControlBox(
    boxWidth: real,
    boxHeight: real,
    scale: real,
    x: real,
    y: real,
    visibleRect: Rect)

  /** One side of the box before it is fitted to the content. */
  function RawBoxSide(viewportSide: real): (r: real)
    ensures r >= MinBoxSide
  {
    Max(MinBoxSide, viewportSide / BoxScale)
  }

  function ScaleRect(r: Rect, scale: real): Rect {
    Rect(r.x * scale, r.y * scale, r.width * scale, r.height * scale)
  }

  /** `_setupControl` for a content (root node) of the given size: the content is
      scaled to fit the raw box, the box then shrinks to the scaled content but not
      below 100, and sits in the bottom-right corner. */
  function ComputeControlBox(viewport: Size, content: Size, viewPos: Pos): (b: ControlBox)
    requires content.width > 0.0 && content.height > 0.0
    ensures b.boxWidth >= MinBoxSide && b.boxHeight >= MinBoxSide
  {
    var scale := Min(RawBoxSide(viewport.width) / content.width, RawBoxSide(viewport.height) / content.height);
    var boxW := Max(MinBoxSide, content.width * scale);
    var boxH := Max(MinBoxSide, content.height * scale);
    ControlBox(boxW, boxH, scale,
               viewport.width - boxW - CornerMargin,
               viewport.height - boxH - CornerMargin,
               ScaleRect(Rect(viewPos.x, viewPos.y, viewport.width, viewport.height), scale))
  }

  /** The scale is the largest that fits the content into the raw box: positive,
      fitting both sides, and filling one of them exactly. */
  lemma ControlBoxScale(viewport: Size, content: Size, viewPos: Pos)
    requires content.width > 0.0 && content.height > 0.0
    ensures var b := ComputeControlBox(viewport, content, viewPos);
            && b.scale > 0.0
            && content.width * b.scale <= RawBoxSide(viewport.width)
            && content.height * b.scale <= RawBoxSide(viewport.height)
            && (content.width * b.scale == RawBoxSide(viewport.width)
                || content.height * b.scale == RawBoxSide(viewport.height))
  {
    FitScale(RawBoxSide(viewport.width), RawBoxSide(viewport.height), content.width, content.height);
  }

  /** The final box holds the scaled content, equals it on each side unless that is
      below 100, sits the corner margin away from the bottom-right corner, and the
      overlay is the viewport rectangle in content coordinates, scaled. */
  lemma ControlBoxPlacement(viewport: Size, content: Size, viewPos: Pos)
    requires content.width > 0.0 && content.height > 0.0
    ensures var b := ComputeControlBox(viewport, content, viewPos);
            && content.width * b.scale <= b.boxWidth && content.height * b.scale <= b.boxHeight
            && (b.boxWidth == MinBoxSide || b.boxWidth == content.width * b.scale)
            && (b.boxHeight == MinBoxSide || b.boxHeight == content.height * b.scale)
            && b.x + b.boxWidth + CornerMargin == viewport.width
            && b.y + b.boxHeight + CornerMargin == viewport.height
            && b.visibleRect == ScaleRect(Rect(viewPos.x, viewPos.y, viewport.width, viewport.height), b.scale)
  {
  }

  /** The fitting scale: the larger of the two side ratios that still fits both
      sides, so one side fills its raw box exactly. */
  lemma FitScale(rawW: real, rawH: real, w: real, h: real)
    requires rawW > 0.0 && rawH > 0.0 && w > 0.0 && h > 0.0
    ensures var s := Min(rawW / w, rawH / h);
            && s > 0.0 && w * s <= rawW && h * s <= rawH
            && (w * s == rawW || h * s == rawH)
  {
    var s := Min(rawW / w, rawH / h);
    DivMulBound(rawW, w, s);
    DivMulBound(rawH, h, s);
    if rawW / w <= rawH / h {
      assert w * (rawW / w) == rawW;
    } else {
      assert h * (rawH / h) == rawH;
    }
  }

  lemma DivMulBound(a: real, d: real, s: real)
    requires d > 0.0 && s <= a / d
    ensures d * s <= a
  {
    assert d * s <= d * (a / d);
  }

  /** When the camera satisfies the clamp invariant and the viewport is no larger
      than the content, the overlay lies inside the scaled content, hence inside
      the box. */
  lemma {:induction false} OverlayInsidePreview(viewport: Size, content: Size, viewPos: Pos)
    requires content.width > 0.0 && content.height > 0.0
    requires 0.0 <= viewport.width <= content.width && 0.0 <= viewport.height <= content.height
    requires InBounds(viewPos, Some(content), viewport)
    ensures var b := ComputeControlBox(viewport, content, viewPos);
            && 0.0 <= b.visibleRect.x && 0.0 <= b.visibleRect.y
            && b.visibleRect.x + b.visibleRect.width <= content.width * b.scale <= b.boxWidth
            && b.visibleRect.y + b.visibleRect.height <= content.height * b.scale <= b.boxHeight
  {
    var b := ComputeControlBox(viewport, content, viewPos);
    ControlBoxScale(viewport, content, viewPos);
    ControlBoxPlacement(viewport, content, viewPos);
    OverlayInsideScaledContent(viewport, content, viewPos, b.scale);
  }

  /** The same fact for any positive scale. */
  lemma {:induction false} OverlayInsideScaledContent(viewport: Size, content: Size, viewPos: Pos, s: real)
    requires 0.0 < s
    requires 0.0 <= viewport.width <= content.width && 0.0 <= viewport.height <= content.height
    requires InBounds(viewPos, Some(content), viewport)
    ensures var r := ScaleRect(Rect(viewPos.x, viewPos.y, viewport.width, viewport.height), s);
            && 0.0 <= r.x && 0.0 <= r.y
            && r.x + r.width <= content.width * s
            && r.y + r.height <= content.height * s
  {
    SumScaledBound(viewPos.x, viewport.width, content.width, s);
    SumScaledBound(viewPos.y, viewport.height, content.height, s);
  }

  lemma SumScaledBound(p: real, w: real, c: real, s: real)
    requires 0.0 <= p && 0.0 <= w && p + w <= c && 0.0 < s
    ensures 0.0 <= p * s && p * s + w * s <= c * s
  {
    assert p * s + w * s == (p + w) * s;
    MulMonotone(s, p + w, c);
    MulMonotone(s, 0.0, p);
  }

  /** A 1000 by 500 content in a 400 by 300 viewport: the raw box is 100 by 100, the
      scale 0.1, and the final box stays 100 by 100. */
  lemma ScaleExample()
    ensures var b := ComputeControlBox(Size(400.0, 300.0), Size(1000.0, 500.0), Pos(0.0, 0.0));
            b.scale == 0.1 && b.boxWidth == 100.0 && b.boxHeight == 100.0
  {
  }
}
