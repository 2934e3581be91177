/** Anchor geometry: where an overlay of a given size goes inside an image of
    a given size, for one of the five named anchors and a padding. Nothing is
    clamped: an element larger than the image, or a negative padding, gives
    coordinates outside the image. */
module Geometry {
  import opened Common

  datatype Anchor = TopLeft | TopRight | BottomLeft | BottomRight | Center

  /** The top-left corner at which the element is pasted. */
  datatype Offset = Offset(x: int, y: int)

  /** The anchor's name on the command line. */
  function AnchorName(a: Anchor): string {
    match a
    case TopLeft => "topleft"
    case TopRight => "topright"
    case BottomLeft => "bottomleft"
    case BottomRight => "bottomright"
    case Center => "center"
  }

  /** The string comparison chain of the position dispatch; a name outside
      the five gives no position. */
  function ParseAnchor(name: string): (r: Option<Anchor>)
    ensures r.Some? ==> AnchorName(r.value) == name
    ensures r.None? ==> forall a: Anchor :: AnchorName(a) != name
  {
    if name == "topleft" then Some(TopLeft)
    else if name == "topright" then Some(TopRight)
    else if name == "bottomleft" then Some(BottomLeft)
    else if name == "bottomright" then Some(BottomRight)
    else if name == "center" then Some(Center)
    else None
  }

  lemma ParseAnchorName(a: Anchor)
    ensures ParseAnchor(AnchorName(a)) == Some(a)
  {
  }

  predicate OnLeft(a: Anchor) { a == TopLeft || a == BottomLeft }
  predicate OnRight(a: Anchor) { a == TopRight || a == BottomRight }
  predicate OnTop(a: Anchor) { a == TopLeft || a == TopRight }
  predicate OnBottom(a: Anchor) { a == BottomLeft || a == BottomRight }

  /** `get_paste_position`. Each corner anchor puts the element `padding` away
      from the two edges it names; the centre anchor ignores the padding and
      splits the slack in each axis, the smaller half (floored) before it. */
  function PastePosition(anchor: Anchor, imageWidth: int, imageHeight: int,
                         elementWidth: int, elementHeight: int, padding: int): (p: Offset)
    ensures OnLeft(anchor) ==> p.x == padding
    ensures OnRight(anchor) ==> p.x + elementWidth + padding == imageWidth
    ensures OnTop(anchor) ==> p.y == padding
    ensures OnBottom(anchor) ==> p.y + elementHeight + padding == imageHeight
    ensures anchor == Center ==> 2 * p.x <= imageWidth - elementWidth < 2 * p.x + 2
    ensures anchor == Center ==> 2 * p.y <= imageHeight - elementHeight < 2 * p.y + 2
  {
    match anchor
    case TopLeft => Offset(padding, padding)
    case TopRight => Offset(imageWidth - elementWidth - padding, padding)
    case BottomLeft => Offset(padding, imageHeight - elementHeight - padding)
    case BottomRight => Offset(imageWidth - elementWidth - padding, imageHeight - elementHeight - padding)
    case Center => Offset(FloorDiv(imageWidth - elementWidth, 2), FloorDiv(imageHeight - elementHeight, 2))
  }

  /** The element pasted at `p` lies wholly inside the image. */
  predicate Inside(p: Offset, imageWidth: int, imageHeight: int, elementWidth: int, elementHeight: int) {
    0 <= p.x && p.x + elementWidth <= imageWidth && 0 <= p.y && p.y + elementHeight <= imageHeight
  }

  /** A corner anchor keeps the element inside exactly when the padding is
      non-negative and element plus padding fits in each axis. */
  lemma CornerInsideIff(anchor: Anchor, imageWidth: int, imageHeight: int,
                        elementWidth: int, elementHeight: int, padding: int)
    requires anchor != Center
    ensures Inside(PastePosition(anchor, imageWidth, imageHeight, elementWidth, elementHeight, padding),
                   imageWidth, imageHeight, elementWidth, elementHeight)
        <==> 0 <= padding && elementWidth + padding <= imageWidth && elementHeight + padding <= imageHeight
  {
  }

  /** The centre anchor keeps the element inside exactly when it fits, whatever
      the padding. */
  lemma CenterInsideIff(imageWidth: int, imageHeight: int, elementWidth: int, elementHeight: int, padding: int)
    ensures Inside(PastePosition(Center, imageWidth, imageHeight, elementWidth, elementHeight, padding),
                   imageWidth, imageHeight, elementWidth, elementHeight)
        <==> elementWidth <= imageWidth && elementHeight <= imageHeight
  {
  }

  /** With a non-negative padding and room for element plus padding, every
      anchor places the element wholly inside the image. */
  lemma AllAnchorsInside(anchor: Anchor, imageWidth: int, imageHeight: int,
                         elementWidth: int, elementHeight: int, padding: int)
    requires 0 <= padding && elementWidth + padding <= imageWidth && elementHeight + padding <= imageHeight
    ensures Inside(PastePosition(anchor, imageWidth, imageHeight, elementWidth, elementHeight, padding),
                   imageWidth, imageHeight, elementWidth, elementHeight)
  {
    if anchor == Center {
      CenterInsideIff(imageWidth, imageHeight, elementWidth, elementHeight, padding);
    } else {
      CornerInsideIff(anchor, imageWidth, imageHeight, elementWidth, elementHeight, padding);
    }
  }

  /** The centred element's margins: the one after it is the one before it or
      one pixel more. */
  lemma CenterMargins(imageWidth: int, imageHeight: int, elementWidth: int, elementHeight: int, padding: int)
    ensures var p := PastePosition(Center, imageWidth, imageHeight, elementWidth, elementHeight, padding);
      && p.x <= imageWidth - (p.x + elementWidth) <= p.x + 1
      && p.y <= imageHeight - (p.y + elementHeight) <= p.y + 1
  {
  }

  /** The padding has no effect on the centre anchor. */
  lemma CenterIgnoresPadding(imageWidth: int, imageHeight: int, elementWidth: int, elementHeight: int,
                             padding: int, padding': int)
    ensures PastePosition(Center, imageWidth, imageHeight, elementWidth, elementHeight, padding)
         == PastePosition(Center, imageWidth, imageHeight, elementWidth, elementHeight, padding')
  {
  }

  /** An independent reading of the anchors, one axis at a time. */
  datatype Align = Start | Middle | End

  function Horizontal(a: Anchor): Align {
    if OnLeft(a) then Start else if OnRight(a) then End else Middle
  }

  function Vertical(a: Anchor): Align {
    if OnTop(a) then Start else if OnBottom(a) then End else Middle
  }

  /** Offset along one axis: `padding` from the start, `padding` short of the
      end, or the floored middle of the slack. */
  function AxisOffset(align: Align, container: int, element: int, padding: int): int {
    match align
    case Start => padding
    case End => container - element - padding
    case Middle => FloorDiv(container - element, 2)
  }

  /** The five-way dispatch agrees with placing each axis on its own. */
  lemma PastePositionByAxes(anchor: Anchor, imageWidth: int, imageHeight: int,
                            elementWidth: int, elementHeight: int, padding: int)
    ensures PastePosition(anchor, imageWidth, imageHeight, elementWidth, elementHeight, padding)
         == Offset(AxisOffset(Horizontal(anchor), imageWidth, elementWidth, padding),
                   AxisOffset(Vertical(anchor), imageHeight, elementHeight, padding))
  {
  }

  /** Right anchors mirror left anchors, bottom anchors mirror top anchors. */
  lemma MirroredAnchors(imageWidth: int, imageHeight: int, elementWidth: int, elementHeight: int, padding: int)
    ensures var tl := PastePosition(TopLeft, imageWidth, imageHeight, elementWidth, elementHeight, padding);
            var br := PastePosition(BottomRight, imageWidth, imageHeight, elementWidth, elementHeight, padding);
      && br.x == imageWidth - elementWidth - tl.x
      && br.y == imageHeight - elementHeight - tl.y
  {
  }
}
