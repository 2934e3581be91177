/** The per-image decisions of `process_image` and `add_text_watermark`:
    which layers are put on an image, the logo's target size, where each
    layer goes and the text's alpha. The pixels themselves (resampling,
    pasting, drawing, compositing) are not modelled; the text's bounding box,
    measured by the font library, is an input. */
module Overlay {
  import opened Common
  import opened Geometry
  import opened LogoSize

  /** The size of a raster (the prepared logo). */
  datatype Dims = Dims(width: nat, height: nat)

  /** The text's bounding box as the font library measures it from (0, 0). */
  datatype TextBox = TextBox(left: int, top: int, right: int, bottom: int)

  /** The settings shared by every image of a run. `textBox` is the measured
      box of the text, or None when the font file cannot be loaded. */
  datatype Watermark = Watermark(anchor: Anchor, padding: int, scale: Ratio,
                                 text: Option<string>, textBox: Option<TextBox>,
                                 textOpacity: Ratio)

  /** Text counts only when given and non-empty, as in `if text`. */
  predicate TextGiven(text: Option<string>) {
    text.Some? && text.value != ""
  }

  /** `int(255 * text_opacity)`: the text's alpha, truncated. For an opacity
      between 0 and 1 it lies between 0 and 255, and full opacity gives 255. */
  function TextAlpha(opacity: Ratio): (alpha: int)
    ensures 0 <= opacity.num ==>
      0 <= alpha && alpha * opacity.den <= 255 * opacity.num < (alpha + 1) * opacity.den
    ensures 0 <= opacity.num <= opacity.den ==> alpha <= 255
    ensures opacity.num == opacity.den ==> alpha == 255
  {
    var alpha := TruncDiv(255 * opacity.num, opacity.den);
    if 0 <= opacity.num <= opacity.den then
      assert 255 * opacity.num <= 255 * opacity.den;
      TruncDivAtMost(255 * opacity.num, opacity.den, 255);
      if opacity.num == opacity.den then TruncDivExact(255, opacity.den); alpha else alpha
    else
      alpha
  }

  /** The alpha is truncated, not rounded: half opacity gives 127. */
  lemma TextAlphaTruncates()
    ensures TextAlpha(Fraction(1, 2)) == 127
  {
  }

  datatype LogoPlacement = LogoPlacement(size: Size, at: Offset)
  datatype TextPlacement = TextPlacement(at: Offset, alpha: int)

  /** The layers put on one image; a missing layer is not drawn. */
  datatype ImagePlan = ImagePlan(logo: Option<LogoPlacement>, text: Option<TextPlacement>)

  /** `process_image` on an image of the given size, with the prepared logo
      if there is one. It fails (the image is skipped) exactly when the logo
      has a zero side or the text's font cannot be loaded. Otherwise there is
      a logo layer exactly when there is a logo, sized by `resize_logo` and
      placed at the anchor by its resized size, and a text layer exactly when
      there is text, placed at the anchor by its bounding box's size. */
  function PlanImage(imageWidth: nat, imageHeight: nat, logo: Option<Dims>, wm: Watermark): (r: Option<ImagePlan>)
    ensures r.None? <==>
      || (logo.Some? && (logo.value.width == 0 || logo.value.height == 0))
      || (TextGiven(wm.text) && wm.textBox.None?)
    ensures r.Some? ==> (r.value.logo.Some? <==> logo.Some?) && (r.value.text.Some? <==> TextGiven(wm.text))
    ensures r.Some? && r.value.logo.Some? ==>
      var l := r.value.logo.value;
      && TargetSize(imageWidth, imageHeight, logo.value.width, logo.value.height, wm.scale) == Some(l.size)
      && l.at == PastePosition(wm.anchor, imageWidth, imageHeight, l.size.width, l.size.height, wm.padding)
    ensures r.Some? && r.value.text.Some? ==>
      var box := wm.textBox.value;
      && r.value.text.value.at
           == PastePosition(wm.anchor, imageWidth, imageHeight, box.right - box.left, box.bottom - box.top, wm.padding)
      && r.value.text.value.alpha == TextAlpha(wm.textOpacity)
  {
    var logoLayer :=
      match logo
      case None => Some(None)
      case Some(d) =>
        match TargetSize(imageWidth, imageHeight, d.width, d.height, wm.scale)
        case None => None
        case Some(s) =>
          Some(Some(LogoPlacement(s, PastePosition(wm.anchor, imageWidth, imageHeight, s.width, s.height, wm.padding))));
    var textLayer :=
      if !TextGiven(wm.text) then Some(None)
      else
        match wm.textBox
        case None => None
        case Some(box) =>
          var at := PastePosition(wm.anchor, imageWidth, imageHeight, box.right - box.left, box.bottom - box.top, wm.padding);
          Some(Some(TextPlacement(at, TextAlpha(wm.textOpacity))));
    if logoLayer.None? || textLayer.None? then None
    else Some(ImagePlan(logoLayer.value, textLayer.value))
  }

  /** With neither a logo nor text, the image is saved without layers. */
  lemma NoWatermarkNoLayers(imageWidth: nat, imageHeight: nat, wm: Watermark)
    requires !TextGiven(wm.text)
    ensures PlanImage(imageWidth, imageHeight, None, wm) == Some(ImagePlan(None, None))
  {
  }

  /** Logo and text share the anchor: at a right anchor the logo's far edge
      and the text's draw origin plus its measured width meet at `W - padding`,
      at a bottom anchor the logo's far edge and the text's origin plus its
      measured height meet at `H - padding`, and at a left or top anchor both
      origins sit at `padding`. */
  lemma LayersShareEdges(imageWidth: nat, imageHeight: nat, logo: Option<Dims>, wm: Watermark)
    requires var r := PlanImage(imageWidth, imageHeight, logo, wm);
      r.Some? && r.value.logo.Some? && r.value.text.Some?
    ensures var r := PlanImage(imageWidth, imageHeight, logo, wm).value;
      var l, t, box := r.logo.value, r.text.value, wm.textBox.value;
      && (OnRight(wm.anchor) ==>
            l.at.x + l.size.width == t.at.x + (box.right - box.left) == imageWidth - wm.padding)
      && (OnBottom(wm.anchor) ==>
            l.at.y + l.size.height == t.at.y + (box.bottom - box.top) == imageHeight - wm.padding)
      && (OnLeft(wm.anchor) ==> l.at.x == t.at.x == wm.padding)
      && (OnTop(wm.anchor) ==> l.at.y == t.at.y == wm.padding)
  {
  }

  /** The text is drawn at its origin without subtracting the box's own
      offset, so its ink spans `at + (left, top)` to `at + (right, bottom)`:
      at a right or bottom anchor it ends `left` or `top` pixels past
      `W - padding` or `H - padding`. */
  lemma TextInkOffset(imageWidth: nat, imageHeight: nat, logo: Option<Dims>, wm: Watermark)
    requires var r := PlanImage(imageWidth, imageHeight, logo, wm);
      r.Some? && r.value.text.Some?
    ensures var t, box := PlanImage(imageWidth, imageHeight, logo, wm).value.text.value, wm.textBox.value;
      && (OnRight(wm.anchor) ==> t.at.x + box.right == imageWidth - wm.padding + box.left)
      && (OnBottom(wm.anchor) ==> t.at.y + box.bottom == imageHeight - wm.padding + box.top)
  {
  }

  /** A box measured 9 pixels below its origin, bottom-right with padding 0
      on a 100x100 image: the ink ends at row 109, below the image. */
  lemma TextInkBelowExample()
    ensures var wm := Watermark(BottomRight, 0, Fraction(20, 1), Some("wm"),
                                Some(TextBox(0, 9, 40, 36)), Fraction(1, 1));
      PlanImage(100, 100, None, wm).value.text.value.at.y + 36 == 109
  {
  }

  /** A 1000x800 image, a 400x100 logo, scale 20, anchored bottom-right with
      padding 10 and no text: the logo is resized to 160x40 and pasted at
      (830, 750). */
  lemma BottomRightPlanExample()
    ensures PlanImage(1000, 800, Some(Dims(400, 100)),
                      Watermark(BottomRight, 10, Fraction(20, 1), None, None, Fraction(1, 1)))
         == Some(ImagePlan(Some(LogoPlacement(Size(160, 40), Offset(830, 750))), None))
  {
    BottomRightExample();
  }
}
