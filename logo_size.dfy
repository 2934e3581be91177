/** The size arithmetic of `resize_logo`: the logo is scaled to a percentage
    of the image's shorter side, and its height follows from its aspect ratio.
    The program computes both in floating point and truncates with `int()`;
    here the quotients are exact and truncated towards zero. */
module LogoSize {
  import opened Common
  import opened Geometry

  /** A target size; negative when the scale is negative. */
  datatype Size = Size(width: int, height: int)

  /** `int(min(image_width, image_height) * scale / 100)`: the floor of the
      scaled shorter side for a non-negative scale, never more than the shorter
      side while the scale is at most 100 percent. */
  function ScaledWidth(imageWidth: nat, imageHeight: nat, scale: Ratio): (w: int)
    ensures 0 <= scale.num ==>
      0 <= w && w * (100 * scale.den) <= Min(imageWidth, imageHeight) * scale.num < (w + 1) * (100 * scale.den)
    ensures 0 <= scale.num <= 100 * scale.den ==> w <= Min(imageWidth, imageHeight)
    ensures scale.num <= 0 ==> w <= 0
  {
    var shorter := Min(imageWidth, imageHeight);
    var w := TruncDiv(shorter * scale.num, 100 * scale.den);
    if 0 <= scale.num <= 100 * scale.den then
      MulMonotone(scale.num, 100 * scale.den, shorter);
      TruncDivAtMost(shorter * scale.num, 100 * scale.den, shorter);
      w
    else
      w
  }

  /** `(new_logo_width, new_logo_height)`. A logo with a zero side makes the
      aspect-ratio division fail, and the image is skipped. Otherwise the
      height keeps the logo's aspect ratio up to truncation, and a width of
      zero gives a height of zero. */
  function TargetSize(imageWidth: nat, imageHeight: nat, logoWidth: nat, logoHeight: nat,
                      scale: Ratio): (r: Option<Size>)
    ensures r.None? <==> logoWidth == 0 || logoHeight == 0
    ensures r.Some? ==> r.value.width == ScaledWidth(imageWidth, imageHeight, scale)
    ensures r.Some? && 0 <= r.value.width ==>
      && 0 <= r.value.height
      && r.value.height * logoWidth <= r.value.width * logoHeight < (r.value.height + 1) * logoWidth
    ensures r.Some? && r.value.width <= 0 ==> r.value.height <= 0
    ensures r.Some? && r.value.width == 0 ==> r.value.height == 0
  {
    if logoWidth == 0 || logoHeight == 0 then None
    else
      var w := ScaledWidth(imageWidth, imageHeight, scale);
      Some(Size(w, TruncDiv(w * logoHeight, logoWidth)))
  }

  /** A larger scale never gives a narrower logo. */
  lemma ScaledWidthMonotone(imageWidth: nat, imageHeight: nat, scale: Ratio, scale': Ratio)
    requires scale.num * scale'.den <= scale'.num * scale.den
    ensures ScaledWidth(imageWidth, imageHeight, scale) <= ScaledWidth(imageWidth, imageHeight, scale')
  {
    var shorter := Min(imageWidth, imageHeight);
    var a, a' := shorter * scale.num, shorter * scale'.num;
    var b, b' := 100 * scale.den, 100 * scale'.den;
    CrossScaled(scale.num, scale.den, scale'.num, scale'.den, 100 * shorter);
    assert a * b' == (scale.num * scale'.den) * (100 * shorter);
    assert a' * b == (scale'.num * scale.den) * (100 * shorter);
    TruncDivCrossMonotone(a, b, a', b');
  }

  lemma CrossScaled(n: int, d: int, n': int, d': int, k: int)
    requires n * d' <= n' * d && k >= 0
    ensures (n * d') * k <= (n' * d) * k
  {
    MulMonotone(n * d', n' * d, k);
  }

  /** A logo no taller than it is wide, scaled by at most 100 percent, is
      pasted wholly inside the image at every anchor with the default
      padding of 0. */
  lemma WideLogoInside(anchor: Anchor, imageWidth: nat, imageHeight: nat,
                       logoWidth: nat, logoHeight: nat, scale: Ratio)
    requires 0 < logoHeight <= logoWidth
    requires 0 <= scale.num <= 100 * scale.den
    ensures var s := TargetSize(imageWidth, imageHeight, logoWidth, logoHeight, scale).value;
      && 0 <= s.height <= s.width <= Min(imageWidth, imageHeight)
      && Inside(PastePosition(anchor, imageWidth, imageHeight, s.width, s.height, 0),
                imageWidth, imageHeight, s.width, s.height)
  {
    var s := TargetSize(imageWidth, imageHeight, logoWidth, logoHeight, scale).value;
    MulMonotone(logoHeight, logoWidth, s.width);
    assert s.height * logoWidth <= s.width * logoWidth;
    MulCancelLe(s.height, s.width, logoWidth);
    AllAnchorsInside(anchor, imageWidth, imageHeight, s.width, s.height, 0);
  }

  /** A 1000x800 image at scale 20: the logo is 160 wide (a fifth of the
      shorter side); a 400x100 logo becomes 160x40 and, anchored bottom-right
      with padding 10, is pasted at (830, 750). */
  lemma BottomRightExample()
    ensures var s := TargetSize(1000, 800, 400, 100, Fraction(20, 1));
      && s == Some(Size(160, 40))
      && PastePosition(BottomRight, 1000, 800, 160, 40, 10) == Offset(830, 750)
  {
  }
}
