/** `normalize_image` and `detect_leds`: illumination normalisation and the
    lit-pixel (LED) mask. */
module Segmentation {

  import opened Wrappers
  import opened Imaging

  /** `normalize_image(image)`: a missing or empty image gives None; otherwise the
      equalized image, or the unchanged input when the equalization raised. */
  function NormalizeImage(v: Vision, image: Option<Image>): (r: Option<Image>)
    ensures r.None? <==> image.None? || IsEmpty(image.value)
    ensures r.Some? && v.equalize(image.value).None? ==> r.value == image.value
    ensures r.Some? && Sound(v) && Rectangular(image.value) ==> SameShape(image.value, r.value)
  {
    if image.None? || IsEmpty(image.value) then None
    else
      match v.equalize(image.value)
      case Some(normalized) => Some(normalized)
      case None => image
  }

  // The two colour ranges of `detect_leds`, as inclusive HSV bounds.
  const LowerYellow := Hsv(15, 70, 100)
  const UpperYellow := Hsv(45, 255, 255)
  const LowerWhite := Hsv(0, 0, 180)
  const UpperWhite := Hsv(180, 30, 255)

  /** The per-channel inclusive test of `cv2.inRange`. */
  predicate InRange(p: Hsv, lo: Hsv, hi: Hsv)
  {
    lo.h <= p.h <= hi.h && lo.s <= p.s <= hi.s && lo.v <= p.v <= hi.v
  }

  /** Yellow-ish and near-white pixels are told apart by saturation: no pixel is in both ranges. */
  lemma ColourRangesDisjoint(p: Hsv)
    ensures !(InRange(p, LowerYellow, UpperYellow) && InRange(p, LowerWhite, UpperWhite))
  {
  }

  /** `cv2.inRange(hsv, lo, hi)`. */
  function RangeMask(hsv: Plane<Hsv>, lo: Hsv, hi: Hsv): (r: Gray)
    ensures |r| == |hsv| && forall i :: 0 <= i < |hsv| ==> |r[i]| == |hsv[i]|
    ensures forall i, j :: 0 <= i < |hsv| && 0 <= j < |hsv[i]| ==>
              r[i][j] == if InRange(hsv[i][j], lo, hi) then MaxValue else 0
  {
    seq(|hsv|, i requires 0 <= i < |hsv| =>
      seq(|hsv[i]|, j requires 0 <= j < |hsv[i]| => if InRange(hsv[i][j], lo, hi) then MaxValue else 0))
  }

  /** Bitwise OR of two 8-bit values. */
  function BitOr(a: Byte, b: Byte): Byte
  {
    ((a as bv8) | (b as bv8)) as int
  }

  /** On mask values the OR is 255 exactly when either operand is 255. */
  lemma BitOrOnMasks(a: Byte, b: Byte)
    requires (a == 0 || a == MaxValue) && (b == 0 || b == MaxValue)
    ensures BitOr(a, b) == (if a == MaxValue || b == MaxValue then MaxValue else 0)
  {
    if a == 0 && b == 0 {
      assert (0 as bv8) | (0 as bv8) == 0;
    } else if a == 0 {
      assert (0 as bv8) | (255 as bv8) == 255;
    } else if b == 0 {
      assert (255 as bv8) | (0 as bv8) == 255;
    } else {
      assert (255 as bv8) | (255 as bv8) == 255;
    }
  }

  /** `cv2.bitwise_or(p, q)`. */
  function Union(p: Gray, q: Gray): (r: Gray)
    requires SameShape(p, q)
    ensures SameShape(p, r)
    ensures forall i, j :: 0 <= i < |p| && 0 <= j < |p[i]| ==> r[i][j] == BitOr(p[i][j], q[i][j])
  {
    seq(|p|, i requires 0 <= i < |p| => seq(|p[i]|, j requires 0 <= j < |p[i]| => BitOr(p[i][j], q[i][j])))
  }

  /** Yellow mask OR white mask. */
  function ColourMask(hsv: Plane<Hsv>): (r: Gray)
    requires Rectangular(hsv)
    ensures SameShape(hsv, r)
  {
    Union(RangeMask(hsv, LowerYellow, UpperYellow), RangeMask(hsv, LowerWhite, UpperWhite))
  }

  /** Opening then closing with the 5x5 kernel. */
  function Clean(v: Vision, m: Gray): (r: Gray)
    requires Sound(v) && Rectangular(m)
    ensures SameShape(m, r)
  {
    v.closing(v.opening(m))
  }

  /** The mask of `detect_leds` from the HSV and gray conversions of the image:
      cleaned colour mask, OR the brightness mask `gray > 200`, cleaned again. */
  function LedMask(v: Vision, hsv: Plane<Hsv>, gray: Gray): (r: Gray)
    requires Sound(v) && SameShape(hsv, gray)
    ensures SameShape(hsv, r)
  {
    Clean(v, Union(Clean(v, ColourMask(hsv)), Binarise(gray)))
  }

  /** `detect_leds(image)`: None for a missing or empty image or when a colour
      conversion raised; otherwise the LED mask, of the image's shape. */
  function DetectLeds(v: Vision, image: Option<Image>): (r: Option<Gray>)
    requires Sound(v)
    requires image.Some? ==> Rectangular(image.value)
    ensures r.None? <==> image.None? || IsEmpty(image.value)
                         || v.toHsv(image.value).None? || v.toGray(image.value).None?
    ensures r.Some? ==> SameShape(image.value, r.value)
  {
    if image.None? || IsEmpty(image.value) then None
    else
      match v.toHsv(image.value)
      case None => None
      case Some(hsv) =>
        match v.toGray(image.value)
        case None => None
        case Some(gray) => Some(LedMask(v, hsv, gray))
  }

  /** The mask before morphology: colour ranges OR brightness. */
  function RawLedMask(hsv: Plane<Hsv>, gray: Gray): (r: Gray)
    requires SameShape(hsv, gray)
    ensures SameShape(hsv, r)
  {
    Union(ColourMask(hsv), Binarise(gray))
  }

  /** A pixel of the unmorphed mask is 255 exactly when its HSV value lies in the
      yellow or the white range (bounds included) or its gray level exceeds 200, and
      0 otherwise. */
  lemma RawLedMaskPixel(hsv: Plane<Hsv>, gray: Gray, i: nat, j: nat)
    requires SameShape(hsv, gray)
    requires i < |hsv| && j < Width(hsv)
    ensures RawLedMask(hsv, gray)[i][j] ==
              if InRange(hsv[i][j], LowerYellow, UpperYellow) || InRange(hsv[i][j], LowerWhite, UpperWhite)
                 || gray[i][j] > BrightLevel
              then MaxValue else 0
  {
    var y := RangeMask(hsv, LowerYellow, UpperYellow);
    var w := RangeMask(hsv, LowerWhite, UpperWhite);
    BitOrOnMasks(y[i][j], w[i][j]);
    BitOrOnMasks(ColourMask(hsv)[i][j], Binarise(gray)[i][j]);
  }

  /** With opening and closing that leave a mask unchanged, `detect_leds` yields the
      unmorphed mask. */
  lemma DetectLedsWithoutMorphology(v: Vision, image: Image)
    requires Sound(v) && Rectangular(image) && !IsEmpty(image)
    requires forall m :: v.opening(m) == m && v.closing(m) == m
    requires v.toHsv(image).Some? && v.toGray(image).Some?
    ensures DetectLeds(v, Some(image)) == Some(RawLedMask(v.toHsv(image).value, v.toGray(image).value))
  {
  }
}
