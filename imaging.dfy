/** Images as OpenCV hands them to the inspection code: rectangular planes of
    8-bit pixels, indexed `[row][column]` (numpy's `[y, x]`). The OpenCV calls the
    routes make are not re-implemented: they are the fields of a `Vision` value,
    and `Sound` states the few facts about them the routes rely on. */
module Imaging {

  import opened Wrappers

  type Byte = x: int | 0 <= x < 256

  type Plane<T> = seq<seq<T>>

  /** A pixel of a BGR image and of its HSV conversion (hue 0..180 in OpenCV). */
  datatype Bgr = Bgr(b: Byte, g: Byte, r: Byte)
  datatype Hsv = Hsv(h: Byte, s: Byte, v: Byte)

  type Image = Plane<Bgr>
  type Gray = Plane<Byte>

  /** `p` has `h` rows of `w` pixels each (numpy shape `(h, w)`). */
  predicate IsGrid<T>(p: Plane<T>, w: nat, h: nat)
  {
    |p| == h && forall r :: 0 <= r < |p| ==> |p[r]| == w
  }

  function Width<T>(p: Plane<T>): nat
  {
    if p == [] then 0 else |p[0]|
  }

  predicate Rectangular<T>(p: Plane<T>)
  {
    IsGrid(p, Width(p), |p|)
  }

  /** numpy's `image.size == 0`. */
  predicate IsEmpty<T>(p: Plane<T>)
  {
    |p| == 0 || Width(p) == 0
  }

  /** What `cv2.imread` returns when it succeeds: a non-empty rectangular image. */
  predicate IsRaster<T>(p: Plane<T>)
  {
    Rectangular(p) && !IsEmpty(p)
  }

  predicate SameShape<S, T>(p: Plane<S>, q: Plane<T>)
  {
    Rectangular(p) && IsGrid(q, Width(p), |p|)
  }

  /** A region reported by `findContours` on a binary image: its `boundingRect`
      `(x, y, w, h)` and its `contourArea`. */
  datatype Region = Region(x: int, y: int, w: int, h: int, area: real)

  /** An axis-aligned window `(x, y, w, h)`. */
  datatype Box = Box(x: int, y: int, w: int, h: int)

  predicate BoxInside(b: Box, width: int, height: int)
  {
    0 <= b.x && 0 <= b.y && 0 <= b.w && 0 <= b.h && b.x + b.w <= width && b.y + b.h <= height
  }

  /** A bounding rectangle of a contour found in a `width` x `height` image. */
  predicate RegionInside(reg: Region, width: int, height: int)
  {
    0 <= reg.x && 0 <= reg.y && 1 <= reg.w && 1 <= reg.h
    && reg.x + reg.w <= width && reg.y + reg.h <= height
  }

  /** The OpenCV primitives. A `None` result is a call that raised.
      - equalize: BGR -> LAB, CLAHE (clip limit 2.0, 8x8 tiles) on L, merge, LAB -> BGR
      - toGray, toHsv: `cvtColor` to GRAY and to HSV
      - opening, closing: `morphologyEx` with the 5x5 all-ones kernel
      - contours: `findContours(RETR_EXTERNAL, CHAIN_APPROX_SIMPLE)` followed by
        `boundingRect` and `contourArea`, in the traversal order OpenCV yields
      - resize: `cv2.resize(img, (w, h))` */
  datatype Vision = Vision(
    equalize: Image -> Option<Image>,
    toGray: Image -> Option<Gray>,
    toHsv: Image -> Option<Plane<Hsv>>,
    opening: Gray -> Gray,
    closing: Gray -> Gray,
    contours: Gray -> seq<Region>,
    resize: (Image, nat, nat) -> Image)

  /** What OpenCV guarantees about these calls: conversions, equalization and
      morphology keep the image's shape, `resize` yields the requested shape, and
      every contour's bounding rectangle lies inside the image. */
  ghost predicate Sound(v: Vision)
  {
    && (forall img, w, h :: IsGrid(v.resize(img, w, h), w, h))
    && (forall img :: Rectangular(img) && v.equalize(img).Some? ==> SameShape(img, v.equalize(img).value))
    && (forall img :: Rectangular(img) && v.toGray(img).Some? ==> SameShape(img, v.toGray(img).value))
    && (forall img :: Rectangular(img) && v.toHsv(img).Some? ==> SameShape(img, v.toHsv(img).value))
    && (forall g :: Rectangular(g) ==> SameShape(g, v.opening(g)))
    && (forall g :: Rectangular(g) ==> SameShape(g, v.closing(g)))
    && (forall g, i :: Rectangular(g) && 0 <= i < |v.contours(g)| ==> RegionInside(v.contours(g)[i], Width(g), |g|))
  }

  // ---------------------------------------------------------------------------
  // Binarisation: `cv2.threshold(gray, 200, 255, THRESH_BINARY)`

  const BrightLevel := 200
  const MaxValue := 255

  predicate IsBinary(p: Gray)
  {
    forall r, c :: 0 <= r < |p| && 0 <= c < |p[r]| ==> p[r][c] == 0 || p[r][c] == MaxValue
  }

  function BinarisePixel(v: Byte): (b: Byte)
    ensures b == MaxValue <==> v > BrightLevel
    ensures b == 0 <==> v <= BrightLevel
  {
    if v > BrightLevel then MaxValue else 0
  }

  function Binarise(g: Gray): (r: Gray)
    ensures |r| == |g| && forall i :: 0 <= i < |g| ==> |r[i]| == |g[i]|
    ensures forall i, j :: 0 <= i < |g| && 0 <= j < |g[i]| ==> r[i][j] == BinarisePixel(g[i][j])
  {
    seq(|g|, i requires 0 <= i < |g| => seq(|g[i]|, j requires 0 <= j < |g[i]| => BinarisePixel(g[i][j])))
  }

  /** The binarised image holds only 0 and 255, and binarising it again changes nothing. */
  lemma BinariseIsBinary(g: Gray)
    ensures IsBinary(Binarise(g))
    ensures Binarise(Binarise(g)) == Binarise(g)
  {
    var b := Binarise(g);
    forall i | 0 <= i < |b| ensures Binarise(b)[i] == b[i] {
    }
  }

  // ---------------------------------------------------------------------------
  // Crops, differences, counts

  /** numpy's `p[b.y:b.y+b.h, b.x:b.x+b.w]` for a window inside the image. */
  function Crop<T>(p: Plane<T>, b: Box): (r: Plane<T>)
    requires Rectangular(p) && BoxInside(b, Width(p), |p|)
    ensures IsGrid(r, b.w, b.h)
    ensures forall i, j :: 0 <= i < b.h && 0 <= j < b.w ==> r[i][j] == p[b.y + i][b.x + j]
  {
    seq(b.h, i requires 0 <= i < b.h => p[b.y + i][b.x .. b.x + b.w])
  }

  function AbsDiffPixel(a: Byte, b: Byte): (d: Byte)
    ensures d != 0 <==> a != b
  {
    if a >= b then a - b else b - a
  }

  /** `cv2.absdiff(p, q)`: a pixel of the difference is non-zero exactly where the
      two images disagree. */
  function AbsDiff(p: Gray, q: Gray): (r: Gray)
    requires SameShape(p, q)
    ensures SameShape(p, r)
    ensures forall i, j :: 0 <= i < |p| && 0 <= j < |p[i]| ==> (r[i][j] != 0 <==> p[i][j] != q[i][j])
  {
    seq(|p|, i requires 0 <= i < |p| => seq(|p[i]|, j requires 0 <= j < |p[i]| => AbsDiffPixel(p[i][j], q[i][j])))
  }

  function RowNonZero(row: seq<Byte>): nat
  {
    if row == [] then 0 else (if row[0] != 0 then 1 else 0) + RowNonZero(row[1..])
  }

  /** `cv2.countNonZero(p)`. */
  function CountNonZero(p: Gray): nat
  {
    if p == [] then 0 else RowNonZero(p[0]) + CountNonZero(p[1..])
  }

  lemma {:induction false} RowNonZeroBounds(row: seq<Byte>)
    ensures RowNonZero(row) <= |row|
    ensures RowNonZero(row) == 0 <==> forall j :: 0 <= j < |row| ==> row[j] == 0
  {
    if row != [] {
      RowNonZeroBounds(row[1..]);
      if RowNonZero(row) == 0 {
        forall j | 0 <= j < |row| ensures row[j] == 0 {
          if j > 0 { assert row[j] == row[1..][j - 1]; }
        }
      }
    }
  }

  /** At most every pixel of a `w` x `h` plane is non-zero, and the count is zero
      exactly when every pixel is zero. */
  lemma {:induction false} CountNonZeroBounds(p: Gray, w: nat, h: nat)
    requires IsGrid(p, w, h)
    ensures CountNonZero(p) <= w * h
    ensures CountNonZero(p) == 0 <==> forall i, j :: 0 <= i < h && 0 <= j < w ==> p[i][j] == 0
  {
    if p != [] {
      RowNonZeroBounds(p[0]);
      CountNonZeroBounds(p[1..], w, h - 1);
      assert w * h == w + w * (h - 1);
      if CountNonZero(p) == 0 {
        forall i, j | 0 <= i < h && 0 <= j < w ensures p[i][j] == 0 {
          if i > 0 { assert p[i] == p[1..][i - 1]; }
        }
      }
    }
  }

  // ---------------------------------------------------------------------------
  // Region of interest around an LED: grown by 5 px on each side, clipped.

  const RoiMargin := 5

  function Max(a: int, b: int): int { if a >= b then a else b }
  function Min(a: int, b: int): int { if a <= b then a else b }

  /** `x_e = max(0, x-5)`, `y_e = max(0, y-5)`, `w_e = min(W - x_e, w + 10)`,
      `h_e = min(H - y_e, h + 10)`. The window lies inside the image, is never empty
      (so the percentage never divides by zero), reaches at most 5 px to the left
      and above the box and at most 10 px beyond its width and height, and holds the
      whole box whenever the box fits in the image. */
  function ExpandRoi(x: int, y: int, w: int, h: int, width: int, height: int): (b: Box)
    requires 0 <= x < width && 0 <= y < height && 0 <= w && 0 <= h
    ensures BoxInside(b, width, height)
    ensures b.w >= 1 && b.h >= 1
    ensures x - RoiMargin <= b.x <= x && y - RoiMargin <= b.y <= y
    ensures b.w <= w + 2 * RoiMargin && b.h <= h + 2 * RoiMargin
    ensures x + w <= width ==> x + w <= b.x + b.w
    ensures y + h <= height ==> y + h <= b.y + b.h
  {
    var xe := Max(0, x - RoiMargin);
    var ye := Max(0, y - RoiMargin);
    Box(xe, ye, Min(width - xe, w + 2 * RoiMargin), Min(height - ye, h + 2 * RoiMargin))
  }
}
