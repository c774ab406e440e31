/** `test_image_processing`: the offline validator that compares a good sample with a
    defective one. It counts the difference blobs that are large enough and touch a
    reference LED, and the cells of a 4x4 grid whose colour histograms correlate
    poorly, and passes when the sum of the two counts is positive. */
module GridValidator {

  import opened Wrappers
  import opened Imaging
  import opened Segmentation
  import opened Comparator
  import Pipeline

  const GridSize := 4
  const DiffLevel := 50
  const LowestDefectArea: real := 50.0
  const DefaultLedArea: real := 500.0
  const AreaFraction: real := 0.10

  // ---------------------------------------------------------------------------
  // The 4x4 grid

  /** Rows `[y1, y2)` and columns `[x1, x2)` of a grid cell. */
  datatype Cell = Cell(y1: int, y2: int, x1: int, x2: int)

  /** Cell (i, j) of an `h` x `w` image: `h // 4` rows by `w // 4` columns. */
  function CellAt(h: nat, w: nat, i: nat, j: nat): Cell
  {
    var cellH, cellW := h / GridSize, w / GridSize;
    Cell(i * cellH, (i + 1) * cellH, j * cellW, (j + 1) * cellW)
  }

  predicate Covers(c: Cell, row: int, col: int)
  {
    c.y1 <= row < c.y2 && c.x1 <= col < c.x2
  }

  predicate CellInside(c: Cell, h: int, w: int)
  {
    0 <= c.y1 <= c.y2 <= h && 0 <= c.x1 <= c.x2 <= w
  }

  lemma MulLe(a: nat, b: nat, c: nat)
    requires a <= b
    ensures a * c <= b * c
  {
  }

  /** Every cell lies inside the image and measures `h // 4` by `w // 4`. */
  lemma CellInBounds(h: nat, w: nat, i: nat, j: nat)
    requires i < GridSize && j < GridSize
    ensures CellInside(CellAt(h, w, i, j), h, w)
    ensures CellAt(h, w, i, j).y2 - CellAt(h, w, i, j).y1 == h / GridSize
    ensures CellAt(h, w, i, j).x2 - CellAt(h, w, i, j).x1 == w / GridSize
  {
    MulLe(i + 1, GridSize, h / GridSize);
    MulLe(j + 1, GridSize, w / GridSize);
  }

  /** No pixel lies in two different cells. */
  lemma CellsDisjoint(h: nat, w: nat, i: nat, j: nat, i': nat, j': nat, row: int, col: int)
    requires i < GridSize && j < GridSize && i' < GridSize && j' < GridSize
    requires Covers(CellAt(h, w, i, j), row, col) && Covers(CellAt(h, w, i', j'), row, col)
    ensures i == i' && j == j'
  {
    var cellH, cellW := h / GridSize, w / GridSize;
    if i < i' {
      MulLe(i + 1, i', cellH);
    } else if i' < i {
      MulLe(i' + 1, i, cellH);
    }
    if j < j' {
      MulLe(j + 1, j', cellW);
    } else if j' < j {
      MulLe(j' + 1, j, cellW);
    }
  }

  lemma DivBracket(x: nat, d: nat)
    requires d > 0
    ensures (x / d) * d <= x < (x / d + 1) * d
  {
    assert x == (x / d) * d + x % d;
    assert (x / d + 1) * d == (x / d) * d + d;
  }

  /** The cell that examines a pixel of the covered part. */
  lemma CoveringCell(h: nat, w: nat, row: nat, col: nat)
    requires row < GridSize * (h / GridSize) && col < GridSize * (w / GridSize)
    ensures row / (h / GridSize) < GridSize && col / (w / GridSize) < GridSize
    ensures Covers(CellAt(h, w, row / (h / GridSize), col / (w / GridSize)), row, col)
  {
    var cellH, cellW := h / GridSize, w / GridSize;
    var i, j := row / cellH, col / cellW;
    DivBracket(row, cellH);
    DivBracket(col, cellW);
    if i >= GridSize {
      MulLe(GridSize, i, cellH);
    }
    if j >= GridSize {
      MulLe(GridSize, j, cellW);
    }
  }

  /** A pixel is examined by some cell exactly when it lies in the top `4 * (h // 4)`
      rows and the left `4 * (w // 4)` columns: the last `h % 4` rows and `w % 4`
      columns are never examined. */
  lemma CoveredPixels(h: nat, w: nat, row: nat, col: nat)
    ensures (exists i: nat, j: nat :: i < GridSize && j < GridSize && Covers(CellAt(h, w, i, j), row, col))
            <==> row < GridSize * (h / GridSize) && col < GridSize * (w / GridSize)
  {
    if row < GridSize * (h / GridSize) && col < GridSize * (w / GridSize) {
      CoveringCell(h, w, row, col);
      var i, j := row / (h / GridSize), col / (w / GridSize);
      assert i < GridSize && j < GridSize && Covers(CellAt(h, w, i, j), row, col);
    } else {
      forall i: nat, j: nat | i < GridSize && j < GridSize ensures !Covers(CellAt(h, w, i, j), row, col) {
        CoveredBound(h, w, i, j, row, col);
      }
    }
  }

  /** A pixel some cell examines lies in the covered part. */
  lemma CoveredBound(h: nat, w: nat, i: nat, j: nat, row: int, col: int)
    requires i < GridSize && j < GridSize
    ensures Covers(CellAt(h, w, i, j), row, col) ==> row < GridSize * (h / GridSize) && col < GridSize * (w / GridSize)
  {
    MulLe(i + 1, GridSize, h / GridSize);
    MulLe(j + 1, GridSize, w / GridSize);
  }

  /** The 16 cells in the order the two loops visit them. */
  function GridCells(h: nat, w: nat): (cells: seq<Cell>)
    ensures |cells| == GridSize * GridSize
  {
    seq(GridSize * GridSize, k requires 0 <= k < GridSize * GridSize => CellAt(h, w, k / GridSize, k % GridSize))
  }

  /** Cell number `4 * i + j` of the list is the cell the loops compute at (i, j). */
  lemma GridCellAt(h: nat, w: nat, i: nat, j: nat)
    requires i < GridSize && j < GridSize
    ensures GridSize * i + j < |GridCells(h, w)|
    ensures GridCells(h, w)[GridSize * i + j] == CellAt(h, w, i, j)
  {
    var k := GridSize * i + j;
    assert k / GridSize == i && k % GridSize == j;
  }

  predicate AllCellsInside(cells: seq<Cell>, h: int, w: int)
  {
    forall k :: 0 <= k < |cells| ==> CellInside(cells[k], h, w)
  }

  lemma GridCellsInside(h: nat, w: nat)
    ensures AllCellsInside(GridCells(h, w), h, w)
  {
    forall k | 0 <= k < GridSize * GridSize ensures CellInside(GridCells(h, w)[k], h, w) {
      CellInBounds(h, w, k / GridSize, k % GridSize);
    }
  }

  function CellBox(c: Cell): Box
  {
    Box(c.x1, c.y1, c.x2 - c.x1, c.y2 - c.y1)
  }

  /** The outcome of `compareHist(CORREL) < 0.7` on the two cells' normalized
      32x32x32 BGR histograms, which is not modelled, is the `dissimilar` parameter. */
  predicate CellDiffers(good: Image, defective: Image, c: Cell, dissimilar: (Image, Image) -> bool)
    requires SameShape(good, defective) && CellInside(c, |good|, Width(good))
  {
    dissimilar(Crop(good, CellBox(c)), Crop(defective, CellBox(c)))
  }

  /** The cells of `cells` whose histograms differ, in visiting order. */
  function FlaggedCells(good: Image, defective: Image, cells: seq<Cell>, dissimilar: (Image, Image) -> bool)
    : (f: seq<Cell>)
    requires SameShape(good, defective) && AllCellsInside(cells, |good|, Width(good))
    ensures |f| <= |cells|
    decreases |cells|
  {
    if cells == [] then []
    else
      var front := cells[..|cells| - 1];
      var last := cells[|cells| - 1];
      var prev := FlaggedCells(good, defective, front, dissimilar);
      if CellDiffers(good, defective, last, dissimilar) then prev + [last] else prev
  }

  /** A cell is flagged exactly when it is visited and its histograms differ; no cell
      is counted twice. */
  lemma {:induction false} FlaggedCellsMembers(good: Image, defective: Image, cells: seq<Cell>,
                                              dissimilar: (Image, Image) -> bool)
    requires SameShape(good, defective) && AllCellsInside(cells, |good|, Width(good))
    ensures forall c :: c in FlaggedCells(good, defective, cells, dissimilar) <==>
                        c in cells && CellDiffers(good, defective, c, dissimilar)
    decreases |cells|
  {
    if cells != [] {
      var front := cells[..|cells| - 1];
      assert cells == front + [cells[|cells| - 1]];
      FlaggedCellsMembers(good, defective, front, dissimilar);
    }
  }

  lemma FlaggedStep(good: Image, defective: Image, cells: seq<Cell>, k: nat, dissimilar: (Image, Image) -> bool)
    requires SameShape(good, defective) && AllCellsInside(cells, |good|, Width(good)) && k < |cells|
    ensures AllCellsInside(cells[..k], |good|, Width(good)) && AllCellsInside(cells[..k + 1], |good|, Width(good))
    ensures FlaggedCells(good, defective, cells[..k + 1], dissimilar)
            == FlaggedCells(good, defective, cells[..k], dissimilar)
               + (if CellDiffers(good, defective, cells[k], dissimilar) then [cells[k]] else [])
  {
    var pre := cells[..k + 1];
    assert pre[..|pre| - 1] == cells[..k];
    assert pre[|pre| - 1] == cells[k];
  }

  /** One visit of the histogram loop: cell (i, j), with the box the loop crops,
      is appended to the flagged cells exactly when the crops the loop takes from
      both images are dissimilar. */
  lemma HistogramStep(good: Image, defective: Image, dissimilar: (Image, Image) -> bool, i: nat, j: nat,
                      c: Cell, b: Box)
    requires SameShape(good, defective) && i < GridSize && j < GridSize
    requires c == CellAt(|good|, Width(good), i, j) && b == CellBox(c)
    ensures AllCellsInside(GridCells(|good|, Width(good))[..GridSize * i + j], |good|, Width(good))
    ensures AllCellsInside(GridCells(|good|, Width(good))[..GridSize * i + j + 1], |good|, Width(good))
    ensures BoxInside(b, Width(good), |good|)
    ensures FlaggedCells(good, defective, GridCells(|good|, Width(good))[..GridSize * i + j + 1], dissimilar)
            == FlaggedCells(good, defective, GridCells(|good|, Width(good))[..GridSize * i + j], dissimilar)
               + (if dissimilar(Crop(good, b), Crop(defective, b)) then [c] else [])
  {
    var h, w := |good|, Width(good);
    GridCellsInside(h, w);
    GridCellAt(h, w, i, j);
    CellInBounds(h, w, i, j);
    FlaggedStep(good, defective, GridCells(h, w), GridSize * i + j, dissimilar);
  }

  /** The body of the histogram loop for cell (i, j): slice the cell out of both
      images and compare their histograms. */
  method TestCell(good: Image, defective: Image, dissimilar: (Image, Image) -> bool, i: nat, j: nat)
    returns (cell: Cell, differs: bool)
    requires SameShape(good, defective) && i < GridSize && j < GridSize
    ensures cell == CellAt(|good|, Width(good), i, j) && CellInside(cell, |good|, Width(good))
    ensures differs == CellDiffers(good, defective, cell, dissimilar)
  {
    var h, w := |good|, Width(good);
    var cellH, cellW := h / GridSize, w / GridSize;
    var y1, y2 := i * cellH, (i + 1) * cellH;
    var x1, x2 := j * cellW, (j + 1) * cellW;
    cell := Cell(y1, y2, x1, x2);
    CellInBounds(h, w, i, j);
    var box := Box(x1, y1, x2 - x1, y2 - y1);
    var refCell := Crop(good, box);
    var testCell := Crop(defective, box);
    differs := dissimilar(refCell, testCell);
  }

  /** One row of the histogram loop: visits the cells (i, 0) to (i, 3) and counts
      those whose histograms differ. */
  method HistogramRow(good: Image, defective: Image, dissimilar: (Image, Image) -> bool, i: nat,
                      count0: nat, marked0: seq<Cell>)
    returns (count: nat, marked: seq<Cell>)
    requires SameShape(good, defective) && i < GridSize
    requires AllCellsInside(GridCells(|good|, Width(good))[..GridSize * i], |good|, Width(good))
    requires marked0 == FlaggedCells(good, defective, GridCells(|good|, Width(good))[..GridSize * i], dissimilar)
    requires count0 == |marked0|
    ensures AllCellsInside(GridCells(|good|, Width(good))[..GridSize * (i + 1)], |good|, Width(good))
    ensures marked == FlaggedCells(good, defective, GridCells(|good|, Width(good))[..GridSize * (i + 1)], dissimilar)
    ensures count == |marked|
  {
    var h, w := |good|, Width(good);
    ghost var cells := GridCells(h, w);
    count, marked := count0, marked0;
    for j := 0 to GridSize
      invariant AllCellsInside(cells[..GridSize * i + j], h, w)
      invariant marked == FlaggedCells(good, defective, cells[..GridSize * i + j], dissimilar)
      invariant count == |marked|
    {
      var cell, differs := TestCell(good, defective, dissimilar, i, j);
      HistogramStep(good, defective, dissimilar, i, j, cell, CellBox(cell));
      if differs {
        count := count + 1;
        marked := marked + [cell];
      }
    }
    assert GridSize * i + GridSize == GridSize * (i + 1);
  }

  /** The histogram loop: visits the 16 cells row by row and counts those whose
      histograms differ; the returned cells are the rectangles drawn in green. */
  method HistogramDefects(good: Image, defective: Image, dissimilar: (Image, Image) -> bool)
    returns (count: nat, marked: seq<Cell>)
    requires SameShape(good, defective)
    ensures AllCellsInside(GridCells(|good|, Width(good)), |good|, Width(good))
    ensures marked == FlaggedCells(good, defective, GridCells(|good|, Width(good)), dissimilar)
    ensures count == |marked| <= GridSize * GridSize
  {
    ghost var cells := GridCells(|good|, Width(good));
    GridCellsInside(|good|, Width(good));
    count, marked := 0, [];
    for i := 0 to GridSize
      invariant AllCellsInside(cells[..GridSize * i], |good|, Width(good))
      invariant marked == FlaggedCells(good, defective, cells[..GridSize * i], dissimilar)
      invariant count == |marked|
    {
      count, marked := HistogramRow(good, defective, dissimilar, i, count, marked);
    }
    assert cells[..GridSize * GridSize] == cells;
  }

  /** Comparing an image with itself flags no cell, when identical cells never
      correlate poorly. */
  lemma {:induction false} FlaggedCellsOfIdentical(img: Image, cells: seq<Cell>, dissimilar: (Image, Image) -> bool)
    requires Rectangular(img) && AllCellsInside(cells, |img|, Width(img))
    requires forall c :: !dissimilar(c, c)
    ensures FlaggedCells(img, img, cells, dissimilar) == []
    decreases |cells|
  {
    if cells != [] {
      var front := cells[..|cells| - 1];
      assert cells == front + [cells[|cells| - 1]];
      FlaggedCellsOfIdentical(img, front, dissimilar);
    }
  }

  // ---------------------------------------------------------------------------
  // Difference blobs

  /** A contour of the cleaned difference mask: its `contourArea`, and the mask that
      `drawContours(zeros, [contour], -1, 255, -1)` fills for it. */
  datatype Blob = Blob(area: real, fill: Gray)

  /** Bitwise AND of two 8-bit values. */
  function BitAnd(a: Byte, b: Byte): Byte
  {
    ((a as bv8) & (b as bv8)) as int
  }

  /** Against a 0/255 mask the AND is non-zero exactly where both are non-zero. */
  lemma BitAndWithMask(a: Byte, m: Byte)
    requires m == 0 || m == MaxValue
    ensures BitAnd(a, m) != 0 <==> a != 0 && m != 0
  {
    if m == 0 {
      assert (a as bv8) & (0 as bv8) == 0;
    } else {
      assert (a as bv8) & (255 as bv8) == a as bv8;
    }
  }

  /** `cv2.bitwise_and(p, q)`. */
  function Intersect(p: Gray, q: Gray): (r: Gray)
    requires SameShape(p, q)
    ensures SameShape(p, r)
    ensures forall i, j :: 0 <= i < |p| && 0 <= j < |p[i]| ==> r[i][j] == BitAnd(p[i][j], q[i][j])
  {
    seq(|p|, i requires 0 <= i < |p| => seq(|p[i]|, j requires 0 <= j < |p[i]| => BitAnd(p[i][j], q[i][j])))
  }

  /** `countNonZero(bitwise_and(good_leds, mask))`. */
  function Overlap(leds: Gray, fill: Gray): nat
    requires SameShape(leds, fill)
  {
    CountNonZero(Intersect(leds, fill))
  }

  /** The overlap is positive exactly when some LED pixel lies inside the blob. */
  lemma OverlapIff(leds: Gray, fill: Gray)
    requires SameShape(leds, fill) && IsBinary(fill)
    ensures Overlap(leds, fill) > 0 <==>
            exists i, j :: 0 <= i < |leds| && 0 <= j < Width(leds) && leds[i][j] != 0 && fill[i][j] != 0
  {
    var x := Intersect(leds, fill);
    CountNonZeroBounds(x, Width(leds), |leds|);
    forall i, j | 0 <= i < |leds| && 0 <= j < Width(leds)
      ensures x[i][j] != 0 <==> leds[i][j] != 0 && fill[i][j] != 0
    {
      BitAndWithMask(leds[i][j], fill[i][j]);
    }
  }

  predicate BlobsFit(leds: Gray, blobs: seq<Blob>)
  {
    forall k :: 0 <= k < |blobs| ==> SameShape(leds, blobs[k].fill)
  }

  /** A blob counts when its area exceeds the minimum and it overlaps an LED of the
      good sample; the overlap is only computed for blobs that are large enough. */
  predicate Counted(leds: Gray, b: Blob, minArea: real)
    requires SameShape(leds, b.fill)
  {
    b.area > minArea && Overlap(leds, b.fill) > 0
  }

  /** The counted blobs, in contour order. */
  function CountedBlobs(leds: Gray, blobs: seq<Blob>, minArea: real): (r: seq<Blob>)
    requires BlobsFit(leds, blobs)
    ensures |r| <= |blobs|
    decreases |blobs|
  {
    if blobs == [] then []
    else
      var prev := CountedBlobs(leds, blobs[..|blobs| - 1], minArea);
      var last := blobs[|blobs| - 1];
      if Counted(leds, last, minArea) then prev + [last] else prev
  }

  /** A blob is counted exactly when it is larger than the minimum and covers a pixel
      that is lit in the good sample's LED mask. */
  lemma {:induction false} CountedBlobsMembers(leds: Gray, blobs: seq<Blob>, minArea: real)
    requires BlobsFit(leds, blobs)
    requires forall k :: 0 <= k < |blobs| ==> IsBinary(blobs[k].fill)
    ensures forall b :: b in CountedBlobs(leds, blobs, minArea) <==>
              && b in blobs && b.area > minArea
              && exists i, j :: 0 <= i < |leds| && 0 <= j < Width(leds) && leds[i][j] != 0 && b.fill[i][j] != 0
    decreases |blobs|
  {
    if blobs != [] {
      var front := blobs[..|blobs| - 1];
      var last := blobs[|blobs| - 1];
      assert blobs == front + [last];
      CountedBlobsMembers(leds, front, minArea);
      OverlapIff(leds, last.fill);
    }
  }

  /** The contour loop: counts the significant difference blobs. */
  method SignificantDefects(leds: Gray, blobs: seq<Blob>, minArea: real) returns (count: nat)
    requires BlobsFit(leds, blobs)
    ensures count == |CountedBlobs(leds, blobs, minArea)| <= |blobs|
  {
    count := 0;
    for k := 0 to |blobs|
      invariant count == |CountedBlobs(leds, blobs[..k], minArea)|
    {
      assert blobs[..k + 1][..k] == blobs[..k];
      if blobs[k].area > minArea {
        var overlap := CountNonZero(Intersect(leds, blobs[k].fill));
        if overlap > 0 {
          count := count + 1;
        }
      }
    }
    assert blobs[..|blobs|] == blobs;
  }

  // ---------------------------------------------------------------------------
  // The minimum defect area

  function Sum(xs: seq<real>): real
  {
    if xs == [] then 0.0 else Sum(xs[..|xs| - 1]) + xs[|xs| - 1]
  }

  /** `[contourArea(c) for c in led_contours]`. */
  function Areas(rs: seq<Region>): (a: seq<real>)
    ensures |a| == |rs|
  {
    seq(|rs|, k requires 0 <= k < |rs| => rs[k].area)
  }

  /** `np.mean(led_areas) if led_areas else 500`. */
  function AvgLedArea(areas: seq<real>): real
  {
    if areas == [] then DefaultLedArea else Sum(areas) / (|areas| as real)
  }

  /** `max(50, avg_led_area * 0.10)`. */
  function MinDefectArea(avg: real): real
  {
    if avg * AreaFraction > LowestDefectArea then avg * AreaFraction else LowestDefectArea
  }

  lemma {:induction false} SumAbove(xs: seq<real>, bound: real)
    requires forall k :: 0 <= k < |xs| ==> xs[k] > bound
    ensures Sum(xs) >= bound * (|xs| as real)
    ensures xs != [] ==> Sum(xs) > bound * (|xs| as real)
  {
    if xs != [] {
      SumAbove(xs[..|xs| - 1], bound);
    }
  }

  lemma QuotientAbove(s: real, n: real, bound: real)
    requires n > 0.0 && s > bound * n
    ensures s / n > bound
  {
    var q := s / n;
    assert q * n == s;
    if q <= bound {
      assert q * n <= bound * n;
    }
  }

  /** The mean LED area is above 50: every averaged area passed the `> 50` filter,
      and the default is 500. */
  lemma AvgLedAreaAboveFilter(rs: seq<Region>)
    ensures AvgLedArea(Areas(SignificantRegions(rs))) > MinLedArea
  {
    var areas := Areas(SignificantRegions(rs));
    if areas != [] {
      forall k | 0 <= k < |areas| ensures areas[k] > MinLedArea {
        assert SignificantRegions(rs)[k] in SignificantRegions(rs);
      }
      SumAbove(areas, MinLedArea);
      QuotientAbove(Sum(areas), |areas| as real, MinLedArea);
    }
  }

  /** The minimum defect area is never below 50, and is exactly 50 unless the mean
      LED area exceeds 500 (in particular when no LED was found). */
  lemma MinDefectAreaFloor(avg: real)
    ensures MinDefectArea(avg) >= LowestDefectArea
    ensures avg <= DefaultLedArea ==> MinDefectArea(avg) == LowestDefectArea
    ensures MinDefectArea(AvgLedArea([])) == LowestDefectArea
  {
  }

  // ---------------------------------------------------------------------------
  // The whole test

  /** `cv2.threshold(g, level, 255, THRESH_BINARY)`. */
  function ThresholdAt(g: Gray, level: Byte): (r: Gray)
    ensures |r| == |g| && forall i :: 0 <= i < |g| ==> |r[i]| == |g[i]|
    ensures forall i, j :: 0 <= i < |g| && 0 <= j < |g[i]| ==> (r[i][j] != 0 <==> g[i][j] > level)
  {
    seq(|g|, i requires 0 <= i < |g| =>
      seq(|g[i]|, j requires 0 <= j < |g[i]| => if g[i][j] > level then MaxValue else 0))
  }

  predicate IsZero(g: Gray)
  {
    forall i, j :: 0 <= i < |g| && 0 <= j < |g[i]| ==> g[i][j] == 0
  }

  /** What OpenCV guarantees about the blob finder (opening with the 7x7 kernel,
      `findContours`, `contourArea`, filled `drawContours`): each blob's fill has the
      mask's shape and holds only 0 and 255, and a blank mask has no blob. */
  ghost predicate BlobsSound(findBlobs: Gray -> seq<Blob>)
  {
    && (forall g :: Rectangular(g) ==> BlobsFit(g, findBlobs(g)))
    && (forall g, k :: 0 <= k < |findBlobs(g)| ==> IsBinary(findBlobs(g)[k].fill))
    && (forall g :: IsZero(g) ==> findBlobs(g) == [])
  }

  /** The LED masks of the two normalized images, when detection succeeded on both. */
  function LedMasks(v: Vision, goodNorm: Image, defectiveNorm: Image): (r: (Gray, Gray))
    requires Sound(v) && SameShape(goodNorm, defectiveNorm)
    requires DetectLeds(v, Some(goodNorm)).Some? && DetectLeds(v, Some(defectiveNorm)).Some?
    ensures SameShape(r.0, r.1)
  {
    var goodLeds := DetectLeds(v, Some(goodNorm)).value;
    var defectiveLeds := DetectLeds(v, Some(defectiveNorm)).value;
    assert |goodLeds| == 0 || Width(goodLeds) == Width(goodNorm);
    (goodLeds, defectiveLeds)
  }

  /** The blobs of `abs(good - defective) > 50`, one mask per contour. */
  function DiffBlobs(goodLeds: Gray, defectiveLeds: Gray, findBlobs: Gray -> seq<Blob>): (r: seq<Blob>)
    requires BlobsSound(findBlobs) && SameShape(goodLeds, defectiveLeds)
    ensures BlobsFit(goodLeds, r)
  {
    var d := ThresholdAt(AbsDiff(goodLeds, defectiveLeds), DiffLevel);
    assert |d| == 0 || Width(d) == Width(goodLeds);
    findBlobs(d)
  }

  /** `min_defect_area` for an LED mask of the good sample. */
  function MinAreaFor(v: Vision, goodLeds: Gray): real
  {
    MinDefectArea(AvgLedArea(Areas(SignificantRegions(v.contours(goodLeds)))))
  }

  /** The two counters of the test, `(significant_defects, histogram_defects)`, or None
      when it returns False early: a file is missing, an image did not load, or a
      normalisation or LED detection returned None. */
  function Counters(v: Vision, goodExists: bool, defectiveExists: bool,
                    goodLoaded: Option<Image>, defectiveLoaded: Option<Image>,
                    findBlobs: Gray -> seq<Blob>, dissimilar: (Image, Image) -> bool): (r: Option<(nat, nat)>)
    requires Sound(v) && BlobsSound(findBlobs)
    requires goodLoaded.Some? ==> IsRaster(goodLoaded.value)
    requires defectiveLoaded.Some? ==> IsRaster(defectiveLoaded.value)
  {
    if !goodExists || !defectiveExists || goodLoaded.None? || defectiveLoaded.None? then None
    else
      var prepared := Pipeline.Prepared(v, defectiveLoaded.value, goodLoaded.value);
      if prepared.None? then None
      else Some(CountsOf(v, prepared.value.0, prepared.value.1, findBlobs, dissimilar))
  }

  /** The two counters over a normalised pair in which both LED masks were found. */
  function CountsOf(v: Vision, goodNorm: Image, defectiveNorm: Image,
                    findBlobs: Gray -> seq<Blob>, dissimilar: (Image, Image) -> bool): (nat, nat)
    requires Sound(v) && BlobsSound(findBlobs) && SameShape(goodNorm, defectiveNorm)
    requires DetectLeds(v, Some(goodNorm)).Some? && DetectLeds(v, Some(defectiveNorm)).Some?
  {
    var masks := LedMasks(v, goodNorm, defectiveNorm);
    (ContourCount(v, masks.0, masks.1, findBlobs), HistogramCount(goodNorm, defectiveNorm, dissimilar))
  }

  /** `significant_defects`: the difference blobs that pass the area filter. */
  function ContourCount(v: Vision, goodLeds: Gray, defectiveLeds: Gray, findBlobs: Gray -> seq<Blob>): nat
    requires BlobsSound(findBlobs) && SameShape(goodLeds, defectiveLeds)
  {
    |CountedBlobs(goodLeds, DiffBlobs(goodLeds, defectiveLeds, findBlobs), MinAreaFor(v, goodLeds))|
  }

  /** `histogram_defects`: the grid cells the comparison flags. */
  function HistogramCount(goodNorm: Image, defectiveNorm: Image, dissimilar: (Image, Image) -> bool): nat
    requires SameShape(goodNorm, defectiveNorm)
  {
    GridCellsInside(|goodNorm|, Width(goodNorm));
    |FlaggedCells(goodNorm, defectiveNorm, GridCells(|goodNorm|, Width(goodNorm)), dissimilar)|
  }

  /** `test_image_processing`, stage by stage: False on a missing file, a failed load,
      normalisation or detection; otherwise True exactly when the two counters add up
      to a positive total. */
  method TestImageProcessing(v: Vision, goodExists: bool, defectiveExists: bool,
                             goodLoaded: Option<Image>, defectiveLoaded: Option<Image>,
                             findBlobs: Gray -> seq<Blob>, dissimilar: (Image, Image) -> bool)
    returns (passed: bool)
    requires Sound(v) && BlobsSound(findBlobs)
    requires goodLoaded.Some? ==> IsRaster(goodLoaded.value)
    requires defectiveLoaded.Some? ==> IsRaster(defectiveLoaded.value)
    ensures var r := Counters(v, goodExists, defectiveExists, goodLoaded, defectiveLoaded, findBlobs, dissimilar);
            passed <==> r.Some? && r.value.0 + r.value.1 > 0
  {
    if !goodExists || !defectiveExists {
      return false;
    }
    if goodLoaded.None? || defectiveLoaded.None? {
      return false;
    }
    var good := goodLoaded.value;
    var defective := Pipeline.Resized(v, defectiveLoaded.value, good);
    var goodNorm := NormalizeImage(v, Some(good));
    var defectiveNorm := NormalizeImage(v, Some(defective));
    if goodNorm.None? || defectiveNorm.None? {
      return false;
    }
    Pipeline.GridShape(goodNorm.value, Width(good), |good|);
    var goodLeds := DetectLeds(v, goodNorm);
    var defectiveLeds := DetectLeds(v, defectiveNorm);
    if goodLeds.None? || defectiveLeds.None? {
      assert Pipeline.Prepared(v, defectiveLoaded.value, good).None?;
      return false;
    }
    assert Pipeline.Prepared(v, defectiveLoaded.value, good) == Some((goodNorm.value, defectiveNorm.value));
    var (goodMask, defectiveMask) := LedMasks(v, goodNorm.value, defectiveNorm.value);
    var diff := AbsDiff(goodMask, defectiveMask);
    var blobs := DiffBlobs(goodMask, defectiveMask, findBlobs);
    var ledAreas := Areas(SignificantRegions(v.contours(goodMask)));
    var minDefectArea := MinDefectArea(AvgLedArea(ledAreas));
    var significant := SignificantDefects(goodMask, blobs, minDefectArea);
    var histogram, _ := HistogramDefects(goodNorm.value, defectiveNorm.value, dissimilar);
    var total := significant + histogram;
    passed := total > 0;
    CountersOfPrepared(v, good, defectiveLoaded.value, findBlobs, dissimilar);
  }

  lemma CountersOfPrepared(v: Vision, good: Image, defective: Image,
                           findBlobs: Gray -> seq<Blob>, dissimilar: (Image, Image) -> bool)
    requires Sound(v) && BlobsSound(findBlobs) && IsRaster(good) && IsRaster(defective)
    requires Pipeline.Prepared(v, defective, good).Some?
    ensures var (goodNorm, defectiveNorm) := Pipeline.Prepared(v, defective, good).value;
            var (goodLeds, defectiveLeds) := LedMasks(v, goodNorm, defectiveNorm);
            var cells := GridCells(|goodNorm|, Width(goodNorm));
            && AllCellsInside(cells, |goodNorm|, Width(goodNorm))
            && Counters(v, true, true, Some(good), Some(defective), findBlobs, dissimilar)
               == Some((|CountedBlobs(goodLeds, DiffBlobs(goodLeds, defectiveLeds, findBlobs), MinAreaFor(v, goodLeds))|,
                        |FlaggedCells(goodNorm, defectiveNorm, cells, dissimilar)|))
  {
    var (goodNorm, defectiveNorm) := Pipeline.Prepared(v, defective, good).value;
    GridCellsInside(|goodNorm|, Width(goodNorm));
  }

  /** The histogram counter never exceeds 16 and the contour counter never exceeds the
      number of difference blobs. */
  lemma CountersBound(v: Vision, goodExists: bool, defectiveExists: bool,
                      goodLoaded: Option<Image>, defectiveLoaded: Option<Image>,
                      findBlobs: Gray -> seq<Blob>, dissimilar: (Image, Image) -> bool)
    requires Sound(v) && BlobsSound(findBlobs)
    requires goodLoaded.Some? ==> IsRaster(goodLoaded.value)
    requires defectiveLoaded.Some? ==> IsRaster(defectiveLoaded.value)
    requires Counters(v, goodExists, defectiveExists, goodLoaded, defectiveLoaded, findBlobs, dissimilar).Some?
    ensures var (significant, histogram) :=
              Counters(v, goodExists, defectiveExists, goodLoaded, defectiveLoaded, findBlobs, dissimilar).value;
            var (goodNorm, defectiveNorm) := Pipeline.Prepared(v, defectiveLoaded.value, goodLoaded.value).value;
            var (goodLeds, defectiveLeds) := LedMasks(v, goodNorm, defectiveNorm);
            && histogram <= GridSize * GridSize
            && significant <= |DiffBlobs(goodLeds, defectiveLeds, findBlobs)|
  {
  }

  /** The difference of a mask with itself, thresholded, is blank. */
  lemma SelfDifferenceBlank(m: Gray, level: Byte)
    requires Rectangular(m)
    ensures IsZero(ThresholdAt(AbsDiff(m, m), level))
  {
    var d := AbsDiff(m, m);
    var t := ThresholdAt(d, level);
    forall i, j | 0 <= i < |t| && 0 <= j < |t[i]| ensures t[i][j] == 0 {
      assert d[i][j] == 0;
    }
  }

  /** Testing a sample against itself finds nothing, so the test fails, provided
      resizing to the same size changes nothing and identical cells never correlate
      poorly. */
  lemma SelfTestFindsNothing(v: Vision, img: Image, findBlobs: Gray -> seq<Blob>, dissimilar: (Image, Image) -> bool)
    requires Sound(v) && BlobsSound(findBlobs) && IsRaster(img)
    requires v.resize(img, Width(img), |img|) == img
    requires forall c :: !dissimilar(c, c)
    ensures var r := Counters(v, true, true, Some(img), Some(img), findBlobs, dissimilar);
            r.None? || r.value == (0, 0)
  {
    var prepared := Pipeline.Prepared(v, img, img);
    if prepared.Some? {
      var (goodNorm, defectiveNorm) := prepared.value;
      assert goodNorm == defectiveNorm;
      var (goodLeds, defectiveLeds) := LedMasks(v, goodNorm, defectiveNorm);
      SelfDifferenceBlank(goodLeds, DiffLevel);
      assert DiffBlobs(goodLeds, defectiveLeds, findBlobs) == [];
      GridCellsInside(|goodNorm|, Width(goodNorm));
      FlaggedCellsOfIdentical(goodNorm, GridCells(|goodNorm|, Width(goodNorm)), dissimilar);
    }
  }
}
