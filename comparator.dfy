/** `compare_led_patterns`: the primary defect detector. Both normalized images are
    binarised at gray level 200; every LED region of the binarised reference whose
    area exceeds 50 is looked up, grown by 5 px and clipped; the window is cropped
    from both binary images and the region is flagged when more than 30 % of the
    window's pixels differ. */
module Comparator {

  import opened Wrappers
  import opened Text
  import opened Imaging

  const MinLedArea: real := 50.0
  const AnomalyPercent: nat := 30

  /** `[c for c in contours if cv2.contourArea(c) > 50]`: keeps exactly the regions of
      area above 50. */
  function SignificantRegions(rs: seq<Region>): (r: seq<Region>)
    ensures |r| <= |rs|
    ensures forall reg :: reg in r <==> reg in rs && reg.area > MinLedArea
  {
    if rs == [] then []
    else (if rs[0].area > MinLedArea then [rs[0]] else []) + SignificantRegions(rs[1..])
  }

  /** The filter keeps the regions in their original order. */
  lemma {:induction false} SignificantRegionsConcat(a: seq<Region>, b: seq<Region>)
    ensures SignificantRegions(a + b) == SignificantRegions(a) + SignificantRegions(b)
  {
    if a == [] {
      assert a + b == b;
    } else {
      assert (a + b)[1..] == a[1..] + b;
      SignificantRegionsConcat(a[1..], b);
    }
  }

  predicate AllInside(rs: seq<Region>, width: int, height: int)
  {
    forall reg :: reg in rs ==> RegionInside(reg, width, height)
  }

  /** The window examined for a region. */
  function RegionRoi(reg: Region, width: int, height: int): Box
    requires RegionInside(reg, width, height)
  {
    ExpandRoi(reg.x, reg.y, reg.w, reg.h, width, height)
  }

  /** `cv2.countNonZero(cv2.absdiff(ref_roi, test_roi))`. */
  function DiffCount(refBin: Gray, testBin: Gray, b: Box): nat
    requires SameShape(refBin, testBin) && BoxInside(b, Width(refBin), |refBin|)
  {
    CountNonZero(AbsDiff(Crop(refBin, b), Crop(testBin, b)))
  }

  /** `count / area * 100 > percent`, stated without division. */
  predicate Exceeds(count: nat, area: nat, percent: nat)
  {
    count * 100 > percent * area
  }

  /** No threshold is exceeded by a window without differing pixels. */
  lemma NothingExceeds(w: nat, h: nat, percent: nat)
    ensures !Exceeds(0, w * h, percent)
  {
  }

  lemma ExceedsMonotone(count: nat, area: nat, p: nat, q: nat)
    requires p <= q && Exceeds(count, area, q)
    ensures Exceeds(count, area, p)
  {
    assert p * area <= q * area by {
      assert (q - p) * area >= 0;
    }
  }

  predicate Anomalous(refBin: Gray, testBin: Gray, reg: Region, percent: nat)
    requires SameShape(refBin, testBin) && RegionInside(reg, Width(refBin), |refBin|)
  {
    var b := RegionRoi(reg, Width(refBin), |refBin|);
    Exceeds(DiffCount(refBin, testBin, b), b.w * b.h, percent)
  }

  /** The regions flagged by a scan of `rs` at anomaly threshold `percent`, in scan order. */
  function Findings(refBin: Gray, testBin: Gray, rs: seq<Region>, percent: nat): (f: seq<Region>)
    requires SameShape(refBin, testBin) && AllInside(rs, Width(refBin), |refBin|)
    ensures |f| <= |rs|
    ensures AllInside(f, Width(refBin), |refBin|) && Placed(f)
    decreases |rs|
  {
    if rs == [] then []
    else
      var front := rs[..|rs| - 1];
      var last := rs[|rs| - 1];
      assert rs == front + [last];
      var prev := Findings(refBin, testBin, front, percent);
      if Anomalous(refBin, testBin, last, percent) then prev + [last] else prev
  }

  /** A region is flagged exactly when it is scanned and anomalous. */
  lemma {:induction false} FindingsMembers(refBin: Gray, testBin: Gray, rs: seq<Region>, percent: nat)
    requires SameShape(refBin, testBin) && AllInside(rs, Width(refBin), |refBin|)
    ensures forall reg :: reg in Findings(refBin, testBin, rs, percent) <==>
                          reg in rs && Anomalous(refBin, testBin, reg, percent)
    decreases |rs|
  {
    if rs != [] {
      var front := rs[..|rs| - 1];
      assert rs == front + [rs[|rs| - 1]];
      FindingsMembers(refBin, testBin, front, percent);
    }
  }

  /** Flagged regions lie inside the image, at non-negative positions. */
  lemma FindingsPlaced(refBin: Gray, testBin: Gray, rs: seq<Region>, percent: nat)
    requires SameShape(refBin, testBin) && AllInside(rs, Width(refBin), |refBin|)
    ensures AllInside(Findings(refBin, testBin, rs, percent), Width(refBin), |refBin|)
    ensures Placed(Findings(refBin, testBin, rs, percent))
  {
    var fs := Findings(refBin, testBin, rs, percent);
    FindingsMembers(refBin, testBin, rs, percent);
    forall i | 0 <= i < |fs| ensures fs[i].x >= 0 && fs[i].y >= 0 {
      assert fs[i] in fs;
    }
  }

  /** Scanning two lists one after the other flags what each scan flags, in that order. */
  lemma {:induction false} FindingsConcat(refBin: Gray, testBin: Gray, a: seq<Region>, b: seq<Region>, percent: nat)
    requires SameShape(refBin, testBin) && AllInside(a + b, Width(refBin), |refBin|)
    ensures AllInside(a, Width(refBin), |refBin|) && AllInside(b, Width(refBin), |refBin|)
    ensures Findings(refBin, testBin, a + b, percent)
            == Findings(refBin, testBin, a, percent) + Findings(refBin, testBin, b, percent)
    decreases |b|
  {
    if b != [] {
      var b' := b[..|b| - 1];
      assert (a + b)[..|a + b| - 1] == a + b';
      assert AllInside(a + b', Width(refBin), |refBin|);
      FindingsConcat(refBin, testBin, a, b', percent);
    } else {
      assert a + b == a;
    }
  }

  /** A window compared with itself has no differing pixel. */
  lemma SelfDiffCount(bin: Gray, b: Box)
    requires Rectangular(bin) && BoxInside(b, Width(bin), |bin|)
    ensures DiffCount(bin, bin, b) == 0
  {
    var c := Crop(bin, b);
    CountNonZeroBounds(AbsDiff(c, c), b.w, b.h);
  }

  /** Identical binary images flag nothing, whatever the regions. */
  lemma {:induction false} FindingsOfIdentical(bin: Gray, rs: seq<Region>, percent: nat)
    requires Rectangular(bin) && AllInside(rs, Width(bin), |bin|)
    ensures Findings(bin, bin, rs, percent) == []
    decreases |rs|
  {
    if rs != [] {
      var front := rs[..|rs| - 1];
      var last := rs[|rs| - 1];
      assert rs == front + [last];
      FindingsOfIdentical(bin, front, percent);
      var b := RegionRoi(last, Width(bin), |bin|);
      SelfDiffCount(bin, b);
      NothingExceeds(b.w, b.h, percent);
    }
  }

  /** Raising the anomaly threshold never flags more regions. */
  lemma {:induction false} FindingsMonotone(refBin: Gray, testBin: Gray, rs: seq<Region>, p: nat, q: nat)
    requires SameShape(refBin, testBin) && AllInside(rs, Width(refBin), |refBin|)
    requires p <= q
    ensures |Findings(refBin, testBin, rs, q)| <= |Findings(refBin, testBin, rs, p)|
    decreases |rs|
  {
    if rs != [] {
      var front := rs[..|rs| - 1];
      var last := rs[|rs| - 1];
      assert rs == front + [last];
      FindingsMonotone(refBin, testBin, front, p, q);
      if Anomalous(refBin, testBin, last, q) {
        AnomalousMonotone(refBin, testBin, last, p, q);
      }
    }
  }

  /** A region anomalous at a threshold is anomalous at every lower one. */
  lemma AnomalousMonotone(refBin: Gray, testBin: Gray, reg: Region, p: nat, q: nat)
    requires SameShape(refBin, testBin) && RegionInside(reg, Width(refBin), |refBin|)
    requires p <= q && Anomalous(refBin, testBin, reg, q)
    ensures Anomalous(refBin, testBin, reg, p)
  {
    var b := RegionRoi(reg, Width(refBin), |refBin|);
    ExceedsMonotone(DiffCount(refBin, testBin, b), b.w * b.h, p, q);
  }

  // ---------------------------------------------------------------------------
  // Defect labels

  const LabelHead := "Defeito #"
  const LabelMiddle := ": LED com anomalia na posição ("
  const LabelSeparator := ", "
  const LabelTail := ")"

  /** `f"Defeito #{k}: LED com anomalia na posição ({x}, {y})"`. */
  function DefectLabel(k: nat, x: nat, y: nat): string
  {
    LabelHead + NatToString(k) + LabelMiddle + NatToString(x) + LabelSeparator + NatToString(y) + LabelTail
  }

  /** `s` without its prefix `pre`, if `s` starts with `pre`. */
  function StripPrefix(pre: string, s: string): (r: Option<string>)
    ensures r.Some? ==> s == pre + r.value
  {
    if |pre| <= |s| && s[..|pre|] == pre then
      assert s == s[..|pre|] + s[|pre|..];
      Some(s[|pre|..])
    else None
  }

  lemma StripPrefixOfJoin(pre: string, rest: string)
    ensures StripPrefix(pre, pre + rest) == Some(rest)
  {
    assert (pre + rest)[..|pre|] == pre;
    assert (pre + rest)[|pre|..] == rest;
  }

  /** `s` after the prefix `pre`, read as a number followed by the rest. */
  function NumberAfter(pre: string, s: string): Option<(nat, string)>
  {
    match StripPrefix(pre, s)
    case None => None
    case Some(t) => ReadNat(t)
  }

  lemma NumberAfterPrint(pre: string, n: nat, rest: string)
    requires rest == [] || !IsDigit(rest[0])
    ensures NumberAfter(pre, pre + (NatToString(n) + rest)) == Some((n, rest))
  {
    StripPrefixOfJoin(pre, NatToString(n) + rest);
    ReadNatAfterPrint(n, rest);
  }

  /** Reads back the defect number and the position from a defect label. */
  function ParseLabel(s: string): Option<(nat, nat, nat)>
  {
    match NumberAfter(LabelHead, s)
    case None => None
    case Some((k, s1)) =>
      match NumberAfter(LabelMiddle, s1)
      case None => None
      case Some((x, s2)) =>
        match NumberAfter(LabelSeparator, s2)
        case None => None
        case Some((y, s3)) => if s3 == LabelTail then Some((k, x, y)) else None
  }

  lemma ConcatNest(a: string, b: string, c: string, d: string, e: string, f: string, g: string)
    ensures a + b + c + d + e + f + g == a + (b + (c + (d + (e + (f + g)))))
  {
  }

  /** Reading a label back, one field after the other. */
  lemma ParseFields(s: string, k: nat, x: nat, y: nat, s1: string, s2: string)
    requires NumberAfter(LabelHead, s) == Some((k, s1))
    requires NumberAfter(LabelMiddle, s1) == Some((x, s2))
    requires NumberAfter(LabelSeparator, s2) == Some((y, LabelTail))
    ensures ParseLabel(s) == Some((k, x, y))
  {
  }

  /** A label carries its defect number and the region's un-expanded (x, y), and
      all three can be read back from it. */
  lemma ParseDefectLabel(k: nat, x: nat, y: nat)
    ensures ParseLabel(DefectLabel(k, x, y)) == Some((k, x, y))
  {
    var tail2 := LabelSeparator + (NatToString(y) + LabelTail);
    var tail1 := LabelMiddle + (NatToString(x) + tail2);
    ConcatNest(LabelHead, NatToString(k), LabelMiddle, NatToString(x), LabelSeparator, NatToString(y), LabelTail);
    assert LabelMiddle[0] == ':' && LabelSeparator[0] == ',' && LabelTail[0] == ')';
    NumberAfterPrint(LabelHead, k, tail1);
    NumberAfterPrint(LabelMiddle, x, tail2);
    NumberAfterPrint(LabelSeparator, y, LabelTail);
    ParseFields(DefectLabel(k, x, y), k, x, y, tail1, tail2);
  }

  /** Two labels are equal only when number and position are. */
  lemma DefectLabelInjective(k: nat, x: nat, y: nat, k': nat, x': nat, y': nat)
    requires DefectLabel(k, x, y) == DefectLabel(k', x', y')
    ensures k == k' && x == x' && y == y'
  {
    ParseDefectLabel(k, x, y);
    ParseDefectLabel(k', x', y');
  }

  predicate Placed(fs: seq<Region>)
  {
    forall i :: 0 <= i < |fs| ==> fs[i].x >= 0 && fs[i].y >= 0
  }

  /** The `defects` list: the k-th flagged region gets number k + 1. */
  function LabelsOf(fs: seq<Region>): (r: seq<string>)
    requires Placed(fs)
    ensures |r| == |fs|
  {
    seq(|fs|, k requires 0 <= k < |fs| => DefectLabel(k + 1, fs[k].x, fs[k].y))
  }

  /** The rectangles drawn on the annotated copy, one per flagged region. */
  function RoisOf(fs: seq<Region>, width: int, height: int): (r: seq<Box>)
    requires AllInside(fs, width, height)
    ensures |r| == |fs|
  {
    seq(|fs|, k requires 0 <= k < |fs| => RegionRoi(fs[k], width, height))
  }

  /** Labels are numbered 1, 2, ... in scan order, each with its region's position, and
      no two labels are equal. */
  lemma LabelsNumbered(fs: seq<Region>)
    requires Placed(fs)
    ensures forall k :: 0 <= k < |fs| ==> ParseLabel(LabelsOf(fs)[k]) == Some((k + 1, fs[k].x, fs[k].y))
    ensures forall k, l :: 0 <= k < l < |fs| ==> LabelsOf(fs)[k] != LabelsOf(fs)[l]
  {
    var labels := LabelsOf(fs);
    forall k | 0 <= k < |fs| ensures ParseLabel(labels[k]) == Some((k + 1, fs[k].x, fs[k].y)) {
      assert labels[k] == DefectLabel(k + 1, fs[k].x, fs[k].y);
      ParseDefectLabel(k + 1, fs[k].x, fs[k].y);
    }
  }

  // ---------------------------------------------------------------------------
  // The comparison

  /** `test_image.copy()` with a red rectangle drawn around each box (drawing itself
      is not modelled). */
  datatype Annotated = Annotated(base: Image, boxes: seq<Box>)

  datatype Comparison = Comparison(defects: seq<string>, annotated: Annotated)

  lemma BinariseKeepsShape(g: Gray)
    requires Rectangular(g)
    ensures SameShape(g, Binarise(g)) && Rectangular(Binarise(g)) && Width(Binarise(g)) == Width(g)
  {
  }

  /** The binarised reference and test images, when both gray conversions succeed. */
  function Binarised(v: Vision, refImage: Image, testImage: Image): (r: Option<(Gray, Gray)>)
    requires Sound(v) && SameShape(refImage, testImage)
    ensures r.Some? ==> SameShape(r.value.0, r.value.1) && Width(r.value.0) == Width(refImage)
                        && |r.value.0| == |refImage|
  {
    match (v.toGray(refImage), v.toGray(testImage))
    case (Some(rg), Some(tg)) =>
      BinariseKeepsShape(rg);
      Some((Binarise(rg), Binarise(tg)))
    case _ => None
  }

  /** The reference LED regions compared: the significant contours of the binarised reference. */
  function ScannedRegions(v: Vision, refBin: Gray): (rs: seq<Region>)
    requires Sound(v) && Rectangular(refBin)
    ensures AllInside(rs, Width(refBin), |refBin|)
  {
    var all := v.contours(refBin);
    assert AllInside(all, Width(refBin), |refBin|) by {
      forall reg | reg in all ensures RegionInside(reg, Width(refBin), |refBin|) {
        var i :| 0 <= i < |all| && all[i] == reg;
      }
    }
    SignificantRegions(all)
  }

  /** What `compare_led_patterns(ref, test)` returns. When a conversion raises, the
      except branch returns no defects and the test image unannotated. */
  function Compare(v: Vision, refImage: Image, testImage: Image): Comparison
    requires Sound(v) && SameShape(refImage, testImage)
  {
    match Binarised(v, refImage, testImage)
    case None => Comparison([], Annotated(testImage, []))
    case Some((refBin, testBin)) =>
      var rs := ScannedRegions(v, refBin);
      var fs := Findings(refBin, testBin, rs, AnomalyPercent);
      FindingsPlaced(refBin, testBin, rs, AnomalyPercent);
      Comparison(LabelsOf(fs), Annotated(testImage, RoisOf(fs, Width(refBin), |refBin|)))
  }

  /** Scanning one more region appends it to the findings exactly when it is anomalous. */
  lemma FindingsStep(refBin: Gray, testBin: Gray, rs: seq<Region>, i: nat)
    requires SameShape(refBin, testBin) && AllInside(rs, Width(refBin), |refBin|) && i < |rs|
    ensures AllInside(rs[..i], Width(refBin), |refBin|) && AllInside(rs[..i + 1], Width(refBin), |refBin|)
    ensures RegionInside(rs[i], Width(refBin), |refBin|)
    ensures Findings(refBin, testBin, rs[..i + 1], AnomalyPercent)
            == Findings(refBin, testBin, rs[..i], AnomalyPercent)
               + (if Anomalous(refBin, testBin, rs[i], AnomalyPercent) then [rs[i]] else [])
  {
    assert rs[i] in rs;
    var pre := rs[..i + 1];
    assert pre[..|pre| - 1] == rs[..i];
    assert pre[|pre| - 1] == rs[i];
    assert AllInside(pre, Width(refBin), |refBin|) by {
      forall reg | reg in pre ensures RegionInside(reg, Width(refBin), |refBin|) {
        assert reg in rs;
      }
    }
  }

  lemma LabelsAppend(fs: seq<Region>, reg: Region)
    requires Placed(fs) && reg.x >= 0 && reg.y >= 0
    ensures Placed(fs + [reg])
    ensures LabelsOf(fs + [reg]) == LabelsOf(fs) + [DefectLabel(|fs| + 1, reg.x, reg.y)]
  {
    var fs' := fs + [reg];
    assert forall k :: 0 <= k < |fs| ==> fs'[k] == fs[k];
  }

  lemma RoisAppend(fs: seq<Region>, reg: Region, width: int, height: int)
    requires AllInside(fs, width, height) && RegionInside(reg, width, height)
    ensures AllInside(fs + [reg], width, height)
    ensures RoisOf(fs + [reg], width, height) == RoisOf(fs, width, height) + [RegionRoi(reg, width, height)]
  {
    var fs' := fs + [reg];
    assert forall k :: 0 <= k < |fs| ==> fs'[k] == fs[k];
  }

  /** The body of the scan loop: crop the grown window from both binary images and
      decide whether more than 30 % of its pixels differ. */
  method TestWindow(refThresh: Gray, testThresh: Gray, reg: Region) returns (hit: bool, roi: Box)
    requires SameShape(refThresh, testThresh) && RegionInside(reg, Width(refThresh), |refThresh|)
    ensures roi == RegionRoi(reg, Width(refThresh), |refThresh|)
    ensures hit == Anomalous(refThresh, testThresh, reg, AnomalyPercent)
  {
    roi := ExpandRoi(reg.x, reg.y, reg.w, reg.h, Width(refThresh), |refThresh|);
    var refRoi := Crop(refThresh, roi);
    var testRoi := Crop(testThresh, roi);
    var diff := AbsDiff(refRoi, testRoi);
    hit := CountNonZero(diff) * 100 > AnomalyPercent * (roi.w * roi.h);
  }

  /** The loop of `compare_led_patterns`: for each significant reference region, crop
      the grown window from both binary images and flag the region when more than 30 %
      of the window's pixels differ, numbering defects in discovery order. */
  method ScanRegions(refThresh: Gray, testThresh: Gray, regions: seq<Region>)
    returns (defects: seq<string>, boxes: seq<Box>)
    requires SameShape(refThresh, testThresh) && AllInside(regions, Width(refThresh), |refThresh|)
    ensures var fs := Findings(refThresh, testThresh, regions, AnomalyPercent);
            Placed(fs) && AllInside(fs, Width(refThresh), |refThresh|)
            && defects == LabelsOf(fs) && boxes == RoisOf(fs, Width(refThresh), |refThresh|)
  {
    var width, height := Width(refThresh), |refThresh|;
    defects, boxes := [], [];
    ghost var flagged: seq<Region> := [];
    for i := 0 to |regions|
      invariant AllInside(regions[..i], width, height)
      invariant flagged == Findings(refThresh, testThresh, regions[..i], AnomalyPercent)
      invariant defects == LabelsOf(flagged) && boxes == RoisOf(flagged, width, height)
    {
      var reg := regions[i];
      FindingsStep(refThresh, testThresh, regions, i);
      var hit, roi := TestWindow(refThresh, testThresh, reg);
      if hit {
        LabelsAppend(flagged, reg);
        RoisAppend(flagged, reg, width, height);
        defects := defects + [DefectLabel(|defects| + 1, reg.x, reg.y)];
        boxes := boxes + [roi];
        flagged := flagged + [reg];
      }
    }
    assert regions[..|regions|] == regions;
  }

  /** `compare_led_patterns(ref, test)`: binarise both images, scan the significant
      reference regions, and return the defect labels with the annotated test image. */
  method CompareLedPatterns(v: Vision, refImage: Image, testImage: Image)
    returns (defects: seq<string>, annotated: Annotated)
    requires Sound(v) && SameShape(refImage, testImage)
    ensures Comparison(defects, annotated) == Compare(v, refImage, testImage)
  {
    var both := Binarised(v, refImage, testImage);
    if both.None? {
      return [], Annotated(testImage, []);
    }
    var (refThresh, testThresh) := both.value;
    var regions := ScannedRegions(v, refThresh);
    var boxes;
    defects, boxes := ScanRegions(refThresh, testThresh, regions);
    annotated := Annotated(testImage, boxes);
  }

  // ---------------------------------------------------------------------------
  // Properties of the comparison

  /** Comparing an image with itself reports no defect and draws nothing. */
  lemma IdenticalImagesNoDefects(v: Vision, image: Image)
    requires Sound(v) && Rectangular(image)
    ensures Compare(v, image, image).defects == []
    ensures Compare(v, image, image).annotated == Annotated(image, [])
  {
    if Binarised(v, image, image).Some? {
      var (refBin, testBin) := Binarised(v, image, image).value;
      FindingsOfIdentical(refBin, ScannedRegions(v, refBin), AnomalyPercent);
    }
  }

  /** There are never more defects than significant reference regions; a reference
      with none yields no defect whatever the test image. */
  lemma DefectCountBound(v: Vision, refImage: Image, testImage: Image)
    requires Sound(v) && SameShape(refImage, testImage)
    ensures Binarised(v, refImage, testImage).Some? ==>
              |Compare(v, refImage, testImage).defects|
              <= |ScannedRegions(v, Binarised(v, refImage, testImage).value.0)|
    ensures |Compare(v, refImage, testImage).defects| == |Compare(v, refImage, testImage).annotated.boxes|
  {
  }

  /** Each defect label is numbered by its position and names a flagged reference
      region: significant, with more than 30 % of its window differing. */
  lemma DefectsDescribeFlaggedRegions(v: Vision, refImage: Image, testImage: Image, k: nat)
    requires Sound(v) && SameShape(refImage, testImage)
    requires k < |Compare(v, refImage, testImage).defects|
    ensures Binarised(v, refImage, testImage).Some?
    ensures var (refBin, testBin) := Binarised(v, refImage, testImage).value;
            exists reg :: reg in v.contours(refBin) && reg.area > MinLedArea
                          && RegionInside(reg, Width(refBin), |refBin|)
                          && Anomalous(refBin, testBin, reg, AnomalyPercent)
                          && ParseLabel(Compare(v, refImage, testImage).defects[k]) == Some((k + 1, reg.x, reg.y))
  {
    var (refBin, testBin) := Binarised(v, refImage, testImage).value;
    var rs := ScannedRegions(v, refBin);
    var fs := Findings(refBin, testBin, rs, AnomalyPercent);
    FlaggedLabel(refBin, testBin, rs, k);
    var reg := fs[k];
    assert Compare(v, refImage, testImage).defects == LabelsOf(fs);
    assert reg in v.contours(refBin) && reg.area > MinLedArea;
  }

  /** The k-th label of a scan names the k-th flagged region, which was scanned and
      is anomalous. */
  lemma FlaggedLabel(refBin: Gray, testBin: Gray, rs: seq<Region>, k: nat)
    requires SameShape(refBin, testBin) && AllInside(rs, Width(refBin), |refBin|)
    requires k < |Findings(refBin, testBin, rs, AnomalyPercent)|
    ensures Placed(Findings(refBin, testBin, rs, AnomalyPercent))
    ensures var fs := Findings(refBin, testBin, rs, AnomalyPercent);
            && fs[k] in rs && RegionInside(fs[k], Width(refBin), |refBin|)
            && Anomalous(refBin, testBin, fs[k], AnomalyPercent)
            && ParseLabel(LabelsOf(fs)[k]) == Some((k + 1, fs[k].x, fs[k].y))
  {
    var fs := Findings(refBin, testBin, rs, AnomalyPercent);
    FindingsMembers(refBin, testBin, rs, AnomalyPercent);
    FindingsPlaced(refBin, testBin, rs, AnomalyPercent);
    assert fs[k] in fs;
    LabelsNumbered(fs);
  }
}
