/** `process_image`: load both images, resize the test image to the reference's
    size, normalise illumination, check that LED detection succeeds on both, compare
    the LED patterns and build the result record. */
module Pipeline {

  import opened Wrappers
  import Text
  import opened Imaging
  import opened Segmentation
  import opened Comparator

  const ResultsUrl := "/static/images/results/"
  const UploadsUrl := "/static/images/uploads/"
  const ResultPrefix := "defect_"

  /** The result dict of `process_image`, together with the annotated image written
      to the results folder under the name in `defectImage`. */
  datatype InspectionResult = InspectionResult(
    approved: bool,
    defects: seq<string>,
    defectCount: nat,
    defectImage: string,
    analyzedImage: string,
    written: Annotated)

  /** `os.path.basename`: the text after the last '/'. */
  function Basename(path: string): (name: string)
    ensures '/' !in name
    ensures |name| <= |path| && name == path[|path| - |name|..]
    ensures name == path || path[|path| - |name| - 1] == '/'
  {
    if path == [] || path[|path| - 1] == '/' then []
    else Basename(path[..|path| - 1]) + [path[|path| - 1]]
  }

  /** The base name of a file joined to a directory is the file's own name. */
  lemma {:induction false} BasenameOfJoin(dir: string, name: string)
    requires '/' !in name
    ensures Basename(dir + "/" + name) == name
  {
    if name == [] {
      assert (dir + "/" + name)[|dir + "/" + name| - 1] == '/';
    } else {
      var front := name[..|name| - 1];
      assert dir + "/" + name == (dir + "/" + front) + [name[|name| - 1]];
      assert name[|name| - 1] in name;
      assert '/' !in front by {
        forall c | c in front ensures c != '/' {
          var i :| 0 <= i < |front| && front[i] == c;
          assert name[i] == c;
        }
      }
      BasenameOfJoin(dir, front);
      assert front + [name[|name| - 1]] == name;
    }
  }

  lemma GridShape<T>(p: Plane<T>, w: nat, h: nat)
    requires IsGrid(p, w, h) && h > 0
    ensures Rectangular(p) && Width(p) == w && |p| == h
  {
  }

  /** `cv2.resize(test, (ref.shape[1], ref.shape[0]))`. */
  function Resized(v: Vision, test: Image, ref: Image): (r: Image)
    requires Sound(v) && IsRaster(ref)
    ensures IsRaster(r) && SameShape(ref, r)
  {
    var r := v.resize(test, Width(ref), |ref|);
    GridShape(r, Width(ref), |ref|);
    r
  }

  /** The normalized reference and test images, when neither normalisation nor LED
      detection returned None. */
  function Prepared(v: Vision, test: Image, ref: Image): (r: Option<(Image, Image)>)
    requires Sound(v) && IsRaster(test) && IsRaster(ref)
    ensures r.Some? ==> SameShape(r.value.0, r.value.1) && IsRaster(r.value.0)
    ensures r.Some? ==> DetectLeds(v, Some(r.value.0)).Some? && DetectLeds(v, Some(r.value.1)).Some?
  {
    var resized := Resized(v, test, ref);
    var refNorm := NormalizeImage(v, Some(ref));
    var testNorm := NormalizeImage(v, Some(resized));
    if refNorm.None? || testNorm.None? then None
    else
      GridShape(refNorm.value, Width(ref), |ref|);
      if DetectLeds(v, testNorm).None? || DetectLeds(v, refNorm).None? then None
      else Some((refNorm.value, testNorm.value))
  }

  /** What `process_image(image_path, reference_path)` returns, given what `imread`
      loaded from the two paths (None when a load failed). */
  function Process(v: Vision, testLoaded: Option<Image>, refLoaded: Option<Image>, imagePath: string)
    : Option<InspectionResult>
    requires Sound(v)
    requires testLoaded.Some? ==> IsRaster(testLoaded.value)
    requires refLoaded.Some? ==> IsRaster(refLoaded.value)
  {
    if testLoaded.None? || refLoaded.None? then None
    else
      var prepared := Prepared(v, testLoaded.value, refLoaded.value);
      if prepared.None? then None
      else Some(Reported(v, prepared.value.0, prepared.value.1, imagePath))
  }

  /** The result dictionary built from the comparison of a prepared pair. */
  function Reported(v: Vision, refNorm: Image, testNorm: Image, imagePath: string): InspectionResult
    requires Sound(v) && SameShape(refNorm, testNorm)
  {
    var c := Compare(v, refNorm, testNorm);
    var name := Basename(imagePath);
    InspectionResult(|c.defects| == 0, c.defects, |c.defects|,
                     ResultsUrl + ResultPrefix + name, UploadsUrl + name, c.annotated)
  }

  /** `process_image`, stage by stage with its early returns. */
  method ProcessImage(v: Vision, testLoaded: Option<Image>, refLoaded: Option<Image>, imagePath: string)
    returns (r: Option<InspectionResult>)
    requires Sound(v)
    requires testLoaded.Some? ==> IsRaster(testLoaded.value)
    requires refLoaded.Some? ==> IsRaster(refLoaded.value)
    ensures r == Process(v, testLoaded, refLoaded, imagePath)
  {
    if testLoaded.None? {
      return None;
    }
    if refLoaded.None? {
      return None;
    }
    var reference := refLoaded.value;
    var test := Resized(v, testLoaded.value, reference);
    var refNorm := NormalizeImage(v, Some(reference));
    var testNorm := NormalizeImage(v, Some(test));
    if refNorm.None? || testNorm.None? {
      return None;
    }
    GridShape(refNorm.value, Width(reference), |reference|);
    var testLeds := DetectLeds(v, testNorm);
    var refLeds := DetectLeds(v, refNorm);
    if testLeds.None? || refLeds.None? {
      assert Prepared(v, testLoaded.value, reference).None?;
      return None;
    }
    assert Prepared(v, testLoaded.value, reference) == Some((refNorm.value, testNorm.value));
    var defects, defectImage := CompareLedPatterns(v, refNorm.value, testNorm.value);
    var resultName := ResultPrefix + Basename(imagePath);
    var approved := |defects| == 0;
    r := Some(InspectionResult(approved, defects, |defects|, ResultsUrl + resultName,
                               UploadsUrl + Basename(imagePath), defectImage));
    ProcessOfPrepared(v, testLoaded.value, reference, imagePath);
    Text.ConcatAssoc(ResultsUrl, ResultPrefix, Basename(imagePath));
  }

  lemma ProcessOfPrepared(v: Vision, test: Image, ref: Image, imagePath: string)
    requires Sound(v) && IsRaster(test) && IsRaster(ref)
    requires Prepared(v, test, ref).Some?
    ensures var (refNorm, testNorm) := Prepared(v, test, ref).value;
            var c := Compare(v, refNorm, testNorm);
            var name := Basename(imagePath);
            Process(v, Some(test), Some(ref), imagePath)
            == Some(InspectionResult(|c.defects| == 0, c.defects, |c.defects|,
                                     ResultsUrl + ResultPrefix + name, UploadsUrl + name, c.annotated))
  {
    var prepared := Prepared(v, test, ref);
    assert Process(v, Some(test), Some(ref), imagePath)
        == Some(Reported(v, prepared.value.0, prepared.value.1, imagePath));
  }

  // ---------------------------------------------------------------------------
  // Properties

  /** Once both images have loaded, the normalisation None-check cannot fire: the
      loaded reference and the resized test image are never empty. */
  lemma LoadedImagesNormalize(v: Vision, test: Image, ref: Image)
    requires Sound(v) && IsRaster(test) && IsRaster(ref)
    ensures NormalizeImage(v, Some(ref)).Some?
    ensures NormalizeImage(v, Some(Resized(v, test, ref))).Some?
  {
  }

  /** Preparation fails exactly when a colour conversion of a normalized image raised
      inside `detect_leds`. */
  lemma PreparedFailure(v: Vision, test: Image, ref: Image)
    requires Sound(v) && IsRaster(test) && IsRaster(ref)
    ensures NormalizeImage(v, Some(ref)).Some? && NormalizeImage(v, Some(Resized(v, test, ref))).Some?
    ensures var refNorm := NormalizeImage(v, Some(ref)).value;
            var testNorm := NormalizeImage(v, Some(Resized(v, test, ref))).value;
            Prepared(v, test, ref).None? <==>
              || v.toHsv(testNorm).None? || v.toGray(testNorm).None?
              || v.toHsv(refNorm).None? || v.toGray(refNorm).None?
  {
    var refNorm := NormalizeImage(v, Some(ref)).value;
    var testNorm := NormalizeImage(v, Some(Resized(v, test, ref))).value;
    GridShape(refNorm, Width(ref), |ref|);
    assert !IsEmpty(refNorm) && !IsEmpty(testNorm);
    assert DetectLeds(v, Some(testNorm)).None? <==> v.toHsv(testNorm).None? || v.toGray(testNorm).None?;
    assert DetectLeds(v, Some(refNorm)).None? <==> v.toHsv(refNorm).None? || v.toGray(refNorm).None?;
  }

  /** `process_image` returns None exactly when a load failed or a colour conversion
      of a normalized image raised inside `detect_leds`, the annotated image's write
      being taken to succeed. */
  lemma ProcessFailure(v: Vision, testLoaded: Option<Image>, refLoaded: Option<Image>, imagePath: string)
    requires Sound(v)
    requires testLoaded.Some? ==> IsRaster(testLoaded.value)
    requires refLoaded.Some? ==> IsRaster(refLoaded.value)
    ensures Process(v, testLoaded, refLoaded, imagePath).None? <==>
              || testLoaded.None? || refLoaded.None?
              || var refNorm := NormalizeImage(v, refLoaded).value;
                 var testNorm := NormalizeImage(v, Some(Resized(v, testLoaded.value, refLoaded.value))).value;
                 || v.toHsv(testNorm).None? || v.toGray(testNorm).None?
                 || v.toHsv(refNorm).None? || v.toGray(refNorm).None?
  {
    if testLoaded.Some? && refLoaded.Some? {
      PreparedFailure(v, testLoaded.value, refLoaded.value);
    }
  }

  /** A successful run approves exactly when no defect was found and reports their
      number; its defects come from a comparison that did not take the fallback of
      `compare_led_patterns`, because its gray conversions already succeeded inside
      `detect_leds`. */
  lemma ProcessVerdict(v: Vision, testLoaded: Option<Image>, refLoaded: Option<Image>, imagePath: string)
    requires Sound(v)
    requires testLoaded.Some? ==> IsRaster(testLoaded.value)
    requires refLoaded.Some? ==> IsRaster(refLoaded.value)
    requires Process(v, testLoaded, refLoaded, imagePath).Some?
    ensures var r := Process(v, testLoaded, refLoaded, imagePath).value;
            && r.approved == (r.defects == [])
            && r.defectCount == |r.defects| == |r.written.boxes|
            && var (refNorm, testNorm) := Prepared(v, testLoaded.value, refLoaded.value).value;
               && Binarised(v, refNorm, testNorm).Some?
               && r.defects == Compare(v, refNorm, testNorm).defects
  {
    var (refNorm, testNorm) := Prepared(v, testLoaded.value, refLoaded.value).value;
    DefectCountBound(v, refNorm, testNorm);
    assert v.toGray(refNorm).Some? && v.toGray(testNorm).Some?;
  }

  /** Inspecting the reference against itself approves it (unless a colour conversion
      raised), provided resizing an image to its own size leaves it unchanged. */
  lemma SelfInspectionApproved(v: Vision, ref: Image, imagePath: string)
    requires Sound(v) && IsRaster(ref)
    requires v.resize(ref, Width(ref), |ref|) == ref
    ensures var r := Process(v, Some(ref), Some(ref), imagePath);
            r.Some? ==> r.value.approved && r.value.defects == [] && r.value.written.boxes == []
  {
    if Process(v, Some(ref), Some(ref), imagePath).Some? {
      var (refNorm, testNorm) := Prepared(v, ref, ref).value;
      assert refNorm == testNorm;
      IdenticalImagesNoDefects(v, refNorm);
    }
  }

  /** The result names: the annotated image is `defect_<name>` under the results URL
      and the analysed image keeps its name under the uploads URL. */
  lemma ResultPaths(v: Vision, testLoaded: Option<Image>, refLoaded: Option<Image>, dir: string, name: string)
    requires Sound(v)
    requires testLoaded.Some? ==> IsRaster(testLoaded.value)
    requires refLoaded.Some? ==> IsRaster(refLoaded.value)
    requires '/' !in name
    ensures var r := Process(v, testLoaded, refLoaded, dir + "/" + name);
            r.Some? ==> r.value.defectImage == ResultsUrl + ResultPrefix + name
                        && r.value.analyzedImage == UploadsUrl + name
  {
    BasenameOfJoin(dir, name);
  }
}
