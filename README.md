# LED board inspection: a verified Dafny model

This project models the core of a Flask application that inspects LED circuit
boards. An operator uploads a photo of a board. The application compares it
with the product's primary reference photo and reports the LEDs that look
different. The model covers these parts of the application:

- **Comparison** (`compare_led_patterns`). Both normalized images are binarised
  at gray level 200. Every LED region of the reference with an area above 50 is
  grown by 5 px and clipped to the image. The grown window is cropped from both
  binary images. The region is a defect when more than 30 % of the window's
  pixels differ. Defects are numbered `Defeito #k` in scan order.
- **Pipeline** (`process_image`). It loads the two images and resizes the test
  image to the reference's size. It normalizes illumination (`normalize_image`)
  and checks that LED detection (`detect_leds`) succeeds on both images. It then
  compares them and builds the result record. The board is approved exactly
  when there is no defect.
- **The `analyze` route.** It checks the request in its own order and picks the
  product's primary reference image. It calls the pipeline and records an
  inspection row.
- **Offline validator** (`test_image_processing`). It counts difference blobs
  that are large enough and touch a reference LED. It also counts the cells of a
  4x4 grid whose colour histograms correlate poorly. It passes when the sum of
  the two counts is positive.
- **Reference-image bookkeeping** in the product pages and the JSON API:
  - the code-uniqueness checks of `create` and `update`;
  - the primary-path replacement in `update`;
  - adding an image with an optional primary flag (`add_image`, `upload_image`);
  - choosing the primary image;
  - deleting an image, which promotes another image to primary;
  - the product listing with its filters and its order by code;
  - the product list with each product's primary image.

  All of these keep one invariant: every product that has reference images has
  exactly one primary image.

The OpenCV calls are fields of a `Vision` record. `Sound(v)` states what OpenCV
guarantees about them: shapes are preserved, `resize` gives the requested size,
and contours lie inside the image. The database is a `Catalog` object. Its
three tables are sequences that the handlers update in place. Each handler is
written twice:

- a step function on the tables, which states the reply and the new tables;
- a method on the catalog that performs the handler's loops and is proved
  equal to the step function.

The properties are lemmas about the step functions.

Modules, one per file:

- `Wrappers`: the `Option` type.
- `Text`: ASCII case folding, decimal numerals, SQLite's text order, SQL `LIKE`,
  and `str.replace(pat, '')`.
- `Upload`: `allowed_file` and the stored file name.
- `Imaging`: images, binarisation, crops, differences, the region-of-interest
  arithmetic, and the OpenCV primitives.
- `Segmentation`: `normalize_image` and `detect_leds`.
- `Comparator`: `compare_led_patterns`.
- `Pipeline`: `process_image`.
- `Analysis`: the `analyze` route.
- `GridValidator`: `test_image_processing`.
- `Records`: the table rows, the invariant, and the transitions on the image list.
- `Catalog`: the database session as a class.
- `Products`: src/routes/products.py.
- `Api`: src/routes/api.py.

Behaviours that follow the code rather than the documented intent:

- `get_or_404` is called inside the handlers' `try ... except Exception`
  blocks. A missing product or image therefore does not give 404. It gives the
  generic error flash in the product pages (`Products.Reason.Error`) and status
  500 in the API (`Api.Refusal.Internal`). The model follows the code.
- The `analyze` route answers 200 with the result even when saving the
  inspection row fails. The failed commit is rolled back and only logged. The
  `committed` parameter covers both cases.
- `compare_led_patterns` catches every exception and then returns no defects
  with the test image unchanged. A failed gray conversion therefore reports an
  approved board. `Comparator.Compare` keeps this fallback. Inside
  `process_image` the fallback cannot happen, because `detect_leds` has already
  run the same conversions successfully. `Pipeline.ProcessVerdict` proves this.

## Model

| member | source | states |
|---|---|---|
| Upload.Accepted | src/routes/products.py:83 | `file and file.filename and allowed_file(file.filename)`: a file part is present, its name is not empty, and the name passes `allowed_file`. Products.CreatedImageIsPrimary and Products.UpdateUploadRule state what an accepted upload does |
| Upload.AllowedFile | src/routes/inspection.py:30-31 | `allowed_file`: the name has a last extension whose lower-cased form is png, jpg, jpeg or gif; its meaning in both directions is stated by Upload.AllowedFileIff |
| Upload.StoredName | src/routes/inspection.py:151 | the stored file name, the random token, a '.' and the upload's last extension lower-cased; Upload.StoredNameAllowed states that it keeps that extension and is accepted |
| Upload.ProductImagePath | src/routes/products.py:229-250 | the path recorded for an accepted reference image, `images/products/` followed by the stored name |
| Upload.Extension | src/routes/inspection.py:31 | `rsplit('.', 1)[1]` is the dot-free text after the last '.', and exists exactly when the name contains a '.' |
| Upload.AllowedFileIff | src/routes/inspection.py:30-31 | a name `p.e` is accepted exactly when its last extension, lower-cased, is png, jpg, jpeg or gif |
| Upload.AllowedFileNeedsDot | src/routes/products.py:15-16 | a name without a '.' is rejected |
| Upload.InnerExtensionIgnored | src/routes/inspection.py:31 | "a.exe.png" is accepted, because only the last extension counts |
| Upload.LastExtensionDecides | src/routes/inspection.py:31 | "a.png.exe" is rejected |
| Upload.TrailingDotRejected | src/routes/api.py:15-16 | a name ending in '.' has an empty extension and is rejected |
| Upload.UpperCaseExtensionAccepted | src/routes/inspection.py:31 | the extension is compared after lower-casing ("board.JPEG" is accepted) |
| Upload.StoredNameAllowed | src/routes/inspection.py:151 | the stored name `uuid.ext` keeps the upload's extension, lower-cased, and is itself accepted |
| Upload.ExtensionOfJoin | src/routes/products.py:85 | whatever precedes the last '.', the extension is the text after it |
| Text.LexLe | src/routes/products.py:38 | the order `order_by(code)` uses, lexicographic by character code; Text.LexLeTotal, Text.LexLeAntisymmetric and Text.LexLeTransitive state that it is a total order |
| Text.Like | src/routes/products.py:30 | case-insensitive SQL `LIKE`, `%` matching any run and `_` any one character; Text.ContainsLike states what `'%s%'` means |
| Text.RemoveAll | src/routes/inspection.py:181 | `replace(pat, '')`, dropping every occurrence found scanning left to right; Text.RemoveAllLeading, Text.RemoveAllMismatch and Text.RemoveAllKeepsPrefix state its cases |
| Text.LowerChar | src/routes/inspection.py:31 | an upper-case ASCII letter maps to its lower-case letter and every other character to itself; the result is never upper-case |
| Text.Lower | src/routes/api.py:113 | `lower()` keeps the length and folds each letter A-Z to a-z, leaving every other character alone |
| Text.LowerIdempotent | src/routes/api.py:113 | lower-casing twice is lower-casing once |
| Text.LowerConcat | src/routes/inspection.py:31 | lower-casing distributes over concatenation |
| Text.NatToString | src/routes/inspection.py:360 | the f-string rendering of a count is a non-empty run of decimal digits without a leading zero |
| Text.DigitsValueOfNatToString | src/routes/inspection.py:360 | the rendered digits read back as the number |
| Text.ReadNatAfterPrint | src/routes/inspection.py:360 | a rendered number followed by a non-digit is read back exactly, with the rest of the text |
| Text.NatToStringInjective | src/routes/inspection.py:360 | different numbers render differently |
| Text.LexLeTotal | src/routes/products.py:38 | any two codes are ordered one way or the other |
| Text.LexLeAntisymmetric | src/routes/products.py:38 | codes ordered both ways are equal |
| Text.LexLeTransitive | src/routes/products.py:38 | the code order is transitive |
| Text.LikeTrailingPercent | src/routes/products.py:30 | a trailing `%` matches any remainder |
| Text.LikePrefix | src/routes/products.py:30 | without wildcards, `s%` matches exactly the texts that start with `s` up to case |
| Text.LikeLeadingPercent | src/routes/products.py:30 | a leading `%` lets the rest of the pattern match any suffix |
| Text.ContainsLike | src/routes/products.py:30 | `t ILIKE '%s%'` holds exactly when `s` occurs in `t` up to ASCII case, for `s` without wildcards |
| Text.RemoveAllKeepsPrefix | src/routes/inspection.py:181 | `replace(pat, '')` keeps text in which the pattern cannot start |
| Text.RemoveAllLeading | src/routes/inspection.py:181 | an occurrence of the pattern at the front is dropped |
| Text.RemoveAllMismatch | src/routes/inspection.py:181 | a front that is not an occurrence keeps its first character |
| Imaging.CountNonZero | src/routes/inspection.py:356 | `cv2.countNonZero`, the number of non-zero pixels of a plane; Imaging.CountNonZeroBounds states that it is at most w*h and zero exactly for a blank plane |
| Imaging.BinarisePixel | src/routes/inspection.py:322-323 | a gray value becomes 255 exactly when it is above 200, and 0 otherwise |
| Imaging.Binarise | src/routes/inspection.py:322-323 | `threshold(gray, 200, 255, THRESH_BINARY)` keeps the shape and binarises every pixel |
| Imaging.BinariseIsBinary | src/routes/inspection.py:322-323 | a binarised image holds only 0 and 255, and binarising it again changes nothing |
| Imaging.Crop | src/routes/inspection.py:347-350 | the window slice has the window's size and pixel (i, j) is image pixel (y+i, x+j) |
| Imaging.AbsDiffPixel | src/routes/inspection.py:353 | the absolute difference of two bytes is non-zero exactly when they differ |
| Imaging.AbsDiff | src/routes/inspection.py:353 | `absdiff` keeps the shape and is non-zero exactly where the two images disagree |
| Imaging.CountNonZeroBounds | src/routes/inspection.py:356 | `countNonZero` of a w x h plane is at most w*h, and zero exactly when every pixel is zero |
| Imaging.ExpandRoi | src/routes/inspection.py:340-344 | for a box starting inside the image, the grown window lies inside the image and has width and height at least 1, so the percentage never divides by zero; it reaches at most 5 px left of and above the box and at most 10 px past its size; it holds the whole box whenever the box fits |
| Segmentation.InRange | src/routes/inspection.py:283-284 | the per-pixel test of `cv2.inRange`, each HSV channel within its inclusive bounds; Segmentation.ColourRangesDisjoint states that no pixel is in both the yellow and the white range |
| Segmentation.BitOr | src/routes/inspection.py:287 | the 8-bit bitwise OR that `cv2.bitwise_or` applies per pixel, here and at line 299; Segmentation.BitOrOnMasks states that on 0/255 masks it is 255 exactly when either operand is |
| Segmentation.NormalizeImage | src/routes/inspection.py:229-257 | None exactly for a missing or empty image; the input itself when equalization raised; otherwise an image of the input's shape |
| Segmentation.ColourRangesDisjoint | src/routes/inspection.py:275-280 | no HSV pixel is in both the yellow and the white range |
| Segmentation.RangeMask | src/routes/inspection.py:283-284 | `inRange` gives 255 exactly for the pixels inside the inclusive bounds |
| Segmentation.BitOrOnMasks | src/routes/inspection.py:287 | on 0/255 masks, bitwise OR is 255 exactly when either operand is 255 |
| Segmentation.Union | src/routes/inspection.py:287 | `bitwise_or` keeps the shape and ORs pixel by pixel |
| Segmentation.ColourMask | src/routes/inspection.py:283-287 | the colour mask has the image's shape |
| Segmentation.Clean | src/routes/inspection.py:290-292 | opening then closing keeps the mask's shape |
| Segmentation.LedMask | src/routes/inspection.py:289-303 | the combined LED mask has the image's shape |
| Segmentation.DetectLeds | src/routes/inspection.py:259-309 | None exactly for a missing or empty image or when a colour conversion raised; otherwise a mask of the image's shape |
| Segmentation.RawLedMask | src/routes/inspection.py:283-299 | the unmorphed mask has the image's shape |
| Segmentation.RawLedMaskPixel | src/routes/inspection.py:275-299 | an unmorphed mask pixel is 255 exactly when the pixel is in the yellow or the white range (bounds included) or its gray level exceeds 200 |
| Segmentation.DetectLedsWithoutMorphology | src/routes/inspection.py:289-303 | with morphology that changes nothing, `detect_leds` yields the unmorphed mask |
| Comparator.RegionRoi | src/routes/inspection.py:338-344 | the window examined for a region: its bounding box grown by 5 px and clipped to the image, as Imaging.ExpandRoi states |
| Comparator.DiffCount | src/routes/inspection.py:347-356 | `countNonZero(absdiff(ref_roi, test_roi))`, the number of pixels that differ in the window; Comparator.SelfDiffCount states that it is zero for an image against itself |
| Comparator.SelfDiffCount | src/routes/inspection.py:347-356 | a window compared with itself has no differing pixel |
| Comparator.AnomalousMonotone | src/routes/inspection.py:359 | a region that exceeds a threshold exceeds every lower one |
| Comparator.FlaggedLabel | src/routes/inspection.py:336-360 | the k-th label of a scan names the k-th flagged region, which was scanned, lies inside the image and is anomalous, and the label reads back as (k+1, x, y) |
| Comparator.Exceeds | src/routes/inspection.py:356-359 | `diff_percentage > threshold` with the percentage `count/area*100` compared without division, as `count*100 > threshold*area` |
| Comparator.Anomalous | src/routes/inspection.py:338-359 | a region is a defect when the differing pixels of its grown window exceed the threshold share of the window's area |
| Comparator.DefectLabel | src/routes/inspection.py:360 | the label `Defeito #k: LED com anomalia na posição (x, y)`; Comparator.ParseDefectLabel and Comparator.DefectLabelInjective state that it can be read back |
| Comparator.Compare | src/routes/inspection.py:311-368 | `compare_led_patterns`: no defects and the unmarked test image when a gray conversion fails, otherwise one label and one drawn rectangle per flagged region; Comparator.CompareLedPatterns and Comparator.DefectsDescribeFlaggedRegions state its results |
| Comparator.SignificantRegions | src/routes/inspection.py:329 | the area filter keeps exactly the regions of area above 50 |
| Comparator.SignificantRegionsConcat | src/routes/inspection.py:329 | the filter preserves the contour order |
| Comparator.ExceedsMonotone | src/routes/inspection.py:356-359 | `count*100 > p*area` at a threshold implies it at every lower threshold |
| Comparator.Findings | src/routes/inspection.py:336-359 | a scan never flags more regions than it visits, and every flagged region lies inside the image |
| Comparator.FindingsMembers | src/routes/inspection.py:336-359 | a region is flagged exactly when it is scanned and more than 30 % of its window differs |
| Comparator.FindingsPlaced | src/routes/inspection.py:336-338 | flagged regions lie inside the image at non-negative positions |
| Comparator.FindingsConcat | src/routes/inspection.py:336 | scanning two lists in a row flags what each scan flags, in that order |
| Comparator.FindingsOfIdentical | src/routes/inspection.py:353-359 | identical binary images flag nothing |
| Comparator.FindingsMonotone | src/routes/inspection.py:359 | raising the threshold never flags more regions |
| Comparator.StripPrefix | src/routes/inspection.py:360 | a stripped prefix joined back with the rest gives the text |
| Comparator.StripPrefixOfJoin | src/routes/inspection.py:360 | stripping a prefix from prefix+rest gives the rest |
| Comparator.NumberAfterPrint | src/routes/inspection.py:360 | a printed number after a prefix is read back |
| Comparator.ParseDefectLabel | src/routes/inspection.py:360 | the defect number and the un-expanded (x, y) can be read back from the label |
| Comparator.DefectLabelInjective | src/routes/inspection.py:360 | two labels are equal only when number and position are |
| Comparator.LabelsOf | src/routes/inspection.py:360 | one label per flagged region |
| Comparator.RoisOf | src/routes/inspection.py:361-362 | one drawn rectangle per flagged region |
| Comparator.LabelsNumbered | src/routes/inspection.py:336-360 | the k-th label carries number k+1 and its region's position, and no two labels are equal |
| Comparator.BinariseKeepsShape | src/routes/inspection.py:322-323 | binarisation keeps a rectangular image's shape |
| Comparator.Binarised | src/routes/inspection.py:318-323 | when both gray conversions succeed, the two binary images have the reference's shape |
| Comparator.ScannedRegions | src/routes/inspection.py:326-329 | every scanned region lies inside the image |
| Comparator.FindingsStep | src/routes/inspection.py:336-359 | one more scanned region is appended to the findings exactly when it is anomalous |
| Comparator.LabelsAppend | src/routes/inspection.py:360 | a new defect gets the label numbered `len(defects)+1` |
| Comparator.RoisAppend | src/routes/inspection.py:361-362 | a new defect adds its grown window to the drawn rectangles |
| Comparator.TestWindow | src/routes/inspection.py:338-359 | the grown window is the region's window, and it is flagged exactly when the region is anomalous |
| Comparator.ScanRegions | src/routes/inspection.py:332-364 | the loop returns the labels and rectangles of exactly the flagged regions, in scan order |
| Comparator.CompareLedPatterns | src/routes/inspection.py:311-368 | the method returns what the comparison specifies, including the no-defect fallback when a conversion raises |
| Comparator.IdenticalImagesNoDefects | src/routes/inspection.py:311-368 | an image compared with itself has no defect and nothing drawn |
| Comparator.DefectCountBound | src/routes/inspection.py:336-364 | there are never more defects than significant reference regions, and there is one rectangle per defect |
| Comparator.DefectsDescribeFlaggedRegions | src/routes/inspection.py:326-360 | each defect label k names a reference contour of area above 50 with more than 30 % of its window differing, numbered k+1 |
| Pipeline.Reported | src/routes/inspection.py:414-432 | the result dictionary of a prepared pair: approved when the comparison found no defect, its defects and their count, the result URL `/static/images/results/defect_<name>` and the upload URL; Pipeline.ProcessOfPrepared and Pipeline.ProcessVerdict state its fields |
| Pipeline.Process | src/routes/inspection.py:370-438 | `process_image`: None when an image did not load or LED detection failed, otherwise the comparison's report; Pipeline.ProcessFailure, Pipeline.ProcessOfPrepared and Pipeline.ProcessVerdict state its results |
| Pipeline.Basename | src/routes/inspection.py:418 | `basename` is the suffix after the last '/', and contains no '/' |
| Pipeline.BasenameOfJoin | src/routes/inspection.py:418-431 | the base name of `dir/name` is `name` |
| Pipeline.GridShape | src/routes/inspection.py:395 | an image of the requested size is rectangular with that width and height |
| Pipeline.Resized | src/routes/inspection.py:395 | the resized test image has the reference's shape |
| Pipeline.Prepared | src/routes/inspection.py:395-412 | when preparation succeeds, both normalized images have the same shape and LED detection succeeds on both |
| Pipeline.ProcessImage | src/routes/inspection.py:370-438 | the stage-by-stage method returns what `Process` specifies |
| Pipeline.ProcessOfPrepared | src/routes/inspection.py:415-434 | after preparation, the result carries the comparison's defects, their count, the approval and both URLs |
| Pipeline.LoadedImagesNormalize | src/routes/inspection.py:399-404 | once both images have loaded, the normalisation None-check cannot fire |
| Pipeline.PreparedFailure | src/routes/inspection.py:399-412 | preparation fails exactly when a colour conversion of a normalized image raises |
| Pipeline.ProcessFailure | src/routes/inspection.py:380-412 | `process_image` returns None exactly when a load failed or a colour conversion in `detect_leds` raised, with the annotated image's write taken to succeed |
| Pipeline.ProcessVerdict | src/routes/inspection.py:415-429 | approved exactly when there is no defect, `defect_count` is the number of defects, and the comparison did not take its fallback |
| Pipeline.SelfInspectionApproved | src/routes/inspection.py:395-423 | the reference inspected against itself is approved with no defect |
| Pipeline.ResultPaths | src/routes/inspection.py:418-431 | the annotated image is `/static/images/results/defect_<name>` and the analysed image `/static/images/uploads/<name>` |
| Analysis.Join | src/routes/inspection.py:152 | `os.path.join` of a directory and a relative path, a '/' between them, as also used at line 163 |
| Analysis.LeadingPatternRemoved | src/routes/inspection.py:181 | `replace(pat, '')` on `pat + a/b/c` drops the leading pattern and keeps the rest, when no later segment can start a second occurrence |
| Analysis.CheckRequest | src/routes/inspection.py:113-151 | the request checks in the route's order: image part, product id, product found, reference image present, file chosen, type allowed; a passing request yields the product, its primary image and the stored name (Analysis.CheckOrder, Analysis.CheckPasses) |
| Analysis.InspectionRow | src/routes/inspection.py:178-185 | the inspection row: next id, the product, `images/uploads/` plus the stored name, the result path without `/static/`, the approval, the defect count and the defects |
| Analysis.RunInspection | src/routes/inspection.py:152-197 | after the checks: a failed save, a missing reference file and a failed processing each refuse; otherwise the result is returned and the row is added when the commit succeeds (Analysis.RunInspectionRecords) |
| Analysis.AnalyzeStep | src/routes/inspection.py:107-202 | the whole `analyze` route as one step on the tables, the checks followed by the inspection; Analysis.AnalyzeKeepsConsistent states that it keeps the tables consistent |
| Analysis.Status | src/routes/inspection.py:113-202 | 200 exactly for a result; 404 exactly for an unknown product; 500 exactly for a save, reference-file or processing failure; 400 otherwise |
| Analysis.Analyze | src/routes/inspection.py:107-202 | the route, with its loop for the first primary image, replies and changes the tables as the step specifies, and keeps the invariant |
| Analysis.CheckOrder | src/routes/inspection.py:113-140 | the image part, the product id and the product are checked in order; a product without reference images is refused before the file name is looked at |
| Analysis.CheckPasses | src/routes/inspection.py:113-151 | a request passes exactly when it names an existing product that has images and sends a named file of an accepted type; the reference used is that product's only primary image |
| Analysis.RunInspectionRecords | src/routes/inspection.py:152-197 | refusals change nothing; a result is reported exactly when both files exist and `process_image` succeeds, and it approves exactly when there is no defect; a committed row has a fresh id, points at `images/uploads/<name>` and `images/results/defect_<name>`, and counts its defects |
| Analysis.RecordKeepsConsistent | src/routes/inspection.py:178-188 | an inspection of an existing product keeps the tables consistent |
| Analysis.AnalyzeKeepsConsistent | src/routes/inspection.py:107-202 | the route keeps the invariant |
| Analysis.AnalyzeAcceptsRequest | src/routes/inspection.py:122-151 | an accepted file for a product with images passes the checks under its stored name, which has no '/' |
| Analysis.StoredNameHasNoSlash | src/routes/inspection.py:151 | the stored name of an accepted upload contains no '/' |
| Analysis.StaticPrefixRemoved | src/routes/inspection.py:181 | `replace('/static/', '')` turns the annotated image's URL into `images/results/defect_<name>` |
| GridValidator.CellAt | tests/test_inspection.py:128-137 | cell (i, j) of the grid, rows `[i*(h//4), (i+1)*(h//4))` and columns `[j*(w//4), (j+1)*(w//4))`; GridValidator.CellInBounds, GridValidator.CellsDisjoint and GridValidator.CoveringCell state its properties |
| GridValidator.CellDiffers | tests/test_inspection.py:140-158 | a cell is flagged when `dissimilar` holds of the two images' crops of that cell, the histogram correlation below 0.7 being that parameter; GridValidator.TestCell and GridValidator.FlaggedCellsMembers use it |
| GridValidator.BitAnd | tests/test_inspection.py:113 | the 8-bit bitwise AND that `cv2.bitwise_and` applies per pixel; GridValidator.BitAndWithMask states its value against a 0/255 mask |
| GridValidator.Overlap | tests/test_inspection.py:111-114 | `countNonZero(bitwise_and(good_leds, mask))`, the lit LED pixels inside a blob; GridValidator.OverlapIff states when it is positive |
| GridValidator.MinAreaFor | tests/test_inspection.py:95-100 | `min_defect_area` for the good image's LED mask: `max(50, avg*0.10)`, where avg is the mean area of its contours larger than 50, or 500 when there is none (GridValidator.MinDefectAreaFloor) |
| GridValidator.Counted | tests/test_inspection.py:107-118 | a difference blob counts when its area exceeds `min_defect_area` and it overlaps the good image's LED mask (GridValidator.CountedBlobsMembers) |
| GridValidator.AvgLedArea | tests/test_inspection.py:95-97 | the mean LED contour area, 500 when there is none (GridValidator.AvgLedAreaAboveFilter) |
| GridValidator.MinDefectArea | tests/test_inspection.py:100 | `max(50, avg_led_area * 0.10)` (GridValidator.MinDefectAreaFloor) |
| GridValidator.ContourCount | tests/test_inspection.py:81-121 | `significant_defects`, the number of difference blobs that count (GridValidator.SignificantDefects) |
| GridValidator.HistogramCount | tests/test_inspection.py:127-162 | `histogram_defects`, the number of grid cells whose histograms correlate poorly (GridValidator.HistogramDefects) |
| GridValidator.CountsOf | tests/test_inspection.py:59-162 | the two counters over the normalised pair, contour-based then histogram-based |
| GridValidator.Counters | tests/test_inspection.py:31-162 | the two counters, or None when the test returns False early: a file is missing, an image did not load, or normalisation or LED detection failed (GridValidator.TestImageProcessing) |
| GridValidator.CellInBounds | tests/test_inspection.py:127-137 | every cell lies inside the image and measures `h//4` by `w//4` |
| GridValidator.CellsDisjoint | tests/test_inspection.py:133-137 | no pixel lies in two cells |
| GridValidator.CoveringCell | tests/test_inspection.py:127-137 | each pixel of the covered part lies in the cell numbered by its quotients |
| GridValidator.CoveredPixels | tests/test_inspection.py:127-141 | a pixel is examined exactly when it lies in the top `4*(h//4)` rows and the left `4*(w//4)` columns |
| GridValidator.GridCells | tests/test_inspection.py:133-134 | the loops visit 16 cells |
| GridValidator.GridCellAt | tests/test_inspection.py:133-137 | visit number `4i+j` is cell (i, j) |
| GridValidator.GridCellsInside | tests/test_inspection.py:136-141 | all 16 cells lie inside the image |
| GridValidator.FlaggedCells | tests/test_inspection.py:133-160 | no more cells are flagged than visited |
| GridValidator.FlaggedCellsMembers | tests/test_inspection.py:133-160 | a cell is flagged exactly when visited and its histograms correlate poorly |
| GridValidator.FlaggedStep | tests/test_inspection.py:159-160 | one more visited cell is appended exactly when it differs |
| GridValidator.HistogramStep | tests/test_inspection.py:136-160 | visit (i, j) appends its cell exactly when the crops the loop takes are dissimilar |
| GridValidator.TestCell | tests/test_inspection.py:136-159 | the sliced cell is cell (i, j) of the grid, inside the image, and it differs exactly when its histograms are dissimilar |
| GridValidator.HistogramRow | tests/test_inspection.py:134-162 | one pass of the inner loop extends the flagged cells by exactly the flagged cells of row i |
| GridValidator.HistogramDefects | tests/test_inspection.py:131-162 | the histogram counter is the number of flagged cells and at most 16 |
| GridValidator.FlaggedCellsOfIdentical | tests/test_inspection.py:156-160 | an image against itself flags no cell when identical cells never correlate poorly |
| GridValidator.BitAndWithMask | tests/test_inspection.py:113 | against a 0/255 mask, the AND is non-zero exactly where both are |
| GridValidator.Intersect | tests/test_inspection.py:113 | `bitwise_and` keeps the shape and ANDs pixel by pixel |
| GridValidator.OverlapIff | tests/test_inspection.py:111-117 | the overlap is positive exactly when a lit LED pixel lies inside the blob |
| GridValidator.CountedBlobs | tests/test_inspection.py:107-118 | no more blobs are counted than found |
| GridValidator.CountedBlobsMembers | tests/test_inspection.py:107-118 | a blob counts exactly when its area exceeds the minimum and it covers a lit LED pixel |
| GridValidator.SignificantDefects | tests/test_inspection.py:104-121 | the contour counter is the number of counted blobs |
| GridValidator.Areas | tests/test_inspection.py:96 | one area per LED contour |
| GridValidator.AvgLedAreaAboveFilter | tests/test_inspection.py:96-97 | the mean LED area is above 50 |
| GridValidator.MinDefectAreaFloor | tests/test_inspection.py:97-100 | `min_defect_area` is at least 50, and exactly 50 unless the mean LED area exceeds 500 |
| GridValidator.ThresholdAt | tests/test_inspection.py:84 | the thresholded difference is non-zero exactly above level 50 |
| GridValidator.LedMasks | tests/test_inspection.py:70-75 | both LED masks have the same shape |
| GridValidator.DiffBlobs | tests/test_inspection.py:81-91 | every difference blob is a 0/255 mask of the image's shape |
| GridValidator.TestImageProcessing | tests/test_inspection.py:23-190 | the test passes exactly when no stage aborted and the two counters add up to a positive total |
| GridValidator.CountersOfPrepared | tests/test_inspection.py:104-167 | the two counters are the counted blobs and the flagged cells |
| GridValidator.CountersBound | tests/test_inspection.py:104-167 | the histogram counter is at most 16 and the contour counter at most the number of blobs |
| GridValidator.SelfDifferenceBlank | tests/test_inspection.py:81-84 | a mask's difference with itself, thresholded, is blank |
| GridValidator.SelfTestFindsNothing | tests/test_inspection.py:23-190 | a sample tested against itself finds no defect |
| Records.ProductById | src/routes/products.py:125 | `get(id)` on the products table, the row with that id or nothing; Records.ProductByIdFinds states that it succeeds exactly for an existing id |
| Records.ImageById | src/routes/products.py:270 | `get_or_404(image_id)` on the reference-image table, the row with that id or nothing |
| Records.RemoveAt | src/routes/api.py:181 | `db.session.delete(image)`, the table without row k; Records.RemovalCounts and Records.RemovedIdGone state what it takes away |
| Records.FirstPrimary | src/routes/inspection.py:132-136 | `filter_by(product_id, is_primary=True).first()`, the product's first image flagged primary; Records.FirstPrimaryExists states that it exists under the invariant when the product has images |
| Records.OnePrimaryEach | src/routes/products.py:236-252 | the invariant the flag rules keep: every product with images has exactly one primary image |
| Records.Consistent | src/models/product.py:6-26 | the table invariant: distinct product ids, unique codes, distinct image ids, every image owned by a product, and one primary image per product with images |
| Records.Reflag | src/routes/products.py:278-279 | `is_primary = (img.id == image_id)` over the product's images, other rows unchanged (Records.ReflagSelects, Records.ReflagKeepsOnePrimary) |
| Records.Cleared | src/routes/products.py:239-241 | the product's images all lose the primary flag, other rows unchanged (Records.ClearedFlags) |
| Records.Attach | src/routes/products.py:236-254 | a new image row, primary when requested or when the product had none, after clearing the others when requested (Records.AttachRules, Records.AttachKeepsOnePrimary) |
| Records.Repathed | src/routes/products.py:155-168 | an update upload re-points the first primary image, or adds a primary row when there is none (Records.RepathedRules, Records.RepathedKeepsOnePrimary) |
| Records.FirstWhere | src/routes/products.py:156 | `.first()` finds the first row satisfying the filter, or reports that none does |
| Records.ProductByIdFinds | src/routes/products.py:125 | the lookup by id succeeds exactly when a product has that id, and returns it |
| Records.NextId | src/models/product.py:6 | a new row's id is above every existing id, 1 in an empty table, and otherwise the largest id plus one |
| Records.NoImagesNoPrimary | src/routes/products.py:243-245 | a product without images has no primary |
| Records.FirstPrimaryExists | src/routes/inspection.py:132-140 | under the invariant, the primary image the routes pick exists exactly when the product has images, and it is the product's only primary |
| Records.Promoted | src/routes/api.py:165-170 | promotion keeps every row's id and owner |
| Records.ReflagSelects | src/routes/products.py:278-279 | after reflagging, the chosen image is the product's only primary and the one the routes pick; other products' rows are unchanged |
| Records.ReflagKeepsOnePrimary | src/routes/api.py:202-204 | reflagging keeps one primary per product |
| Records.ClearedFlags | src/routes/products.py:239-241 | clearing leaves the product no primary and changes no count of another product |
| Records.AttachRules | src/routes/products.py:238-252 | a requested primary becomes the only primary; a product's first image is primary; otherwise existing rows are untouched and the new row is not primary |
| Records.AttachKeepsOnePrimary | src/routes/api.py:115-131 | adding an image keeps one primary per product |
| Records.RepathedRules | src/routes/products.py:155-168 | with a primary present only its path changes; otherwise exactly one new primary row is added |
| Records.RepathedOwners | src/routes/products.py:155-168 | every row after the update upload belongs to the product or to the same owner as before |
| Records.RepathedKeepsOnePrimary | src/routes/products.py:155-168 | the update upload keeps one primary per product |
| Records.OtherImageExists | src/routes/api.py:165-170 | a product with at least two images has an image besides the deleted one |
| Records.OnlyPrimary | src/routes/api.py:165 | under the invariant no other image of the product is primary |
| Records.PromotionTarget | src/routes/api.py:165-170 | the promoted image exists, belongs to the product and was not primary |
| Records.PromotionCounts | src/routes/api.py:169 | promoting adds one primary to its product and changes no other count |
| Records.RemovalCounts | src/routes/api.py:181 | removing a row takes exactly its contribution off every count |
| Records.DeletionKeepsOnePrimary | src/routes/api.py:160-182 | deleting one of at least two images keeps exactly one primary, changing only the deleted row and at most the first other image |
| Records.NumberedOnce | src/routes/products.py:278-279 | with distinct ids, the chosen image is one row |
| Catalog.Catalog.InsertProduct | src/routes/products.py:70-78 | the product row is appended with the next id |
| Catalog.Catalog.SetProduct | src/routes/products.py:139-142 | the product's columns are replaced in place |
| Catalog.Catalog.InsertImage | src/routes/products.py:92-99 | the image row is appended with the next id |
| Catalog.Catalog.InsertInspection | src/routes/inspection.py:178-188 | the inspection row is appended with the next id |
| Catalog.Catalog.SetPrimaryFlags | src/routes/products.py:278-279 | the loop sets `is_primary = (id == image_id)` on the product's images |
| Catalog.Catalog.ClearPrimaryFlags | src/routes/products.py:239-241 | the loop clears the product's flags |
| Catalog.Catalog.AttachImage | src/routes/products.py:236-254 | the images become `Attach` of the old list, whose rules `Records.AttachRules` states |
| Catalog.Catalog.FindPrimary | src/routes/inspection.py:132-136 | the loop with `break` returns the first primary image of the product |
| Catalog.Catalog.PromoteOther | src/routes/api.py:165-170 | the loop promotes the first other image of the product |
| Catalog.Catalog.ReplacePrimaryPath | src/routes/products.py:156-168 | the images become `Repathed` of the old list |
| Catalog.Catalog.DeleteImageAt | src/routes/api.py:181-182 | exactly the chosen row is removed |
| Products.MatchesSearch | src/routes/products.py:29-30 | the search filter: an empty search keeps every product, otherwise the name or the code must match `'%search%'`; Products.SearchMeansContains states it as a substring test |
| Products.MatchesStatus | src/routes/products.py:32-35 | the status filter: "active" keeps active products, "inactive" keeps inactive ones, any other value keeps all (Products.SelectedMembers) |
| Products.CodeHolder | src/routes/products.py:64 | `filter_by(code=c).first()`, the first product with that code; Products.CodeHolderFinds states it |
| Products.CreateStep | src/routes/products.py:55-107 | `create` on the tables: a taken code or a missing code or name refuses; otherwise the product is appended, with a primary image when the file is accepted (Products.CreateKeepsProducts, Products.CreateRejectsTakenCode) |
| Products.UpdateStep | src/routes/products.py:122-177 | `update` on the tables: a missing product, a code held by another product or a missing field refuses; otherwise the fields are replaced and an accepted upload re-points the primary image (Products.UpdateCodeRule, Products.UpdateUploadRule) |
| Products.AddImageStep | src/routes/products.py:209-263 | `add_image` on the tables: a missing product, no file part, no file chosen and a refused type each refuse; otherwise the image is attached (Products.AddImageFlags) |
| Products.SetPrimaryStep | src/routes/products.py:266-289 | `set_primary_image` on the tables: a missing product or image and an image of another product refuse; otherwise the product's flags are reset to the chosen image (Products.SetPrimaryRule) |
| Products.Selected | src/routes/products.py:29-35 | the search and status filters, keeping the products' order (Products.SelectedMembers) |
| Products.SortByCode | src/routes/products.py:38 | `order_by(code)` as an insertion sort by code (Products.SortByCodeSorted, Products.SortByCodePermutes) |
| Products.Index | src/routes/products.py:18-40 | the listing, the selected products ordered by code (Products.IndexContents) |
| Products.CodeHolderFinds | src/routes/products.py:64 | `filter_by(code=c).first()` finds a product exactly when one holds the code |
| Products.Create | src/routes/products.py:54-107 | the handler replies and changes the tables as `CreateStep` specifies, and keeps the invariant |
| Products.Update | src/routes/products.py:121-177 | the handler replies and changes the tables as `UpdateStep` specifies, and keeps the invariant |
| Products.AddImage | src/routes/products.py:208-263 | the handler replies and changes the tables as `AddImageStep` specifies, and keeps the invariant |
| Products.SetPrimaryImage | src/routes/products.py:265-289 | the handler replies and changes the tables as `SetPrimaryStep` specifies, and keeps the invariant |
| Products.CreateKeepsProducts | src/routes/products.py:63-78 | the new product has a fresh id and an unused code, and ids and codes stay distinct |
| Products.CreateKeepsConsistent | src/routes/products.py:54-107 | `create` keeps the invariant |
| Products.CreatedImageCounts | src/routes/products.py:92-99 | the first image of a product, added as primary, makes it the product's one primary |
| Products.FreshProductHasNoImages | src/routes/products.py:70-93 | a freshly numbered product owns no image |
| Products.UpdateKeepsConsistent | src/routes/products.py:121-177 | `update` keeps the invariant |
| Products.AddImageKeepsConsistent | src/routes/products.py:208-263 | `add_image` keeps the invariant |
| Products.SetPrimaryKeepsConsistent | src/routes/products.py:265-289 | `set_primary_image` keeps the invariant |
| Products.CreateRejectsTakenCode | src/routes/products.py:63-67 | `create` refuses exactly the codes some product holds, and then changes nothing |
| Products.CreatedImageIsPrimary | src/routes/products.py:80-99 | a product created with an accepted upload has exactly that image, as its primary; without one it has no image |
| Products.UpdateCodeRule | src/routes/products.py:132-136 | `update` refuses exactly the codes held by a different product, so a product may keep its own code; a refusal changes nothing |
| Products.UpdateUploadRule | src/routes/products.py:144-168 | an accepted upload changes only the primary image's path, keeping the row count, or adds exactly one primary row when there is none |
| Products.AddImageFlags | src/routes/products.py:235-252 | a requested primary clears the product's other flags and is the only primary; a first image is primary; otherwise existing rows are untouched and the new row is not primary; other products' rows never change |
| Products.SetPrimaryRule | src/routes/products.py:272-279 | the flag is set exactly on the chosen image among the product's images, other products are untouched, and an image of another product is refused with no change |
| Products.SelectedMembers | src/routes/products.py:29-35 | the filters keep exactly the products matching the search and the status, in table order |
| Products.InsertByCodeCounts | src/routes/products.py:38 | inserting into the ordered list adds exactly that product |
| Products.SortedCons | src/routes/products.py:38 | a product whose code is at most every code of a sorted list can head it |
| Products.InsertByCodeSorted | src/routes/products.py:38 | inserting keeps the list ordered by code |
| Products.SortByCodeSorted | src/routes/products.py:38 | `order_by(code)` yields a list ordered by code |
| Products.SortByCodePermutes | src/routes/products.py:38 | `order_by(code)` holds every product exactly as often as the table |
| Products.IndexContents | src/routes/products.py:18-40 | the listing is ordered by code and holds exactly the products that pass both filters, each as often as in the table |
| Products.SearchMeansContains | src/routes/products.py:29-30 | a search without wildcards selects the products whose name or code contains it, ignoring case |
| Api.DeleteStepShape | src/routes/api.py:153-182 | a successful `delete_image` found the image, which belongs to the product, the product has at least two images, and the table loses that row after promotion when it was primary |
| Api.PrimaryFlag | src/routes/api.py:113 | the `is_primary` field, defaulting to "false", is true when it lower-cases to "true" (Api.PrimaryFlagIgnoresCase, Api.PrimaryFlagExamples) |
| Api.SummaryOf | src/routes/api.py:24-41 | one listing entry: the product's fields and the path of its first primary image, if any (Api.PrimaryImageReported) |
| Api.UploadStep | src/routes/api.py:87-147 | `upload_image` on the tables: a missing product answers 500, the file checks refuse, otherwise the image is attached and the new row returned (Api.UploadMatchesAddImage) |
| Api.DeleteImageStep | src/routes/api.py:149-189 | `delete_image` on the tables: a missing product or image answers 500, an image of another product and a product's only image are refused; otherwise a primary image's flag passes to another image and the row is removed (Api.DeleteImageGuards, Api.DeleteImagePromotion) |
| Api.SetPrimaryStep | src/routes/api.py:191-213 | the API's `set_primary_image` on the tables: a missing product or image answers 500 and an image of another product is refused; otherwise the product's flags are reset to the chosen image (Api.SetPrimaryMatchesForm) |
| Api.Status | src/routes/api.py:95-213 | 201 exactly for a created image, 200 exactly for success, 500 exactly for the internal error, 400 otherwise |
| Api.GetProducts | src/routes/api.py:18-43 | one summary per product, in order, each with the path of the product's first primary image or None |
| Api.UploadImage | src/routes/api.py:87-147 | the handler answers and changes the tables as `UploadStep` specifies, and keeps the invariant |
| Api.DeleteImage | src/routes/api.py:149-189 | the handler answers and changes the tables as `DeleteImageStep` specifies, and keeps the invariant |
| Api.SetPrimaryImage | src/routes/api.py:191-213 | the handler answers and changes the tables as `SetPrimaryStep` specifies, and keeps the invariant |
| Api.PrimaryImageReported | src/routes/api.py:24-30 | under the invariant a product is listed with a primary image exactly when it has images, and the path is that of its primary |
| Api.PrimaryFlagIgnoresCase | src/routes/api.py:113 | the `is_primary` field is read case-insensitively |
| Api.PrimaryFlagExamples | src/routes/api.py:113 | the flag defaults to false and accepts "true" in any case, but not "1", "yes" or "" |
| Api.UploadMatchesAddImage | src/routes/api.py:112-131 | `upload_image` changes the tables exactly as `add_image` does with the checkbox set to the parsed flag, and answers 201 with the new row exactly when `add_image` succeeds |
| Api.SetPrimaryMatchesForm | src/routes/api.py:198-204 | the API's `set_primary_image` changes the tables exactly as the product page's does, refusing the same images |
| Api.DeleteImageGuards | src/routes/api.py:156-162 | an image of another product and a product's only image are refused with no change; deletion succeeds exactly for an image of the product when it has at least two |
| Api.DeleteImagePromotion | src/routes/api.py:164-182 | a deletion removes exactly the chosen row, after which no row has its id, the product has one image fewer and exactly one primary |
| Api.DeletePromotesFirstOther | src/routes/api.py:164-170 | before the removal, the only row that changes is the first other image of the product, which becomes primary, and only when the deleted image was primary |
| Records.RemovedIdGone | src/routes/api.py:181 | with distinct ids, no row keeps the id of the removed one |
| Api.DeleteImageKeepsConsistent | src/routes/api.py:149-189 | `delete_image` keeps the invariant |

## Left out

- The OpenCV primitives are abstract functions, not implementations: colour conversions, CLAHE, morphology, contour extraction, `resize`, `contourArea` and `boundingRect`. `Sound` states only what the model relies on. A call that raises is a `None` result.
- Histogram comparison (`calcHist`, `normalize`, `compareHist`, and the `< 0.7` threshold) is the abstract predicate `dissimilar`, because it is floating-point numerics.
- The test's difference blobs (the 7x7 opening, `findContours`, filled `drawContours`) come from an abstract blob finder with `BlobsSound`.
- `np.mean` and the factor 0.10 use exact reals, not binary floating point.
- The percentage test `count / area * 100 > 30` is stated as `count * 100 > 30 * area`. Float rounding is taken never to change the outcome.
- Drawing rectangles and contours is recorded as the list of boxes drawn on a copy of the test image. The pixels are not painted.
- Writing files (`imwrite`, `file.save`, `os.remove`, `os.makedirs`) is not modelled. The file system the `analyze` route sees after saving is the parameter `Disk`: which paths exist, and what `imread` loads. The annotated result image is taken to be written: an `imwrite` that raises inside the `try` of `process_image` would make it return None, which the model does not capture.
- `os.path.join` is modelled as `dir + "/" + path` for the relative paths the routes use.
- `uuid4()` is a `token` parameter.
- Flask, templates, flash messages, JSON serialisation and logging are not modelled. Replies are datatypes naming the page or the status. The defect list of an inspection row is stored as the list rather than as its `json.dumps` text.
- SQLAlchemy sessions are not modelled. A handler's outcome is its effect after the commit. The failed commit of the `analyze` route is the parameter `committed`. A commit that fails on a NOT NULL column (a missing code or name) is the `Error` reply with no change. Other database failures are not modelled.
- The order of `product.reference_images` is taken to be table order.
- `created_at` and `updated_at` timestamps are not modelled.
- `request.form.get(..., type=int)` is modelled by its result, an optional integer.
- Text is a sequence of characters with ASCII case folding. `str.lower` on non-ASCII letters is not modelled.
- Product deletion, `get_product` and the other listing and detail routes are not modelled: they are outside the core.
- src/main.py, src/correcao_builderror.py and the browser scripts are not part of this model.
- Records.NextId: the model takes SQLite's rule (largest id plus one). Nothing in the model relies on ids staying unused after a deletion.
