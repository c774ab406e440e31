/** The `analyze` route of src/routes/inspection.py: the request checks in their
    order, the lookup of the product's primary reference image, the call to
    `process_image` and the inspection row that records its result. */
module Analysis {

  import opened Wrappers
  import opened Text
  import opened Upload
  import opened Imaging
  import opened Pipeline
  import opened Records
  import opened Catalog

  /** The file system as the route sees it after saving the upload: whether a
      path exists, and what `cv2.imread` loads from it (None when it cannot). */
  datatype Disk = Disk(present: string -> bool, load: string -> Option<Image>)

  /** What `imread` hands back is always a well-formed raster. */
  ghost predicate Readable(disk: Disk)
  {
    forall path :: disk.load(path).Some? ==> IsRaster(disk.load(path).value)
  }

  /** The error replies of `analyze`, in the order the route tests for them. */
  datatype Refusal =
    | NoImageSent        // no `image` part in the request
    | NoProduct          // `product_id` missing, not an integer, or 0
    | ProductNotFound    // no product with that id
    | NoReferenceImage   // the product has no primary reference image
    | NoFileSelected     // the part's file name is empty
    | TypeNotAllowed     // the extension is not an accepted image type
    | SaveFailed         // the saved upload is not on disk
    | ReferenceMissing   // the primary image's file is not on disk
    | ProcessingFailed   // `process_image` returned None

  datatype Reply = Analysed(result: InspectionResult) | Refused(refusal: Refusal)

  /** The HTTP status of a reply. */
  function Status(r: Reply): (code: nat)
    ensures code == 200 <==> r.Analysed?
    ensures code == 404 <==> r == Refused(ProductNotFound)
    ensures code == 500 <==> r.Refused? && r.refusal in {SaveFailed, ReferenceMissing, ProcessingFailed}
    ensures code in {200, 400, 404, 500}
  {
    match r
    case Analysed(_) => 200
    case Refused(ProductNotFound) => 404
    case Refused(SaveFailed) => 500
    case Refused(ReferenceMissing) => 500
    case Refused(ProcessingFailed) => 500
    case Refused(_) => 400
  }

  datatype Outcome = Outcome(reply: Reply, after: Db)

  /** `os.path.join` of a directory and a relative path. */
  function Join(dir: string, path: string): string
  {
    dir + "/" + path
  }

  /** The outcome of the request checks: the product, its primary reference
      image and the name the upload is stored under, or the first failed check. */
  datatype Checked = Pass(pid: nat, primary: RefImage, name: string) | Fail(refusal: Refusal)

  /** The checks `analyze` makes before touching the file system, in the route's
      order: the `image` file part, the `product_id` form field read with
      `type=int`, the product, its primary image, the file name and its type.
      `token` is the uuid drawn for the stored name. */
  function CheckRequest(db: Db, image: FilePart, productId: Option<int>, token: string): Checked
  {
    if image.NoPart? then Fail(NoImageSent)
    else if productId.None? || productId.value == 0 then Fail(NoProduct)
    else if productId.value < 0 || ProductById(db.products, productId.value as nat).None? then
      Fail(ProductNotFound)
    else
      var pid := productId.value as nat;
      match FirstPrimary(db.images, pid)
      case None => Fail(NoReferenceImage)
      case Some(primary) =>
        if image.filename == "" then Fail(NoFileSelected)
        else if !AllowedFile(image.filename) then Fail(TypeNotAllowed)
        else Pass(pid, primary, StoredName(token, image.filename))
  }

  /** The row `analyze` records for a successful run. */
  function InspectionRow(db: Db, pid: nat, name: string, result: InspectionResult): Inspection
  {
    Inspection(NextId(InspectionIds(db.inspections)), pid, "images/uploads/" + name,
               RemoveAll(result.defectImage, "/static/"), result.approved,
               |result.defects|, result.defects)
  }

  /** The rest of `analyze` once the request passed its checks: the saved upload
      and the reference file must exist, `process_image` must succeed, and the
      result is recorded when `committed` (a failed commit is rolled back and
      only logged). `uploadDir` and `staticDir` are the application's upload and
      static folders. */
  function RunInspection(db: Db, v: Vision, disk: Disk, uploadDir: string, staticDir: string,
                         pid: nat, primary: RefImage, name: string, committed: bool): Outcome
    requires Sound(v) && Readable(disk)
  {
    var filePath := Join(uploadDir, name);
    var referencePath := Join(staticDir, primary.path);
    if !disk.present(filePath) then Outcome(Refused(SaveFailed), db)
    else if !disk.present(referencePath) then Outcome(Refused(ReferenceMissing), db)
    else
      match Process(v, disk.load(filePath), disk.load(referencePath), filePath)
      case None => Outcome(Refused(ProcessingFailed), db)
      case Some(result) =>
        Outcome(Analysed(result),
                if committed then db.(inspections := db.inspections + [InspectionRow(db, pid, name, result)])
                else db)
  }

  /** The whole route. */
  function AnalyzeStep(db: Db, v: Vision, disk: Disk, uploadDir: string, staticDir: string,
                       image: FilePart, productId: Option<int>, token: string, committed: bool): Outcome
    requires Sound(v) && Readable(disk)
  {
    match CheckRequest(db, image, productId, token)
    case Fail(refusal) => Outcome(Refused(refusal), db)
    case Pass(pid, primary, name) => RunInspection(db, v, disk, uploadDir, staticDir, pid, primary, name, committed)
  }

  /** `analyze`, check by check, with the loop over the product's reference
      images that stops at the first primary one. */
  method Analyze(cat: Catalog, v: Vision, disk: Disk, uploadDir: string, staticDir: string,
                 image: FilePart, productId: Option<int>, token: string, committed: bool)
    returns (reply: Reply)
    requires cat.Valid() && Sound(v) && Readable(disk)
    modifies cat
    ensures Outcome(reply, cat.State())
            == AnalyzeStep(old(cat.State()), v, disk, uploadDir, staticDir, image, productId, token, committed)
    ensures cat.Valid()
  {
    AnalyzeKeepsConsistent(cat.State(), v, disk, uploadDir, staticDir, image, productId, token, committed);
    if image.NoPart? {
      return Refused(NoImageSent);
    }
    if productId.None? || productId.value == 0 {
      return Refused(NoProduct);
    }
    if productId.value < 0 || ProductById(cat.products, productId.value as nat).None? {
      return Refused(ProductNotFound);
    }
    var pid := productId.value as nat;
    var primary := cat.FindPrimary(pid);
    if primary.None? {
      return Refused(NoReferenceImage);
    }
    if image.filename == "" {
      return Refused(NoFileSelected);
    }
    if !AllowedFile(image.filename) {
      return Refused(TypeNotAllowed);
    }
    var name := StoredName(token, image.filename);
    var filePath := Join(uploadDir, name);
    if !disk.present(filePath) {
      return Refused(SaveFailed);
    }
    var referencePath := Join(staticDir, primary.value.path);
    if !disk.present(referencePath) {
      return Refused(ReferenceMissing);
    }
    var result := ProcessImage(v, disk.load(filePath), disk.load(referencePath), filePath);
    if result.None? {
      return Refused(ProcessingFailed);
    }
    var r := result.value;
    if committed {
      cat.InsertInspection(pid, "images/uploads/" + name, RemoveAll(r.defectImage, "/static/"),
                           r.approved, |r.defects|, r.defects);
    }
    reply := Analysed(r);
  }

  // ---------------------------------------------------------------------------
  // Properties

  /** The checks come in the route's order, and a product that has no reference
      image is refused before the file itself is looked at. */
  lemma CheckOrder(db: Db, image: FilePart, productId: Option<int>, token: string)
    requires Consistent(db)
    ensures var c := CheckRequest(db, image, productId, token);
            && (image.NoPart? ==> c == Fail(NoImageSent))
            && (image.Part? && (productId.None? || productId.value == 0) ==> c == Fail(NoProduct))
            && (image.Part? && productId.Some? && productId.value != 0
                && (productId.value < 0 || !HasProduct(db.products, productId.value as nat))
                ==> c == Fail(ProductNotFound))
            && (image.Part? && productId.Some? && productId.value > 0
                && HasProduct(db.products, productId.value as nat)
                && ImageCount(db.images, productId.value as nat) == 0
                ==> c == Fail(NoReferenceImage))
  {
    if productId.Some? && productId.value > 0 {
      ProductByIdFinds(db.products, productId.value as nat);
      FirstPrimaryExists(db.images, productId.value as nat);
    }
  }

  /** A request passes exactly when it names an existing product that has
      reference images and sends a named file of an accepted type; the image it
      is then compared against is that product's only primary image. */
  lemma CheckPasses(db: Db, image: FilePart, productId: Option<int>, token: string)
    requires Consistent(db)
    ensures var c := CheckRequest(db, image, productId, token);
            && (c.Pass? <==>
                  && image.Part? && productId.Some? && productId.value > 0
                  && HasProduct(db.products, productId.value as nat)
                  && ImageCount(db.images, productId.value as nat) > 0
                  && image.filename != "" && AllowedFile(image.filename))
            && (c.Pass? ==>
                  && c.pid == productId.value
                  && c.name == StoredName(token, image.filename)
                  && c.primary in db.images && c.primary.productId == c.pid && c.primary.isPrimary
                  && forall k :: 0 <= k < |db.images| && db.images[k].productId == c.pid && db.images[k].isPrimary
                       ==> db.images[k] == c.primary)
  {
    if productId.Some? && productId.value > 0 {
      ProductByIdFinds(db.products, productId.value as nat);
      FirstPrimaryExists(db.images, productId.value as nat);
    }
  }

  /** Past the checks, the route refuses without touching the tables when a file
      is missing or `process_image` fails; otherwise it reports what
      `process_image` returned for the saved upload and the primary image, with a
      verdict that approves exactly when no defect was found, and records one
      row when the commit goes through. That row points at both pictures
      relative to the static folder and counts the defects it lists. */
  lemma RunInspectionRecords(db: Db, v: Vision, disk: Disk, uploadDir: string, staticDir: string,
                             pid: nat, primary: RefImage, name: string, committed: bool)
    requires Sound(v) && Readable(disk)
    requires '/' !in name
    ensures var o := RunInspection(db, v, disk, uploadDir, staticDir, pid, primary, name, committed);
            var test := disk.load(Join(uploadDir, name));
            var ref := disk.load(Join(staticDir, primary.path));
            && (o.reply.Refused? ==> o.after == db)
            && (o.reply.Analysed? <==>
                  disk.present(Join(uploadDir, name)) && disk.present(Join(staticDir, primary.path))
                  && Process(v, test, ref, Join(uploadDir, name)).Some?)
            && (o.reply.Analysed? ==>
                  && Some(o.reply.result) == Process(v, test, ref, Join(uploadDir, name))
                  && o.reply.result.approved == (o.reply.result.defects == [])
                  && (!committed ==> o.after == db)
                  && (committed ==>
                        && o.after.products == db.products && o.after.images == db.images
                        && o.after.inspections[..|db.inspections|] == db.inspections
                        && |o.after.inspections| == |db.inspections| + 1
                        && var row := o.after.inspections[|db.inspections|];
                           && row.id !in InspectionIds(db.inspections)
                           && row.productId == pid
                           && row.imagePath == "images/uploads/" + name
                           && row.resultImagePath == "images/results/defect_" + name
                           && row.approved == (row.defectsCount == 0)
                           && row.defectsDetails == o.reply.result.defects
                           && row.defectsCount == |row.defectsDetails|))
  {
    var filePath := Join(uploadDir, name);
    var test := disk.load(filePath);
    var ref := disk.load(Join(staticDir, primary.path));
    assert test.Some? ==> IsRaster(test.value);
    assert ref.Some? ==> IsRaster(ref.value);
    var r := Process(v, test, ref, filePath);
    if r.Some? {
      ResultPaths(v, test, ref, uploadDir, name);
      ProcessVerdict(v, test, ref, filePath);
      StaticPrefixRemoved(name);
      var row := InspectionRow(db, pid, name, r.value);
      assert row.resultImagePath == "images/results/defect_" + name;
      var ids := InspectionIds(db.inspections);
      assert forall k :: 0 <= k < |ids| ==> ids[k] < row.id;
    }
  }

  /** Adding an inspection of an existing product keeps the tables consistent. */
  lemma RecordKeepsConsistent(db: Db, row: Inspection)
    requires Consistent(db) && HasProduct(db.products, row.productId)
    ensures Consistent(db.(inspections := db.inspections + [row]))
  {
    var after := db.(inspections := db.inspections + [row]);
    assert forall k :: 0 <= k < |after.inspections| ==>
      after.inspections[k] == (if k < |db.inspections| then db.inspections[k] else row);
  }

  /** `analyze` keeps the tables consistent: the only row it adds belongs to the
      product it looked up. */
  lemma AnalyzeKeepsConsistent(db: Db, v: Vision, disk: Disk, uploadDir: string, staticDir: string,
                               image: FilePart, productId: Option<int>, token: string, committed: bool)
    requires Consistent(db) && Sound(v) && Readable(disk)
    ensures Consistent(AnalyzeStep(db, v, disk, uploadDir, staticDir, image, productId, token, committed).after)
  {
    var c := CheckRequest(db, image, productId, token);
    if c.Pass? {
      CheckPasses(db, image, productId, token);
      var o := RunInspection(db, v, disk, uploadDir, staticDir, c.pid, c.primary, c.name, committed);
      if o.after != db {
        var filePath := Join(uploadDir, c.name);
        var test := disk.load(filePath);
        var ref := disk.load(Join(staticDir, c.primary.path));
        assert test.Some? ==> IsRaster(test.value);
        assert ref.Some? ==> IsRaster(ref.value);
        var r := Process(v, test, ref, filePath).value;
        RecordKeepsConsistent(db, InspectionRow(db, c.pid, c.name, r));
      }
    }
  }

  /** A request for a product with reference images that sends an accepted file
      is analysed unless a file is missing or `process_image` fails, and what it
      records is described by `RunInspectionRecords` for the stored name. */
  lemma AnalyzeAcceptsRequest(db: Db, v: Vision, disk: Disk, uploadDir: string, staticDir: string,
                              filename: string, pid: nat, token: string, committed: bool)
    requires Consistent(db) && Sound(v) && Readable(disk)
    requires pid > 0 && HasProduct(db.products, pid) && ImageCount(db.images, pid) > 0
    requires filename != "" && AllowedFile(filename)
    ensures var c := CheckRequest(db, Part(filename), Some(pid), token);
            && c.Pass? && c.pid == pid && c.name == StoredName(token, filename)
            && ('/' !in token ==> '/' !in c.name)
            && AnalyzeStep(db, v, disk, uploadDir, staticDir, Part(filename), Some(pid), token, committed)
               == RunInspection(db, v, disk, uploadDir, staticDir, pid, c.primary, c.name, committed)
  {
    CheckPasses(db, Part(filename), Some(pid), token);
    if '/' !in token {
      StoredNameHasNoSlash(token, filename);
    }
  }

  /** The stored name of an accepted upload is a plain file name. */
  lemma StoredNameHasNoSlash(token: string, filename: string)
    requires '/' !in token && AllowedFile(filename)
    ensures '/' !in StoredName(token, filename)
  {
    var e := Lower(Extension(filename).value);
    assert e in AllowedExtensions;
    assert '/' !in e;
  }

  /** A path segment `/w` is kept whole by a pattern that starts with '/' but not
      with `/w[0]`. */
  lemma SegmentKept(w: string, rest: string, pat: string)
    requires |pat| >= 2 && 1 + |w| >= |pat|
    requires pat[0] !in w && w[0] != pat[1]
    ensures RemoveAll([pat[0]] + w + rest, pat) == [pat[0]] + w + RemoveAll(rest, pat)
  {
    var s := [pat[0]] + (w + rest);
    assert s[..|pat|][1] == w[0];
    RemoveAllMismatch(s, pat);
    assert s[1..] == w + rest;
    RemoveAllKeepsPrefix(w, rest, pat);
    assert [pat[0]] + w + rest == s;
    assert [pat[0]] + w + RemoveAll(rest, pat) == [pat[0]] + (w + RemoveAll(rest, pat));
  }

  /** `replace(pat, '')` on `pat + a/b/c` drops the leading pattern and keeps the
      rest, when the pattern starts with '/' and neither `b` nor `c` can begin a
      second occurrence. */
  lemma LeadingPatternRemoved(pat: string, a: string, b: string, c: string)
    requires |pat| >= 2 && pat[0] == '/' && pat[0] !in a
    requires '/' !in b && |b| + 1 >= |pat| && b[0] != pat[1]
    requires '/' !in c && |c| + 1 >= |pat| && c[0] != pat[1]
    ensures RemoveAll(pat + (a + ("/" + b + ("/" + c + []))), pat) == a + ("/" + b + ("/" + c + []))
  {
    var tail := "/" + c + [];
    var middle := "/" + b + tail;
    RemoveAllLeading(pat, a + middle);
    RemoveAllKeepsPrefix(a, middle, pat);
    SegmentKept(b, tail, pat);
    SegmentKept(c, [], pat);
    assert RemoveAll([], pat) == [];
  }

  /** The result URL cut at the points where `replace` looks for `/static/`. */
  lemma ResultUrlCut(name: string)
    ensures ResultsUrl + ResultPrefix + name
            == "/static/" + ("images" + ("/" + "results" + ("/" + ("defect_" + name) + [])))
  {
  }

  lemma ResultPathJoined(name: string)
    ensures "images" + ("/" + "results" + ("/" + ("defect_" + name) + [])) == "images/results/defect_" + name
  {
  }

  /** `result['defect_image'].replace('/static/', '')` turns the URL of the
      annotated image into its path relative to the static folder. */
  lemma StaticPrefixRemoved(name: string)
    requires '/' !in name
    ensures RemoveAll(ResultsUrl + ResultPrefix + name, "/static/") == "images/results/defect_" + name
  {
    var pat := "/static/";
    assert |pat| == 8 && pat[0] == '/' && pat[1] == 's';
    var last := "defect_" + name;
    assert last[0] == 'd' && '/' !in last;
    assert "images"[0] == 'i' && '/' !in "images" && "results"[0] == 'r' && '/' !in "results";
    ResultUrlCut(name);
    ResultPathJoined(name);
    LeadingPatternRemoved(pat, "images", "results", last);
  }
}
