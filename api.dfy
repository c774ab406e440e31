/** The JSON API of src/routes/api.py: the product list with each product's
    primary image, uploading a reference image, deleting one (promoting another to
    primary when needed), and choosing the primary image. As in the product pages,
    each handler is a step function on the tables and a method on the catalog. */
module Api {

  import opened Wrappers
  import opened Text
  import opened Upload
  import opened Records
  import opened Catalog
  import Products

  /** Why a request is refused. `Internal` is the `except Exception` branch; it
      also receives the not-found error that `get_or_404` raises inside the
      `try`. */
  datatype Refusal = NoFileSent | NoFileSelected | TypeNotAllowed | NotOwned | OnlyImage | Internal

  datatype Response = Created(image: RefImage) | Ok | Refused(refusal: Refusal)

  function Status(r: Response): (code: nat)
    ensures code == 201 <==> r.Created?
    ensures code == 200 <==> r.Ok?
    ensures code == 500 <==> r == Refused(Internal)
  {
    match r {
      case Created(_) => 201
      case Ok => 200
      case Refused(Internal) => 500
      case Refused(_) => 400
    }
  }

  datatype Outcome = Outcome(response: Response, after: Db)

  /** `request.form.get("is_primary", "false").lower() == "true"`. */
  predicate PrimaryFlag(value: Option<string>)
  {
    Lower(value.GetOr("false")) == "true"
  }

  /** One entry of the `get_products` list. */
  datatype Summary = Summary(id: nat, code: string, name: string, description: string, active: bool,
                             primaryImage: Option<string>)

  function SummaryOf(p: Product, s: seq<RefImage>): Summary
  {
    var primary := match FirstPrimary(s, p.id) {
      case None => None
      case Some(img) => Some(img.path)
    };
    Summary(p.id, p.code, p.name, p.description, p.active, primary)
  }

  // ---------------------------------------------------------------------------
  // The handlers as steps on the tables

  /** `upload_image`. */
  function UploadStep(db: Db, pid: nat, file: FilePart, flag: Option<string>, token: string): Outcome
  {
    if ProductById(db.products, pid).None? then Outcome(Refused(Internal), db)
    else if file.NoPart? then Outcome(Refused(NoFileSent), db)
    else if file.filename == "" then Outcome(Refused(NoFileSelected), db)
    else if !AllowedFile(file.filename) then Outcome(Refused(TypeNotAllowed), db)
    else
      var imgs := Attach(db.images, pid, PrimaryFlag(flag), ProductImagePath(token, file.filename));
      Outcome(Created(imgs[|imgs| - 1]), db.(images := imgs))
  }

  /** `delete_image`. */
  function DeleteImageStep(db: Db, pid: nat, iid: nat): Outcome
  {
    if ProductById(db.products, pid).None? then Outcome(Refused(Internal), db)
    else match FirstWhere(db.images, ImageWithId(iid)) {
      case None => Outcome(Refused(Internal), db)
      case Some(k) =>
        if db.images[k].productId != pid then Outcome(Refused(NotOwned), db)
        else if ImageCount(db.images, pid) == 1 then Outcome(Refused(OnlyImage), db)
        else
          var t := if db.images[k].isPrimary && ImageCount(db.images, pid) > 1
                   then Promoted(db.images, pid, iid) else db.images;
          Outcome(Ok, db.(images := RemoveAt(t, k)))
    }
  }

  /** `set_primary_image`. */
  function SetPrimaryStep(db: Db, pid: nat, iid: nat): Outcome
  {
    if ProductById(db.products, pid).None? then Outcome(Refused(Internal), db)
    else match FirstWhere(db.images, ImageWithId(iid)) {
      case None => Outcome(Refused(Internal), db)
      case Some(k) =>
        if db.images[k].productId != pid then Outcome(Refused(NotOwned), db)
        else Outcome(Ok, db.(images := Reflag(db.images, pid, iid)))
    }
  }

  // ---------------------------------------------------------------------------
  // The handlers on the catalog

  /** `get_products`: each product with the path of its first primary image. */
  method GetProducts(cat: Catalog) returns (result: seq<Summary>)
    ensures |result| == |cat.products|
    ensures forall i :: 0 <= i < |result| ==> result[i] == SummaryOf(cat.products[i], cat.images)
  {
    result := [];
    var i := 0;
    while i < |cat.products|
      invariant 0 <= i <= |cat.products|
      invariant |result| == i
      invariant forall j :: 0 <= j < i ==> result[j] == SummaryOf(cat.products[j], cat.images)
    {
      var p := cat.products[i];
      var primary := cat.FindPrimary(p.id);
      var path := if primary.Some? then Some(primary.value.path) else None;
      result := result + [Summary(p.id, p.code, p.name, p.description, p.active, path)];
      i := i + 1;
    }
  }

  method UploadImage(cat: Catalog, pid: nat, file: FilePart, flag: Option<string>, token: string)
    returns (response: Response)
    requires cat.Valid()
    modifies cat
    ensures Outcome(response, cat.State()) == UploadStep(old(cat.State()), pid, file, flag, token)
    ensures cat.Valid()
  {
    UploadMatchesAddImage(cat.State(), pid, file, flag, token);
    Products.AddImageKeepsConsistent(cat.State(), pid, file, PrimaryFlag(flag), token);
    if ProductById(cat.products, pid).None? {
      return Refused(Internal);
    }
    if file.NoPart? {
      return Refused(NoFileSent);
    }
    if file.filename == "" {
      return Refused(NoFileSelected);
    }
    if !AllowedFile(file.filename) {
      return Refused(TypeNotAllowed);
    }
    var primary := Lower(flag.GetOr("false")) == "true";
    var image := cat.AttachImage(pid, primary, ProductImagePath(token, file.filename));
    response := Created(image);
  }

  method DeleteImage(cat: Catalog, pid: nat, iid: nat) returns (response: Response)
    requires cat.Valid()
    modifies cat
    ensures Outcome(response, cat.State()) == DeleteImageStep(old(cat.State()), pid, iid)
    ensures cat.Valid()
  {
    DeleteImageKeepsConsistent(cat.State(), pid, iid);
    if ProductById(cat.products, pid).None? {
      return Refused(Internal);
    }
    var found := FirstWhere(cat.images, ImageWithId(iid));
    if found.None? {
      return Refused(Internal);
    }
    var k := found.value;
    if cat.images[k].productId != pid {
      return Refused(NotOwned);
    }
    var count := ImageCount(cat.images, pid);
    if count == 1 {
      return Refused(OnlyImage);
    }
    if cat.images[k].isPrimary && count > 1 {
      cat.PromoteOther(pid, iid);
    }
    cat.DeleteImageAt(k);
    response := Ok;
  }

  method SetPrimaryImage(cat: Catalog, pid: nat, iid: nat) returns (response: Response)
    requires cat.Valid()
    modifies cat
    ensures Outcome(response, cat.State()) == SetPrimaryStep(old(cat.State()), pid, iid)
    ensures cat.Valid()
  {
    SetPrimaryMatchesForm(cat.State(), pid, iid);
    Products.SetPrimaryKeepsConsistent(cat.State(), pid, iid);
    if ProductById(cat.products, pid).None? {
      return Refused(Internal);
    }
    var found := FirstWhere(cat.images, ImageWithId(iid));
    if found.None? {
      return Refused(Internal);
    }
    if cat.images[found.value].productId != pid {
      return Refused(NotOwned);
    }
    cat.SetPrimaryFlags(pid, iid);
    response := Ok;
  }

  // ---------------------------------------------------------------------------
  // What the handlers promise

  /** Under the invariant a product is listed with a primary image exactly when it
      has reference images, and the path is that of its only primary image. */
  lemma PrimaryImageReported(db: Db, p: Product)
    requires Consistent(db)
    ensures SummaryOf(p, db.images).primaryImage.Some? <==> ImageCount(db.images, p.id) > 0
    ensures SummaryOf(p, db.images).primaryImage.Some? ==>
              exists k :: 0 <= k < |db.images| && db.images[k].productId == p.id && db.images[k].isPrimary
                          && SummaryOf(p, db.images).primaryImage.value == db.images[k].path
  {
    FirstPrimaryExists(db.images, p.id);
  }

  /** The flag is read case-insensitively. */
  lemma PrimaryFlagIgnoresCase(v: string)
    ensures PrimaryFlag(Some(v)) == PrimaryFlag(Some(Lower(v)))
  {
    LowerIdempotent(v);
  }

  /** The flag defaults to false, accepts "true" in any case and nothing else. */
  lemma PrimaryFlagExamples()
    ensures !PrimaryFlag(None)
    ensures PrimaryFlag(Some("true")) && PrimaryFlag(Some("TRUE"))
    ensures !PrimaryFlag(Some("1")) && !PrimaryFlag(Some("yes")) && !PrimaryFlag(Some(""))
  {
    assert Lower("false")[0] == 'f';
    var up := Lower("TRUE");
    assert up[0] == 't' && up[1] == 'r' && up[2] == 'u' && up[3] == 'e';
    assert up == "true";
    var low := Lower("true");
    assert low[0] == 't' && low[1] == 'r' && low[2] == 'u' && low[3] == 'e';
    assert low == "true";
  }

  /** `upload_image` changes the tables exactly as `add_image` does with the
      checkbox set to the parsed flag, and answers 201 with the new row exactly
      when `add_image` succeeds. */
  lemma UploadMatchesAddImage(db: Db, pid: nat, file: FilePart, flag: Option<string>, token: string)
    ensures var o := UploadStep(db, pid, file, flag, token);
            var f := Products.AddImageStep(db, pid, file, PrimaryFlag(flag), token);
            && o.after == f.after
            && (o.response.Created? <==> f.reply.Done?)
            && (o.response.Created? ==> o.response.image == o.after.images[|o.after.images| - 1]
                                        && o.response.image.productId == pid)
  {
  }

  /** `set_primary_image` of the API changes the tables exactly as the product
      page's does. */
  lemma SetPrimaryMatchesForm(db: Db, pid: nat, iid: nat)
    ensures var o := SetPrimaryStep(db, pid, iid);
            var f := Products.SetPrimaryStep(db, pid, iid);
            o.after == f.after && (o.response.Ok? <==> f.reply.Done?)
            && (o.response == Refused(NotOwned) <==> f.reply.Rejected? && f.reply.reason == Products.NotOwned)
  {
  }

  /** `delete_image` refuses an image of another product and the only image of a
      product, and then changes nothing. */
  lemma DeleteImageGuards(db: Db, pid: nat, iid: nat)
    requires Consistent(db) && HasProduct(db.products, pid)
    ensures var o := DeleteImageStep(db, pid, iid);
            ImageById(db.images, iid).Some? && ImageById(db.images, iid).value.productId != pid ==>
              o.response == Refused(NotOwned) && o.after == db
    ensures var o := DeleteImageStep(db, pid, iid);
            ImageById(db.images, iid).Some? && ImageById(db.images, iid).value.productId == pid
            && ImageCount(db.images, pid) == 1 ==>
              o.response == Refused(OnlyImage) && o.after == db
    ensures var o := DeleteImageStep(db, pid, iid);
            o.response.Ok? <==> ImageById(db.images, iid).Some? && ImageById(db.images, iid).value.productId == pid
                                && ImageCount(db.images, pid) >= 2
  {
    ProductByIdFinds(db.products, pid);
    match FirstWhere(db.images, ImageWithId(iid)) {
      case None =>
      case Some(k) =>
        CountSplit(db.images, k, Of(db.images[k].productId));
    }
  }

  /** When `delete_image` succeeds, the image found is the product's, the product
      has at least two images, and the new image list is the old one, promoted when
      the deleted image was primary, without that row. */
  lemma DeleteStepShape(db: Db, pid: nat, iid: nat)
    ensures var o := DeleteImageStep(db, pid, iid);
            o.response.Ok? ==>
              && FirstWhere(db.images, ImageWithId(iid)).Some?
              && var k := FirstWhere(db.images, ImageWithId(iid)).value;
                 && db.images[k].id == iid && db.images[k].productId == pid
                 && ImageCount(db.images, pid) >= 2
                 && o.after == db.(images := RemoveAt(if db.images[k].isPrimary then Promoted(db.images, pid, iid)
                                                      else db.images, k))
  {
    match FirstWhere(db.images, ImageWithId(iid)) {
      case None =>
      case Some(k) =>
        CountSplit(db.images, k, Of(db.images[k].productId));
    }
  }

  /** A successful deletion removes exactly the chosen row, and the product keeps
      exactly one primary. */
  lemma DeleteImagePromotion(db: Db, pid: nat, iid: nat)
    requires Consistent(db)
    ensures var o := DeleteImageStep(db, pid, iid);
            o.response.Ok? ==>
              var k := FirstWhere(db.images, ImageWithId(iid)).value;
              var t := if db.images[k].isPrimary then Promoted(db.images, pid, iid) else db.images;
              && o.after.images == RemoveAt(t, k)
              && ImageById(o.after.images, iid).None?
              && ImageCount(o.after.images, pid) == ImageCount(db.images, pid) - 1
              && PrimaryCount(o.after.images, pid) == 1
  {
    DeleteStepShape(db, pid, iid);
    var o := DeleteImageStep(db, pid, iid);
    if o.response.Ok? {
      var s := db.images;
      var k := FirstWhere(s, ImageWithId(iid)).value;
      DeletionKeepsOnePrimary(s, pid, k);
      var t := if s[k].isPrimary then Promoted(s, pid, s[k].id) else s;
      var r := RemoveAt(t, k);
      assert ImageIdsDistinct(t) by {
        assert forall j :: 0 <= j < |s| ==> t[j].id == s[j].id;
      }
      RemovedIdGone(t, k);
      assert o.after.images == r;
      assert ImageCount(r, pid) > 0;
    }
  }

  /** Only a deleted primary image changes another row: it hands its flag to the
      first other image of the product, and every other row stays as it was. */
  lemma DeletePromotesFirstOther(db: Db, pid: nat, iid: nat)
    requires Consistent(db)
    ensures var o := DeleteImageStep(db, pid, iid);
            o.response.Ok? ==>
              var k := FirstWhere(db.images, ImageWithId(iid)).value;
              var t := if db.images[k].isPrimary then Promoted(db.images, pid, iid) else db.images;
              forall j :: 0 <= j < |db.images| && t[j] != db.images[j] ==>
                db.images[k].isPrimary && t[j] == db.images[j].(isPrimary := true)
                && j == FirstWhere(db.images, OtherOf(pid, iid)).value
  {
    DeleteStepShape(db, pid, iid);
    if DeleteImageStep(db, pid, iid).response.Ok? {
      DeletionKeepsOnePrimary(db.images, pid, FirstWhere(db.images, ImageWithId(iid)).value);
    }
  }

  lemma DeleteImageKeepsConsistent(db: Db, pid: nat, iid: nat)
    requires Consistent(db)
    ensures Consistent(DeleteImageStep(db, pid, iid).after)
  {
    DeleteStepShape(db, pid, iid);
    if DeleteImageStep(db, pid, iid).response.Ok? {
      var s := db.images;
      var k := FirstWhere(s, ImageWithId(iid)).value;
      DeletionKeepsOnePrimary(s, pid, k);
      var t := if s[k].isPrimary then Promoted(s, pid, iid) else s;
      RemovedOwned(db.products, t, k);
      ImagesReplaced(db, RemoveAt(t, k));
    }
  }
}
