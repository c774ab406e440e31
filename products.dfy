/** The product pages of src/routes/products.py: the listing with its search and
    status filters, creation and update with the code-uniqueness check and the
    reference-image upload, adding a reference image, and choosing the primary
    one. Each handler is a step function on the tables, stating the flash reply
    and the tables after the request, and a method that performs that step on the
    catalog. */
module Products {

  import opened Wrappers
  import opened Text
  import opened Upload
  import opened Records
  import opened Catalog

  /** The page a handler redirects to. */
  datatype Page = NewForm | Show(id: nat) | Edit(id: nat)

  /** Why a handler flashes an error. `Error` is the `except Exception` branch,
      taken after a rollback: a missing product or image (`get_or_404` raises
      inside the `try`) or a commit that fails on a NOT NULL column. */
  datatype Reason = CodeInUse | NoFileSent | NoFileSelected | TypeNotAllowed | NotOwned | Error

  datatype Reply = Done(page: Page) | Rejected(reason: Reason, page: Page)

  datatype Outcome = Outcome(reply: Reply, after: Db)

  /** `filter_by(code=code).first()`; a missing code matches no row, since the
      column is NOT NULL. */
  function CodeHolder(ps: seq<Product>, code: Option<string>): Option<Product>
  {
    match code {
      case None => None
      case Some(c) =>
        match FirstWhere(ps, WithCode(c)) {
          case None => None
          case Some(i) => Some(ps[i])
        }
    }
  }

  /** Under distinct codes, the holder of a code is the one row carrying it. */
  lemma CodeHolderUnique(ps: seq<Product>, c: string)
    ensures CodesDistinct(ps) ==>
              forall j :: 0 <= j < |ps| && ps[j].code == c ==> CodeHolder(ps, Some(c)) == Some(ps[j])
  {
    match FirstWhere(ps, WithCode(c)) {
      case None =>
      case Some(h) =>
    }
  }

  lemma CodeHolderFinds(ps: seq<Product>, c: string)
    ensures CodeHolder(ps, Some(c)).Some? <==> exists i :: 0 <= i < |ps| && ps[i].code == c
    ensures CodeHolder(ps, Some(c)).Some? ==>
              exists i :: 0 <= i < |ps| && ps[i] == CodeHolder(ps, Some(c)).value && ps[i].code == c
  {
    if exists i :: 0 <= i < |ps| && ps[i].code == c {
      var i :| 0 <= i < |ps| && ps[i].code == c;
      assert WithCode(c)(ps[i]);
    }
  }

  // ---------------------------------------------------------------------------
  // The handlers as steps on the tables

  /** `create`: the code check, the new product, and its reference image, which
      is always primary. `token` is the `uuid4()` text of the stored name. */
  function CreateStep(db: Db, code: Option<string>, name: Option<string>, description: string,
                      active: bool, file: FilePart, token: string): Outcome
  {
    if CodeHolder(db.products, code).Some? then Outcome(Rejected(CodeInUse, NewForm), db)
    else if code.None? || name.None? then Outcome(Rejected(Error, NewForm), db)
    else
      var id := NextId(ProductIds(db.products));
      var ps := db.products + [Product(id, code.value, name.value, description, active)];
      var imgs := if Accepted(file)
                  then db.images + [RefImage(NextId(ImageIds(db.images)), id, ProductImagePath(token, file.filename), true)]
                  else db.images;
      Outcome(Done(Show(id)), Db(ps, imgs, db.inspections))
  }

  /** `update`: the product must exist, its new code may be its own but not
      another product's, and an accepted upload replaces the primary image's path
      or adds a primary image. */
  function UpdateStep(db: Db, id: nat, code: Option<string>, name: Option<string>, description: string,
                      active: bool, file: FilePart, token: string): Outcome
  {
    match FirstWhere(db.products, WithId(id)) {
      case None => Outcome(Rejected(Error, Edit(id)), db)
      case Some(i) =>
        var holder := CodeHolder(db.products, code);
        if holder.Some? && holder.value.id != id then Outcome(Rejected(CodeInUse, Edit(id)), db)
        else if code.None? || name.None? then Outcome(Rejected(Error, Edit(id)), db)
        else
          var ps := db.products[i := Product(id, code.value, name.value, description, active)];
          var imgs := if Accepted(file) then Repathed(db.images, id, ProductImagePath(token, file.filename))
                      else db.images;
          Outcome(Done(Show(id)), Db(ps, imgs, db.inspections))
    }
  }

  /** `add_image`: `primaryBox` is whether the form carries an `is_primary` field. */
  function AddImageStep(db: Db, id: nat, file: FilePart, primaryBox: bool, token: string): Outcome
  {
    if ProductById(db.products, id).None? then Outcome(Rejected(Error, Edit(id)), db)
    else if file.NoPart? then Outcome(Rejected(NoFileSent, Edit(id)), db)
    else if file.filename == "" then Outcome(Rejected(NoFileSelected, Edit(id)), db)
    else if !AllowedFile(file.filename) then Outcome(Rejected(TypeNotAllowed, Edit(id)), db)
    else Outcome(Done(Edit(id)), db.(images := Attach(db.images, id, primaryBox, ProductImagePath(token, file.filename))))
  }

  /** `set_primary_image`. */
  function SetPrimaryStep(db: Db, id: nat, imageId: nat): Outcome
  {
    if ProductById(db.products, id).None? then Outcome(Rejected(Error, Edit(id)), db)
    else match FirstWhere(db.images, ImageWithId(imageId)) {
      case None => Outcome(Rejected(Error, Edit(id)), db)
      case Some(k) =>
        if db.images[k].productId != id then Outcome(Rejected(NotOwned, Edit(id)), db)
        else Outcome(Done(Edit(id)), db.(images := Reflag(db.images, id, imageId)))
    }
  }

  // ---------------------------------------------------------------------------
  // The handlers on the catalog

  method Create(cat: Catalog, code: Option<string>, name: Option<string>, description: string,
                active: bool, file: FilePart, token: string) returns (reply: Reply)
    requires cat.Valid()
    modifies cat
    ensures Outcome(reply, cat.State()) == CreateStep(old(cat.State()), code, name, description, active, file, token)
    ensures cat.Valid()
  {
    CreateKeepsConsistent(cat.State(), code, name, description, active, file, token);
    if CodeHolder(cat.products, code).Some? {
      return Rejected(CodeInUse, NewForm);
    }
    if code.None? || name.None? {
      return Rejected(Error, NewForm);
    }
    var id := cat.InsertProduct(code.value, name.value, description, active);
    if file.Part? && file.filename != "" && AllowedFile(file.filename) {
      var image := cat.InsertImage(id, ProductImagePath(token, file.filename), true);
    }
    reply := Done(Show(id));
  }

  method Update(cat: Catalog, id: nat, code: Option<string>, name: Option<string>, description: string,
                active: bool, file: FilePart, token: string) returns (reply: Reply)
    requires cat.Valid()
    modifies cat
    ensures Outcome(reply, cat.State()) == UpdateStep(old(cat.State()), id, code, name, description, active, file, token)
    ensures cat.Valid()
  {
    UpdateKeepsConsistent(cat.State(), id, code, name, description, active, file, token);
    var found := FirstWhere(cat.products, WithId(id));
    if found.None? {
      return Rejected(Error, Edit(id));
    }
    var holder := CodeHolder(cat.products, code);
    if holder.Some? && holder.value.id != id {
      return Rejected(CodeInUse, Edit(id));
    }
    if code.None? || name.None? {
      return Rejected(Error, Edit(id));
    }
    cat.SetProduct(found.value, Product(id, code.value, name.value, description, active));
    if file.Part? && file.filename != "" && AllowedFile(file.filename) {
      cat.ReplacePrimaryPath(id, ProductImagePath(token, file.filename));
    }
    reply := Done(Show(id));
  }

  method AddImage(cat: Catalog, id: nat, file: FilePart, primaryBox: bool, token: string) returns (reply: Reply)
    requires cat.Valid()
    modifies cat
    ensures Outcome(reply, cat.State()) == AddImageStep(old(cat.State()), id, file, primaryBox, token)
    ensures cat.Valid()
  {
    AddImageKeepsConsistent(cat.State(), id, file, primaryBox, token);
    if ProductById(cat.products, id).None? {
      return Rejected(Error, Edit(id));
    }
    if file.NoPart? {
      return Rejected(NoFileSent, Edit(id));
    }
    if file.filename == "" {
      return Rejected(NoFileSelected, Edit(id));
    }
    if !AllowedFile(file.filename) {
      return Rejected(TypeNotAllowed, Edit(id));
    }
    var image := cat.AttachImage(id, primaryBox, ProductImagePath(token, file.filename));
    reply := Done(Edit(id));
  }

  method SetPrimaryImage(cat: Catalog, id: nat, imageId: nat) returns (reply: Reply)
    requires cat.Valid()
    modifies cat
    ensures Outcome(reply, cat.State()) == SetPrimaryStep(old(cat.State()), id, imageId)
    ensures cat.Valid()
  {
    SetPrimaryKeepsConsistent(cat.State(), id, imageId);
    if ProductById(cat.products, id).None? {
      return Rejected(Error, Edit(id));
    }
    var found := FirstWhere(cat.images, ImageWithId(imageId));
    if found.None? {
      return Rejected(Error, Edit(id));
    }
    if cat.images[found.value].productId != id {
      return Rejected(NotOwned, Edit(id));
    }
    cat.SetPrimaryFlags(id, imageId);
    reply := Done(Edit(id));
  }

  // ---------------------------------------------------------------------------
  // Every handler keeps the tables consistent

  /** The product table after `create`: a fresh id and an unused code. */
  lemma CreateKeepsProducts(db: Db, c: string, n: string, description: string, active: bool)
    requires Consistent(db) && CodeHolder(db.products, Some(c)).None?
    ensures var id := NextId(ProductIds(db.products));
            var ps := db.products + [Product(id, c, n, description, active)];
            && ProductIdsDistinct(ps) && CodesDistinct(ps)
            && !HasProduct(db.products, id) && HasProduct(ps, id)
            && forall pid :: HasProduct(db.products, pid) ==> HasProduct(ps, pid)
  {
    var id := NextId(ProductIds(db.products));
    var ps := db.products + [Product(id, c, n, description, active)];
    assert forall i :: 0 <= i < |db.products| ==> ProductIds(db.products)[i] == db.products[i].id;
    CodeHolderFinds(db.products, c);
    forall pid | HasProduct(db.products, pid) ensures HasProduct(ps, pid) {
      var i :| 0 <= i < |db.products| && db.products[i].id == pid;
      assert ps[i].id == pid;
    }
    assert ps[|db.products|].id == id;
  }

  /** What a successful `create` does to the tables. */
  lemma CreateShape(db: Db, code: Option<string>, name: Option<string>, description: string,
                    active: bool, file: FilePart, token: string)
    ensures var o := CreateStep(db, code, name, description, active, file, token);
            var id := NextId(ProductIds(db.products));
            o.reply.Done? ==>
              && code.Some? && name.Some? && CodeHolder(db.products, code).None?
              && o.after.products == db.products + [Product(id, code.value, name.value, description, active)]
              && o.after.images == (if Accepted(file)
                                    then db.images + [RefImage(NextId(ImageIds(db.images)), id,
                                                               ProductImagePath(token, file.filename), true)]
                                    else db.images)
              && o.after.inspections == db.inspections
  {
  }

  lemma CreateKeepsConsistent(db: Db, code: Option<string>, name: Option<string>, description: string,
                              active: bool, file: FilePart, token: string)
    requires Consistent(db)
    ensures Consistent(CreateStep(db, code, name, description, active, file, token).after)
  {
    CreateShape(db, code, name, description, active, file, token);
    if CreateStep(db, code, name, description, active, file, token).reply.Done? {
      var path := if Accepted(file) then ProductImagePath(token, file.filename) else "";
      CreatedConsistent(db, code.value, name.value, description, active, Accepted(file), path);
    }
  }

  /** The tables after a product, and possibly its first image, are added. */
  lemma CreatedConsistent(db: Db, c: string, n: string, description: string, active: bool,
                          withImage: bool, path: string)
    requires Consistent(db) && CodeHolder(db.products, Some(c)).None?
    ensures var id := NextId(ProductIds(db.products));
            Consistent(Db(db.products + [Product(id, c, n, description, active)],
                          if withImage then db.images + [RefImage(NextId(ImageIds(db.images)), id, path, true)]
                          else db.images,
                          db.inspections))
  {
    var id := NextId(ProductIds(db.products));
    var ps := db.products + [Product(id, c, n, description, active)];
    var r := if withImage then db.images + [RefImage(NextId(ImageIds(db.images)), id, path, true)] else db.images;
    CreateKeepsProducts(db, c, n, description, active);
    FreshProductHasNoImages(db);
    if withImage {
      CreatedImageCounts(db, id, path);
      forall k | 0 <= k < |r| ensures HasProduct(ps, r[k].productId) {
        if k < |db.images| {
          assert r[k] == db.images[k];
        }
      }
    }
    TablesRebuilt(db, ps, r);
  }

  /** Adding a primary row for a product that had no images keeps the image
      table consistent. */
  lemma CreatedImageCounts(db: Db, id: nat, path: string)
    requires ImageIdsDistinct(db.images) && OnePrimaryEach(db.images) && ImageCount(db.images, id) == 0
    ensures var r := db.images + [RefImage(NextId(ImageIds(db.images)), id, path, true)];
            && ImageIdsDistinct(r) && OnePrimaryEach(r)
            && ImageCount(r, id) == 1 && PrimaryCount(r, id) == 1
  {
    var x := RefImage(NextId(ImageIds(db.images)), id, path, true);
    var r := db.images + [x];
    assert forall k :: 0 <= k < |db.images| ==> ImageIds(db.images)[k] == db.images[k].id;
    NoImagesNoPrimary(db.images, id);
    forall q: nat ensures ImageCount(r, q) == ImageCount(db.images, q) + (if q == id then 1 else 0)
                    && PrimaryCount(r, q) == PrimaryCount(db.images, q) + (if q == id then 1 else 0) {
      CountAppend(db.images, x, Of(q));
      CountAppend(db.images, x, PrimaryOf(q));
    }
  }

  /** A freshly numbered product owns no image row. */
  lemma FreshProductHasNoImages(db: Db)
    requires Owned(db)
    ensures ImageCount(db.images, NextId(ProductIds(db.products))) == 0
  {
    var id := NextId(ProductIds(db.products));
    forall k | 0 <= k < |db.images| ensures !Of(id)(db.images[k]) {
      var i :| 0 <= i < |db.products| && db.products[i].id == db.images[k].productId;
      assert ProductIds(db.products)[i] == db.products[i].id;
    }
    CountNone(db.images, Of(id));
  }

  /** What a successful `update` does to the tables. */
  lemma UpdateShape(db: Db, id: nat, code: Option<string>, name: Option<string>, description: string,
                    active: bool, file: FilePart, token: string)
    ensures var o := UpdateStep(db, id, code, name, description, active, file, token);
            o.reply.Done? ==>
              && FirstWhere(db.products, WithId(id)).Some? && code.Some? && name.Some?
              && (CodeHolder(db.products, code).None? || CodeHolder(db.products, code).value.id == id)
              && o.after.products == db.products[FirstWhere(db.products, WithId(id)).value :=
                                                 Product(id, code.value, name.value, description, active)]
              && o.after.images == (if Accepted(file) then Repathed(db.images, id, ProductImagePath(token, file.filename))
                                    else db.images)
              && o.after.inspections == db.inspections
  {
  }

  /** Replacing a product's row by one with the same id and a code no other row
      holds keeps ids and codes distinct and every product present. */
  lemma ReplacedProduct(ps: seq<Product>, i: nat, p: Product)
    requires ProductIdsDistinct(ps) && CodesDistinct(ps)
    requires i < |ps| && ps[i].id == p.id
    requires forall j :: 0 <= j < |ps| && j != i ==> ps[j].code != p.code
    ensures ProductIdsDistinct(ps[i := p]) && CodesDistinct(ps[i := p])
    ensures forall pid :: HasProduct(ps, pid) ==> HasProduct(ps[i := p], pid)
  {
    var qs := ps[i := p];
    forall pid | HasProduct(ps, pid) ensures HasProduct(qs, pid) {
      var j :| 0 <= j < |ps| && ps[j].id == pid;
      assert qs[j].id == pid;
    }
  }

  lemma UpdateKeepsConsistent(db: Db, id: nat, code: Option<string>, name: Option<string>, description: string,
                              active: bool, file: FilePart, token: string)
    requires Consistent(db)
    ensures Consistent(UpdateStep(db, id, code, name, description, active, file, token).after)
  {
    UpdateShape(db, id, code, name, description, active, file, token);
    if UpdateStep(db, id, code, name, description, active, file, token).reply.Done? {
      var i := FirstWhere(db.products, WithId(id)).value;
      var p := Product(id, code.value, name.value, description, active);
      CodeHolderUnique(db.products, code.value);
      assert forall j :: 0 <= j < |db.products| && j != i ==> db.products[j].code != p.code;
      var path := if Accepted(file) then ProductImagePath(token, file.filename) else "";
      UpdatedConsistent(db, i, p, Accepted(file), path);
    }
  }

  /** The tables after a product's row is replaced, and possibly its primary
      image's path with it. */
  lemma UpdatedConsistent(db: Db, i: nat, p: Product, withImage: bool, path: string)
    requires Consistent(db)
    requires i < |db.products| && db.products[i].id == p.id
    requires forall j :: 0 <= j < |db.products| && j != i ==> db.products[j].code != p.code
    ensures Consistent(Db(db.products[i := p], if withImage then Repathed(db.images, p.id, path) else db.images,
                          db.inspections))
  {
    var r := if withImage then Repathed(db.images, p.id, path) else db.images;
    ReplacedProduct(db.products, i, p);
    assert HasProduct(db.products, p.id) by { assert db.products[i].id == p.id; }
    if withImage {
      RepathedKeepsOnePrimary(db.images, p.id, path);
      RepathedOwners(db.images, p.id, path);
    }
    forall k | 0 <= k < |r| ensures HasProduct(db.products[i := p], r[k].productId) {
      if r[k].productId != p.id {
        assert HasProduct(db.products, db.images[k].productId);
      }
    }
    TablesRebuilt(db, db.products[i := p], r);
  }

  /** What a successful `add_image` does to the tables. */
  lemma AddImageShape(db: Db, id: nat, file: FilePart, primaryBox: bool, token: string)
    ensures var o := AddImageStep(db, id, file, primaryBox, token);
            o.reply.Done? ==>
              && ProductById(db.products, id).Some? && Accepted(file)
              && o.after == db.(images := Attach(db.images, id, primaryBox, ProductImagePath(token, file.filename)))
  {
  }

  lemma AddImageKeepsConsistent(db: Db, id: nat, file: FilePart, primaryBox: bool, token: string)
    requires Consistent(db)
    ensures Consistent(AddImageStep(db, id, file, primaryBox, token).after)
  {
    AddImageShape(db, id, file, primaryBox, token);
    if AddImageStep(db, id, file, primaryBox, token).reply.Done? {
      ProductByIdFinds(db.products, id);
      AttachedConsistent(db, id, primaryBox, ProductImagePath(token, file.filename));
    }
  }

  /** The tables after an image is attached to an existing product. */
  lemma AttachedConsistent(db: Db, id: nat, requested: bool, path: string)
    requires Consistent(db) && HasProduct(db.products, id)
    ensures Consistent(db.(images := Attach(db.images, id, requested, path)))
  {
    AttachKeepsOnePrimary(db.images, id, requested, path);
    var r := Attach(db.images, id, requested, path);
    assert forall k :: 0 <= k < |db.images| ==> r[k].productId == db.images[k].productId;
    assert r[|db.images|].productId == id;
    ImagesReplaced(db, r);
  }

  lemma SetPrimaryKeepsConsistent(db: Db, id: nat, imageId: nat)
    requires Consistent(db)
    ensures Consistent(SetPrimaryStep(db, id, imageId).after)
  {
    var o := SetPrimaryStep(db, id, imageId);
    if o.reply.Done? {
      var k := FirstWhere(db.images, ImageWithId(imageId)).value;
      ReflagKeepsOnePrimary(db.images, id, imageId, k);
      var r := Reflag(db.images, id, imageId);
      assert forall j :: 0 <= j < |r| ==> r[j].id == db.images[j].id && r[j].productId == db.images[j].productId;
      ImagesReplaced(db, r);
    }
  }

  // ---------------------------------------------------------------------------
  // What the handlers promise

  /** `create` refuses a code any product holds, and then changes nothing. */
  lemma CreateRejectsTakenCode(db: Db, c: string, name: Option<string>, description: string,
                               active: bool, file: FilePart, token: string)
    ensures var o := CreateStep(db, Some(c), name, description, active, file, token);
            (o.reply == Rejected(CodeInUse, NewForm)) <==> exists i :: 0 <= i < |db.products| && db.products[i].code == c
    ensures var o := CreateStep(db, Some(c), name, description, active, file, token);
            o.reply.Rejected? ==> o.after == db
  {
    CodeHolderFinds(db.products, c);
  }

  /** A product created with an accepted upload has exactly that image, and it is
      its primary; without one it has no images. */
  lemma CreatedImageIsPrimary(db: Db, code: Option<string>, name: Option<string>, description: string,
                              active: bool, file: FilePart, token: string)
    requires Consistent(db)
    ensures var o := CreateStep(db, code, name, description, active, file, token);
            o.reply.Done? ==>
              var id := o.reply.page.id;
              && !HasProduct(db.products, id)
              && (Accepted(file) ==>
                    && ImageCount(o.after.images, id) == 1
                    && FirstPrimary(o.after.images, id).Some?
                    && FirstPrimary(o.after.images, id).value.path == ProductImagePath(token, file.filename))
              && (!Accepted(file) ==> ImageCount(o.after.images, id) == 0)
  {
    var o := CreateStep(db, code, name, description, active, file, token);
    if o.reply.Done? {
      var id := NextId(ProductIds(db.products));
      assert forall i :: 0 <= i < |db.products| ==> ProductIds(db.products)[i] == db.products[i].id;
      FreshProductHasNoImages(db);
      if Accepted(file) {
        var x := o.after.images[|db.images|];
        assert o.after.images == db.images + [x];
        CountAppend(db.images, x, Of(id));
        CreateKeepsConsistent(db, code, name, description, active, file, token);
        FirstPrimaryExists(o.after.images, id);
        var img := FirstPrimary(o.after.images, id).value;
        CountNone(db.images, Of(id));
        var k :| 0 <= k < |o.after.images| && o.after.images[k] == img;
        assert k == |db.images|;
      }
    }
  }

  /** `update` refuses a code held by a different product, and only then; a
      product may keep its own code. */
  lemma UpdateCodeRule(db: Db, id: nat, c: string, name: Option<string>, description: string,
                       active: bool, file: FilePart, token: string)
    requires Consistent(db) && HasProduct(db.products, id)
    ensures var o := UpdateStep(db, id, Some(c), name, description, active, file, token);
            (o.reply == Rejected(CodeInUse, Edit(id))) <==>
              exists i :: 0 <= i < |db.products| && db.products[i].code == c && db.products[i].id != id
    ensures var o := UpdateStep(db, id, Some(c), name, description, active, file, token);
            o.reply.Rejected? ==> o.after == db
  {
    ProductByIdFinds(db.products, id);
    CodeHolderFinds(db.products, c);
    if exists i :: 0 <= i < |db.products| && db.products[i].code == c && db.products[i].id != id {
      var i :| 0 <= i < |db.products| && db.products[i].code == c && db.products[i].id != id;
      var h :| 0 <= h < |db.products| && db.products[h] == CodeHolder(db.products, Some(c)).value && db.products[h].code == c;
      assert h == i;
    }
  }

  /** An upload accepted by `update` changes only the path of the product's
      primary image, keeping the number of rows, or adds exactly one primary row
      when the product has none. */
  lemma UpdateUploadRule(db: Db, id: nat, code: Option<string>, name: Option<string>, description: string,
                         active: bool, file: FilePart, token: string)
    requires Consistent(db)
    ensures var o := UpdateStep(db, id, code, name, description, active, file, token);
            o.reply.Done? && Accepted(file) ==>
              var path := ProductImagePath(token, file.filename);
              && (PrimaryCount(db.images, id) > 0 ==>
                    && |o.after.images| == |db.images|
                    && exists k :: 0 <= k < |db.images| && db.images[k].productId == id && db.images[k].isPrimary
                                   && o.after.images == db.images[k := db.images[k].(path := path)])
              && (PrimaryCount(db.images, id) == 0 ==>
                    o.after.images == db.images + [RefImage(NextId(ImageIds(db.images)), id, path, true)])
    ensures var o := UpdateStep(db, id, code, name, description, active, file, token);
            o.reply.Done? && !Accepted(file) ==> o.after.images == db.images
  {
    var o := UpdateStep(db, id, code, name, description, active, file, token);
    if o.reply.Done? && Accepted(file) {
      RepathedRules(db.images, id, ProductImagePath(token, file.filename));
    }
  }

  /** The flag rules of `add_image`. */
  lemma AddImageFlags(db: Db, id: nat, file: FilePart, primaryBox: bool, token: string)
    requires Consistent(db)
    ensures var o := AddImageStep(db, id, file, primaryBox, token);
            o.reply.Done? ==>
              var r := o.after.images;
              var n := |db.images|;
              && |r| == n + 1
              && r[n].productId == id
              && (primaryBox ==> r[n].isPrimary && PrimaryCount(r, id) == 1
                                 && forall k :: 0 <= k < n && r[k].productId == id ==> !r[k].isPrimary)
              && (ImageCount(db.images, id) == 0 ==> r[n].isPrimary)
              && (!primaryBox && ImageCount(db.images, id) > 0 ==> r[..n] == db.images && !r[n].isPrimary)
              && (forall k :: 0 <= k < n && db.images[k].productId != id ==> r[k] == db.images[k])
    ensures var o := AddImageStep(db, id, file, primaryBox, token);
            o.reply.Rejected? ==> o.after == db
  {
    var o := AddImageStep(db, id, file, primaryBox, token);
    if o.reply.Done? {
      AttachRules(db.images, id, primaryBox, ProductImagePath(token, file.filename));
    }
  }

  /** `set_primary_image` sets the flag exactly on the chosen image among the
      product's images, which becomes the one the routes use; an image of another
      product is refused and nothing changes. */
  lemma SetPrimaryRule(db: Db, id: nat, imageId: nat)
    requires Consistent(db)
    ensures var o := SetPrimaryStep(db, id, imageId);
            o.reply.Done? ==>
              && |o.after.images| == |db.images|
              && (forall k :: 0 <= k < |db.images| && db.images[k].productId == id ==>
                    o.after.images[k] == db.images[k].(isPrimary := db.images[k].id == imageId))
              && (forall k :: 0 <= k < |db.images| && db.images[k].productId != id ==>
                    o.after.images[k] == db.images[k])
              && FirstPrimary(o.after.images, id).Some?
              && FirstPrimary(o.after.images, id).value.id == imageId
    ensures var o := SetPrimaryStep(db, id, imageId);
            ImageById(db.images, imageId).Some? && ImageById(db.images, imageId).value.productId != id ==>
              o.reply.Rejected? && o.after == db
  {
    var o := SetPrimaryStep(db, id, imageId);
    if o.reply.Done? {
      var k := FirstWhere(db.images, ImageWithId(imageId)).value;
      ReflagSelects(db.images, id, imageId, k);
    }
  }

  // ---------------------------------------------------------------------------
  // The listing

  /** `name ILIKE '%search%' OR code ILIKE '%search%'`, applied only to a
      non-empty search text. */
  predicate MatchesSearch(p: Product, search: string)
  {
    search == "" || Like(p.name, "%" + search + "%") || Like(p.code, "%" + search + "%")
  }

  /** The status filter: "active" and "inactive" select on the flag, any other
      value selects every product. */
  predicate MatchesStatus(p: Product, status: string)
  {
    (status == "active" ==> p.active) && (status == "inactive" ==> !p.active)
  }

  function Selected(ps: seq<Product>, search: string, status: string): seq<Product>
  {
    if ps == [] then []
    else
      var rest := Selected(ps[..|ps| - 1], search, status);
      var p := ps[|ps| - 1];
      if MatchesSearch(p, search) && MatchesStatus(p, status) then rest + [p] else rest
  }

  predicate SortedByCode(s: seq<Product>)
  {
    forall i, j :: 0 <= i < j < |s| ==> LexLe(s[i].code, s[j].code)
  }

  function InsertByCode(p: Product, s: seq<Product>): seq<Product>
  {
    if s == [] then [p]
    else if LexLe(p.code, s[0].code) then [p] + s
    else [s[0]] + InsertByCode(p, s[1..])
  }

  /** `order_by(Product.code)`. */
  function SortByCode(s: seq<Product>): seq<Product>
  {
    if s == [] then [] else InsertByCode(s[|s| - 1], SortByCode(s[..|s| - 1]))
  }

  /** `index`: the selected products ordered by code. */
  function Index(ps: seq<Product>, search: string, status: string): seq<Product>
  {
    SortByCode(Selected(ps, search, status))
  }

  lemma {:induction false} SelectedMembers(ps: seq<Product>, search: string, status: string)
    ensures forall p :: p in Selected(ps, search, status) <==> p in ps && MatchesSearch(p, search) && MatchesStatus(p, status)
    ensures |Selected(ps, search, status)| <= |ps|
  {
    if ps != [] {
      SelectedMembers(ps[..|ps| - 1], search, status);
      assert ps == ps[..|ps| - 1] + [ps[|ps| - 1]];
    }
  }

  lemma {:induction false} InsertByCodeCounts(p: Product, s: seq<Product>)
    ensures multiset(InsertByCode(p, s)) == multiset(s) + multiset{p}
    decreases |s|
  {
    if s != [] && !LexLe(p.code, s[0].code) {
      InsertByCodeCounts(p, s[1..]);
      assert s == [s[0]] + s[1..];
    }
  }

  /** A row no greater than every row of a sorted list can head it. */
  lemma SortedCons(x: Product, t: seq<Product>)
    requires SortedByCode(t)
    requires forall y :: y in t ==> LexLe(x.code, y.code)
    ensures SortedByCode([x] + t)
  {
    forall i, j | 0 <= i < j < |[x] + t| ensures LexLe(([x] + t)[i].code, ([x] + t)[j].code) {
      assert ([x] + t)[j] == t[j - 1];
      if i > 0 {
        assert ([x] + t)[i] == t[i - 1];
      } else {
        assert t[j - 1] in t;
      }
    }
  }

  lemma {:induction false} InsertByCodeSorted(p: Product, s: seq<Product>)
    requires SortedByCode(s)
    ensures SortedByCode(InsertByCode(p, s))
    decreases |s|
  {
    if s == [] {
    } else if LexLe(p.code, s[0].code) {
      forall y | y in s ensures LexLe(p.code, y.code) {
        var j :| 0 <= j < |s| && s[j] == y;
        if j > 0 {
          LexLeTransitive(p.code, s[0].code, s[j].code);
        }
      }
      SortedCons(p, s);
    } else {
      LexLeTotal(p.code, s[0].code);
      var rest := InsertByCode(p, s[1..]);
      InsertByCodeSorted(p, s[1..]);
      InsertByCodeCounts(p, s[1..]);
      forall y | y in rest ensures LexLe(s[0].code, y.code) {
        assert y in multiset(rest);
        if y != p {
          assert y in multiset(s[1..]);
          var j :| 0 <= j < |s[1..]| && s[1..][j] == y;
          assert s[j + 1] == y;
        }
      }
      SortedCons(s[0], rest);
    }
  }

  lemma {:induction false} SortByCodePermutes(s: seq<Product>)
    ensures multiset(SortByCode(s)) == multiset(s)
    decreases |s|
  {
    if s != [] {
      SortByCodePermutes(s[..|s| - 1]);
      InsertByCodeCounts(s[|s| - 1], SortByCode(s[..|s| - 1]));
      assert s == s[..|s| - 1] + [s[|s| - 1]];
    }
  }

  lemma {:induction false} SortByCodeSorted(s: seq<Product>)
    ensures SortedByCode(SortByCode(s))
    decreases |s|
  {
    if s != [] {
      SortByCodeSorted(s[..|s| - 1]);
      InsertByCodeSorted(s[|s| - 1], SortByCode(s[..|s| - 1]));
    }
  }

  /** The listing holds exactly the products that pass both filters, each once
      per row, in code order. */
  lemma IndexContents(ps: seq<Product>, search: string, status: string)
    ensures SortedByCode(Index(ps, search, status))
    ensures multiset(Index(ps, search, status)) == multiset(Selected(ps, search, status))
    ensures forall p :: p in Index(ps, search, status) <==> p in ps && MatchesSearch(p, search) && MatchesStatus(p, status)
  {
    SortByCodeSorted(Selected(ps, search, status));
    SortByCodePermutes(Selected(ps, search, status));
    SelectedMembers(ps, search, status);
    forall p ensures p in Index(ps, search, status) <==> p in Selected(ps, search, status) {
      assert p in Index(ps, search, status) <==> p in multiset(Index(ps, search, status));
      assert p in Selected(ps, search, status) <==> p in multiset(Selected(ps, search, status));
    }
  }

  /** A search text without wildcards selects the products whose name or code
      contains it, ignoring ASCII case. */
  lemma SearchMeansContains(p: Product, search: string)
    requires search != "" && NoWildcards(search)
    ensures MatchesSearch(p, search) <==>
              (exists i :: 0 <= i <= |p.name| && OccursAt(search, p.name, i))
              || (exists i :: 0 <= i <= |p.code| && OccursAt(search, p.code, i))
  {
    ContainsLike(p.name, search);
    ContainsLike(p.code, search);
  }
}
