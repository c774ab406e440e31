/** The database session the route handlers work through: the three tables as
    fields that the handlers update in place, with the loops the handlers run over
    a product's `reference_images`. */
module Catalog {

  import opened Wrappers
  import opened Records

  class Catalog {
    var products: seq<Product>
    var images: seq<RefImage>
    var inspections: seq<Inspection>

    function State(): Db
      reads this
    {
      Db(products, images, inspections)
    }

    ghost predicate Valid()
      reads this
    {
      Consistent(State())
    }

    constructor ()
      ensures State() == Db([], [], []) && Valid()
    {
      products := [];
      images := [];
      inspections := [];
    }

    /** `db.session.add(Product(...))`: the new row gets the next free id. */
    method InsertProduct(code: string, name: string, description: string, active: bool) returns (id: nat)
      modifies this
      ensures id == NextId(ProductIds(old(products)))
      ensures products == old(products) + [Product(id, code, name, description, active)]
      ensures images == old(images) && inspections == old(inspections)
    {
      id := NextId(ProductIds(products));
      products := products + [Product(id, code, name, description, active)];
    }

    /** Assigning a product's columns in place. */
    method SetProduct(i: nat, p: Product)
      requires i < |products|
      modifies this
      ensures products == old(products)[i := p]
      ensures images == old(images) && inspections == old(inspections)
    {
      products := products[i := p];
    }

    /** `db.session.add(ReferenceImage(...))`: the new row gets the next free id. */
    method InsertImage(pid: nat, path: string, primary: bool) returns (image: RefImage)
      modifies this
      ensures image == RefImage(NextId(ImageIds(old(images))), pid, path, primary)
      ensures images == old(images) + [image]
      ensures products == old(products) && inspections == old(inspections)
    {
      image := RefImage(NextId(ImageIds(images)), pid, path, primary);
      images := images + [image];
    }

    /** `db.session.add(Inspection(...))`. */
    method InsertInspection(pid: nat, imagePath: string, resultImagePath: string, approved: bool,
                            defectsCount: nat, defectsDetails: seq<string>)
      modifies this
      ensures inspections == old(inspections) + [Inspection(NextId(InspectionIds(old(inspections))), pid, imagePath,
                                                            resultImagePath, approved, defectsCount, defectsDetails)]
      ensures products == old(products) && images == old(images)
    {
      var id := NextId(InspectionIds(inspections));
      inspections := inspections + [Inspection(id, pid, imagePath, resultImagePath, approved, defectsCount, defectsDetails)];
    }

    /** `for img in product.reference_images: img.is_primary = (img.id == image_id)`. */
    method SetPrimaryFlags(pid: nat, iid: nat)
      modifies this
      ensures images == Reflag(old(images), pid, iid)
      ensures products == old(products) && inspections == old(inspections)
    {
      var k := 0;
      while k < |images|
        invariant 0 <= k <= |images| == |old(images)|
        invariant forall j :: 0 <= j < k ==> images[j] == Reflag(old(images), pid, iid)[j]
        invariant forall j :: k <= j < |images| ==> images[j] == old(images)[j]
        invariant products == old(products) && inspections == old(inspections)
      {
        if images[k].productId == pid {
          images := images[k := images[k].(isPrimary := images[k].id == iid)];
        }
        k := k + 1;
      }
    }

    /** `for image in product.reference_images: image.is_primary = False`. */
    method ClearPrimaryFlags(pid: nat)
      modifies this
      ensures images == Cleared(old(images), pid)
      ensures products == old(products) && inspections == old(inspections)
    {
      var k := 0;
      while k < |images|
        invariant 0 <= k <= |images| == |old(images)|
        invariant forall j :: 0 <= j < k ==> images[j] == Cleared(old(images), pid)[j]
        invariant forall j :: k <= j < |images| ==> images[j] == old(images)[j]
        invariant products == old(products) && inspections == old(inspections)
      {
        if images[k].productId == pid {
          images := images[k := images[k].(isPrimary := false)];
        }
        k := k + 1;
      }
    }

    /** The shared body of `add_image` and `upload_image` once the file is
        accepted: clear the flags when a primary is requested, force the flag for
        a product's first image, and add the row. */
    method AttachImage(pid: nat, requested: bool, path: string) returns (image: RefImage)
      modifies this
      ensures images == Attach(old(images), pid, requested, path)
      ensures image == images[|images| - 1]
      ensures products == old(products) && inspections == old(inspections)
    {
      var primary := requested;
      if requested {
        ClearPrimaryFlags(pid);
        ClearedFlags(old(images), pid);
      }
      if ImageCount(images, pid) == 0 {
        primary := true;
      }
      image := InsertImage(pid, path, primary);
    }

    /** The loop with `break` that finds a product's primary image. */
    method FindPrimary(pid: nat) returns (r: Option<RefImage>)
      ensures r == FirstPrimary(images, pid)
    {
      var k := 0;
      while k < |images|
        invariant 0 <= k <= |images|
        invariant forall j :: 0 <= j < k ==> !PrimaryOf(pid)(images[j])
      {
        if images[k].productId == pid && images[k].isPrimary {
          assert PrimaryOf(pid)(images[k]);
          return Some(images[k]);
        }
        k := k + 1;
      }
      return None;
    }

    /** `delete_image`'s promotion loop: the first other image of the product, in
        list order, becomes primary. */
    method PromoteOther(pid: nat, iid: nat)
      modifies this
      ensures images == Promoted(old(images), pid, iid)
      ensures products == old(products) && inspections == old(inspections)
    {
      var k := 0;
      while k < |images|
        invariant 0 <= k <= |images|
        invariant images == old(images)
        invariant forall j :: 0 <= j < k ==> !OtherOf(pid, iid)(images[j])
      {
        if images[k].productId == pid && images[k].id != iid {
          assert OtherOf(pid, iid)(images[k]);
          images := images[k := images[k].(isPrimary := true)];
          return;
        }
        k := k + 1;
      }
    }

    /** A new upload in `update`: `.first()` of the product's primary images gets
        the new path, or a new primary row is added. */
    method ReplacePrimaryPath(pid: nat, path: string)
      modifies this
      ensures images == Repathed(old(images), pid, path)
      ensures products == old(products) && inspections == old(inspections)
    {
      var primary := FirstWhere(images, PrimaryOf(pid));
      match primary {
        case Some(k) =>
          images := images[k := images[k].(path := path)];
        case None =>
          var image := InsertImage(pid, path, true);
      }
    }

    /** `db.session.delete(image)` for the row at position `k`. */
    method DeleteImageAt(k: nat)
      requires k < |images|
      modifies this
      ensures images == RemoveAt(old(images), k)
      ensures products == old(products) && inspections == old(inspections)
    {
      images := images[..k] + images[k + 1..];
    }
  }
}
