/** The rows of the product, reference-image and inspection tables and the table
    operations the route handlers perform on them: lookups in table order, fresh
    ids, and the flag and path updates on reference images, together with the
    invariant those updates keep -- every product that has reference images has
    exactly one primary image. */
module Records {

  import opened Wrappers

  datatype Product = Product(id: nat, code: string, name: string, description: string, active: bool)

  datatype RefImage = RefImage(id: nat, productId: nat, path: string, isPrimary: bool)

  /** An inspection row. `defectsDetails` holds the defect labels the row stores
      JSON-encoded. */
  datatype Inspection = Inspection(
    id: nat,
    productId: nat,
    imagePath: string,
    resultImagePath: string,
    approved: bool,
    defectsCount: nat,
    defectsDetails: seq<string>)

  /** The three tables, each in row-id order. A product's `reference_images` are
      the rows of `images` that carry its id, in that order. */
  datatype Db = Db(products: seq<Product>, images: seq<RefImage>, inspections: seq<Inspection>)

  // ---------------------------------------------------------------------------
  // Counting rows

  function Count<T>(s: seq<T>, p: T -> bool): (n: nat)
    ensures n <= |s|
  {
    if s == [] then 0 else Count(s[..|s| - 1], p) + (if p(s[|s| - 1]) then 1 else 0)
  }

  lemma CountAppend<T>(s: seq<T>, x: T, p: T -> bool)
    ensures Count(s + [x], p) == Count(s, p) + (if p(x) then 1 else 0)
  {
    assert (s + [x])[..|s|] == s;
  }

  lemma {:induction false} CountConcat<T>(a: seq<T>, b: seq<T>, p: T -> bool)
    ensures Count(a + b, p) == Count(a, p) + Count(b, p)
    decreases |b|
  {
    if b == [] {
      assert a + b == a;
    } else {
      var front := b[..|b| - 1];
      assert a + b == (a + front) + [b[|b| - 1]];
      CountAppend(a + front, b[|b| - 1], p);
      CountConcat(a, front, p);
      assert b == front + [b[|b| - 1]];
      CountAppend(front, b[|b| - 1], p);
    }
  }

  /** Two lists that agree position by position on the tested property have the
      same count. */
  lemma {:induction false} CountPointwise<T, U>(s: seq<T>, t: seq<U>, p: T -> bool, q: U -> bool)
    requires |s| == |t|
    requires forall k :: 0 <= k < |s| ==> p(s[k]) == q(t[k])
    ensures Count(s, p) == Count(t, q)
    decreases |s|
  {
    if s != [] {
      CountPointwise(s[..|s| - 1], t[..|t| - 1], p, q);
    }
  }

  lemma {:induction false} CountNone<T>(s: seq<T>, p: T -> bool)
    ensures Count(s, p) == 0 <==> forall k :: 0 <= k < |s| ==> !p(s[k])
    decreases |s|
  {
    if s != [] {
      CountNone(s[..|s| - 1], p);
      if Count(s, p) == 0 {
        forall k | 0 <= k < |s| ensures !p(s[k]) {
          if k < |s| - 1 {
            assert s[..|s| - 1][k] == s[k];
          }
        }
      }
    }
  }

  lemma CountSplit<T>(s: seq<T>, k: nat, p: T -> bool)
    requires k < |s|
    ensures Count(s, p) == Count(s[..k], p) + (if p(s[k]) then 1 else 0) + Count(s[k + 1..], p)
  {
    assert s == s[..k + 1] + s[k + 1..];
    CountConcat(s[..k + 1], s[k + 1..], p);
    var front := s[..k + 1];
    assert front[..k] == s[..k] && front[k] == s[k];
  }

  /** Replacing one row changes the count by at most that row's contribution. */
  lemma CountUpdate<T>(s: seq<T>, k: nat, x: T, p: T -> bool)
    requires k < |s|
    ensures Count(s[k := x], p) == Count(s, p) - (if p(s[k]) then 1 else 0) + (if p(x) then 1 else 0)
  {
    CountSplit(s, k, p);
    CountSplit(s[k := x], k, p);
    assert s[k := x][..k] == s[..k];
    assert s[k := x][k + 1..] == s[k + 1..];
  }

  lemma CountRemove<T>(s: seq<T>, k: nat, p: T -> bool)
    requires k < |s|
    ensures Count(s[..k] + s[k + 1..], p) == Count(s, p) - (if p(s[k]) then 1 else 0)
  {
    CountSplit(s, k, p);
    CountConcat(s[..k], s[k + 1..], p);
  }

  /** A positive count has a witness. */
  lemma CountWitness<T>(s: seq<T>, p: T -> bool) returns (j: nat)
    requires Count(s, p) > 0
    ensures j < |s| && p(s[j])
  {
    CountNone(s, p);
    j :| 0 <= j < |s| && p(s[j]);
  }

  /** Two distinct rows with the property make a count of at least two. */
  lemma CountTwo<T>(s: seq<T>, i: nat, j: nat, p: T -> bool)
    requires i < |s| && j < |s| && i != j
    requires p(s[i]) && p(s[j])
    ensures Count(s, p) >= 2
  {
    var rest := s[..i] + s[i + 1..];
    CountRemove(s, i, p);
    var j' := if j < i then j else j - 1;
    assert rest[j'] == s[j];
    CountNone(rest, p);
  }

  // ---------------------------------------------------------------------------
  // Lookups in table order

  /** The position of the first row with the property, as `.first()` and a loop
      with `break` find it. */
  function FirstWhere<T>(s: seq<T>, p: T -> bool): (r: Option<nat>)
    ensures r.Some? ==> r.value < |s| && p(s[r.value]) && forall j :: 0 <= j < r.value ==> !p(s[j])
    ensures r.None? ==> forall j :: 0 <= j < |s| ==> !p(s[j])
  {
    if s == [] then None
    else if p(s[0]) then Some(0)
    else match FirstWhere(s[1..], p) {
      case None => None
      case Some(k) => Some(k + 1)
    }
  }

  /** A row appended after rows that all fail the test is the first to pass it. */
  lemma FirstWhereAppendHit<T>(s: seq<T>, x: T, p: T -> bool)
    requires p(x) && forall j :: 0 <= j < |s| ==> !p(s[j])
    ensures FirstWhere(s + [x], p) == Some(|s|)
  {
    var r := s + [x];
    assert r[|s|] == x;
    assert forall j :: 0 <= j < |s| ==> r[j] == s[j];
  }

  /** A row appended that fails the test changes no lookup. */
  lemma FirstWhereAppendMiss<T>(s: seq<T>, x: T, p: T -> bool)
    requires !p(x)
    ensures FirstWhere(s + [x], p) == FirstWhere(s, p)
  {
    var r := s + [x];
    assert forall j :: 0 <= j < |s| ==> r[j] == s[j];
    assert r[|s|] == x;
    match FirstWhere(r, p) {
      case None =>
      case Some(m) =>
        match FirstWhere(s, p) {
          case None =>
          case Some(m') =>
        }
    }
  }

  function WithId(id: nat): Product -> bool { (p: Product) => p.id == id }

  function WithCode(code: string): Product -> bool { (p: Product) => p.code == code }

  function ImageWithId(id: nat): RefImage -> bool { (img: RefImage) => img.id == id }

  function Of(pid: nat): RefImage -> bool { (img: RefImage) => img.productId == pid }

  function PrimaryOf(pid: nat): RefImage -> bool { (img: RefImage) => img.productId == pid && img.isPrimary }

  /** An image of product `pid` other than image `iid`. */
  function OtherOf(pid: nat, iid: nat): RefImage -> bool { (img: RefImage) => img.productId == pid && img.id != iid }

  /** Image `iid`, when it belongs to product `pid`. */
  function Numbered(pid: nat, iid: nat): RefImage -> bool { (img: RefImage) => img.productId == pid && img.id == iid }

  function ImageCount(s: seq<RefImage>, pid: nat): nat { Count(s, Of(pid)) }

  function PrimaryCount(s: seq<RefImage>, pid: nat): nat { Count(s, PrimaryOf(pid)) }

  /** `get(id)` on the products table. */
  function ProductById(ps: seq<Product>, id: nat): Option<Product>
  {
    match FirstWhere(ps, WithId(id)) {
      case None => None
      case Some(i) => Some(ps[i])
    }
  }

  /** `get(id)` on the reference-image table. */
  function ImageById(s: seq<RefImage>, id: nat): Option<RefImage>
  {
    match FirstWhere(s, ImageWithId(id)) {
      case None => None
      case Some(k) => Some(s[k])
    }
  }

  /** The primary image the routes use for a product: the first of its reference
      images, in list order, whose flag is set. */
  function FirstPrimary(s: seq<RefImage>, pid: nat): Option<RefImage>
  {
    match FirstWhere(s, PrimaryOf(pid)) {
      case None => None
      case Some(k) => Some(s[k])
    }
  }

  predicate HasProduct(ps: seq<Product>, id: nat)
  {
    exists i :: 0 <= i < |ps| && ps[i].id == id
  }

  lemma ProductByIdFinds(ps: seq<Product>, id: nat)
    ensures ProductById(ps, id).Some? <==> HasProduct(ps, id)
    ensures ProductById(ps, id).Some? ==> ProductById(ps, id).value.id == id && ProductById(ps, id).value in ps
  {
    if HasProduct(ps, id) {
      var i :| 0 <= i < |ps| && ps[i].id == id;
      assert WithId(id)(ps[i]);
    }
  }

  // ---------------------------------------------------------------------------
  // Fresh ids

  /** The id SQLite gives a new row of an INTEGER PRIMARY KEY table: one more than
      the largest id in use, or 1 for an empty table. */
  function NextId(ids: seq<nat>): (n: nat)
    ensures forall k :: 0 <= k < |ids| ==> ids[k] < n
    ensures ids == [] ==> n == 1
    ensures ids != [] ==> exists k :: 0 <= k < |ids| && ids[k] + 1 == n
  {
    if ids == [] then 1
    else
      var m := NextId(ids[..|ids| - 1]);
      assert forall k :: 0 <= k < |ids| - 1 ==> ids[..|ids| - 1][k] == ids[k];
      if ids[|ids| - 1] + 1 > m then ids[|ids| - 1] + 1 else m
  }

  function ProductIds(ps: seq<Product>): seq<nat>
  {
    seq(|ps|, i requires 0 <= i < |ps| => ps[i].id)
  }

  function ImageIds(s: seq<RefImage>): seq<nat>
  {
    seq(|s|, k requires 0 <= k < |s| => s[k].id)
  }

  function InspectionIds(s: seq<Inspection>): seq<nat>
  {
    seq(|s|, k requires 0 <= k < |s| => s[k].id)
  }

  // ---------------------------------------------------------------------------
  // The invariant the handlers keep

  predicate ProductIdsDistinct(ps: seq<Product>)
  {
    forall i, j :: 0 <= i < j < |ps| ==> ps[i].id != ps[j].id
  }

  /** The UNIQUE constraint on `code`. */
  predicate CodesDistinct(ps: seq<Product>)
  {
    forall i, j :: 0 <= i < j < |ps| ==> ps[i].code != ps[j].code
  }

  predicate ImageIdsDistinct(s: seq<RefImage>)
  {
    forall i, j :: 0 <= i < j < |s| ==> s[i].id != s[j].id
  }

  /** The foreign keys of the image and inspection tables. */
  predicate Owned(db: Db)
  {
    && (forall k :: 0 <= k < |db.images| ==> HasProduct(db.products, db.images[k].productId))
    && (forall k :: 0 <= k < |db.inspections| ==> HasProduct(db.products, db.inspections[k].productId))
  }

  /** Every product with at least one reference image has exactly one primary. */
  ghost predicate OnePrimaryEach(s: seq<RefImage>)
  {
    forall pid: nat :: ImageCount(s, pid) > 0 ==> PrimaryCount(s, pid) == 1
  }

  ghost predicate Consistent(db: Db)
  {
    && ProductIdsDistinct(db.products)
    && CodesDistinct(db.products)
    && ImageIdsDistinct(db.images)
    && Owned(db)
    && OnePrimaryEach(db.images)
  }

  /** Replacing the image table keeps the tables consistent when the new images
      have distinct ids, one primary per product, and existing owners. */
  lemma ImagesReplaced(db: Db, r: seq<RefImage>)
    requires Consistent(db)
    requires ImageIdsDistinct(r) && OnePrimaryEach(r)
    requires forall k :: 0 <= k < |r| ==> HasProduct(db.products, r[k].productId)
    ensures Consistent(db.(images := r))
  {
  }

  /** New product and image tables keep the tables consistent when products keep
      distinct ids and codes, no product disappears, and the new images have
      distinct ids, one primary per product, and existing owners. */
  lemma TablesRebuilt(db: Db, ps: seq<Product>, r: seq<RefImage>)
    requires Consistent(db)
    requires ProductIdsDistinct(ps) && CodesDistinct(ps)
    requires forall pid :: HasProduct(db.products, pid) ==> HasProduct(ps, pid)
    requires ImageIdsDistinct(r) && OnePrimaryEach(r)
    requires forall k :: 0 <= k < |r| ==> HasProduct(ps, r[k].productId)
    ensures Consistent(Db(ps, r, db.inspections))
  {
  }

  /** A product without reference images has no primary either. */
  lemma NoImagesNoPrimary(s: seq<RefImage>, pid: nat)
    requires ImageCount(s, pid) == 0
    ensures PrimaryCount(s, pid) == 0
  {
    CountNone(s, Of(pid));
    CountNone(s, PrimaryOf(pid));
  }

  /** Under the invariant the primary image the routes use exists exactly when the
      product has reference images, and it is the product's only primary. */
  lemma FirstPrimaryExists(s: seq<RefImage>, pid: nat)
    requires OnePrimaryEach(s)
    ensures FirstPrimary(s, pid).Some? <==> ImageCount(s, pid) > 0
    ensures FirstPrimary(s, pid).Some? ==>
              var img := FirstPrimary(s, pid).value;
              img in s && img.productId == pid && img.isPrimary
              && forall k :: 0 <= k < |s| && s[k].productId == pid && s[k].isPrimary ==> s[k] == img
  {
    CountNone(s, PrimaryOf(pid));
    if ImageCount(s, pid) == 0 {
      NoImagesNoPrimary(s, pid);
    } else {
      CountNone(s, Of(pid));
    }
    match FirstWhere(s, PrimaryOf(pid)) {
      case None =>
      case Some(m) =>
        forall k | 0 <= k < |s| && s[k].productId == pid && s[k].isPrimary ensures s[k] == s[m] {
          if k != m {
            CountTwo(s, k, m, PrimaryOf(pid));
          }
        }
    }
  }

  // ---------------------------------------------------------------------------
  // Image-table transitions

  /** `img.is_primary = (img.id == image_id)` for every image of product `pid`. */
  function Reflag(s: seq<RefImage>, pid: nat, iid: nat): seq<RefImage>
  {
    seq(|s|, k requires 0 <= k < |s| =>
      if s[k].productId == pid then s[k].(isPrimary := s[k].id == iid) else s[k])
  }

  /** `image.is_primary = False` for every image of product `pid`. */
  function Cleared(s: seq<RefImage>, pid: nat): seq<RefImage>
  {
    seq(|s|, k requires 0 <= k < |s| =>
      if s[k].productId == pid then s[k].(isPrimary := false) else s[k])
  }

  /** A new reference image for product `pid`: a requested primary clears the
      product's other flags first, and a product's first image is primary whatever
      was requested. */
  function Attach(s: seq<RefImage>, pid: nat, requested: bool, path: string): seq<RefImage>
  {
    (if requested then Cleared(s, pid) else s)
      + [RefImage(NextId(ImageIds(s)), pid, path, requested || ImageCount(s, pid) == 0)]
  }

  /** A new upload in `update`: the path of the product's primary image is
      replaced, or a new primary image is added when there is none. */
  function Repathed(s: seq<RefImage>, pid: nat, path: string): seq<RefImage>
  {
    match FirstWhere(s, PrimaryOf(pid)) {
      case Some(k) => s[k := s[k].(path := path)]
      case None => s + [RefImage(NextId(ImageIds(s)), pid, path, true)]
    }
  }

  /** The first image of product `pid` other than `iid`, in list order, becomes
      primary. */
  function Promoted(s: seq<RefImage>, pid: nat, iid: nat): (r: seq<RefImage>)
    ensures |r| == |s| && forall j :: 0 <= j < |s| ==> r[j].id == s[j].id && r[j].productId == s[j].productId
  {
    match FirstWhere(s, OtherOf(pid, iid)) {
      case None => s
      case Some(k) => s[k := s[k].(isPrimary := true)]
    }
  }

  function RemoveAt<T>(s: seq<T>, k: nat): seq<T>
    requires k < |s|
  {
    s[..k] + s[k + 1..]
  }

  /** Once a row is removed from a list with distinct ids, its id is no longer found. */
  lemma RemovedIdGone(t: seq<RefImage>, k: nat)
    requires k < |t| && ImageIdsDistinct(t)
    ensures ImageById(RemoveAt(t, k), t[k].id).None?
  {
    var r := RemoveAt(t, k);
    forall j | 0 <= j < |r| ensures !ImageWithId(t[k].id)(r[j]) {
      if j < k {
        assert r[j] == t[j];
      } else {
        assert r[j] == t[j + 1];
      }
    }
  }

  /** Removing a row keeps every remaining row's owner among the products. */
  lemma RemovedOwned(ps: seq<Product>, t: seq<RefImage>, k: nat)
    requires k < |t| && forall j :: 0 <= j < |t| ==> HasProduct(ps, t[j].productId)
    ensures forall j :: 0 <= j < |RemoveAt(t, k)| ==> HasProduct(ps, RemoveAt(t, k)[j].productId)
  {
    var r := RemoveAt(t, k);
    forall j | 0 <= j < |r| ensures HasProduct(ps, r[j].productId) {
      if j < k {
        assert r[j] == t[j];
      } else {
        assert r[j] == t[j + 1];
      }
    }
  }

  // ---------------------------------------------------------------------------
  // What each transition does to the flags

  /** Image `iid` of product `pid` is unique when image ids are distinct. */
  lemma NumberedOnce(s: seq<RefImage>, pid: nat, iid: nat, k: nat)
    requires ImageIdsDistinct(s)
    requires k < |s| && s[k].id == iid && s[k].productId == pid
    ensures Count(s, Numbered(pid, iid)) == 1
  {
    CountSplit(s, k, Numbered(pid, iid));
    CountNone(s[..k], Numbered(pid, iid));
    CountNone(s[k + 1..], Numbered(pid, iid));
  }

  /** After `Reflag` the chosen image is the only primary of its product, it is the
      one the routes will use, and no other product's rows change. */
  lemma ReflagSelects(s: seq<RefImage>, pid: nat, iid: nat, k: nat)
    requires ImageIdsDistinct(s)
    requires k < |s| && s[k].id == iid && s[k].productId == pid
    ensures PrimaryCount(Reflag(s, pid, iid), pid) == 1
    ensures FirstPrimary(Reflag(s, pid, iid), pid) == Some(s[k].(isPrimary := true))
    ensures forall j :: 0 <= j < |s| && s[j].productId != pid ==> Reflag(s, pid, iid)[j] == s[j]
  {
    var r := Reflag(s, pid, iid);
    CountPointwise(r, s, PrimaryOf(pid), Numbered(pid, iid));
    NumberedOnce(s, pid, iid, k);
    assert PrimaryOf(pid)(r[k]);
    match FirstWhere(r, PrimaryOf(pid)) {
      case None =>
      case Some(m) =>
        assert s[m].id == iid;
    }
  }

  lemma ReflagKeepsOnePrimary(s: seq<RefImage>, pid: nat, iid: nat, k: nat)
    requires ImageIdsDistinct(s) && OnePrimaryEach(s)
    requires k < |s| && s[k].id == iid && s[k].productId == pid
    ensures OnePrimaryEach(Reflag(s, pid, iid))
    ensures ImageIds(Reflag(s, pid, iid)) == ImageIds(s)
    ensures forall q: nat :: ImageCount(Reflag(s, pid, iid), q) == ImageCount(s, q)
  {
    var r := Reflag(s, pid, iid);
    forall q: nat ensures ImageCount(r, q) == ImageCount(s, q) {
      CountPointwise(r, s, Of(q), Of(q));
    }
    forall q: nat | ImageCount(r, q) > 0 ensures PrimaryCount(r, q) == 1 {
      if q == pid {
        ReflagSelects(s, pid, iid, k);
      } else {
        CountPointwise(r, s, PrimaryOf(q), PrimaryOf(q));
      }
    }
  }

  /** Clearing touches only the flags of product `pid`'s images and leaves none of
      them set. */
  lemma ClearedFlags(s: seq<RefImage>, pid: nat)
    ensures PrimaryCount(Cleared(s, pid), pid) == 0
    ensures forall q: nat :: ImageCount(Cleared(s, pid), q) == ImageCount(s, q)
    ensures forall q: nat :: q != pid ==> PrimaryCount(Cleared(s, pid), q) == PrimaryCount(s, q)
    ensures ImageIds(Cleared(s, pid)) == ImageIds(s)
  {
    var r := Cleared(s, pid);
    CountNone(r, PrimaryOf(pid));
    forall q: nat ensures ImageCount(r, q) == ImageCount(s, q) {
      CountPointwise(r, s, Of(q), Of(q));
    }
    forall q: nat | q != pid ensures PrimaryCount(r, q) == PrimaryCount(s, q) {
      CountPointwise(r, s, PrimaryOf(q), PrimaryOf(q));
    }
  }

  /** The rules of `add_image` and `upload_image`: a requested primary is the only
      primary; the first image of a product is primary; otherwise the existing rows
      are untouched and the new row is not primary. */
  lemma AttachRules(s: seq<RefImage>, pid: nat, requested: bool, path: string)
    requires OnePrimaryEach(s)
    ensures var r := Attach(s, pid, requested, path);
            && |r| == |s| + 1
            && r[|s|] == RefImage(NextId(ImageIds(s)), pid, path, requested || ImageCount(s, pid) == 0)
            && (requested || ImageCount(s, pid) == 0 ==>
                  PrimaryCount(r, pid) == 1 && FirstPrimary(r, pid) == Some(r[|s|]))
            && (!requested && ImageCount(s, pid) > 0 ==>
                  r[..|s|] == s && !r[|s|].isPrimary && FirstPrimary(r, pid) == FirstPrimary(s, pid))
            && forall j :: 0 <= j < |s| && s[j].productId != pid ==> r[j] == s[j]
  {
    var r := Attach(s, pid, requested, path);
    var base := if requested then Cleared(s, pid) else s;
    var x := r[|s|];
    assert r == base + [x];
    if requested || ImageCount(s, pid) == 0 {
      AttachedPrimary(s, pid, requested, path);
    } else {
      assert r[..|s|] == s;
      FirstWhereAppendMiss(s, x, PrimaryOf(pid));
    }
  }

  /** A requested primary, or a product's first image, is the product's one primary. */
  lemma AttachedPrimary(s: seq<RefImage>, pid: nat, requested: bool, path: string)
    requires requested || ImageCount(s, pid) == 0
    ensures var r := Attach(s, pid, requested, path);
            |r| == |s| + 1 && PrimaryCount(r, pid) == 1 && FirstPrimary(r, pid) == Some(r[|s|])
  {
    var r := Attach(s, pid, requested, path);
    var base := if requested then Cleared(s, pid) else s;
    var x := r[|s|];
    assert r == base + [x];
    if requested {
      ClearedFlags(s, pid);
    } else {
      NoImagesNoPrimary(s, pid);
    }
    CountAppend(base, x, PrimaryOf(pid));
    CountNone(base, PrimaryOf(pid));
    FirstWhereAppendHit(base, x, PrimaryOf(pid));
  }

  lemma AttachKeepsOnePrimary(s: seq<RefImage>, pid: nat, requested: bool, path: string)
    requires OnePrimaryEach(s) && ImageIdsDistinct(s)
    ensures OnePrimaryEach(Attach(s, pid, requested, path))
    ensures ImageIdsDistinct(Attach(s, pid, requested, path))
    ensures forall q: nat :: q != pid ==> ImageCount(Attach(s, pid, requested, path), q) == ImageCount(s, q)
  {
    var r := Attach(s, pid, requested, path);
    AttachCounts(s, pid, requested, path);
    AttachIdsDistinct(s, pid, requested, path);
    forall q: nat | ImageCount(r, q) > 0 ensures PrimaryCount(r, q) == 1 {
      if q == pid {
        AttachRules(s, pid, requested, path);
      }
    }
  }

  /** Attaching adds one image to its product, and changes no other product's counts. */
  lemma AttachCounts(s: seq<RefImage>, pid: nat, requested: bool, path: string)
    ensures var r := Attach(s, pid, requested, path);
            forall q: nat :: && ImageCount(r, q) == ImageCount(s, q) + (if q == pid then 1 else 0)
                             && (q != pid ==> PrimaryCount(r, q) == PrimaryCount(s, q))
  {
    var r := Attach(s, pid, requested, path);
    var base := if requested then Cleared(s, pid) else s;
    var x := r[|s|];
    assert r == base + [x];
    if requested {
      ClearedFlags(s, pid);
    }
    forall q: nat ensures ImageCount(r, q) == ImageCount(s, q) + (if q == pid then 1 else 0)
                          && (q != pid ==> PrimaryCount(r, q) == PrimaryCount(s, q)) {
      CountAppend(base, x, Of(q));
      CountAppend(base, x, PrimaryOf(q));
    }
  }

  /** The attached row gets an id no other row has. */
  lemma AttachIdsDistinct(s: seq<RefImage>, pid: nat, requested: bool, path: string)
    requires ImageIdsDistinct(s)
    ensures ImageIdsDistinct(Attach(s, pid, requested, path))
  {
    var r := Attach(s, pid, requested, path);
    var ids := ImageIds(s);
    assert forall j :: 0 <= j < |s| ==> r[j].id == ids[j];
    assert forall j :: 0 <= j < |s| ==> ids[j] < r[|s|].id;
  }

  /** Every row of the repathed table belongs to the product or to the owner of the
      row at the same position before. */
  lemma RepathedOwners(s: seq<RefImage>, pid: nat, path: string)
    requires OnePrimaryEach(s)
    ensures var r := Repathed(s, pid, path);
            forall k :: 0 <= k < |r| ==> r[k].productId == pid || (k < |s| && r[k].productId == s[k].productId)
  {
    RepathedRules(s, pid, path);
  }

  /** The `update` upload: with a primary image present only that row's path
      changes; without one exactly one new primary row is added. */
  lemma RepathedRules(s: seq<RefImage>, pid: nat, path: string)
    requires OnePrimaryEach(s)
    ensures var r := Repathed(s, pid, path);
            && (PrimaryCount(s, pid) > 0 ==>
                  |r| == |s| && exists k :: 0 <= k < |s| && s[k].productId == pid && s[k].isPrimary
                                       && r == s[k := s[k].(path := path)])
            && (PrimaryCount(s, pid) == 0 ==>
                  ImageCount(s, pid) == 0 && r == s + [RefImage(NextId(ImageIds(s)), pid, path, true)])
  {
    CountNone(s, PrimaryOf(pid));
    match FirstWhere(s, PrimaryOf(pid)) {
      case Some(k) =>
      case None =>
    }
  }

  lemma RepathedKeepsOnePrimary(s: seq<RefImage>, pid: nat, path: string)
    requires OnePrimaryEach(s) && ImageIdsDistinct(s)
    ensures OnePrimaryEach(Repathed(s, pid, path))
    ensures ImageIdsDistinct(Repathed(s, pid, path))
    ensures forall q: nat :: q != pid ==> ImageCount(Repathed(s, pid, path), q) == ImageCount(s, q)
  {
    var r := Repathed(s, pid, path);
    match FirstWhere(s, PrimaryOf(pid)) {
      case Some(k) =>
        forall q: nat ensures ImageCount(r, q) == ImageCount(s, q) && PrimaryCount(r, q) == PrimaryCount(s, q) {
          CountPointwise(r, s, Of(q), Of(q));
          CountPointwise(r, s, PrimaryOf(q), PrimaryOf(q));
        }
      case None =>
        var x := RefImage(NextId(ImageIds(s)), pid, path, true);
        CountNone(s, PrimaryOf(pid));
        forall q: nat ensures ImageCount(r, q) == ImageCount(s, q) + (if q == pid then 1 else 0)
                        && PrimaryCount(r, q) == PrimaryCount(s, q) + (if q == pid then 1 else 0) {
          CountAppend(s, x, Of(q));
          CountAppend(s, x, PrimaryOf(q));
        }
        assert forall j :: 0 <= j < |s| ==> s[j].id == ImageIds(s)[j];
    }
  }

  /** A product with at least two images has an image other than `s[k]`. */
  lemma OtherImageExists(s: seq<RefImage>, pid: nat, k: nat)
    requires ImageIdsDistinct(s)
    requires k < |s| && s[k].productId == pid && ImageCount(s, pid) >= 2
    ensures FirstWhere(s, OtherOf(pid, s[k].id)).Some?
  {
    var rest := s[..k] + s[k + 1..];
    CountRemove(s, k, Of(pid));
    var j := CountWitness(rest, Of(pid));
    var j' := if j < k then j else j + 1;
    assert s[j'] == rest[j];
    assert s[j'].id != s[k].id;
    assert OtherOf(pid, s[k].id)(s[j']);
  }

  /** Under the invariant a primary image is its product's only primary. */
  lemma OnlyPrimary(s: seq<RefImage>, k: nat, m: nat)
    requires OnePrimaryEach(s)
    requires k < |s| && m < |s| && m != k
    requires s[k].isPrimary && s[m].productId == s[k].productId
    ensures !s[m].isPrimary
  {
    var pid := s[k].productId;
    CountNone(s, Of(pid));
    assert PrimaryCount(s, pid) == 1;
    if s[m].isPrimary {
      CountTwo(s, k, m, PrimaryOf(pid));
    }
  }

  /** The image a deletion promotes: when the deleted image `s[k]` is its
      product's primary and the product has another image, the first other image
      exists and is not primary. */
  lemma PromotionTarget(s: seq<RefImage>, pid: nat, k: nat)
    requires OnePrimaryEach(s) && ImageIdsDistinct(s)
    requires k < |s| && s[k].productId == pid && s[k].isPrimary && ImageCount(s, pid) >= 2
    ensures FirstWhere(s, OtherOf(pid, s[k].id)).Some?
    ensures var m := FirstWhere(s, OtherOf(pid, s[k].id)).value;
            m != k && s[m].productId == pid && !s[m].isPrimary
  {
    OtherImageExists(s, pid, k);
    var m := FirstWhere(s, OtherOf(pid, s[k].id)).value;
    OnlyPrimary(s, k, m);
  }

  /** Setting the flag of a non-primary image `s[m]` adds one primary to its
      product and changes no other count. */
  lemma PromotionCounts(s: seq<RefImage>, m: nat)
    requires m < |s| && !s[m].isPrimary
    ensures var t := s[m := s[m].(isPrimary := true)];
            forall q: nat :: ImageCount(t, q) == ImageCount(s, q)
                          && PrimaryCount(t, q) == PrimaryCount(s, q) + (if q == s[m].productId then 1 else 0)
  {
    var x := s[m].(isPrimary := true);
    forall q: nat ensures ImageCount(s[m := x], q) == ImageCount(s, q)
                    && PrimaryCount(s[m := x], q) == PrimaryCount(s, q) + (if q == s[m].productId then 1 else 0) {
      CountUpdate(s, m, x, Of(q));
      CountUpdate(s, m, x, PrimaryOf(q));
    }
  }

  /** Removing row `t[k]` takes exactly its contribution off every count and keeps
      the ids distinct. */
  lemma RemovalCounts(t: seq<RefImage>, k: nat)
    requires k < |t| && ImageIdsDistinct(t)
    ensures var r := RemoveAt(t, k);
            && ImageIdsDistinct(r)
            && forall q: nat :: ImageCount(r, q) == ImageCount(t, q) - (if q == t[k].productId then 1 else 0)
                             && PrimaryCount(r, q) == PrimaryCount(t, q) - (if q == t[k].productId && t[k].isPrimary then 1 else 0)
  {
    var r := RemoveAt(t, k);
    forall q: nat ensures ImageCount(r, q) == ImageCount(t, q) - (if q == t[k].productId then 1 else 0)
                    && PrimaryCount(r, q) == PrimaryCount(t, q) - (if q == t[k].productId && t[k].isPrimary then 1 else 0) {
      CountRemove(t, k, Of(q));
      CountRemove(t, k, PrimaryOf(q));
    }
    forall a, b | 0 <= a < b < |r| ensures r[a].id != r[b].id {
      var a' := if a < k then a else a + 1;
      var b' := if b < k then b else b + 1;
      assert r[a] == t[a'] && r[b] == t[b'];
    }
  }

  /** Deleting image `s[k]` of product `pid`, which has at least two images: a
      primary image hands its flag to the first other image of the product, so the
      product keeps exactly one primary; only the deleted row and at most one
      promoted row change. */
  lemma DeletionKeepsOnePrimary(s: seq<RefImage>, pid: nat, k: nat)
    requires OnePrimaryEach(s) && ImageIdsDistinct(s)
    requires k < |s| && s[k].productId == pid && ImageCount(s, pid) >= 2
    ensures var t := if s[k].isPrimary then Promoted(s, pid, s[k].id) else s;
            var r := RemoveAt(t, k);
            && |t| == |s|
            && t[k] == s[k]
            && OnePrimaryEach(r)
            && ImageIdsDistinct(r)
            && ImageCount(r, pid) == ImageCount(s, pid) - 1
            && (forall q: nat :: q != pid ==> ImageCount(r, q) == ImageCount(s, q))
            && (forall j :: 0 <= j < |s| && t[j] != s[j] ==>
                  j != k && s[k].isPrimary && t[j] == s[j].(isPrimary := true)
                  && j == FirstWhere(s, OtherOf(pid, s[k].id)).value)
  {
    var t := if s[k].isPrimary then Promoted(s, pid, s[k].id) else s;
    if s[k].isPrimary {
      PromotionTarget(s, pid, k);
      var m := FirstWhere(s, OtherOf(pid, s[k].id)).value;
      PromotionCounts(s, m);
      assert t == s[m := s[m].(isPrimary := true)];
      assert forall j :: 0 <= j < |s| && j != m ==> t[j] == s[j];
    }
    assert forall j :: 0 <= j < |s| ==> t[j].id == s[j].id;
    RemovalCounts(t, k);
  }
}
