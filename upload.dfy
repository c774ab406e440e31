/** The upload allow-list `allowed_file`, written identically in the inspection,
    product and API routes, and the name under which an accepted upload is stored. */
module Upload {

  import opened Wrappers
  import opened Text

  const AllowedExtensions: set<string> := {"png", "jpg", "jpeg", "gif"}

  /** `s.rsplit('.', 1)[1]`: the text after the last '.', or None when `s` has no '.'. */
  function Extension(s: string): (r: Option<string>)
    ensures r.None? <==> '.' !in s
    ensures r.Some? ==> '.' !in r.value && |r.value| < |s|
    ensures r.Some? ==> s == s[..|s| - |r.value| - 1] + "." + r.value
  {
    if s == [] then None
    else if s[|s| - 1] == '.' then Some([])
    else
      match Extension(s[..|s| - 1])
      case None => None
      case Some(e) =>
        assert s == s[..|s| - 1] + [s[|s| - 1]];
        Some(e + [s[|s| - 1]])
  }

  /** Whatever precedes the last '.', the extension is the dot-free text after it. */
  lemma {:induction false} ExtensionOfJoin(p: string, e: string)
    requires '.' !in e
    ensures Extension(p + "." + e) == Some(e)
  {
    var s := p + "." + e;
    if e != [] {
      var e' := e[..|e| - 1];
      assert s[..|s| - 1] == p + "." + e';
      assert e == e' + [e[|e| - 1]];
      ExtensionOfJoin(p, e');
    }
  }

  /** `allowed_file(filename)`. */
  predicate AllowedFile(filename: string)
  {
    match Extension(filename)
    case None => false
    case Some(e) => Lower(e) in AllowedExtensions
  }

  /** A name is accepted exactly when the text after its last '.' is, up to case,
      one of png, jpg, jpeg, gif. */
  lemma AllowedFileIff(p: string, e: string)
    requires '.' !in e
    ensures AllowedFile(p + "." + e) <==> Lower(e) in AllowedExtensions
  {
    ExtensionOfJoin(p, e);
  }

  lemma AllowedFileNeedsDot(filename: string)
    requires '.' !in filename
    ensures !AllowedFile(filename)
  {
  }

  /** Only the last extension counts: "a.exe.png" is accepted ... */
  lemma InnerExtensionIgnored()
    ensures AllowedFile("a.exe.png")
  {
    assert "a.exe.png" == "a.exe" + "." + "png";
    AllowedFileIff("a.exe", "png");
    assert Lower("png") == "png";
  }

  /** ... and "a.png.exe" is not. */
  lemma LastExtensionDecides()
    ensures !AllowedFile("a.png.exe")
  {
    assert "a.png.exe" == "a.png" + "." + "exe";
    AllowedFileIff("a.png", "exe");
    assert Lower("exe") == "exe";
    assert "exe" != "png" && "exe" != "jpg" && "exe" != "jpeg" && "exe" != "gif";
  }

  /** A trailing '.' leaves an empty extension, which is rejected. */
  lemma TrailingDotRejected(p: string)
    ensures !AllowedFile(p + ".")
  {
    assert p + "." == p + "." + [];
    AllowedFileIff(p, []);
  }

  /** The extension is compared after lower-casing: "board.JPEG" is accepted. */
  lemma UpperCaseExtensionAccepted()
    ensures AllowedFile("board.JPEG")
  {
    assert "board.JPEG" == "board" + "." + "JPEG";
    AllowedFileIff("board", "JPEG");
    assert Lower("JPEG") == "jpeg";
  }

  /** `str(uuid4()) + '.' + filename.rsplit('.', 1)[1].lower()`: the stored file name. */
  function StoredName(token: string, filename: string): string
    requires '.' in filename
  {
    token + "." + Lower(Extension(filename).value)
  }

  /** The stored name keeps the upload's extension, lower-cased, and is itself accepted. */
  lemma StoredNameAllowed(token: string, filename: string)
    requires '.' !in token
    requires AllowedFile(filename)
    ensures Extension(StoredName(token, filename)) == Some(Lower(Extension(filename).value))
    ensures AllowedFile(StoredName(token, filename))
  {
    var e := Extension(filename).value;
    ExtensionOfJoin(token, Lower(e));
    LowerIdempotent(e);
  }

  /** A file part of a multipart request: absent, or present with the name of
      the chosen file (the empty name when none was chosen). */
  datatype FilePart = NoPart | Part(filename: string)

  /** `file and file.filename and allowed_file(file.filename)`. */
  predicate Accepted(f: FilePart)
  {
    f.Part? && f.filename != "" && AllowedFile(f.filename)
  }

  /** Where the product routes record an accepted reference image, relative to
      the static folder. */
  function ProductImagePath(token: string, filename: string): string
    requires AllowedFile(filename)
  {
    "images/products/" + StoredName(token, filename)
  }
}
