/**
 * The two server routes the viewer's logic depends on: `/api/check-images/:id`,
 * which probes three image directories for `id` under a fixed list of extensions,
 * and `/api/carcass/:id`, which answers 404 when no row has the identifier.
 * The filesystem is the set of paths that exist; the table is a sequence of rows.
 */
module Server {
  import opened Js

  /** The three image categories, keyed `raw`, `orig` and `new` in the JSON response. */
  datatype Category = Raw | Orig | New

  /** The directory under `public/images` that holds each category. */
  function Dir(c: Category): string
  {
    match c
    case Raw => "original_images"
    case Orig => "legacy_images"
    case New => "processed_images"
  }

  /** Extensions in the order they are probed. */
  const Extensions: seq<string> := [".png", ".jpg", ".jpeg", ".bmp", ".webp"]

  /** The result of one probe; `found` is the `exists` field of the source. */
  datatype Probe = Probe(found: bool, path: Option<string>, extension: Option<string>)

  /** `basePath + Extensions[k]` is the first candidate that exists. */
  predicate FirstExisting(files: set<string>, basePath: string, k: int)
  {
    && 0 <= k < |Extensions|
    && basePath + Extensions[k] in files
    && forall m :: 0 <= m < k ==> basePath + Extensions[m] !in files
  }

  predicate AnyExisting(files: set<string>, basePath: string)
  {
    exists k :: 0 <= k < |Extensions| && basePath + Extensions[k] in files
  }

  /** What a correct probe of `basePath` reports. */
  predicate ProbeReports(files: set<string>, basePath: string, r: Probe)
  {
    && (r.found <==> AnyExisting(files, basePath))
    && (r.found ==> exists k :: 0 <= k < |Extensions| && FirstExisting(files, basePath, k)
                      && r.path == Some(basePath + Extensions[k]) && r.extension == Some(Extensions[k]))
    && (!r.found ==> r == Probe(false, None, None))
  }

  /** `checkFileWithExtensions(basePath)`: the first extension whose file exists wins. */
  method CheckFileWithExtensions(files: set<string>, basePath: string) returns (r: Probe)
    ensures ProbeReports(files, basePath, r)
  {
    for k := 0 to |Extensions|
      invariant forall m :: 0 <= m < k ==> basePath + Extensions[m] !in files
    {
      var fullPath := basePath + Extensions[k];
      if fullPath in files {
        assert FirstExisting(files, basePath, k);
        return Probe(true, Some(fullPath), Some(Extensions[k]));
      }
    }
    return Probe(false, None, None);
  }

  /** At most one extension is the first existing one, so a probe's report is determined. */
  lemma FirstExistingUnique(files: set<string>, basePath: string, k1: int, k2: int)
    requires FirstExisting(files, basePath, k1) && FirstExisting(files, basePath, k2)
    ensures k1 == k2
  {
  }

  lemma ProbeReportsUnique(files: set<string>, basePath: string, r1: Probe, r2: Probe)
    requires ProbeReports(files, basePath, r1) && ProbeReports(files, basePath, r2)
    ensures r1 == r2
  {
    if r1.found {
      var k1 :| FirstExisting(files, basePath, k1)
        && r1.path == Some(basePath + Extensions[k1]) && r1.extension == Some(Extensions[k1]);
      var k2 :| FirstExisting(files, basePath, k2)
        && r2.path == Some(basePath + Extensions[k2]) && r2.extension == Some(Extensions[k2]);
      FirstExistingUnique(files, basePath, k1, k2);
    }
  }

  /** When both `123.png` and `123.jpg` exist, `.png` is reported. */
  method PngPreferredOverJpg(dir: string) returns (r: Probe)
    ensures r == Probe(true, Some(dir + "/123.png"), Some(".png"))
  {
    var base := dir + "/123";
    assert base + ".png" == dir + "/123.png";
    r := CheckFileWithExtensions({base + ".png", base + ".jpg"}, base);
    assert FirstExisting({base + ".png", base + ".jpg"}, base, 0);
    ghost var k :| FirstExisting({base + ".png", base + ".jpg"}, base, k)
      && r.path == Some(base + Extensions[k]) && r.extension == Some(Extensions[k]);
    FirstExistingUnique({base + ".png", base + ".jpg"}, base, k, 0);
  }

  /** With no file for `999` in any extension the probe reports absence, not an error. */
  method MissingImageIsAbsent(files: set<string>, base: string) returns (r: Probe)
    requires forall e :: e in Extensions ==> base + e !in files
    ensures r == Probe(false, None, None)
  {
    r := CheckFileWithExtensions(files, base);
  }

  // ---------------------------------------------------------------------------
  // The `images` response

  datatype ImagePaths = ImagePaths(raw: Option<string>, orig: Option<string>, newImage: Option<string>)

  /** `{raw, orig, new, paths}`; `newImage` stands for the key `new`, a Dafny keyword. */
  datatype ImageAvailability = ImageAvailability(raw: bool, orig: bool, newImage: bool, paths: ImagePaths)
  {
    predicate Available(c: Category)
    {
      match c
      case Raw => raw
      case Orig => orig
      case New => newImage
    }

    function PathOf(c: Category): Option<string>
    {
      match c
      case Raw => paths.raw
      case Orig => paths.orig
      case New => paths.newImage
    }
  }

  /** `path.join(root, dir, id)` without normalisation. */
  function BasePath(imagesRoot: string, c: Category, id: string): string
  {
    imagesRoot + "/" + Dir(c) + "/" + id
  }

  /** The response for one category, as the route derives it from that category's probe. */
  predicate CategoryReport(images: ImageAvailability, c: Category, files: set<string>, imagesRoot: string, id: string)
  {
    var base := BasePath(imagesRoot, c, id);
    && (images.Available(c) <==> AnyExisting(files, base))
    && (images.Available(c) <==> images.PathOf(c).Some?)
    && (images.Available(c) ==> exists k :: 0 <= k < |Extensions| && FirstExisting(files, base, k) && images.PathOf(c) == Some(id + Extensions[k]))
  }

  /** `result.exists ? id + result.extension : null`. */
  function PathFor(id: string, r: Probe): Option<string>
    requires r.found ==> r.extension.Some?
  {
    if r.found then Some(id + r.extension.value) else None
  }

  /** The body of `/api/check-images/:id`: three independent probes and the response built from them. */
  method CheckImages(files: set<string>, imagesRoot: string, id: string) returns (images: ImageAvailability)
    ensures CategoryReport(images, Raw, files, imagesRoot, id)
    ensures CategoryReport(images, Orig, files, imagesRoot, id)
    ensures CategoryReport(images, New, files, imagesRoot, id)
  {
    var rawResult := CheckFileWithExtensions(files, BasePath(imagesRoot, Raw, id));
    var origResult := CheckFileWithExtensions(files, BasePath(imagesRoot, Orig, id));
    var newResult := CheckFileWithExtensions(files, BasePath(imagesRoot, New, id));
    images := ImageAvailability(
      rawResult.found, origResult.found, newResult.found,
      ImagePaths(PathFor(id, rawResult), PathFor(id, origResult), PathFor(id, newResult)));
  }

  // ---------------------------------------------------------------------------
  // `/api/carcass/:id`

  predicate HasId(row: Record, id: Value)
  {
    "carcass_id" in row && row["carcass_id"] == id
  }

  /** `SELECT * FROM carcass_analysis WHERE carcass_id = $1`, in table order. */
  function SelectById(rows: seq<Record>, id: Value): (r: seq<Record>)
    ensures r == [] <==> forall i :: 0 <= i < |rows| ==> !HasId(rows[i], id)
    ensures r != [] ==> exists i :: 0 <= i < |rows| && rows[i] == r[0] && HasId(rows[i], id)
                           && forall j :: 0 <= j < i ==> !HasId(rows[j], id)
    ensures forall x :: x in r ==> x in rows && HasId(x, id)
  {
    if rows == [] then []
    else
      var rest := SelectById(rows[1..], id);
      if HasId(rows[0], id) then [rows[0]] + rest
      else
        assert forall i :: 1 <= i < |rows| ==> rows[i] == rows[1..][i - 1];
        rest
  }

  datatype DetailResponse = NotFound | Found(row: Record)

  /** The route's answer: 404 on no rows, otherwise the first row returned. */
  function CarcassDetail(rows: seq<Record>, id: Value): (r: DetailResponse)
    ensures r.NotFound? <==> forall i :: 0 <= i < |rows| ==> !HasId(rows[i], id)
    ensures r.Found? ==> exists i :: 0 <= i < |rows| && rows[i] == r.row && HasId(r.row, id)
                           && forall j :: 0 <= j < i ==> !HasId(rows[j], id)
  {
    var result := SelectById(rows, id);
    if |result| == 0 then NotFound else Found(result[0])
  }
}
