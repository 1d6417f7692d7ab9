/**
 * Materials and the repository listing (`fetchGitHubContents` and
 * `loadMaterials` in app.js).  The remote content listing is replaced by the
 * tree it describes: a directory entry carries its own listing, so the
 * recursive walk is a walk over an in-memory tree.
 */
module Materials {
  import opened Text
  import opened PathLabels

  /** The `type` of a material: rendered with PDF.js or shown as an image. */
  datatype Kind = Pdf | Image

  /** One viewable file with the labels derived from its path. */
  datatype Material = Material(
    name: string,
    path: string,
    downloadUrl: string,
    kind: Kind,
    classLabel: string,
    yearLabel: string)

  /** An item of a directory listing; `OtherItem` stands for any type besides `dir` and `file`. */
  datatype Entry =
    | Dir(name: string, contents: seq<Entry>)
    | File(name: string, path: string, downloadUrl: string)
    | OtherItem(name: string)

  /** The extensions that make a file a material. */
  const AllowedExtensions: seq<string> := ["pdf", "jpg", "jpeg", "png", "gif", "webp"]

  // ---------------------------------------------------------------------
  // Classification of one file
  // ---------------------------------------------------------------------

  /**
   * `name.split('.').pop()`: the text after the last dot, or the whole name
   * when it has no dot.
   */
  function RawExtension(name: string): (e: string)
    ensures '.' !in e
  {
    var parts := Split(name, '.');
    SplitIsPieces(name, '.');
    parts[|parts| - 1]
  }

  /**
   * The raw extension is a suffix of the name, and it is either the whole
   * name or preceded by the last dot.
   */
  lemma RawExtensionIsLastPiece(name: string)
    ensures var e := RawExtension(name);
      && |e| <= |name| && name[|name| - |e|..] == e
      && (|e| == |name| || name[|name| - |e| - 1] == '.')
  {
    SplitIsPieces(name, '.');
    JoinEndsWithLast(Split(name, '.'), '.');
  }

  /** The extension as the listing compares it: lower-cased, so it holds no dot either. */
  function FileExtension(name: string): (ext: string)
    ensures '.' !in ext
  {
    var ext := Lower(RawExtension(name));
    assert forall i :: 0 <= i < |ext| ==> ext[i] != '.';
    ext
  }

  /**
   * The material a listed file becomes: only files with an allowed
   * extension do; `pdf` gives a PDF and every other allowed extension an
   * image; the labels come from the slash-separated segments of its path.
   */
  function MakeMaterial(name: string, path: string, downloadUrl: string): (r: Option<Material>)
    ensures r.Some? <==> FileExtension(name) in AllowedExtensions
    ensures r.Some? ==> r.value.name == name && r.value.path == path && r.value.downloadUrl == downloadUrl
    ensures r.Some? ==> (r.value.kind == Pdf <==> FileExtension(name) == "pdf")
    ensures r.Some? ==> r.value.classLabel != "" && r.value.classLabel == ExtractClass(Split(path, '/'))
    ensures r.Some? ==> r.value.yearLabel == ExtractYear(Split(path, '/'))
  {
    var ext := FileExtension(name);
    if ext in AllowedExtensions then
      var parts := Split(path, '/');
      Some(Material(name, path, downloadUrl, if ext == "pdf" then Pdf else Image,
                    ExtractClass(parts), ExtractYear(parts)))
    else
      None
  }

  /** A name with exactly one dot has the text after it as its extension. */
  lemma ExtensionAfterDot(base: string, ext: string)
    requires '.' !in base && '.' !in ext
    ensures RawExtension(base + "." + ext) == ext
  {
    var parts := [base, ext];
    assert Join(parts, '.') == base + "." + ext;
    SplitJoin(parts, '.');
  }

  /**
   * A name that ends with a dot and a dot-free, lower-case extension has
   * that extension, whatever dots come before.
   */
  lemma ExtensionOfSuffix(name: string, ext: string)
    requires |ext| < |name| && name[|name| - |ext| - 1..] == "." + ext
    requires '.' !in ext && Lower(ext) == ext
    ensures FileExtension(name) == ext
  {
    RawExtensionIsLastPiece(name);
    var e := RawExtension(name);
    var n := |name|;
    assert name[n - |ext| - 1] == '.';
    if |e| != |ext| {
      assert false;
    }
    assert e == name[n - |ext|..];
    assert name[n - |ext|..] == ext;
  }

  /** The extensions of the two example names. */
  lemma KnownExtension(name: string, ext: string)
    requires (name == "paper1.pdf" && ext == "pdf") || (name == "file.png" && ext == "png")
    ensures FileExtension(name) == ext
  {
    assert Lower(ext) == ext;
    assert name[|name| - |ext| - 1..] == "." + ext;
    ExtensionOfSuffix(name, ext);
  }

  /** The scenario "class_7/2023/paper1.pdf": a PDF of class "Class 7" and year "2023". */
  lemma ClassSevenPaperScenario(name: string, path: string, url: string)
    requires name == "paper1.pdf" && path == "class_7/2023/paper1.pdf"
    ensures MakeMaterial(name, path, url) == Some(Material(name, path, url, Pdf, "Class 7", "2023"))
  {
    ClassSevenPath(path);
    ClassSevenSegment();
    ClassSevenYear();
    KnownExtension(name, "pdf");
  }

  lemma ClassSevenPath(path: string)
    requires path == "class_7/2023/paper1.pdf"
    ensures Split(path, '/') == ["class_7", "2023", "paper1.pdf"]
  {
    var parts := ["class_7", "2023", "paper1.pdf"];
    assert Join(parts[2..], '/') == "paper1.pdf";
    assert Join(parts[1..], '/') == "2023/paper1.pdf";
    assert Join(parts, '/') == path;
    SplitJoin(parts, '/');
  }

  /** The segment "class_7" matches the class pattern with capture "7". */
  lemma ClassSevenSegment()
    ensures ExtractClass(["class_7", "2023", "paper1.pdf"]) == "Class 7"
  {
    ClassSevenCapture("class_7");
  }

  lemma ClassSevenCapture(s: string)
    requires s == "class_7"
    ensures FindClass(s).Some? && ClassCapture(s) == "7"
  {
    assert Lower(s[0..5]) == "class";
    assert ClassMatchAt(s, 0, 6, 7);
    CaptureOfLeftmost(s, 0, 6, 7);
    assert s[6..7] == "7";
  }

  lemma ClassSevenYear()
    ensures ExtractYear(["class_7", "2023", "paper1.pdf"]) == "2023"
  {
    SecondSegmentYear("class_7", "2023", "paper1.pdf");
  }

  /** "2023" is the first segment with a year when the segment before it has none. */
  lemma SecondSegmentYear(a: string, b: string, c: string)
    requires a == "class_7" && b == "2023"
    ensures ExtractYear([a, b, c]) == "2023"
  {
    var parts := [a, b, c];
    NoDigitNoYear(a);
    assert YearAt(b, 0);
    assert FindYear(b) == Some(0);
    assert parts[0] == a && parts[1] == b;
    assert FirstYearSegment(parts, 1) == Some(1);
    assert FirstYearSegment(parts, 0) == Some(1);
    assert b[0..4] == b;
  }


  /** The scenario "Unsorted/file.png": an image labelled "Unsorted" with year "Unknown". */
  lemma UnsortedImageScenario(name: string, path: string, url: string)
    requires name == "file.png" && path == "Unsorted/file.png"
    ensures MakeMaterial(name, path, url) == Some(Material(name, path, url, Image, "Unsorted", "Unknown"))
  {
    UnsortedPath(path);
    UnsortedLabels();
    KnownExtension(name, "png");
  }

  lemma UnsortedPath(path: string)
    requires path == "Unsorted/file.png"
    ensures Split(path, '/') == ["Unsorted", "file.png"]
  {
    var parts := ["Unsorted", "file.png"];
    assert Join(parts[1..], '/') == "file.png";
    assert Join(parts, '/') == path;
    SplitJoin(parts, '/');
  }

  lemma UnsortedLabels()
    ensures ExtractClass(["Unsorted", "file.png"]) == "Unsorted"
    ensures ExtractYear(["Unsorted", "file.png"]) == "Unknown"
  {
    UnsortedClass("Unsorted", "file.png");
    UnsortedYear("Unsorted", "file.png");
  }

  lemma UnsortedClass(a: string, b: string)
    requires a == "Unsorted" && b == "file.png"
    ensures ExtractClass([a, b]) == a
  {
    NoKeywordNoClassMatch(a);
    NoKeywordNoClassMatch(b);
  }

  lemma UnsortedYear(a: string, b: string)
    requires a == "Unsorted" && b == "file.png"
    ensures ExtractYear([a, b]) == "Unknown"
  {
    NoDigitNoYear(a);
    NoDigitNoYear(b);
  }

  /** A segment without the digit 2 has no year. */
  lemma NoDigitNoYear(s: string)
    requires '2' !in s
    ensures FindYear(s).None?
  {
    FindYearIsLeftmost(s);
  }


  /** A segment with no `c` or `g` where a keyword could start has no class match. */
  lemma NoKeywordNoClassMatch(s: string)
    requires forall i :: 0 <= i && i + 5 <= |s| ==> LowerChar(s[i]) != 'c' && LowerChar(s[i]) != 'g'
    ensures FindClass(s).None?
  {
    forall st: nat, f: nat, t: nat ensures !ClassMatchAt(s, st, f, t) {
      if st + 5 <= |s| {
        assert Lower(s[st..st + 5])[0] == LowerChar(s[st]);
      }
    }
    FindClassIsLeftmost(s);
  }

  // ---------------------------------------------------------------------
  // The recursive listing
  // ---------------------------------------------------------------------

  /**
   * The materials of a listing, depth first and in listing order, as
   * `fetchGitHubContents` collects them: at most one for each file of the tree.
   */
  function Listing(contents: seq<Entry>): (ms: seq<Material>)
    ensures |ms| <= |Files(contents)|
    decreases contents
  {
    if contents == [] then []
    else
      (match contents[0]
       case Dir(_, children) => Listing(children)
       case File(name, path, url) =>
         (match MakeMaterial(name, path, url) case Some(m) => [m] case None => [])
       case OtherItem(_) => [])
      + Listing(contents[1..])
  }

  /** Every file of a listing, depth first and in listing order, whatever its extension. */
  function Files(contents: seq<Entry>): (fs: seq<Entry>)
    ensures forall i :: 0 <= i < |fs| ==> fs[i].File?
    decreases contents
  {
    if contents == [] then []
    else
      (match contents[0]
       case Dir(_, children) => Files(children)
       case File(_, _, _) => [contents[0]]
       case OtherItem(_) => [])
      + Files(contents[1..])
  }

  /** The material of one listed file, if it has one; an item that is not a file has none. */
  function FileMaterials(f: Entry): seq<Material>
  {
    match f
    case File(name, path, url) =>
      (match MakeMaterial(name, path, url) case Some(m) => [m] case None => [])
    case _ => []
  }

  /** The materials made from a sequence of files, in order, one for each file with an allowed extension. */
  function MaterialsOf(files: seq<Entry>): seq<Material>
  {
    FlatMap(files, FileMaterials)
  }

  /**
   * Exactly the files with an allowed extension contribute: every material
   * comes from one of the files, every allowed file gives its material, and
   * there are none exactly when no file has an allowed extension.
   */
  lemma {:induction false} MaterialsOfExactly(files: seq<Entry>)
    requires forall i :: 0 <= i < |files| ==> files[i].File?
    ensures forall m :: m in MaterialsOf(files) ==>
              exists f :: f in files && MakeMaterial(f.name, f.path, f.downloadUrl) == Some(m)
    ensures forall f :: f in files && FileExtension(f.name) in AllowedExtensions ==>
              MakeMaterial(f.name, f.path, f.downloadUrl).value in MaterialsOf(files)
    ensures MaterialsOf(files) == [] <==>
              forall f :: f in files ==> FileExtension(f.name) !in AllowedExtensions
    decreases |files|
  {
    if files != [] {
      var f := files[0];
      MaterialsOfExactly(files[1..]);
      assert forall g :: g in files <==> g == f || g in files[1..];
    }
  }

  /** Classifying a concatenation classifies each part. */
  lemma MaterialsOfAppend(a: seq<Entry>, b: seq<Entry>)
    ensures MaterialsOf(a + b) == MaterialsOf(a) + MaterialsOf(b)
  {
    FlatMapAppend(a, b, FileMaterials);
  }

  /**
   * The listing is the files of the tree, depth first, each classified on
   * its own: walking and classifying can be separated.
   */
  lemma {:induction false} ListingFlattensFiles(contents: seq<Entry>)
    ensures Listing(contents) == MaterialsOf(Files(contents))
    decreases contents
  {
    if contents != [] {
      var first := match contents[0]
        case Dir(_, children) => Files(children)
        case File(_, _, _) => [contents[0]]
        case OtherItem(_) => [];
      MaterialsOfAppend(first, Files(contents[1..]));
      ListingFlattensFiles(contents[1..]);
      match contents[0]
      case Dir(_, children) =>
        ListingFlattensFiles(children);
      case File(name, path, url) =>
        assert [contents[0]][1..] == [];
        assert MaterialsOf([contents[0]]) == FileMaterials(contents[0]) + FlatMap([], FileMaterials);
      case OtherItem(_) =>
    }
  }

  lemma {:induction false} ListingAppend(a: seq<Entry>, b: seq<Entry>)
    ensures Listing(a + b) == Listing(a) + Listing(b)
    decreases |a|
  {
    if a != [] {
      assert (a + b)[0] == a[0] && (a + b)[1..] == a[1..] + b;
      ListingAppend(a[1..], b);
    } else {
      assert a + b == b;
    }
  }

  /** Extending a prefix of a listing by one item extends its materials by that item's. */
  lemma ListingPrefixStep(contents: seq<Entry>, i: nat)
    requires i < |contents|
    ensures Listing(contents[..i + 1]) == Listing(contents[..i]) + Listing([contents[i]])
  {
    assert contents[..i + 1] == contents[..i] + [contents[i]];
    ListingAppend(contents[..i], [contents[i]]);
  }

  /** Every material of a listing is an allowed file of the tree, and every allowed file is listed. */
  lemma ListingSoundAndComplete(contents: seq<Entry>)
    ensures forall m :: m in Listing(contents) ==>
              FileExtension(m.name) in AllowedExtensions && m.classLabel != ""
              && exists f :: f in Files(contents) && MakeMaterial(f.name, f.path, f.downloadUrl) == Some(m)
    ensures forall f :: f in Files(contents) && FileExtension(f.name) in AllowedExtensions ==>
              MakeMaterial(f.name, f.path, f.downloadUrl).value in Listing(contents)
  {
    ListingFlattensFiles(contents);
    MaterialsOfExactly(Files(contents));
  }

  // ---------------------------------------------------------------------
  // The catalog: allMaterials and the label sets behind the dropdowns
  // ---------------------------------------------------------------------

  /** The class labels of some materials. */
  function ClassLabels(ms: seq<Material>): set<string>
  {
    if ms == [] then {} else {ms[0].classLabel} + ClassLabels(ms[1..])
  }

  /** The year labels of some materials. */
  function YearLabels(ms: seq<Material>): set<string>
  {
    if ms == [] then {} else {ms[0].yearLabel} + YearLabels(ms[1..])
  }

  lemma {:induction false} LabelsAppend(a: seq<Material>, b: seq<Material>)
    ensures ClassLabels(a + b) == ClassLabels(a) + ClassLabels(b)
    ensures YearLabels(a + b) == YearLabels(a) + YearLabels(b)
    decreases |a|
  {
    if a == [] {
      assert a + b == b;
    } else {
      assert (a + b)[0] == a[0] && (a + b)[1..] == a[1..] + b;
      LabelsAppend(a[1..], b);
    }
  }

  /** A label is in the set exactly when some material carries it. */
  lemma {:induction false} LabelsAreCarried(ms: seq<Material>)
    ensures forall l :: l in ClassLabels(ms) <==> exists m :: m in ms && m.classLabel == l
    ensures forall l :: l in YearLabels(ms) <==> exists m :: m in ms && m.yearLabel == l
    decreases |ms|
  {
    if ms != [] {
      LabelsAreCarried(ms[1..]);
      assert forall m :: m in ms <==> m == ms[0] || m in ms[1..];
    }
  }

  /** The configuration `loadMaterials` checks before listing. */
  datatype Config = Config(githubUsername: string, repositoryName: string)

  datatype LoadError = MissingConfiguration

  /** The application state that the listing fills: `allMaterials`, `classes` and `years`. */
  class Catalog {
    var allMaterials: seq<Material>
    var classes: set<string>
    var years: set<string>

    constructor ()
      ensures allMaterials == [] && classes == {} && years == {}
    {
      allMaterials := [];
      classes := {};
      years := {};
    }

    /**
     * `fetchGitHubContents`: walks a listing depth first, returns its
     * materials and adds their labels to the two sets.
     */
    method FetchContents(contents: seq<Entry>) returns (materials: seq<Material>)
      modifies this`classes, this`years
      ensures materials == Listing(contents)
      ensures classes == old(classes) + ClassLabels(materials)
      ensures years == old(years) + YearLabels(materials)
      decreases contents
    {
      materials := [];
      var i := 0;
      while i < |contents|
        invariant 0 <= i <= |contents|
        invariant materials == Listing(contents[..i])
        invariant classes == old(classes) + ClassLabels(materials)
        invariant years == old(years) + YearLabels(materials)
      {
        var found := FetchItem(contents[i]);
        LabelsAppend(materials, found);
        ListingPrefixStep(contents, i);
        materials := materials + found;
        i := i + 1;
      }
      assert contents[..i] == contents;
    }

    /**
     * One item of a listing: a directory is walked, a file with an allowed
     * extension becomes a material whose labels join the two sets, and
     * anything else is skipped.
     */
    method FetchItem(item: Entry) returns (found: seq<Material>)
      modifies this`classes, this`years
      ensures found == Listing([item])
      ensures classes == old(classes) + ClassLabels(found)
      ensures years == old(years) + YearLabels(found)
      decreases item
    {
      found := [];
      match item {
        case Dir(_, children) =>
          found := FetchContents(children);
        case File(name, path, url) =>
          var made := MakeMaterial(name, path, url);
          if made.Some? {
            var material := made.value;
            found := [material];
            if material.classLabel != "" {
              classes := classes + {material.classLabel};
            }
            if material.yearLabel != "" {
              years := years + {material.yearLabel};
            }
          }
        case OtherItem(_) =>
      }
    }

    /**
     * `loadMaterials`: fails without touching the state when the user name
     * or repository name is missing; otherwise replaces `allMaterials` with
     * the listing of the configured directory.
     */
    method LoadMaterials(config: Config, root: seq<Entry>) returns (error: Option<LoadError>)
      modifies this
      ensures error.Some? <==> config.githubUsername == "" || config.repositoryName == ""
      ensures error.Some? ==>
                allMaterials == old(allMaterials) && classes == old(classes) && years == old(years)
      ensures error.None? ==>
                && allMaterials == Listing(root)
                && classes == old(classes) + ClassLabels(allMaterials)
                && years == old(years) + YearLabels(allMaterials)
    {
      if config.githubUsername == "" || config.repositoryName == "" {
        return Some(MissingConfiguration);
      }
      var materials := FetchContents(root);
      allMaterials := materials;
      error := None;
    }

    /**
     * The refresh button: clears the list and both sets, then loads again.
     * Afterwards the sets hold exactly the labels of the listed materials.
     */
    method Refresh(config: Config, root: seq<Entry>) returns (error: Option<LoadError>)
      modifies this
      ensures error.Some? <==> config.githubUsername == "" || config.repositoryName == ""
      ensures allMaterials == (if error.Some? then [] else Listing(root))
      ensures classes == ClassLabels(allMaterials) && years == YearLabels(allMaterials)
      ensures "" !in classes
    {
      allMaterials := [];
      classes := {};
      years := {};
      error := LoadMaterials(config, root);
      if error.None? {
        assert "" !in ClassLabels(allMaterials) by {
          ListingSoundAndComplete(root);
          LabelsAreCarried(allMaterials);
        }
      }
    }
  }

  /** A second refresh with the same configuration and tree leaves what the first one showed. */
  method RefreshIsIdempotent(config: Config, root: seq<Entry>)
    returns (first: seq<Material>, second: seq<Material>, firstClasses: set<string>, secondClasses: set<string>)
    ensures first == second && firstClasses == secondClasses
    ensures config.githubUsername != "" && config.repositoryName != "" ==> second == Listing(root)
  {
    var c := new Catalog();
    var e1 := c.Refresh(config, root);
    first, firstClasses := c.allMaterials, c.classes;
    var e2 := c.Refresh(config, root);
    second, secondClasses := c.allMaterials, c.classes;
  }
}
