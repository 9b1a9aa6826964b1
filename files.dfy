/**
 * The image-file module of simpleocr: resolving a partial file name to an
 * image or ground file, the ground-truth records, and the `Image` and
 * `ImageFile` objects that own at most one ground truth each.
 */
module Files {
  import opened Wrappers
  import opened OsPath

  const ImageExtensions: seq<string> := [".png", ".tif", ".jpg", ".jpeg"]

  /** The directory of bundled sample data.  It is where the package is
      installed; the model fixes one absolute location for it. */
  const DataDirectory: Path := "/usr/share/simpleocr/data"

  const GroundExtensions: seq<string> := [".box"]
  const GroundExtensionDefault: string := GroundExtensions[0]

  // ---------------------------------------------------------------------
  // Path resolution
  // ---------------------------------------------------------------------

  /** `i` is the position of the first suffix in `suffixes` whose
      completion `path + suffixes[i]` exists. */
  ghost predicate FirstMatch(entries: set<Path>, cwd: Path, path: Path, suffixes: seq<string>, i: int) {
    && 0 <= i < |suffixes|
    && PathExists(entries, cwd, path + suffixes[i])
    && forall j :: 0 <= j < i ==> !PathExists(entries, cwd, path + suffixes[j])
  }

  /** The loop of `try_extensions`: tries `path + s` for each suffix `s` in
      order and returns the first completion that exists. */
  function FirstExisting(entries: set<Path>, cwd: Path, path: Path, suffixes: seq<string>): (r: Option<Path>)
    ensures r.None? <==> forall i :: 0 <= i < |suffixes| ==> !PathExists(entries, cwd, path + suffixes[i])
    ensures r.Some? ==> exists i :: FirstMatch(entries, cwd, path, suffixes, i) && r.value == path + suffixes[i]
    decreases |suffixes|
  {
    if suffixes == [] then None
    else if PathExists(entries, cwd, path + suffixes[0]) then
      assert FirstMatch(entries, cwd, path, suffixes, 0);
      Some(path + suffixes[0])
    else
      var rest := FirstExisting(entries, cwd, path, suffixes[1..]);
      assert forall i :: 1 <= i < |suffixes| ==> suffixes[i] == suffixes[1..][i - 1];
      assert rest.Some? ==> exists i :: FirstMatch(entries, cwd, path, suffixes, i) && rest.value == path + suffixes[i] by {
        if rest.Some? {
          var i :| FirstMatch(entries, cwd, path, suffixes[1..], i) && rest.value == path + suffixes[1..][i];
          assert FirstMatch(entries, cwd, path, suffixes, i + 1);
        }
      }
      rest
  }

  /** `try_extensions(extensions, path)`: the first of `path`, then `path`
      followed by each extension in order, that exists; None when none does. */
  function TryExtensions(entries: set<Path>, cwd: Path, extensions: seq<string>, path: Path): (r: Option<Path>)
    ensures PathExists(entries, cwd, path) ==> r == Some(path)
    ensures r.Some? ==> PathExists(entries, cwd, r.value)
    ensures r.None? <==> !PathExists(entries, cwd, path) &&
                         forall i :: 0 <= i < |extensions| ==> !PathExists(entries, cwd, path + extensions[i])
    ensures r.Some? && r.value != path ==>
              !PathExists(entries, cwd, path) &&
              exists i :: FirstMatch(entries, cwd, path, extensions, i) && r.value == path + extensions[i]
  {
    var suffixes := [""] + extensions;
    assert path + suffixes[0] == path;
    assert forall i :: 0 <= i < |extensions| ==> suffixes[i + 1] == extensions[i];
    var r := FirstExisting(entries, cwd, path, suffixes);
    assert r.Some? && r.value != path ==> exists i :: FirstMatch(entries, cwd, path, extensions, i) && r.value == path + extensions[i] by {
      if r.Some? && r.value != path {
        var i :| FirstMatch(entries, cwd, path, suffixes, i) && r.value == path + suffixes[i];
        assert i != 0;
        assert FirstMatch(entries, cwd, path, extensions, i - 1);
      }
    }
    r
  }

  /** The extensions `get_file_path` completes names with: ground-file
      extensions for a ground lookup, image extensions otherwise. */
  function ExtensionsFor(ground: bool): (r: seq<string>)
    ensures |r| > 0
    ensures forall i :: 0 <= i < |r| ==> IsExtension(r[i])
    ensures forall i :: 0 <= i < |r| ==> (r[i] in GroundExtensions <==> ground)
  {
    if ground then GroundExtensions else ImageExtensions
  }

  /** `get_file_path(path, ground)`: the absolute path of the literal
      `path` if it exists; else of the first existing completion of `path`
      with its extension stripped; else of the first existing completion of
      `path` under the data directory; else the IOError the source raises. */
  function GetFilePath(entries: set<Path>, cwd: Path, path: Path, ground: bool): (r: Result<Path, IoError>)
    ensures PathExists(entries, cwd, path) ==> r == Ok(AbsPath(cwd, path))
    ensures r.Ok? ==> exists c :: PathExists(entries, cwd, c) && r.value == AbsPath(cwd, c)
  {
    var extensions := ExtensionsFor(ground);
    if PathExists(entries, cwd, path) then
      Ok(AbsPath(cwd, path))
    else
      var withExtension := TryExtensions(entries, cwd, extensions, SplitExt(path).0);
      if withExtension.Some? then
        Ok(AbsPath(cwd, withExtension.value))
      else
        var inDataDirectory := TryExtensions(entries, cwd, extensions, Join(DataDirectory, path));
        if inDataDirectory.Some? then
          Ok(AbsPath(cwd, inDataDirectory.value))
        else
          Err(FileNotFound)
  }

  /** `base + s` for every suffix `s`, in order. */
  function Appended(base: Path, suffixes: seq<string>): (r: seq<Path>)
    ensures |r| == |suffixes|
    ensures forall i :: 0 <= i < |suffixes| ==> r[i] == base + suffixes[i]
  {
    if suffixes == [] then [] else [base + suffixes[0]] + Appended(base, suffixes[1..])
  }

  /** Every path `get_file_path` tries, in the order it tries them: the
      literal path, the stripped path's completions, the data-directory
      path's completions. */
  function Candidates(path: Path, ground: bool): (r: seq<Path>)
    ensures var suffixes := [""] + ExtensionsFor(ground);
            && |r| == 1 + 2 * |suffixes|
            && r[0] == path
            && (forall i :: 0 <= i < |suffixes| ==> r[1 + i] == SplitExt(path).0 + suffixes[i])
            && (forall i :: 0 <= i < |suffixes| ==> r[1 + |suffixes| + i] == Join(DataDirectory, path) + suffixes[i])
  {
    var suffixes := [""] + ExtensionsFor(ground);
    [path] + Appended(SplitExt(path).0, suffixes) + Appended(Join(DataDirectory, path), suffixes)
  }

  /** Trying a list of suffixes in two halves: the second half is consulted
      only when nothing in the first exists. */
  lemma {:induction false} FirstExistingConcat(entries: set<Path>, cwd: Path, path: Path, a: seq<string>, b: seq<string>)
    ensures FirstExisting(entries, cwd, path, a + b) ==
            if FirstExisting(entries, cwd, path, a).Some? then FirstExisting(entries, cwd, path, a)
            else FirstExisting(entries, cwd, path, b)
    decreases |a|
  {
    if a == [] {
      assert a + b == b;
    } else {
      assert (a + b)[0] == a[0];
      assert (a + b)[1..] == a[1..] + b;
      FirstExistingConcat(entries, cwd, path, a[1..], b);
    }
  }

  /** Trying suffixes of `base` is trying the completed paths themselves. */
  lemma {:induction false} FirstExistingAppended(entries: set<Path>, cwd: Path, base: Path, suffixes: seq<string>)
    ensures FirstExisting(entries, cwd, base, suffixes) == FirstExisting(entries, cwd, "", Appended(base, suffixes))
    decreases |suffixes|
  {
    if suffixes != [] {
      var full := Appended(base, suffixes);
      assert "" + full[0] == base + suffixes[0];
      assert full[1..] == Appended(base, suffixes[1..]);
      FirstExistingAppended(entries, cwd, base, suffixes[1..]);
    }
  }

  /** One completion tier of `get_file_path` is `try_extensions` on its base. */
  lemma TierIsTryExtensions(entries: set<Path>, cwd: Path, extensions: seq<string>, base: Path)
    ensures FirstExisting(entries, cwd, "", Appended(base, [""] + extensions)) ==
            TryExtensions(entries, cwd, extensions, base)
  {
    FirstExistingAppended(entries, cwd, base, [""] + extensions);
  }

  /** Searching a list of paths that starts with `p` returns `p` when it
      exists and searches the rest otherwise. */
  lemma FirstExistingCons(entries: set<Path>, cwd: Path, p: Path, rest: seq<Path>)
    ensures FirstExisting(entries, cwd, "", [p] + rest) ==
            if PathExists(entries, cwd, p) then Some(p) else FirstExisting(entries, cwd, "", rest)
  {
    var ps := [p] + rest;
    assert ps[0] == p && "" + p == p;
    assert ps[1..] == rest;
  }

  /** The two completion tiers: the data-directory tier is searched only
      when the stripped path's tier finds nothing. */
  lemma CompletionTiers(entries: set<Path>, cwd: Path, extensions: seq<string>, stem: Path, data: Path)
    ensures FirstExisting(entries, cwd, "", Appended(stem, [""] + extensions) + Appended(data, [""] + extensions)) ==
            if TryExtensions(entries, cwd, extensions, stem).Some? then TryExtensions(entries, cwd, extensions, stem)
            else TryExtensions(entries, cwd, extensions, data)
  {
    FirstExistingConcat(entries, cwd, "", Appended(stem, [""] + extensions), Appended(data, [""] + extensions));
    TierIsTryExtensions(entries, cwd, extensions, stem);
    TierIsTryExtensions(entries, cwd, extensions, data);
  }

  /** Trying the candidates in order is trying the literal path, then the
      stripped path's completions, then the data-directory completions. */
  lemma CandidatesInTiers(entries: set<Path>, cwd: Path, path: Path, ground: bool)
    ensures var extensions := ExtensionsFor(ground);
            var withExtension := TryExtensions(entries, cwd, extensions, SplitExt(path).0);
            FirstExisting(entries, cwd, "", Candidates(path, ground)) ==
              if PathExists(entries, cwd, path) then Some(path)
              else if withExtension.Some? then withExtension
              else TryExtensions(entries, cwd, extensions, Join(DataDirectory, path))
  {
    var extensions := ExtensionsFor(ground);
    var suffixes := [""] + extensions;
    var tiers := Appended(SplitExt(path).0, suffixes) + Appended(Join(DataDirectory, path), suffixes);
    assert Candidates(path, ground) == [path] + tiers;
    FirstExistingCons(entries, cwd, path, tiers);
    CompletionTiers(entries, cwd, extensions, SplitExt(path).0, Join(DataDirectory, path));
  }

  /** `get_file_path` returns the absolute form of the first existing
      candidate, and raises exactly when no candidate exists. */
  lemma GetFilePathIsFirstCandidate(entries: set<Path>, cwd: Path, path: Path, ground: bool)
    ensures GetFilePath(entries, cwd, path, ground) ==
            match FirstExisting(entries, cwd, "", Candidates(path, ground))
            case Some(c) => Ok(AbsPath(cwd, c))
            case None => Err(FileNotFound)
  {
    CandidatesInTiers(entries, cwd, path, ground);
  }

  /** `get_file_path` raises exactly when none of its candidates exists. */
  lemma NotFoundIffNoCandidate(entries: set<Path>, cwd: Path, path: Path, ground: bool)
    ensures GetFilePath(entries, cwd, path, ground).Err? <==>
            forall c :: c in Candidates(path, ground) ==> !PathExists(entries, cwd, c)
  {
    GetFilePathIsFirstCandidate(entries, cwd, path, ground);
    NoneIffNoneExists(entries, cwd, Candidates(path, ground));
  }

  /** Searching a list of whole paths finds nothing exactly when none of
      them exists. */
  lemma NoneIffNoneExists(entries: set<Path>, cwd: Path, cs: seq<Path>)
    ensures FirstExisting(entries, cwd, "", cs).None? <==>
            forall c :: c in cs ==> !PathExists(entries, cwd, c)
  {
    assert forall i :: 0 <= i < |cs| ==> "" + cs[i] == cs[i];
  }

  /** The extension-completion tier takes priority over the data directory:
      when the literal path is missing and a completion of the stripped path
      exists, that completion is returned whatever the data directory holds. */
  lemma ExtensionTierBeforeDataDirectory(entries: set<Path>, cwd: Path, path: Path, ground: bool)
    requires !PathExists(entries, cwd, path)
    requires TryExtensions(entries, cwd, ExtensionsFor(ground), SplitExt(path).0).Some?
    ensures GetFilePath(entries, cwd, path, ground) ==
            Ok(AbsPath(cwd, TryExtensions(entries, cwd, ExtensionsFor(ground), SplitExt(path).0).value))
  {
  }

  /** A data-directory result is returned only when both earlier tiers
      failed, and then it is the first existing data-directory completion. */
  lemma DataDirectoryTierLast(entries: set<Path>, cwd: Path, path: Path, ground: bool)
    requires GetFilePath(entries, cwd, path, ground).Ok?
    requires GetFilePath(entries, cwd, path, ground).value != AbsPath(cwd, path)
    requires forall i :: 0 <= i < |[""] + ExtensionsFor(ground)| ==>
               GetFilePath(entries, cwd, path, ground).value != AbsPath(cwd, SplitExt(path).0 + ([""] + ExtensionsFor(ground))[i])
    ensures !PathExists(entries, cwd, path)
    ensures TryExtensions(entries, cwd, ExtensionsFor(ground), SplitExt(path).0).None?
    ensures TryExtensions(entries, cwd, ExtensionsFor(ground), Join(DataDirectory, path)).Some?
    ensures GetFilePath(entries, cwd, path, ground) ==
            Ok(AbsPath(cwd, TryExtensions(entries, cwd, ExtensionsFor(ground), Join(DataDirectory, path)).value))
  { }

  /** Whatever tier finds it, a resolved path is the absolute form of the
      literal path, or of a base (the stripped path or the data-directory
      path) followed by nothing or by one of the extensions of the lookup's
      kind. */
  lemma ResolvedShape(entries: set<Path>, cwd: Path, path: Path, ground: bool)
    requires GetFilePath(entries, cwd, path, ground).Ok?
    ensures var r := GetFilePath(entries, cwd, path, ground).value;
            var suffixes := [""] + ExtensionsFor(ground);
            || r == AbsPath(cwd, path)
            || (exists i :: 0 <= i < |suffixes| && r == AbsPath(cwd, SplitExt(path).0 + suffixes[i]))
            || (exists i :: 0 <= i < |suffixes| && r == AbsPath(cwd, Join(DataDirectory, path) + suffixes[i]))
  {
    var extensions := ExtensionsFor(ground);
    var suffixes := [""] + extensions;
    if !PathExists(entries, cwd, path) {
      var stem, data := SplitExt(path).0, Join(DataDirectory, path);
      var base := if TryExtensions(entries, cwd, extensions, stem).Some? then stem else data;
      var found := TryExtensions(entries, cwd, extensions, base).value;
      assert GetFilePath(entries, cwd, path, ground).value == AbsPath(cwd, found);
      if found == base {
        assert found == base + suffixes[0];
      } else {
        var i :| FirstMatch(entries, cwd, base, extensions, i) && found == base + extensions[i];
        assert found == base + suffixes[i + 1];
      }
    }
  }

  /** Resolving is idempotent in the strong sense: the path
      `get_file_path` returns resolves to itself. */
  lemma ResolvedPathIsFixedPoint(entries: set<Path>, cwd: Path, path: Path, ground: bool)
    requires IsAbs(cwd)
    requires GetFilePath(entries, cwd, path, ground).Ok?
    ensures var r := GetFilePath(entries, cwd, path, ground).value;
            PathExists(entries, cwd, r) && GetFilePath(entries, cwd, r, ground) == Ok(r)
  {
    var r := GetFilePath(entries, cwd, path, ground).value;
    var c :| PathExists(entries, cwd, c) && r == AbsPath(cwd, c);
    AbsPathIdempotent(cwd, c);
  }

  /** The sample layout of the tests: `digits1.png` and `digits1.box` in
      the working directory `/w`. */
  const DigitsEntries: set<Path> := {"/w/digits1.png", "/w/digits1.box"}

  /** The bare name resolves to the image for an image lookup. */
  lemma DigitsImageLookup()
    ensures GetFilePath(DigitsEntries, "/w", "digits1", false) == Ok("/w/digits1.png")
  {
    DigitsLookup(false, ".png", "/w/digits1.png");
  }

  /** The same name resolves to the box file for a ground lookup. */
  lemma DigitsGroundLookup()
    ensures GetFilePath(DigitsEntries, "/w", "digits1", true) == Ok("/w/digits1.box")
  {
    DigitsLookup(true, ".box", "/w/digits1.box");
  }

  /** In the sample layout, a lookup of `digits1` whose first extension is
      `e` resolves to `/w/digits1` followed by `e`. */
  lemma DigitsLookup(ground: bool, e: string, full: Path)
    requires ExtensionsFor(ground)[0] == e && (e == ".png" || e == ".box")
    requires full == "/w/digits1" + e
    ensures GetFilePath(DigitsEntries, "/w", "digits1", ground) == Ok(full)
  {
    assert SplitExt("digits1").0 == "digits1" by {
      assert RFind("digits1", '.') == -1;
    }
    DigitsCompletion(ExtensionsFor(ground), e);
    ExtensionTierBeforeDataDirectory(DigitsEntries, "/w", "digits1", ground);
  }

  /** In the sample layout, the stem `digits1` does not exist itself, and
      `try_extensions` completes it with the first extension `e` of the
      list. */
  lemma DigitsCompletion(extensions: seq<string>, e: string)
    requires |extensions| > 0 && extensions[0] == e && (e == ".png" || e == ".box")
    ensures !PathExists(DigitsEntries, "/w", "digits1")
    ensures TryExtensions(DigitsEntries, "/w", extensions, "digits1") == Some("digits1" + e)
    ensures AbsPath("/w", "digits1" + e) == "/w/digits1" + e
  {
    assert Join("/w", "digits1") == "/w/digits1";
    assert "/w/digits1" !in DigitsEntries by {
      assert |"/w/digits1"| == 10;
    }
    assert ([""] + extensions)[1..] == extensions;
    assert Join("/w", "digits1" + e) == "/w/digits1" + e;
    if e == ".png" {
      assert "/w/digits1" + e == "/w/digits1.png";
    } else {
      assert "/w/digits1" + e == "/w/digits1.box";
    }
    assert PathExists(DigitsEntries, "/w", "digits1" + e);
  }

  // ---------------------------------------------------------------------
  // Ground truth
  // ---------------------------------------------------------------------

  /** One character's bounding box, in image coordinates. */
  datatype Segment = Segment(left: int, bottom: int, right: int, top: int)

  /** A character class. */
  type Label = char

  /** What reading a box file yields: the classes and the segments, in
      file line order. */
  type BoxData = (seq<Label>, seq<Segment>)

  /** Ground data: labelled segments, and for a `GroundFile` the path of the
      box file they are stored in (None for the in-memory `Ground`). */
  datatype Ground = Ground(segments: seq<Segment>, classes: seq<Label>, path: Option<Path>)

  /** `read()`: a `GroundFile` takes its classes and segments from its box
      file, through the box-file reader `readBox`; a plain `Ground` is left
      as it is. */
  function ReadGround(g: Ground, readBox: Path -> BoxData): (r: Ground)
    ensures r.path == g.path
    ensures g.path.None? ==> r == g
    ensures g.path.Some? ==> r.classes == readBox(g.path.value).0 && r.segments == readBox(g.path.value).1
  {
    match g.path
    case None => g
    case Some(p) => Ground(readBox(p).1, readBox(p).0, g.path)
  }

  /** `write()`: a `GroundFile` writes its box file (the file exists
      afterwards; its contents are not modelled); a plain `Ground` does
      nothing. */
  method WriteGround(g: Ground, fs: FileSystem)
    requires g.path.Some? ==> g.path.value != ""
    modifies fs
    ensures fs.entries == if g.path.Some? then old(fs.entries) + {AbsPath(fs.cwd, g.path.value)} else old(fs.entries)
  {
    if g.path.Some? {
      fs.Create(g.path.value);
    }
  }

  /** The decoded pixel data of an image.  Nothing here looks inside it. */
  datatype Pixels = Pixels(data: seq<int>)

  // ---------------------------------------------------------------------
  // Image: an image in memory with optional ground data
  // ---------------------------------------------------------------------

  class Image {
    const image: Pixels
    var ground: Option<Ground>

    /** `is_grounded`: whether a ground is attached. */
    predicate IsGrounded()
      reads this
      ensures IsGrounded() <==> ground != None
    {
      ground.Some?
    }

    constructor (pixels: Pixels)
      ensures image == pixels && ground == None
    {
      image := pixels;
      ground := None;
    }

    /** `set_ground`: replaces any ground with one holding exactly these
        segments and classes. */
    method SetGround(segments: seq<Segment>, classes: seq<Label>)
      modifies this
      ensures IsGrounded()
      ensures ground == Some(Ground(segments, classes, None))
    {
      ground := Some(Ground(segments, classes, None));
    }

    /** `remove_ground`: detaches the ground, grounded or not. */
    method RemoveGround()
      modifies this
      ensures ground == None && !IsGrounded()
    {
      ground := None;
    }
  }

  // ---------------------------------------------------------------------
  // ImageFile: an image read from a file, with its box file
  // ---------------------------------------------------------------------

  /** The path an image's name has without its extension. */
  function BasePath(path: Path): Path {
    SplitExt(path).0
  }

  /** The ground lookup as `ImageFile.__init__` writes it: `try_extensions`
      on the base path, which tries the base path itself first. */
  function GroundLookupAsWritten(entries: set<Path>, cwd: Path, path: Path): (r: Option<Path>)
    ensures PathExists(entries, cwd, BasePath(path)) ==> r == Some(BasePath(path))
    ensures r.Some? <==> PathExists(entries, cwd, BasePath(path)) ||
                         PathExists(entries, cwd, BasePath(path) + GroundExtensionDefault)
    ensures r.Some? && r.value != BasePath(path) ==> r.value == BasePath(path) + GroundExtensionDefault
  {
    TryExtensions(entries, cwd, GroundExtensions, BasePath(path))
  }

  /** The ground lookup as intended: only the base path followed by a
      ground-file extension. */
  function GroundLookup(entries: set<Path>, cwd: Path, path: Path): (r: Option<Path>)
    ensures r.Some? <==> PathExists(entries, cwd, BasePath(path) + GroundExtensionDefault)
    ensures r.Some? ==> r.value == BasePath(path) + GroundExtensionDefault
  {
    FirstExisting(entries, cwd, BasePath(path), GroundExtensions)
  }

  /** As written, an image whose name has no extension is its own ground
      file: the lookup returns the image path, so the image would be parsed
      as a box file and `remove_ground(remove_file=True)` would delete the
      image. */
  lemma ExtensionlessImageIsOwnGround(entries: set<Path>, cwd: Path, path: Path)
    requires PathExists(entries, cwd, path) && SplitExt(path).1 == ""
    ensures GroundLookupAsWritten(entries, cwd, path) == Some(path)
  {
    assert BasePath(path) == path by {
      assert SplitExt(path).0 + "" == SplitExt(path).0;
    }
  }

  /** A concrete instance: the extension-less image `/data/scan`. */
  lemma ExtensionlessImageExample()
    ensures GroundLookupAsWritten({"/data/scan"}, "/", "/data/scan") == Some("/data/scan")
    ensures GroundLookup({"/data/scan"}, "/", "/data/scan").None?
  {
    var p := "/data/scan";
    assert RFind(p, '.') == -1;
    assert SplitExt(p) == (p, "");
    ExtensionlessImageIsOwnGround({p}, "/", p);
    assert p + ".box" != p;
  }

  /** The corrected lookup never names the image itself, unless the image's
      own extension is the ground-file extension. */
  lemma GroundLookupNeverImage(entries: set<Path>, cwd: Path, path: Path)
    requires SplitExt(path).1 != GroundExtensionDefault
    ensures GroundLookup(entries, cwd, path).Some? ==> GroundLookup(entries, cwd, path).value != path
  {
  }

  /** The two lookups differ only when the base path itself exists. */
  lemma GroundLookupsAgree(entries: set<Path>, cwd: Path, path: Path)
    requires !PathExists(entries, cwd, BasePath(path))
    ensures GroundLookupAsWritten(entries, cwd, path) == GroundLookup(entries, cwd, path)
  {
  }

  class ImageFile {
    const image: Pixels
    const path: Path
    const groundPath: Path
    var ground: Option<Ground>

    /** The ground path is the image's base path with the ground-file
        extension, and an attached ground is stored at the ground path. */
    ghost predicate Valid()
      reads this
    {
      && groundPath == BasePath(path) + GroundExtensionDefault
      && (ground.Some? ==> ground.value.path == Some(groundPath))
    }

    /** `is_grounded`: whether a ground is attached; under the invariant an
        attached ground is stored at the ground path. */
    predicate IsGrounded()
      reads this
      ensures IsGrounded() <==> ground != None
      ensures Valid() && IsGrounded() ==> ground.value.path == Some(groundPath)
    {
      ground.Some?
    }

    /** `ImageFile(path)`: decodes the image with `imread`, and is grounded
        exactly when the sibling box file exists, in which case the ground is
        read from it with `readBox`. */
    constructor (fs: FileSystem, path: Path, imread: Path -> Pixels, readBox: Path -> BoxData)
      ensures Valid()
      ensures this.path == path && image == imread(path)
      ensures IsGrounded() <==> fs.Exists(groundPath)
      ensures IsGrounded() ==>
                ground.value.classes == readBox(groundPath).0 && ground.value.segments == readBox(groundPath).1
    {
      image := imread(path);
      this.path := path;
      var basepath := BasePath(path);
      var found := GroundLookup(fs.entries, fs.cwd, path);
      if found.Some? {
        groundPath := found.value;
        ground := Some(ReadGround(Ground([], [], Some(found.value)), readBox));
      } else {
        groundPath := basepath + GroundExtensionDefault;
        ground := None;
      }
    }

    /** `set_ground`: replaces any ground with one holding exactly these
        segments and classes, stored at the ground path; the box file is
        written only when `writeFile` is set. */
    method SetGround(fs: FileSystem, segments: seq<Segment>, classes: seq<Label>, writeFile: bool)
      requires Valid()
      modifies this, fs
      ensures Valid() && IsGrounded()
      ensures ground == Some(Ground(segments, classes, Some(groundPath)))
      ensures fs.entries == if writeFile then old(fs.entries) + {AbsPath(fs.cwd, groundPath)} else old(fs.entries)
    {
      ground := Some(Ground(segments, classes, Some(groundPath)));
      if writeFile {
        WriteGround(ground.value, fs);
      }
    }

    /** `remove_ground`: detaches the ground, grounded or not; with
        `removeFile` also deletes the file at the ground path, which raises
        when there is none (after the ground has been detached). */
    method RemoveGround(fs: FileSystem, removeFile: bool) returns (r: Outcome<IoError>)
      requires Valid()
      modifies this, fs
      ensures Valid() && !IsGrounded()
      ensures !removeFile ==> r == Pass && fs.entries == old(fs.entries)
      ensures removeFile ==> r == (if old(fs.Exists(groundPath)) then Pass else Fail(FileNotFound))
      ensures removeFile ==> !fs.Exists(groundPath)
      ensures removeFile && r.Pass? ==> fs.entries == old(fs.entries) - {AbsPath(fs.cwd, groundPath)}
      ensures removeFile && r.Fail? ==> fs.entries == old(fs.entries)
    {
      ground := None;
      r := Pass;
      if removeFile {
        r := fs.Remove(groundPath);
      }
    }
  }

  /** `open_image(path)`: resolves `path` as an image name and opens the
      image file found, or raises when nothing is found. */
  method OpenImage(fs: FileSystem, path: Path, imread: Path -> Pixels, readBox: Path -> BoxData)
    returns (r: Result<ImageFile, IoError>)
    ensures r.Err? <==> GetFilePath(fs.entries, fs.cwd, path, false).Err?
    ensures r.Ok? ==> fresh(r.value) && r.value.Valid()
    ensures r.Ok? ==> r.value.path == GetFilePath(fs.entries, fs.cwd, path, false).value
    ensures r.Ok? ==> r.value.image == imread(r.value.path)
    ensures r.Ok? ==> (r.value.IsGrounded() <==> fs.Exists(r.value.groundPath))
    ensures r.Ok? && r.value.IsGrounded() ==>
              var g := r.value.ground.value;
              g.classes == readBox(r.value.groundPath).0 && g.segments == readBox(r.value.groundPath).1
  {
    var resolved := GetFilePath(fs.entries, fs.cwd, path, false);
    if resolved.Ok? {
      var img := new ImageFile(fs, resolved.value, imread, readBox);
      r := Ok(img);
    } else {
      r := Err(resolved.error);
    }
  }

  /** The ground path of the sample image exists. */
  lemma DigitsGroundPath()
    ensures BasePath("/w/digits1.png") + GroundExtensionDefault == "/w/digits1.box"
    ensures PathExists(DigitsEntries, "/w", "/w/digits1.box")
  {
    assert HasStem("/w/digits1") by { assert NoSlashAfter("/w/digits1", 3); }
    SplitExtAppended("/w/digits1", ".png");
    assert "/w/digits1" + ".png" == "/w/digits1.png";
    assert "/w/digits1" + ".box" == "/w/digits1.box";
  }

  /** The bare stem `digits1` has itself as base path, and its ground file
      exists in the sample layout. */
  lemma DigitsBareGroundPath()
    ensures BasePath("digits1") + GroundExtensionDefault == "digits1.box"
    ensures PathExists(DigitsEntries, "/w", "digits1.box")
  {
    assert RFind("digits1", '.') == -1;
    assert "digits1" + ".box" == "digits1.box";
    assert Join("/w", "digits1.box") == "/w/digits1.box";
  }

  /** The tests' construction `ImageFile('digits1')` on the bare name: the
      path stays `digits1`, the ground path is `digits1.box`, and the image
      is grounded from that file.  (The lookup as written agrees here, since
      `digits1` itself does not exist.) */
  method ImageFileDigits(imread: Path -> Pixels, readBox: Path -> BoxData) returns (img: ImageFile)
    ensures img.Valid() && img.IsGrounded()
    ensures img.path == "digits1" && img.groundPath == "digits1.box"
    ensures img.image == imread("digits1")
    ensures img.ground.value.classes == readBox("digits1.box").0
  {
    var fs := new FileSystem(DigitsEntries, "/w");
    DigitsBareGroundPath();
    img := new ImageFile(fs, "digits1", imread, readBox);
  }

  /** Opening the bare name `digits1` in the sample layout finds the image
      `digits1.png` and loads its ground from the sibling `digits1.box`. */
  method OpenDigits(imread: Path -> Pixels, readBox: Path -> BoxData) returns (img: ImageFile)
    ensures img.Valid() && img.IsGrounded()
    ensures img.path == "/w/digits1.png" && img.groundPath == "/w/digits1.box"
    ensures img.ground.value.classes == readBox("/w/digits1.box").0
  {
    var fs := new FileSystem(DigitsEntries, "/w");
    DigitsImageLookup();
    DigitsGroundPath();
    var r := OpenImage(fs, "digits1", imread, readBox);
    img := r.value;
  }

  /** The sequence the image-file tests go through: re-grounding a grounded
      image with its own segments and classes leaves its ground as it was
      and writes nothing; removing the ground afterwards ungrounds it and
      deletes nothing. */
  method RegroundThenUnground(img: ImageFile, fs: FileSystem)
    requires img.Valid() && img.IsGrounded()
    modifies img, fs
    ensures img.Valid() && !img.IsGrounded()
    ensures fs.entries == old(fs.entries)
  {
    var g := img.ground.value;
    img.SetGround(fs, g.segments, g.classes, false);
    assert img.ground == Some(g);
    var r := img.RemoveGround(fs, false);
    assert r == Pass;
  }
}
