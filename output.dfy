/** What `add_watermark` decides before saving one watermarked image: the
    destination path, which mirrors the file's place under the source root
    beneath the output root; the encoder, chosen by extension; and the
    resolution written with it. Paths are sequences of components, so
    `os.path.join` is concatenation and `os.path.relpath` of a directory
    below the root drops the root's components. */
module Output {
  import opened Common
  import opened Strings

  type Path = seq<string>

  /** The path as the program sees it as text: components joined by '/'. */
  function PathString(p: Path): string {
    if |p| == 0 then ""
    else if |p| == 1 then p[0]
    else PathString(p[..|p| - 1]) + "/" + p[|p| - 1]
  }

  /** A directory argument counts only when given and non-empty, as in
      `new_directory if new_directory else directory`. */
  predicate DirGiven(dir: Option<Path>) {
    dir.Some? && dir.value != []
  }

  /** `root` is the directory `path` was found in or one of its ancestors. */
  predicate FoundUnder(path: Path, root: Path) {
    |path| >= 1 && root <= path[..|path| - 1]
  }

  /** `new_image_path`: the output root (the source root when no new
      directory is given), then the file's directory relative to the source
      root, then its base name. Without a new directory this is the file's
      own path, so the image is overwritten; in every case the components
      after the output root are those after the source root. */
  function DestinationPath(fullPath: Path, root: Path, newDir: Option<Path>): (dest: Path)
    requires FoundUnder(fullPath, root)
    ensures !DirGiven(newDir) ==> dest == fullPath
    ensures var saveRoot := if DirGiven(newDir) then newDir.value else root;
      saveRoot <= dest && dest[|saveRoot|..] == fullPath[|root|..]
  {
    var relativeDir := fullPath[|root|..|fullPath| - 1];
    var saveRoot := if DirGiven(newDir) then newDir.value else root;
    var dest := saveRoot + relativeDir + [fullPath[|fullPath| - 1]];
    assert dest[|saveRoot|..] == relativeDir + [fullPath[|fullPath| - 1]];
    assert fullPath == root + relativeDir + [fullPath[|fullPath| - 1]];
    dest
  }

  /** The output keeps the input's base name. */
  lemma DestinationKeepsName(fullPath: Path, root: Path, newDir: Option<Path>)
    requires FoundUnder(fullPath, root)
    ensures var dest := DestinationPath(fullPath, root, newDir);
      |dest| >= 1 && dest[|dest| - 1] == fullPath[|fullPath| - 1]
  {
    var dest := DestinationPath(fullPath, root, newDir);
    var saveRoot := if DirGiven(newDir) then newDir.value else root;
    assert dest[|saveRoot|..][|dest| - |saveRoot| - 1] == fullPath[|root|..][|fullPath| - |root| - 1];
  }

  /** Two files under the same root never share an output path. */
  lemma DestinationInjective(path: Path, path': Path, root: Path, newDir: Option<Path>)
    requires FoundUnder(path, root) && FoundUnder(path', root)
    requires DestinationPath(path, root, newDir) == DestinationPath(path', root, newDir)
    ensures path == path'
  {
    assert path == root + path[|root|..];
    assert path' == root + path'[|root|..];
  }

  /** When the new directory and the source root are unrelated (neither lies
      within the other), no output path lies under the source root, so the
      source files are left untouched. */
  lemma NewDirLeavesSourceTree(fullPath: Path, root: Path, newDir: Option<Path>)
    requires FoundUnder(fullPath, root)
    requires DirGiven(newDir) && !(newDir.value <= root) && !(root <= newDir.value)
    ensures !(root <= DestinationPath(fullPath, root, newDir))
  {
    var dest := DestinationPath(fullPath, root, newDir);
    if root <= dest {
      PrefixesOfOne(root, newDir.value, dest);
    }
  }

  /** Two prefixes of one sequence are ordered by the prefix relation. */
  lemma PrefixesOfOne(a: Path, b: Path, s: Path)
    requires a <= s && b <= s
    ensures a <= b || b <= a
  {
    if |a| <= |b| {
      assert b[..|a|] == s[..|a|];
    } else {
      assert a[..|b|] == s[..|b|];
    }
  }

  datatype Format = PNG | JPEG

  /** The extensions saved losslessly as PNG. */
  const LosslessExts: seq<string> := [".png", ".tif", ".tiff"]

  /** The encoder: PNG for the lossless extensions, JPEG otherwise. */
  function OutputFormat(path: string): Format {
    if EndsWithAny(LowerStr(path), LosslessExts) then PNG else JPEG
  }

  /** PNG exactly when the lower-cased path ends in `.png`, `.tif` or
      `.tiff`. */
  lemma OutputFormatIsPng(path: string)
    ensures OutputFormat(path) == PNG <==>
      EndsWith(LowerStr(path), ".png") || EndsWith(LowerStr(path), ".tif") || EndsWith(LowerStr(path), ".tiff")
  {
    LosslessIff(LowerStr(path));
  }

  lemma LosslessIff(s: string)
    ensures EndsWithAny(s, LosslessExts) <==> EndsWith(s, ".png") || EndsWith(s, ".tif") || EndsWith(s, ".tiff")
  {
    var png, tif, tiff := ".png", ".tif", ".tiff";
    assert LosslessExts == [png] + ([tif] + ([tiff] + []));
    EndsWithAnyCons(s, png, [tif] + ([tiff] + []));
    EndsWithAnyCons(s, tif, [tiff] + []);
    EndsWithAnyCons(s, tiff, []);
  }

  /** The format is decided by the base name alone: the directories in front
      of it cannot change which extension the joined path ends with. */
  lemma FormatByBaseName(p: Path)
    requires |p| >= 1
    ensures OutputFormat(PathString(p)) == OutputFormat(p[|p| - 1])
  {
    if |p| >= 2 {
      assert PathString(p) == PathString(p[..|p| - 1]) + "/" + p[|p| - 1];
      FormatAfterSlash(PathString(p[..|p| - 1]), p[|p| - 1]);
    }
  }

  lemma FormatAfterSlash(pre: string, name: string)
    ensures OutputFormat(pre + "/" + name) == OutputFormat(name)
  {
    LowerJoined(pre, name);
    assert forall i :: 0 <= i < |LosslessExts| ==> '/' !in LosslessExts[i];
    EndsWithAnyAfterSlash(LowerStr(pre), LowerStr(name), LosslessExts);
  }

  lemma LowerJoined(pre: string, name: string)
    ensures LowerStr(pre + "/" + name) == LowerStr(pre) + "/" + LowerStr(name)
  {
    LowerStrConcat(pre + "/", name);
    LowerStrConcat(pre, "/");
    assert LowerStr("/") == "/";
  }

  /** A horizontal and vertical resolution in dots per inch. */
  datatype Resolution = Resolution(horizontal: int, vertical: int)

  const DefaultDpi := Resolution(72, 72)

  /** `image.info.get('dpi', (72, 72))`: the image's own resolution when it
      carries one, 72x72 otherwise. */
  function SaveDpi(dpi: Option<Resolution>): (r: Resolution)
    ensures dpi.Some? ==> r == dpi.value
    ensures dpi.None? ==> r == DefaultDpi
  {
    match dpi
    case Some(d) => d
    case None => DefaultDpi
  }
}
