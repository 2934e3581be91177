/** Which files of the source tree `add_watermark` watermarks: every file the
    directory walk lists whose lower-cased name ends with one of `EXTS`,
    except files named like the logo (compared case-insensitively by base
    name). The walk itself is an input: the directories in the order they
    are visited, each with its file names in listing order. */
module Selection {
  import opened Common
  import opened Strings
  import opened Output

  /** `EXTS`. */
  const Exts: seq<string> := [".jpg", ".jpeg", ".png", ".tif", ".tiff"]

  /** A logo path counts only when given and non-empty, as in `if logo_path`. */
  predicate LogoGiven(logoPath: Option<string>) {
    logoPath.Some? && logoPath.value != ""
  }

  /** The condition a listed file name must meet to be watermarked. */
  predicate Eligible(fileName: string, logoPath: Option<string>) {
    && EndsWithAny(LowerStr(fileName), Exts)
    && (!LogoGiven(logoPath) || LowerStr(fileName) != LowerStr(Basename(logoPath.value)))
  }

  /** A name is eligible exactly when, lower-cased, it ends with one of the
      five extensions and, if a logo path is given, differs from the
      lower-cased base name of the logo. */
  lemma EligibleIff(fileName: string, logoPath: Option<string>)
    ensures Eligible(fileName, logoPath) <==>
      && var lower := LowerStr(fileName);
      && (EndsWith(lower, ".jpg") || EndsWith(lower, ".jpeg") || EndsWith(lower, ".png")
          || EndsWith(lower, ".tif") || EndsWith(lower, ".tiff"))
      && (logoPath.None? || logoPath.value == "" || lower != LowerStr(Basename(logoPath.value)))
  {
    ImageExtIff(LowerStr(fileName));
  }

  lemma ImageExtIff(s: string)
    ensures EndsWithAny(s, Exts) <==>
      EndsWith(s, ".jpg") || EndsWith(s, ".jpeg") || EndsWith(s, ".png") || EndsWith(s, ".tif") || EndsWith(s, ".tiff")
  {
    var jpg, jpeg := ".jpg", ".jpeg";
    assert Exts == [jpg] + ([jpeg] + LosslessExts);
    EndsWithAnyCons(s, jpg, [jpeg] + LosslessExts);
    EndsWithAnyCons(s, jpeg, LosslessExts);
    LosslessIff(s);
  }

  /** The logo file itself is never watermarked, whatever the case of its name. */
  lemma LogoNeverEligible(fileName: string, logoPath: Option<string>)
    requires LogoGiven(logoPath) && LowerStr(fileName) == LowerStr(Basename(logoPath.value))
    ensures !Eligible(fileName, logoPath)
  {
  }

  /** Eligibility does not depend on the case of the file name. */
  lemma EligibleIgnoresCase(fileName: string, logoPath: Option<string>)
    ensures Eligible(fileName, logoPath) == Eligible(LowerStr(fileName), logoPath)
  {
    LowerStrIdempotent(fileName);
  }

  /** Every eligible file is saved as PNG when its extension is `.png`,
      `.tif` or `.tiff`, and as JPEG exactly when it is `.jpg` or `.jpeg`. */
  lemma EligibleFormat(fileName: string, logoPath: Option<string>)
    requires Eligible(fileName, logoPath)
    ensures OutputFormat(fileName) == JPEG <==>
      EndsWith(LowerStr(fileName), ".jpg") || EndsWith(LowerStr(fileName), ".jpeg")
  {
    var lower := LowerStr(fileName);
    EligibleIff(fileName, logoPath);
    OutputFormatIsPng(fileName);
    if EndsWith(lower, ".jpg") {
      NotBoth(lower, ".jpg", ".png");
      NotBoth(lower, ".jpg", ".tif");
      NotBoth(lower, ".jpg", ".tiff");
    } else if EndsWith(lower, ".jpeg") {
      NotBoth(lower, ".png", ".jpeg");
      NotBoth(lower, ".tif", ".jpeg");
      NotBoth(lower, ".jpeg", ".tiff");
    }
  }

  /** No name ends with two extensions neither of which ends the other. */
  lemma NotBoth(s: string, short: string, long: string)
    requires |short| <= |long| && !EndsWith(long, short)
    ensures !(EndsWith(s, short) && EndsWith(s, long))
  {
    if EndsWith(s, short) && EndsWith(s, long) {
      EndsWithBoth(s, short, long);
    }
  }

  /** One directory of the walk: its path and the names of the files in it. */
  datatype WalkEntry = WalkEntry(dirPath: Path, fileNames: seq<string>)

  /** The eligible files of one directory, as full paths, in listing order. */
  function SelectedIn(dirPath: Path, fileNames: seq<string>, logoPath: Option<string>): (r: seq<Path>)
    ensures |r| <= |fileNames|
  {
    if fileNames == [] then []
    else
      var name := fileNames[|fileNames| - 1];
      SelectedIn(dirPath, fileNames[..|fileNames| - 1], logoPath)
        + (if Eligible(name, logoPath) then [dirPath + [name]] else [])
  }

  /** The eligible files of the whole walk, directory after directory. */
  function Selected(walk: seq<WalkEntry>, logoPath: Option<string>): seq<Path> {
    if walk == [] then []
    else
      var entry := walk[|walk| - 1];
      Selected(walk[..|walk| - 1], logoPath) + SelectedIn(entry.dirPath, entry.fileNames, logoPath)
  }

  /** The nested loops that build `image_files`. */
  method CollectImageFiles(walk: seq<WalkEntry>, logoPath: Option<string>) returns (imageFiles: seq<Path>)
    ensures imageFiles == Selected(walk, logoPath)
  {
    imageFiles := [];
    var i := 0;
    while i < |walk|
      invariant 0 <= i <= |walk|
      invariant imageFiles == Selected(walk[..i], logoPath)
    {
      var entry := walk[i];
      var j := 0;
      while j < |entry.fileNames|
        invariant 0 <= j <= |entry.fileNames|
        invariant imageFiles == Selected(walk[..i], logoPath) + SelectedIn(entry.dirPath, entry.fileNames[..j], logoPath)
      {
        var fileName := entry.fileNames[j];
        if Eligible(fileName, logoPath) {
          imageFiles := imageFiles + [entry.dirPath + [fileName]];
        }
        assert entry.fileNames[..j + 1][..j] == entry.fileNames[..j];
        j := j + 1;
      }
      assert entry.fileNames[..j] == entry.fileNames;
      assert walk[..i + 1][..i] == walk[..i];
      i := i + 1;
    }
    assert walk[..i] == walk;
  }

  /** Selection within one directory keeps listing order: the files of a
      later part of the listing follow those of an earlier part. */
  lemma {:induction false} SelectedInConcat(dirPath: Path, names: seq<string>, names': seq<string>,
                                             logoPath: Option<string>)
    ensures SelectedIn(dirPath, names + names', logoPath)
         == SelectedIn(dirPath, names, logoPath) + SelectedIn(dirPath, names', logoPath)
  {
    if names' == [] {
      assert names + names' == names;
    } else {
      var init := names'[..|names'| - 1];
      assert (names + names')[..|names + names'| - 1] == names + init;
      assert (names + names')[|names + names'| - 1] == names'[|names'| - 1];
      SelectedInConcat(dirPath, names, init, logoPath);
    }
  }

  /** A path is selected from one directory exactly when it is that
      directory joined with one of its eligible file names. */
  lemma {:induction false} SelectedInMembership(dirPath: Path, fileNames: seq<string>,
                                                 logoPath: Option<string>, p: Path)
    ensures p in SelectedIn(dirPath, fileNames, logoPath) <==>
      exists j :: 0 <= j < |fileNames| && p == dirPath + [fileNames[j]] && Eligible(fileNames[j], logoPath)
  {
    if fileNames != [] {
      var init := fileNames[..|fileNames| - 1];
      SelectedInMembership(dirPath, init, logoPath, p);
      assert forall j :: 0 <= j < |init| ==> init[j] == fileNames[j];
    }
  }

  /** A path is selected exactly when some directory of the walk lists an
      eligible file whose full path it is. */
  lemma {:induction false} SelectedMembership(walk: seq<WalkEntry>, logoPath: Option<string>, p: Path)
    ensures p in Selected(walk, logoPath) <==>
      exists i, j :: 0 <= i < |walk| && 0 <= j < |walk[i].fileNames|
        && p == walk[i].dirPath + [walk[i].fileNames[j]] && Eligible(walk[i].fileNames[j], logoPath)
  {
    if walk != [] {
      var init, entry := walk[..|walk| - 1], walk[|walk| - 1];
      SelectedMembership(init, logoPath, p);
      SelectedInMembership(entry.dirPath, entry.fileNames, logoPath, p);
      assert forall i :: 0 <= i < |init| ==> init[i] == walk[i];
    }
  }

  /** Selection keeps the walk's order: the files of a later part of the walk
      follow those of an earlier part. */
  lemma {:induction false} SelectedConcat(walk: seq<WalkEntry>, walk': seq<WalkEntry>, logoPath: Option<string>)
    ensures Selected(walk + walk', logoPath) == Selected(walk, logoPath) + Selected(walk', logoPath)
  {
    if walk' == [] {
      assert walk + walk' == walk;
    } else {
      var init, last := walk'[..|walk'| - 1], walk'[|walk'| - 1];
      var whole := walk + walk';
      assert whole[..|whole| - 1] == walk + init && whole[|whole| - 1] == last;
      var tail := SelectedIn(last.dirPath, last.fileNames, logoPath);
      assert Selected(whole, logoPath) == Selected(walk + init, logoPath) + tail;
      assert Selected(walk', logoPath) == Selected(init, logoPath) + tail;
      SelectedConcat(walk, init, logoPath);
    }
  }

  /** Every directory of the walk lies under `root`. */
  predicate WalkUnder(walk: seq<WalkEntry>, root: Path) {
    forall i :: 0 <= i < |walk| ==> root <= walk[i].dirPath
  }

  /** Every selected path was found under the walk's root and has an
      eligible base name. */
  lemma SelectedUnderRoot(walk: seq<WalkEntry>, root: Path, logoPath: Option<string>)
    requires WalkUnder(walk, root)
    ensures forall p :: p in Selected(walk, logoPath) ==>
      FoundUnder(p, root) && Eligible(p[|p| - 1], logoPath)
  {
    forall p | p in Selected(walk, logoPath)
      ensures FoundUnder(p, root) && Eligible(p[|p| - 1], logoPath)
    {
      SelectedMembership(walk, logoPath, p);
      var i, j :| 0 <= i < |walk| && 0 <= j < |walk[i].fileNames|
        && p == walk[i].dirPath + [walk[i].fileNames[j]] && Eligible(walk[i].fileNames[j], logoPath);
      assert p[..|p| - 1] == walk[i].dirPath;
    }
  }

  /** The walk lists each directory once, and each file name once within
      its directory, as a directory walk does. */
  predicate DistinctWalk(walk: seq<WalkEntry>) {
    && (forall i, j :: 0 <= i < j < |walk| ==> walk[i].dirPath != walk[j].dirPath)
    && (forall i :: 0 <= i < |walk| ==> Distinct(walk[i].fileNames))
  }

  /** Distinct names in one directory give distinct selected paths. */
  lemma {:induction false} SelectedInDistinct(dirPath: Path, fileNames: seq<string>, logoPath: Option<string>)
    requires Distinct(fileNames)
    ensures Distinct(SelectedIn(dirPath, fileNames, logoPath))
  {
    if fileNames != [] {
      var init, name := fileNames[..|fileNames| - 1], fileNames[|fileNames| - 1];
      SelectedInDistinct(dirPath, init, logoPath);
      forall j | 0 <= j < |init| ensures dirPath + [init[j]] != dirPath + [name] {
        assert (dirPath + [init[j]])[|dirPath|] == fileNames[j] != name;
      }
      SelectedInMembership(dirPath, init, logoPath, dirPath + [name]);
      DistinctConcat(SelectedIn(dirPath, init, logoPath),
                     if Eligible(name, logoPath) then [dirPath + [name]] else []);
    }
  }

  /** A walk without repeated directories or names selects no path twice. */
  lemma {:induction false} SelectedDistinct(walk: seq<WalkEntry>, logoPath: Option<string>)
    requires DistinctWalk(walk)
    ensures Distinct(Selected(walk, logoPath))
  {
    if walk != [] {
      var init, entry := walk[..|walk| - 1], walk[|walk| - 1];
      assert forall i :: 0 <= i < |init| ==> init[i] == walk[i];
      SelectedDistinct(init, logoPath);
      SelectedInDistinct(entry.dirPath, entry.fileNames, logoPath);
      forall p | p in Selected(init, logoPath)
        ensures p !in SelectedIn(entry.dirPath, entry.fileNames, logoPath)
      {
        SelectedMembership(init, logoPath, p);
        var i, j :| 0 <= i < |init| && 0 <= j < |init[i].fileNames|
          && p == init[i].dirPath + [init[i].fileNames[j]] && Eligible(init[i].fileNames[j], logoPath);
        assert p[..|p| - 1] == init[i].dirPath != entry.dirPath;
        forall x ensures p != entry.dirPath + [x] {
          assert (entry.dirPath + [x])[..|entry.dirPath|] == entry.dirPath;
        }
        SelectedInMembership(entry.dirPath, entry.fileNames, logoPath, p);
      }
      DistinctConcat(Selected(init, logoPath), SelectedIn(entry.dirPath, entry.fileNames, logoPath));
    }
  }

  lemma DistinctConcat<T>(a: seq<T>, b: seq<T>)
    requires Distinct(a) && Distinct(b)
    requires forall x :: x in a ==> x !in b
    ensures Distinct(a + b)
  {
    forall i, j | 0 <= i < j < |a + b| ensures (a + b)[i] != (a + b)[j] {
      if j < |a| {
        assert (a + b)[i] == a[i] && (a + b)[j] == a[j];
      } else if i >= |a| {
        assert (a + b)[i] == b[i - |a|] && (a + b)[j] == b[j - |a|];
      } else {
        assert a[i] in a && (a + b)[i] == a[i] && (a + b)[j] == b[j - |a|];
      }
    }
  }
}
