/** The batch driver `add_watermark`: prepare the logo once (a failure aborts
    the run before any image is touched), collect the eligible files, then
    process them one by one in that order; a file that cannot be decoded or
    processed is skipped, every other one is saved under its mirrored path
    with the format and resolution chosen for it. Decoding, the logo's
    loading and the directory walk are inputs. */
module Batch {
  import opened Common
  import opened Output
  import opened Selection
  import opened Overlay

  /** What decoding one image yields: its size and embedded resolution. */
  datatype Decoded = Decoded(width: nat, height: nat, dpi: Option<Resolution>)

  /** What happens to one file: saved (with what is written), or skipped. */
  datatype Outcome =
    | Saved(source: Path, dest: Path, format: Format, dpi: Resolution, plan: ImagePlan)
    | Skipped(source: Path)

  /** The files that decode, by path; any other file fails to open. */
  function Lookup(images: map<Path, Decoded>, p: Path): Option<Decoded> {
    if p in images then Some(images[p]) else None
  }

  /** One iteration of the processing loop. The file is saved exactly when it
      decodes and its watermark plan succeeds, at its mirrored path, as PNG
      or JPEG by its extension, with its own resolution or 72x72. */
  function ProcessFile(fullPath: Path, root: Path, newDir: Option<Path>, decoded: Option<Decoded>,
                       logo: Option<Dims>, wm: Watermark): (o: Outcome)
    requires FoundUnder(fullPath, root)
    ensures o.source == fullPath
    ensures o.Saved? <==> decoded.Some? && PlanImage(decoded.value.width, decoded.value.height, logo, wm).Some?
    ensures o.Saved? ==>
      && o.dest == DestinationPath(fullPath, root, newDir)
      && o.format == OutputFormat(PathString(fullPath))
      && o.dpi == SaveDpi(decoded.value.dpi)
      && PlanImage(decoded.value.width, decoded.value.height, logo, wm) == Some(o.plan)
  {
    match decoded
    case None => Skipped(fullPath)
    case Some(image) =>
      match PlanImage(image.width, image.height, logo, wm)
      case None => Skipped(fullPath)
      case Some(plan) =>
        Saved(fullPath, DestinationPath(fullPath, root, newDir), OutputFormat(PathString(fullPath)),
              SaveDpi(image.dpi), plan)
  }

  /** `outcomes` is what processing `files` in order yields. */
  predicate RunOf(outcomes: seq<Outcome>, files: seq<Path>, root: Path, newDir: Option<Path>,
                  images: map<Path, Decoded>, logo: Option<Dims>, wm: Watermark) {
    && |outcomes| == |files|
    && forall k :: 0 <= k < |files| ==>
         FoundUnder(files[k], root)
         && outcomes[k] == ProcessFile(files[k], root, newDir, Lookup(images, files[k]), logo, wm)
  }

  /** Saving `o` raises: `save_image` runs outside the per-file `try`, so an
      exception while creating the output directory or writing the file
      ends the whole run. `unsavable` holds the output paths whose save
      raises. */
  predicate SaveFails(o: Outcome, unsavable: set<Path>) {
    o.Saved? && o.dest in unsavable
  }

  /** What a run of `add_watermark` yields: an abort before any file, every
      file's outcome, or the outcomes before the file whose save raised. */
  datatype RunResult =
    | Aborted
    | Completed(outcomes: seq<Outcome>)
    | Stopped(outcomes: seq<Outcome>, failed: Path)

  /** `result` is what the loop over `files` yields: each file in order has
      its outcome and saves without raising, up to the first file whose
      save raises, where the run stops; with no such file it completes. */
  predicate LoopResultOf(result: RunResult, files: seq<Path>, root: Path, newDir: Option<Path>,
                         images: map<Path, Decoded>, logo: Option<Dims>, wm: Watermark,
                         unsavable: set<Path>) {
    match result
    case Aborted => false
    case Completed(outcomes) =>
      && RunOf(outcomes, files, root, newDir, images, logo, wm)
      && (forall k :: 0 <= k < |outcomes| ==> !SaveFails(outcomes[k], unsavable))
    case Stopped(outcomes, failed) =>
      var n := |outcomes|;
      && n < |files|
      && RunOf(outcomes, files[..n], root, newDir, images, logo, wm)
      && (forall k :: 0 <= k < n ==> !SaveFails(outcomes[k], unsavable))
      && failed == files[n]
      && FoundUnder(failed, root)
      && SaveFails(ProcessFile(failed, root, newDir, Lookup(images, failed), logo, wm), unsavable)
  }

  /** The loop over `image_files`. */
  method RunBatch(files: seq<Path>, root: Path, newDir: Option<Path>, images: map<Path, Decoded>,
                  logo: Option<Dims>, wm: Watermark, unsavable: set<Path>) returns (result: RunResult)
    requires forall k :: 0 <= k < |files| ==> FoundUnder(files[k], root)
    ensures LoopResultOf(result, files, root, newDir, images, logo, wm, unsavable)
  {
    var outcomes := [];
    for i := 0 to |files|
      invariant RunOf(outcomes, files[..i], root, newDir, images, logo, wm)
      invariant forall k :: 0 <= k < |outcomes| ==> !SaveFails(outcomes[k], unsavable)
    {
      var outcome := ProcessFile(files[i], root, newDir, Lookup(images, files[i]), logo, wm);
      if SaveFails(outcome, unsavable) {
        return Stopped(outcomes, files[i]);
      }
      outcomes := outcomes + [outcome];
    }
    assert files[..|files|] == files;
    return Completed(outcomes);
  }

  /** The loop's result is determined by its inputs: the run stops exactly
      at the first file whose save raises. */
  lemma LoopResultUnique(result: RunResult, result': RunResult, files: seq<Path>, root: Path,
                         newDir: Option<Path>, images: map<Path, Decoded>, logo: Option<Dims>,
                         wm: Watermark, unsavable: set<Path>)
    requires LoopResultOf(result, files, root, newDir, images, logo, wm, unsavable)
    requires LoopResultOf(result', files, root, newDir, images, logo, wm, unsavable)
    ensures result == result'
  {
    SavedBeforeStop(result, files, root, newDir, images, logo, wm, unsavable);
    SavedBeforeStop(result', files, root, newDir, images, logo, wm, unsavable);
    assert |result.outcomes| == |result'.outcomes|;
    assert result.outcomes == result'.outcomes;
  }

  /** Every file before the loop's end is processed and saved without
      raising. */
  lemma SavedBeforeStop(result: RunResult, files: seq<Path>, root: Path, newDir: Option<Path>,
                        images: map<Path, Decoded>, logo: Option<Dims>, wm: Watermark,
                        unsavable: set<Path>)
    requires LoopResultOf(result, files, root, newDir, images, logo, wm, unsavable)
    ensures |result.outcomes| <= |files|
    ensures forall k :: 0 <= k < |result.outcomes| ==>
      && FoundUnder(files[k], root)
      && result.outcomes[k] == ProcessFile(files[k], root, newDir, Lookup(images, files[k]), logo, wm)
      && !SaveFails(result.outcomes[k], unsavable)
  {
  }

  /** Without a failing save the loop completes. */
  lemma NoFailedSaveCompletes(result: RunResult, files: seq<Path>, root: Path, newDir: Option<Path>,
                              images: map<Path, Decoded>, logo: Option<Dims>, wm: Watermark)
    requires LoopResultOf(result, files, root, newDir, images, logo, wm, {})
    ensures result.Completed? && RunOf(result.outcomes, files, root, newDir, images, logo, wm)
  {
  }

  /** `add_watermark`. `logoImage` is what loading the logo yields (None when
      it cannot be read). The run aborts exactly when a logo path is given
      and the logo cannot be loaded; otherwise the loop runs over the
      selected files in selection order. When the walk repeats no directory
      and no name, no two saved images share an output path. */
  method AddWatermark(root: Path, walk: seq<WalkEntry>, images: map<Path, Decoded>,
                      logoPath: Option<string>, logoImage: Option<Dims>,
                      newDir: Option<Path>, wm: Watermark, unsavable: set<Path>) returns (result: RunResult)
    requires WalkUnder(walk, root)
    ensures result.Aborted? <==> LogoGiven(logoPath) && logoImage.None?
    ensures !result.Aborted? ==>
      SelectedFilesUnder(walk, root, logoPath)
      && LoopResultOf(result, Selected(walk, logoPath), root, newDir, images,
                      if LogoGiven(logoPath) then logoImage else None, wm, unsavable)
    ensures !result.Aborted? && DistinctWalk(walk) ==>
      forall i, j :: 0 <= i < j < |result.outcomes| && result.outcomes[i].Saved? && result.outcomes[j].Saved? ==>
        result.outcomes[i].dest != result.outcomes[j].dest
  {
    if LogoGiven(logoPath) && logoImage.None? {
      return Aborted;
    }
    var logo := if LogoGiven(logoPath) then logoImage else None;
    var imageFiles := CollectImageFiles(walk, logoPath);
    SelectedUnderRoot(walk, root, logoPath);
    result := RunBatch(imageFiles, root, newDir, images, logo, wm, unsavable);
    if DistinctWalk(walk) {
      SelectedDistinct(walk, logoPath);
      LoopWritesDistinct(result, imageFiles, root, newDir, images, logo, wm, unsavable);
    }
  }

  /** Distinct files are saved to distinct paths, however the loop ends. */
  lemma LoopWritesDistinct(result: RunResult, files: seq<Path>, root: Path, newDir: Option<Path>,
                           images: map<Path, Decoded>, logo: Option<Dims>, wm: Watermark,
                           unsavable: set<Path>)
    requires LoopResultOf(result, files, root, newDir, images, logo, wm, unsavable) && Distinct(files)
    ensures forall i, j :: 0 <= i < j < |result.outcomes| && result.outcomes[i].Saved? && result.outcomes[j].Saved? ==>
      result.outcomes[i].dest != result.outcomes[j].dest
  {
    var n := |result.outcomes|;
    if result.Completed? { assert files[..n] == files; }
    RunWritesDistinct(result.outcomes, files[..n], root, newDir, images, logo, wm);
  }

  /** Every selected file lies under the root. */
  predicate SelectedFilesUnder(walk: seq<WalkEntry>, root: Path, logoPath: Option<string>) {
    var files := Selected(walk, logoPath);
    forall k :: 0 <= k < |files| ==> FoundUnder(files[k], root)
  }

  /** Every saved output mirrors its source: below the output root (the new
      directory, or the source root when none is given) it has the same
      components as the source below the source root. */
  lemma RunMirrorsTree(outcomes: seq<Outcome>, files: seq<Path>, root: Path, newDir: Option<Path>,
                       images: map<Path, Decoded>, logo: Option<Dims>, wm: Watermark)
    requires RunOf(outcomes, files, root, newDir, images, logo, wm)
    ensures var saveRoot := if DirGiven(newDir) then newDir.value else root;
      forall k :: 0 <= k < |outcomes| && outcomes[k].Saved? ==>
        saveRoot <= outcomes[k].dest && outcomes[k].dest[|saveRoot|..] == files[k][|root|..]
  {
  }

  /** Without a new directory every saved image overwrites its source. */
  lemma RunOverwritesInPlace(outcomes: seq<Outcome>, files: seq<Path>, root: Path, newDir: Option<Path>,
                             images: map<Path, Decoded>, logo: Option<Dims>, wm: Watermark)
    requires RunOf(outcomes, files, root, newDir, images, logo, wm) && !DirGiven(newDir)
    ensures forall k :: 0 <= k < |outcomes| && outcomes[k].Saved? ==> outcomes[k].dest == files[k]
  {
  }

  /** With a new directory unrelated to the source root, nothing is written
      under the source root. */
  lemma RunLeavesSourceTree(outcomes: seq<Outcome>, files: seq<Path>, root: Path, newDir: Option<Path>,
                            images: map<Path, Decoded>, logo: Option<Dims>, wm: Watermark)
    requires RunOf(outcomes, files, root, newDir, images, logo, wm)
    requires DirGiven(newDir) && !(newDir.value <= root) && !(root <= newDir.value)
    ensures forall k :: 0 <= k < |outcomes| && outcomes[k].Saved? ==> !(root <= outcomes[k].dest)
  {
    forall k | 0 <= k < |outcomes| && outcomes[k].Saved? ensures !(root <= outcomes[k].dest) {
      NewDirLeavesSourceTree(files[k], root, newDir);
    }
  }

  /** Distinct files are saved to distinct paths: no output overwrites
      another. */
  lemma RunWritesDistinct(outcomes: seq<Outcome>, files: seq<Path>, root: Path, newDir: Option<Path>,
                          images: map<Path, Decoded>, logo: Option<Dims>, wm: Watermark)
    requires RunOf(outcomes, files, root, newDir, images, logo, wm)
    requires Distinct(files)
    ensures forall i, j :: 0 <= i < j < |outcomes| && outcomes[i].Saved? && outcomes[j].Saved? ==>
      outcomes[i].dest != outcomes[j].dest
  {
    forall i, j | 0 <= i < j < |outcomes| && outcomes[i].Saved? && outcomes[j].Saved?
      ensures outcomes[i].dest != outcomes[j].dest
    {
      if outcomes[i].dest == outcomes[j].dest {
        DestinationInjective(files[i], files[j], root, newDir);
      }
    }
  }

  /** Decoding reads a snapshot of the tree taken before the run. It is
      exact when no save lands on a file processed later: with no new
      directory each save overwrites its own, already processed source, and
      with a new directory not nested with the source root every save lands
      outside the tree. */
  lemma NoSaveLandsLater(outcomes: seq<Outcome>, files: seq<Path>, root: Path, newDir: Option<Path>,
                         images: map<Path, Decoded>, logo: Option<Dims>, wm: Watermark)
    requires RunOf(outcomes, files, root, newDir, images, logo, wm) && Distinct(files)
    requires !DirGiven(newDir) || (!(newDir.value <= root) && !(root <= newDir.value))
    ensures forall k, j :: 0 <= k < j < |files| && outcomes[k].Saved? ==> outcomes[k].dest != files[j]
  {
    if DirGiven(newDir) {
      RunLeavesSourceTree(outcomes, files, root, newDir, images, logo, wm);
      forall k, j | 0 <= k < j < |files| && outcomes[k].Saved? ensures outcomes[k].dest != files[j] {
        assert root <= files[j][..|files[j]| - 1] && files[j][..|files[j]| - 1] <= files[j];
      }
    } else {
      RunOverwritesInPlace(outcomes, files, root, newDir, images, logo, wm);
    }
  }

  /** A JPEG that decodes and a file that does not, with no logo and no
      text: the first is saved as JPEG at 72x72 in place, the second is
      skipped. */
  lemma OneCorruptFileExample(root: Path)
    ensures var good, bad := root + ["a.jpg"], root + ["b.jpg"];
      var images := map[good := Decoded(10, 10, None)];
      var wm := Watermark(Geometry.Center, 0, Fraction(20, 1), None, None, Fraction(1, 1));
      && ProcessFile(good, root, None, Lookup(images, good), None, wm)
           == Saved(good, good, JPEG, DefaultDpi, ImagePlan(None, None))
      && ProcessFile(bad, root, None, Lookup(images, bad), None, wm) == Skipped(bad)
  {
    var good, bad := root + ["a.jpg"], root + ["b.jpg"];
    assert good != bad by { assert good[|root|] != bad[|root|]; }
    assert good[..|good| - 1] == root && bad[..|bad| - 1] == root;
    FormatByBaseName(good);
    OutputFormatIsPng("a.jpg");
  }
}
