# Watermark decision logic, modelled and verified in Dafny

This project models the integer and string logic of `watermark.py`, a script that adds a logo
and/or a text watermark to every image under a directory tree. The model covers:

- the anchor geometry `get_paste_position`. There are five anchors (top-left, top-right,
  bottom-left, bottom-right, centre) and a padding. Nothing is clamped.
- the target logo size computed by `resize_logo`. The width is a percentage of the image's
  shorter side, and the height follows the logo's aspect ratio.
- the per-image plan of `process_image` / `add_text_watermark`: which layers are drawn, where
  they go, and the text alpha.
- the batch driver `add_watermark`. It collects eligible files from a directory walk, using
  `EXTS` and the logo-name exclusion. It then processes the files in order. A file that cannot be opened or watermarked is
  skipped, and a save that raises ends the run.
  For each saved file it computes the mirrored output path, the encoder (PNG or JPEG) and the
  resolution (the image's own, or 72x72).

Modules: `Common` holds the option type, the exact rationals used for the float settings, and
Python's floor and truncating divisions. `Strings` holds `lower`, `endswith` and `basename`.
The others are `Geometry`, `LogoSize`, `Overlay`, `Output`, `Selection` and `Batch`.

Modelling choices:

- A path is a sequence of components. `os.path.join` becomes concatenation, and `relpath` of a
  directory below the root drops the root's components.
- The directory walk is an input. It is a sequence of directories in visiting order, each with
  its file names in listing order.
- The image library is also an input. Decoding is a map from paths to decoded sizes and
  resolutions; paths outside the map fail to open. Loading the logo yields its size or nothing.
  Measuring the text yields its bounding box, or nothing when the font cannot be loaded.
- Python truthiness is kept: an empty logo path, empty text or empty output directory counts
  as absent.
- The float settings (scale percent, text opacity) are exact rationals with a positive
  denominator. `int()` of a quotient truncates towards zero, and `//` floors.
- `int()` truncates the text alpha `255 * opacity` instead of rounding it
  (`Overlay.TextAlphaTruncates`: half opacity gives 127).
- The code checks neither the sign of the padding nor that of the scale, so the model accepts
  any integer padding and any rational scale.
- `save_image` is called outside the per-file `try`. A save that raises ends the whole run, and
  the files after it get no outcome. Which output paths cannot be saved is an input
  (`unsavable`), and the run then ends as `Batch.RunResult.Stopped`.

## Model

| member | source | states |
|---|---|---|
| `Common.Min` | watermark.py:52 | `min` of the image's width and height: no larger than either, and equal to one of them |
| `Common.FloorDiv` | watermark.py:71 | `//` by a positive divisor gives the floor: `q*b <= a < q*b + b` |
| `Common.TruncDiv` | watermark.py:53-55 | `int()` of an exact quotient rounds towards zero, bounded from both sides for positive and negative dividends |
| `Common.TruncDivCrossMonotone` | watermark.py:53 | of two truncated quotients, the one with the smaller cross product is no larger |
| `Strings.LowerStr` | watermark.py:107 | `lower()` keeps the length and lower-cases every character |
| `Strings.EndsWith` | watermark.py:107 | `endswith` with one suffix (also at watermark.py line 120): the string's last characters are the suffix |
| `Strings.EndsWithAny` | watermark.py:107 | `endswith` with a tuple of suffixes (characterised by `Strings.EndsWithAnyIff`) |
| `Strings.EndsWithAnyIff` | watermark.py:107 | `endswith` with a tuple is true exactly when one of the suffixes matches |
| `Strings.Basename` | watermark.py:107 | `os.path.basename` has no '/', is a suffix of the path, and is preceded by a '/' whenever it is shorter than the path |
| `Geometry.AnchorName` | watermark.py:62-70 | the five position names the dispatch compares against (and the command line offers at watermark.py:132); `Geometry.ParseAnchorName` inverts it |
| `Geometry.ParseAnchor` | watermark.py:62-71 | the string dispatch recognises exactly the five anchor names and yields no position for any other string |
| `Geometry.ParseAnchorName` | watermark.py:62-71 | every anchor's name dispatches back to that anchor |
| `Geometry.PastePosition` | watermark.py:58-71 | left/top anchors sit at `padding`; right anchors satisfy `x + w + padding == W`, bottom anchors `y + h + padding == H`; centre floors half the slack in each axis |
| `Geometry.CornerInsideIff` | watermark.py:62-69 | a corner anchor keeps the element inside the image iff `0 <= padding`, `w + padding <= W` and `h + padding <= H` |
| `Geometry.CenterInsideIff` | watermark.py:70-71 | the centre anchor keeps the element inside iff `w <= W` and `h <= H`, whatever the padding |
| `Geometry.AllAnchorsInside` | watermark.py:58-71 | with non-negative padding and room for element plus padding, every anchor places the element wholly inside |
| `Geometry.CenterMargins` | watermark.py:70-71 | the centred element's margin after it equals the margin before it, or is one pixel more |
| `Geometry.CenterIgnoresPadding` | watermark.py:70-71 | the padding does not affect the centre anchor |
| `Geometry.PastePositionByAxes` | watermark.py:58-71 | the five-way dispatch agrees with an independent per-axis start/middle/end placement |
| `Geometry.MirroredAnchors` | watermark.py:62-69 | the bottom-right position mirrors the top-left one in both axes |
| `LogoSize.ScaledWidth` | watermark.py:52-53 | the new width is `floor(min(W,H) * scale / 100)` for a non-negative scale, is at most the shorter side for a scale of at most 100 percent, and is at most 0 for a non-positive scale |
| `LogoSize.TargetSize` | watermark.py:52-55 | a logo with a zero side fails (division by zero); otherwise `h*lw <= w*lh < (h+1)*lw`, and width 0 gives height 0 |
| `LogoSize.ScaledWidthMonotone` | watermark.py:52-53 | a larger scale never gives a narrower logo; the scales are compared by cross-multiplication, so their denominators may differ |
| `LogoSize.WideLogoInside` | watermark.py:52-55 | a logo no taller than wide, scaled by at most 100 percent, is at most the shorter side in both dimensions and fits inside at every anchor with padding 0 |
| `LogoSize.BottomRightExample` | watermark.py:52-55 | a 1000x800 image at scale 20 gives width 160; a 400x100 logo becomes 160x40 and is pasted bottom-right at (830, 750) with padding 10 |
| `Overlay.TextAlpha` | watermark.py:85 | `int(255 * opacity)` is the truncated product; it lies in 0..255 for an opacity in [0, 1], and is 255 at full opacity |
| `Overlay.TextAlphaTruncates` | watermark.py:85 | half opacity gives alpha 127, so the alpha is truncated, not rounded |
| `Overlay.TextGiven` | watermark.py:37 | `if text`: text counts only when given and non-empty |
| `Overlay.PlanImage` | watermark.py:32-38 | the image fails iff the logo has a zero side or the text's font is missing; there is a logo layer iff a logo is given and a text layer iff the text is non-empty, each placed by its own size at the shared anchor |
| `Overlay.NoWatermarkNoLayers` | watermark.py:32-40 | with neither a logo nor text the image gets no layers |
| `Overlay.LayersShareEdges` | watermark.py:34-38 | at a right/bottom anchor the logo's far edge and the text's draw origin plus its measured width/height meet at `W - padding` / `H - padding`; at a left/top anchor both origins sit at `padding` |
| `Overlay.TextInkOffset` | watermark.py:79-85 | the text is drawn at its origin without subtracting the box's offset, so at a right/bottom anchor its ink ends `box.left` / `box.top` pixels past `W - padding` / `H - padding` |
| `Overlay.TextInkBelowExample` | watermark.py:79-85 | a box measured 9 pixels below its origin, bottom-right with padding 0 on a 100x100 image, has its ink end at row 109, below the image |
| `Overlay.BottomRightPlanExample` | watermark.py:32-35 | the 1000x800 bottom-right example, end to end through the per-image plan |
| `Output.PathString` | watermark.py:120 | the text of `full_path` that the extension test reads: the components joined by '/' (`Output.FormatByBaseName` relates it to the base name) |
| `Output.DirGiven` | watermark.py:116 | `new_directory if new_directory else directory`: the new directory counts only when given and non-empty |
| `Output.DestinationPath` | watermark.py:115-118 | with no new directory the output path is the input path (in-place overwrite); otherwise it lies under the output root, and its remainder there equals the input's remainder under the source root |
| `Output.DestinationKeepsName` | watermark.py:118 | the output keeps the input's base name |
| `Output.DestinationInjective` | watermark.py:115-118 | two files under one root never share an output path |
| `Output.NewDirLeavesSourceTree` | watermark.py:116-118 | on paths as written: when the new directory's and the source root's components are not nested in each other, no output path lies under the source root |
| `Output.LosslessExts` | watermark.py:120 | the tuple `.png`, `.tif`, `.tiff` saved as PNG |
| `Output.OutputFormat` | watermark.py:120 | the encoder chosen from the lower-cased path (characterised by `Output.OutputFormatIsPng`) |
| `Output.OutputFormatIsPng` | watermark.py:120 | the format is PNG exactly when the lower-cased path ends in `.png`, `.tif` or `.tiff`, and JPEG otherwise |
| `Output.FormatByBaseName` | watermark.py:120 | testing the whole joined path decides the format the same way as testing its base name |
| `Output.SaveDpi` | watermark.py:121 | the image's own resolution when it has one, else 72x72 |
| `Selection.Exts` | watermark.py:6 | the five accepted extensions `.jpg`, `.jpeg`, `.png`, `.tif`, `.tiff` |
| `Selection.LogoGiven` | watermark.py:102 | `if logo_path` (and `not logo_path` at line 107): a logo path counts only when given and non-empty |
| `Selection.Eligible` | watermark.py:107 | the filter on one listed name (characterised by `Selection.EligibleIff`) |
| `Selection.ImageExtIff` | watermark.py:6 | a lower-cased name matches `EXTS` exactly when it ends in `.jpg`, `.jpeg`, `.png`, `.tif` or `.tiff` |
| `Selection.EligibleIff` | watermark.py:107 | a file is selected iff its lower-cased name has an accepted extension and, when a logo path is given, differs from the lower-cased logo base name |
| `Selection.LogoNeverEligible` | watermark.py:107 | a file named like the logo, in any case, is never selected |
| `Selection.EligibleIgnoresCase` | watermark.py:107 | selection does not depend on the case of the file name |
| `Selection.EligibleFormat` | watermark.py:120 | a selected file is saved as JPEG exactly when its extension is `.jpg` or `.jpeg` |
| `Selection.SelectedIn` | watermark.py:106-108 | the eligible files of one directory as full paths, in listing order, at most one per name (membership in `Selection.SelectedInMembership`) |
| `Selection.Selected` | watermark.py:105-108 | the eligible files of the whole walk, directory after directory (membership in `Selection.SelectedMembership`, order in `Selection.SelectedConcat`) |
| `Selection.CollectImageFiles` | watermark.py:103-108 | the nested loops append exactly the selected paths of the walk, in walk order |
| `Selection.SelectedInMembership` | watermark.py:106-108 | a path is selected from a directory iff it is that directory joined with one of its eligible file names |
| `Selection.SelectedInConcat` | watermark.py:106-108 | selection within one directory keeps listing order: the selection from a concatenated listing is the concatenation of the selections |
| `Selection.SelectedMembership` | watermark.py:105-108 | a path is selected iff some directory of the walk lists an eligible file with that path |
| `Selection.SelectedConcat` | watermark.py:105-108 | selection keeps enumeration order: the selection from a concatenated walk is the concatenation of the selections |
| `Selection.SelectedUnderRoot` | watermark.py:105-108 | every selected path lies under the walk's root and has an eligible base name |
| `Selection.SelectedInDistinct` | watermark.py:106-108 | distinct names in one directory give distinct selected paths |
| `Selection.SelectedDistinct` | watermark.py:105-108 | a walk that lists each directory once and each name once per directory selects no path twice |
| `Batch.Lookup` | watermark.py:29 | `Image.open` of one path: the decoded image when the path is in the decodable map, nothing otherwise |
| `Batch.ProcessFile` | watermark.py:112-123 | a file is saved iff it decodes and its plan succeeds, at its mirrored path, with the extension's format and its resolution or 72x72; otherwise it is skipped |
| `Batch.RunBatch` | watermark.py:110-124 | each file, in order, gets its processing result as its outcome, up to the first file whose save raises; the run stops there, and completes when no save raises |
| `Batch.SaveFails` | watermark.py:123 | `save_image` raises for a saved outcome whose destination is unsavable |
| `Batch.LoopResultUnique` | watermark.py:110-124 | the loop's result is determined by its inputs, so it stops exactly at the first failing save |
| `Batch.SavedBeforeStop` | watermark.py:110-124 | every file before the point where the loop ends has its processing result as its outcome and saved without raising |
| `Batch.NoFailedSaveCompletes` | watermark.py:110-124 | when no save raises, the loop completes with an outcome for every file |
| `Batch.AddWatermark` | watermark.py:102-124 | the run aborts before any file iff a logo path is given and the logo cannot be loaded; otherwise the loop runs over exactly the selected files, in selection order; when the walk repeats no directory and no name, no two saved images share an output path |
| `Batch.RunMirrorsTree` | watermark.py:115-118 | every saved output mirrors its source's place under the root beneath the output root |
| `Batch.RunOverwritesInPlace` | watermark.py:116-118 | with no new directory every saved image overwrites its own source |
| `Batch.RunLeavesSourceTree` | watermark.py:116-118 | on paths as written: with a new directory whose components are not nested with the source root's, no saved output path lies under the source root |
| `Batch.NoSaveLandsLater` | watermark.py:112-123 | on paths as written: with distinct file paths and either no new directory or one whose components are not nested with the source root's, no output path equals a path processed later |
| `Batch.LoopWritesDistinct` | watermark.py:110-123 | distinct files are saved to distinct paths, whether the loop completes or stops at a failed save |
| `Batch.RunWritesDistinct` | watermark.py:115-118 | distinct input files are saved to distinct output paths |
| `Batch.OneCorruptFileExample` | watermark.py:112-123 | of a decodable JPEG and an undecodable file, the first is saved in place as JPEG at 72x72 and the second is skipped |

## Left out

- Pixel work is left out because it consists of foreign image-library calls. This covers opening and converting images (watermark.py:13, 29), LANCZOS resampling (watermark.py:56), `paste` (watermark.py:35), drawing text, `Image.new` and `alpha_composite` (watermark.py:83-86).
- Logo opacity scaling in `load_logo` (watermark.py:14-17) is left out: it is floating-point brightness scaling of the alpha plane.
- Font loading and `textbbox` (watermark.py:78-79) are inputs: `Watermark.textBox` is the measured box, or None when the font cannot be loaded.
- `save_image` (watermark.py:88-96) is file I/O and is reduced to whether it raises: creating directories, converting JPEG output to RGB and encoding at quality 100 are left out, and the paths whose save raises are the input `unsavable`.
- The directory walk (watermark.py:105), the progress bar and the printed messages (watermark.py:110-124), and the command-line parser (watermark.py:126-142) are left out. They are I/O; the walk is an input sequence.
- `load_logo` raises two different exceptions (watermark.py:19-22). Both are modelled as one outcome, `Batch.RunResult.Aborted`.
- After text is added, the resolution comes from the processed image, which carries the decoded file's metadata. The model reads it from the decoded file.
- LogoSize.ScaledWidth: the quotient is exact. Floating-point rounding of `shorter_side * scale / 100` near an integer is not modelled.
- LogoSize.TargetSize: the height is the exact `new_width * logo.height / logo.width`, truncated. Floating-point rounding of the aspect-ratio division is not modelled.
- Overlay.TextAlpha: the product uses an exact rational opacity, not a float.
- Overlay.PlanImage: a negative scale gives negative target sizes, and the resampler may reject them at run time. The plan does not model that failure, nor any other exception raised inside the image library.
- Overlay.PlanImage: the text's draw origin is placed by the measured width and height. The box's own offset (its left and top, measured from (0, 0)) is not subtracted, so the ink lies that many pixels right of and below the anchored box (`Overlay.TextInkOffset`). At a bottom anchor it can extend past the image.
- Overlay.PlanImage: a target size with a zero side is planned as a layer. Examples are a logo on an image under 5 pixels at scale 20, or a 1000x1 logo resized to 160x0. The image library refuses such sizes, so the program skips these images while the plan succeeds.
- Overlay.PlanImage: the anchor is one of the five `Anchor` values. The command-line parser admits no other name. The string dispatch is modelled by `Geometry.ParseAnchor`, which yields None for any other name.
- Strings.LowerStr: only ASCII letters are lower-cased. Python's `str.lower` also maps non-ASCII letters.
- Output.DestinationPath: paths are components, so the `.` that `relpath` returns for the root directory itself disappears. The program writes `root/./name`, which names the same file as `root/name`. Files must lie under the source root, which the walk guarantees.
- Batch.RunBatch: decoding sees the tree as it was before the run. When the new directory lies inside the source root, an earlier save can replace a file selected later, which the program then opens in its new form. The snapshot is exact when no save lands on a later file. `Batch.NoSaveLandsLater` proves that on paths as written: with no new directory, or with one whose components are not nested with the source root's. For files this holds only when both directories are given in one normalised absolute form and the tree has no symbolic or hard links.
- Output.NewDirLeavesSourceTree: paths are compared as written. `./photos/out` and `photos` pass the non-nesting premise, and so do an absolute new directory and a relative source root, yet the outputs then land inside the source tree. The conclusion holds of files only when both directories are given in one normalised absolute form and the tree has no links.
- Batch.RunLeavesSourceTree: paths are compared as written, so the conclusion holds of files only when both directories are given in one normalised absolute form and the tree has no links, as for `Output.NewDirLeavesSourceTree`.
- Batch.NoSaveLandsLater: paths are compared as written, and distinct component sequences are taken for distinct files. A differently spelled nested new directory, a symbolic link or a hard link lets a save land on a later file. The conclusion holds of files only when both directories are given in one normalised absolute form and the tree has no links.
- Batch.RunWritesDistinct: distinct input files are its premise. `Batch.AddWatermark` discharges it through `Selection.SelectedDistinct` for a walk that repeats no directory and no name, which the walk itself is not shown to guarantee.
- Paths are POSIX paths: `Strings.Basename` and `Output.PathString` split and join on '/' only, not on '\\' or drive letters as Windows paths do.
- Output.SaveDpi: resolutions are integer pairs here. An image's `dpi` can be a pair of floats, and the model only passes the value through.
