# face-detection-benchmark, modelled in Dafny

This project models the deterministic core of face-detection-benchmark, a
tool that downloads a set of face images, runs face detectors over them
and writes a Markdown comparison table. The model covers four parts:

- **Image acquisition** (`acquisition.dfy`, module `Acquisition`).
  - Each URL becomes a local file name: the last `/` segment, cut at the
    first `?`, defaulting to `face_<i:02d>`, given `.jpg` unless it already
    ends in `.jpg`/`.jpeg`/`.png` (any case), with every character outside
    alphanumerics and `._-` replaced by `_`.
  - The download loop keeps a file that already exists, fetches the others,
    skips a failed fetch and goes on.
  - It records `(name, url)` for every URL whose file exists or was
    fetched, then writes those pairs into the image folder's README.
  - The output directory is a set of present names, and the outcome of
    each fetch is an oracle indexed by the URL's position.
- **Image discovery** (`discovery.dfy`, module `Discovery`).
  - `list_images` sorts the paths under the image directory and keeps those
    whose lower-cased `Path.suffix` is one of `.jpg .jpeg .png .bmp .avif
    .webp`.
  - A path is the sequence of its components. Paths are ordered as
    `PurePosixPath` orders them: component by component, each component by
    code point. `sorted()` is an insertion sort, proved to return the
    unique sorted permutation of its input.
- **Detector passes** (`detection.dfy`, module `Detection`).
  - The three `benchmark_*` loops share one method.
  - An image that does not decode is skipped.
  - Otherwise the pass converts every face to a corner box and appends
    `(name, count, elapsed, boxes)`.
  - MTCNN's `(x, y, w, h)` box becomes `(x, y, x + w, y + h)`, and a face
    without a box gives `(0, 0, 0, 0)`.
  - The decoder, the detectors, their face records, the conversion of
    MediaPipe and InsightFace faces, and the elapsed times are parameters.
- **Report, annotations and main** (`report.dfy`, module `Report`).
  - `write_report` writes three fixed header lines, then one row per
    discovered image, in discovery order.
  - Each detector cell shows the first result with the row's name, or an
    em dash.
  - `annotate_and_save` writes `<stem>_<detector>.jpg` into the output
    directory when the image `img_dir / name` decodes.
  - `main` returns nothing when no image is found. Otherwise it runs
    MediaPipe and InsightFace, annotates, and writes the report with an
    empty MTCNN column.

`text.dfy` (module `Text`) holds the Python string operations the two
scripts use: `str.split` with a one-character separator, ASCII `str.lower`,
`str.endswith`, ASCII `str.isalnum`, `f"{n}"` and `f"{n:02d}"`.

Writes to files are modelled as the sequence of strings passed to
`f.write`. The `.2f` rendering of an elapsed time is a parameter
(`seconds: real -> string`).

Three behaviours of the code are worth stating outright:

- An undecodable image still gets a report row, because rows follow the
  discovered paths, not the results; when no other discovered image has
  the same name, its cells are dashes (`Report.BenchmarkReportCells`,
  `Report.PassNoMatch`, `Report.ReportShape`).
- Rows are matched to results by file name, so images with the same name
  in different folders share one row's contents
  (`Report.DuplicateNamesShareRow`).
- When no other discovered image has the same name, a decode failure shows
  the dash, while an empty detection shows `0 (<t>s)`
  (`Report.CellPlaceholder`).
- `elapsed` is the difference of two `time.time()` readings, so no sign is
  claimed for it.

## Model

| member | source | states |
|---|---|---|
| Text.Split | download_benchmark_images.py:57-58 | `s.split(sep)`: at least one piece, no piece contains the separator, and joining the pieces with the separator gives back `s` |
| Text.LastPiece | download_benchmark_images.py:57 | the last piece of a split is separator-free, ends the string, and is either the whole string or preceded by a separator |
| Text.FirstPiece | download_benchmark_images.py:58 | the first piece of a split is separator-free, starts the string, and is either the whole string or followed by a separator |
| Text.SplitWithoutSeparator | download_benchmark_images.py:57-58 | a string without the separator splits into itself alone |
| Text.DecimalRoundTrip | benchmark_detectors.py:147 | reading back the digits of `f"{n}"` gives `n` |
| Text.Decimal | benchmark_detectors.py:147 | `f"{n}"` is a non-empty string of digits, starting with `0` only for zero |
| Text.Pad2 | download_benchmark_images.py:60 | `f"{i:02d}"` is exactly two digits with a leading zero below ten and the plain decimal form from ten on, and reads back as `i` |
| Text.Lower | download_benchmark_images.py:61 | `str.lower` on ASCII: same length, each character lower-cased on its own |
| Text.EndsWith | download_benchmark_images.py:61 | `str.endswith`: the string is at least as long as the suffix and its tail equals it |
| Text.IsAlnum | download_benchmark_images.py:64 | `str.isalnum` on ASCII: a letter or a digit |
| Acquisition.FinalSegment | download_benchmark_images.py:57 | the segment has no `/`, ends the URL, and is the whole URL or follows a `/` |
| Acquisition.StripQuery | download_benchmark_images.py:58 | the result has no `?`, starts the name, and is the whole name or is followed by `?` |
| Acquisition.DefaultName | download_benchmark_images.py:59-60 | the name for an empty segment: `face_` followed by `f"{i:02d}"` |
| Acquisition.HasImageExtension | download_benchmark_images.py:61 | the lower-cased name ends in `.jpg`, `.jpeg` or `.png` |
| Acquisition.ReplaceUnsafe | download_benchmark_images.py:64 | each character that is not alphanumeric or one of `._-` becomes `_` |
| Acquisition.SanitizeName | download_benchmark_images.py:57-64 | the name URL `i` is saved under: final segment, cut at `?`, default name when empty, `.jpg` appended without an image extension, unsafe characters replaced |
| Acquisition.FinalSegmentAfterSlash | download_benchmark_images.py:57 | the segment of `prefix + "/" + s` for a `/`-free `s` is `s` |
| Acquisition.StripQueryBeforeMark | download_benchmark_images.py:58 | cutting `name + "?" + query` at the first `?`, for a `?`-free name, gives the name |
| Acquisition.SegmentOfPlainName | download_benchmark_images.py:57-58 | a string without `/` and `?` is its own segment |
| Acquisition.ReplaceUnsafeSpec | download_benchmark_images.py:64 | the replacement keeps the length, leaves only alphanumerics and `._-`, and at each position keeps the character exactly when it is safe, writing `_` otherwise |
| Acquisition.ReplaceUnsafeKeepsSafe | download_benchmark_images.py:64 | a name of safe characters is left unchanged |
| Acquisition.ExtensionSurvivesReplacement | download_benchmark_images.py:61-64 | a name ending in `.jpg`/`.jpeg`/`.png` (any case) still does after the replacement |
| Acquisition.AppendedJpgIsImage | download_benchmark_images.py:61-62 | appending `.jpg` gives a recognised image extension |
| Acquisition.DefaultNameNeedsExtension | download_benchmark_images.py:59-62 | `face_<i:02d>` has no image extension, so `.jpg` is appended |
| Acquisition.DefaultNameIsSafe | download_benchmark_images.py:60-64 | `face_<i:02d>.jpg` is made of safe characters only |
| Acquisition.SanitizedNameIsSafe | download_benchmark_images.py:57-64 | every derived name is non-empty, contains only alphanumerics and `._-`, and ends case-insensitively in `.jpg`, `.jpeg` or `.png` |
| Acquisition.SanitizedNameFromSegment | download_benchmark_images.py:57-64 | a non-empty segment starts the derived name, with unsafe characters replaced |
| Acquisition.EmptySegmentName | download_benchmark_images.py:59-64 | an empty segment gives exactly `face_` + `f"{i:02d}"` + `.jpg` |
| Acquisition.SafeImageNameIsFixed | download_benchmark_images.py:57-64 | a non-empty safe name with an image extension is its own derived name, whatever its index |
| Acquisition.SanitizeNameIdempotent | download_benchmark_images.py:57-64 | deriving a name from a derived name gives it back: the naming rule is idempotent |
| Acquisition.NameFor | download_benchmark_images.py:57-64 | the step-by-step reassignment of `name` ends with the derived name of URL `i` |
| Acquisition.TargetNames | download_benchmark_images.py:54-64 | one name per URL, in URL order, each the derived name of that URL at its position |
| Acquisition.Visit | download_benchmark_images.py:66-74 | one URL: an existing name is recorded without a fetch; otherwise a fetch is counted, and the pair and the name are added only if it succeeds |
| Acquisition.AcquireFirst | download_benchmark_images.py:54-74 | the state after the first n URLs: `Visit` applied URL by URL from an empty `sources` list and the names present at the start |
| Acquisition.SaveOne | download_benchmark_images.py:65-74 | one iteration: an existing name is recorded without a fetch; otherwise one fetch, and the pair and the name are added only if it succeeds |
| Acquisition.DownloadAll | download_benchmark_images.py:54-74 | the loop's final sources, present names and fetch count are those of the URL-by-URL specification over the derived names |
| Acquisition.PresentAfter | download_benchmark_images.py:66-72 | after n URLs a name is present exactly when it was present at the start or some earlier URL with that name was fetched successfully |
| Acquisition.SourcesAreManifest | download_benchmark_images.py:54-74 | `sources` holds, in URL order, exactly the URLs whose name was present, whose own fetch succeeded, or whose name an earlier successful fetch saved; a failing URL adds nothing and the loop goes on |
| Acquisition.DuplicateNameSkipsFetch | download_benchmark_images.py:66-72 | after a successful download, a later URL with the same name is recorded without a fetch and leaves the directory unchanged |
| Acquisition.AllPresentFetchesNothing | download_benchmark_images.py:66-69 | when every name is already present, nothing is fetched and every URL is recorded in order |
| Acquisition.SourcesArePresent | download_benchmark_images.py:66-72 | every recorded name is present afterwards; at most one pair per URL, and all of them when as many pairs as URLs were recorded |
| Acquisition.RerunReproducesManifest | download_benchmark_images.py:54-74 | rerunning over the directory a complete run left fetches nothing and records the same sources, whatever the network does |
| Acquisition.WriteManifest | download_benchmark_images.py:77-84 | the image folder's README is the three header strings, one `- name: url` line per recorded pair in order, and the footer |
| Acquisition.SourceLine | download_benchmark_images.py:83 | the line `- name: url` with a newline, for one recorded pair |
| Discovery.StemSuffixSplit | benchmark_detectors.py:44 | `Path.stem + Path.suffix` is the name; the suffix is empty or a dot followed by at least one dot-free character, and then the stem is non-empty |
| Discovery.Suffix | benchmark_detectors.py:44 | `Path.suffix`: from the last dot when that dot is neither the first nor the last character, otherwise empty |
| Discovery.Stem | benchmark_detectors.py:61 | `Path.stem`: the name without its suffix |
| Discovery.IsImage | benchmark_detectors.py:41-44 | the lower-cased suffix of the path's name is one of the six extensions |
| Discovery.ListImages | benchmark_detectors.py:42-44 | `sorted` over the listing, then the image paths kept in order |
| Discovery.Name | benchmark_detectors.py:83 | `Path.name`: the last component of a path, empty for the empty path |
| Discovery.PathLess | benchmark_detectors.py:44 | the `PurePosixPath` order `sorted` uses: component by component, each component by code point, a proper prefix first |
| Discovery.Filter | benchmark_detectors.py:44 | the comprehension's filter: the paths that pass, in their input order, never more than the input |
| Discovery.SuffixOfExtension | benchmark_detectors.py:61 | `base.ext` with non-empty `base` and dot-free `ext` has suffix `.ext` and stem `base` |
| Discovery.LowerSuffix | benchmark_detectors.py:44 | lower-casing the suffix equals taking the suffix of the lower-cased name |
| Discovery.CaseInsensitive | benchmark_detectors.py:43-44 | names that agree once lower-cased, such as `A.JPG` and `a.jpg`, are both images or both not |
| Discovery.PathLeqTotalOrder | benchmark_detectors.py:44 | the path order used by `sorted` is total, antisymmetric and transitive |
| Discovery.InsertSorted | benchmark_detectors.py:44 | inserting into a sorted sequence keeps it sorted |
| Discovery.SortPaths | benchmark_detectors.py:44 | `sorted()` returns a sorted permutation of its input |
| Discovery.SortedUnique | benchmark_detectors.py:44 | two sorted permutations of the same paths are equal, so the result does not depend on the sorting algorithm |
| Discovery.FilterCounts | benchmark_detectors.py:44 | the comprehension keeps each passing path as often as it occurs and drops the others |
| Discovery.FilterSubsequence | benchmark_detectors.py:44 | the comprehension keeps paths in their input order, given by a strictly increasing index map |
| Discovery.SubsequenceSorted | benchmark_detectors.py:44 | an order-preserving subsequence of a sorted sequence is sorted |
| Discovery.ListImagesSpec | benchmark_detectors.py:42-44 | `list_images` is sorted, an order-preserving subsequence of the sorted listing, and holds each image path as often as the listing does and no other path |
| Discovery.ListImagesMembers | benchmark_detectors.py:42-44 | a path is listed exactly when the directory holds it and its lower-cased suffix is one of the six extensions |
| Detection.MtcnnBoxRoundTrip | benchmark_detectors.py:81-82 | the MTCNN box keeps its corner with `x2 - x1 == w` and `y2 - y1 == h`; a face without a box gives `(0, 0, 0, 0)` |
| Detection.MtcnnBox | benchmark_detectors.py:81-82 | the MTCNN face's `box`, or `[0, 0, 0, 0]` without one, as `(x, y, x + w, y + h)` |
| Detection.FacesOf | benchmark_detectors.py:77 | `detect(...) or []` (and `if res.detections` at line 101): no result gives no faces |
| Detection.Measure | benchmark_detectors.py:76-83 | the result for a decoded image: its name, the number of boxes, the elapsed time and the converted boxes |
| Detection.Pass | benchmark_detectors.py:71-83 | the results after the first n paths: undecodable paths skipped, each other one measured, in path order |
| Detection.ConvertAll | benchmark_detectors.py:79-82 | one box per face, in face order, each the face's conversion |
| Detection.ConvertFaces | benchmark_detectors.py:79-82 | the inner loop appends exactly the converted boxes |
| Detection.DetectorPass | benchmark_detectors.py:87-132 | a MediaPipe or InsightFace pass returns the per-path specification: decodable paths only, each with its name, count, elapsed time and boxes |
| Detection.MtcnnPass | benchmark_detectors.py:67-84 | the MTCNN pass is the same pass with the `(x, y, x + w, y + h)` conversion |
| Detection.PassCounts | benchmark_detectors.py:79-83 | in every result the count equals the number of boxes |
| Detection.PassIndices | benchmark_detectors.py:71-83 | results correspond one to one, in order, to the decodable paths, each the measurement of its path; undecodable paths get none |
| Detection.PassNames | benchmark_detectors.py:71-83 | there are at most as many results as paths, and their names are a subsequence of the path names |
| Report.FirstMatch | benchmark_detectors.py:144-146 | `next(...)` finds no result exactly when no result has the name; otherwise it finds the earliest one with that name |
| Report.FirstMatchAppend | benchmark_detectors.py:144-146 | the first match in a concatenation comes from the front part when there is one there |
| Report.Cell | benchmark_detectors.py:147-149 | `f"{r[1]} ({r[2]:.2f}s)"` for a result, the em dash without one |
| Report.RowFor | benchmark_detectors.py:143-146 | the row of one path: its name and the first result with that name from each detector |
| Report.RenderRow | benchmark_detectors.py:150 | the name and the three cells, each between pipe separators, ending in a newline |
| Report.ReportLines | benchmark_detectors.py:139-150 | the three header writes, then one rendered row per path in order |
| Report.CellPlaceholder | benchmark_detectors.py:147-149 | a cell is the dash exactly when there is no result |
| Report.CellIsPlaceholderIff | benchmark_detectors.py:144-149 | a cell is the dash exactly when no result has the row's name, so an empty result list gives dashes throughout |
| Report.ReportShape | benchmark_detectors.py:139-150 | the report is the three header lines followed by exactly one row per image path, in path order, whatever the detectors returned |
| Report.WriteReport | benchmark_detectors.py:135-150 | the loop writes exactly the report's lines |
| Report.PassNoMatch | benchmark_detectors.py:142-149 | a detector's cell for a name is empty exactly when every path with that name fails to decode |
| Report.PassFirstMatch | benchmark_detectors.py:142-149 | otherwise the cell shows the measurement of the first decodable path with that name |
| Report.DistinctNamesAlign | benchmark_detectors.py:142-149 | with distinct names, each row shows its own image's measurement, or the dash when that image does not decode |
| Report.DuplicateNamesShareRow | benchmark_detectors.py:143-150 | two paths with the same name get identical rows |
| Report.AnnotatedNameParts | benchmark_detectors.py:61 | the output name has suffix `.jpg` and stem `<stem>_<detector>`, and is itself an image name |
| Report.AnnotatedName | benchmark_detectors.py:61 | `<stem>_<detector>.jpg` |
| Report.Annotate | benchmark_detectors.py:54-62 | nothing when the image does not decode; otherwise the output path in the output directory, the source image, the boxes and the detector's caption |
| Report.Annotations | benchmark_detectors.py:173-181 | the annotations for the first n results, each drawn from `img_dir / r[0]`, in result order |
| Report.Child | benchmark_detectors.py:174 | `directory / name`, as in `img_dir / r[0]` and the output path at line 61; an empty name leaves the directory |
| Report.AnnotateAll | benchmark_detectors.py:173-174 | the annotation loop writes exactly the specified annotations |
| Report.AnnotationsFromResults | benchmark_detectors.py:54-62 | every written file is drawn on `img_dir / r[0]` with `r`'s boxes and the detector's caption, and lies in the output directory as `<stem>_<detector>.jpg` |
| Report.AnnotationsCount | benchmark_detectors.py:173-181 | at most one annotation per result, and exactly one when every `img_dir / r[0]` decodes |
| Report.AnnotationSource | benchmark_detectors.py:174 | `img_dir / p.name` is `p` exactly when `p` lies directly in `img_dir`; a nested image is looked up elsewhere |
| Report.RunBenchmark | benchmark_detectors.py:153-185 | main does nothing without images; otherwise it writes the report for MediaPipe and InsightFace with an empty MTCNN column, plus both sets of annotations |
| Report.BenchmarkReportCells | benchmark_detectors.py:166-183 | in main's report every MTCNN cell is the dash, and an image whose paths all fail to decode still has its row, with dashes |

## Left out

- Discovery.Suffix and Discovery.Stem follow the `PurePath.suffix` and
  `PurePath.stem` rules of Python up to 3.13. Python 3.14 changed the rule:
  a single trailing dot counts as a suffix, and leading dots are skipped
  first, so `..jpg` has no suffix. The model does not follow that change.
- The network fetch (`urllib.request.urlretrieve`), `mkdir`, `glob`,
  `exists`, image reading and writing, and console output are not
  modelled. They appear only as oracles: fetch success by URL position, a
  set of present names, the listing of paths, and a decoder.
- The hardcoded URL list at download_benchmark_images.py:14-47 is not
  modelled. Its duplicate Pexels URLs at lines 37, 45 and 46 are covered by
  `Acquisition.DuplicateNameSkipsFetch`, which holds for any URLs with equal
  names.
- Acquisition.SaveOne: a fetch that fails part-way may leave a partial file
  on disk. The model treats every failed fetch as adding no file.
- Text.IsAlnum and Text.Lower cover ASCII only. Python's `str.isalnum` and
  `str.lower` are Unicode-wide, so non-ASCII letters and digits are
  replaced by `_` here.
- The third-party detectors (MTCNN, MediaPipe, InsightFace) are not
  modelled: their inference calls, their lazy imports and the
  `RuntimeError` those raise. Colour conversion and `draw_box` are not
  modelled either. These are foreign libraries.
- MediaPipe's relative-box scaling (`int(bb.xmin * w)` …) and InsightFace's
  `bbox.astype(int)` are not modelled. They are floating-point arithmetic,
  so they enter only as the parameter `toBox`.
- Timing is an oracle. `elapsed` is a real number indexed by the image's
  position, and the `.2f`/`.3f` renderings are not modelled.
- Python exceptions from malformed detector output are not modelled (for
  example an MTCNN `box` without four entries). The model's face records
  always have well-formed boxes.
- Paths compare as `PurePosixPath` does. Windows case-folding in path
  comparison is not modelled.
- The recursive directory walk of `glob("**/*")` is not modelled. Its
  result, in any order, is the input `listing`; directories that `glob`
  returns are filtered like files.
