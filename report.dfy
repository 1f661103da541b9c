/** write_report, the output names of annotate_and_save, and main: the
    report has three fixed header lines and one row per discovered image; each
    detector cell shows the first result carrying the row's name, or a dash.
    Writes to files are the sequence of strings passed to f.write, and the
    '.2f' rendering of an elapsed time is a parameter. */
module Report {
  import opened Text
  import opened Discovery
  import opened Detection

  /** The cell for an image a detector has no result for: an em dash. */
  const Placeholder: string := "\U{2014}"

  /** The three f.write calls before the rows. */
  const ReportHeader: seq<string> := [
    "# Detection Pipeline Benchmark\n\n",
    "| Image | MTCNN | MediaPipe | InsightFace |\n",
    "|-------|-------|-----------|-------------|\n"
  ]

  /** `next((r for r in results if r[0] == name), None)`: the first result
      whose name is the given name. */
  function FirstMatch(results: seq<Result>, name: string): (m: Option<Result>)
    ensures m.None? <==> forall k :: 0 <= k < |results| ==> results[k].name != name
    ensures m.Some? ==> exists k :: 0 <= k < |results| && results[k] == m.value && results[k].name == name
                                    && forall j :: 0 <= j < k ==> results[j].name != name
  {
    if results == [] then None
    else if results[0].name == name then Some(results[0])
    else
      var m := FirstMatch(results[1..], name);
      assert forall k :: 0 < k < |results| ==> results[k] == results[1..][k - 1];
      m
  }

  /** The first match in a concatenation is the first match in its front
      part, or else the first match in its back part. */
  lemma {:induction false} FirstMatchAppend(a: seq<Result>, b: seq<Result>, name: string)
    ensures FirstMatch(a + b, name) == if FirstMatch(a, name).Some? then FirstMatch(a, name) else FirstMatch(b, name)
    decreases |a|
  {
    if a != [] {
      assert (a + b)[0] == a[0];
      assert (a + b)[1..] == a[1..] + b;
      FirstMatchAppend(a[1..], b, name);
    } else {
      assert a + b == b;
    }
  }

  /** A cell: `f"{r[1]} ({r[2]:.2f}s)"` for a result, the dash otherwise. */
  function Cell(m: Option<Result>, seconds: real -> string): string {
    if m.Some? then Decimal(m.value.count) + " (" + seconds(m.value.elapsed) + "s)" else Placeholder
  }

  /** A cell shows the dash exactly when there is no result: a result's cell
      starts with a digit. */
  lemma CellPlaceholder(m: Option<Result>, seconds: real -> string)
    ensures Cell(m, seconds) == Placeholder <==> m.None?
  {
    if m.Some? {
      var c := Cell(m, seconds);
      assert c[0] == Decimal(m.value.count)[0];
      assert IsDigit(c[0]);
    }
  }

  /** The columns of one row before rendering. */
  datatype Row = Row(name: string, mtcnn: Option<Result>, mediapipe: Option<Result>, insightface: Option<Result>)

  /** Lines 143-146: the row of one image path. */
  function RowFor(p: Path, mtcnn: seq<Result>, mediapipe: seq<Result>, insightface: seq<Result>): Row {
    var name := Name(p);
    Row(name, FirstMatch(mtcnn, name), FirstMatch(mediapipe, name), FirstMatch(insightface, name))
  }

  /** Line 150. */
  function RenderRow(row: Row, seconds: real -> string): string {
    "| " + row.name + " | " + Cell(row.mtcnn, seconds) + " | " + Cell(row.mediapipe, seconds)
    + " | " + Cell(row.insightface, seconds) + " |\n"
  }

  /** The writes of write_report for the first paths. */
  function ReportLines(paths: seq<Path>, mtcnn: seq<Result>, mediapipe: seq<Result>, insightface: seq<Result>,
                       seconds: real -> string): seq<string>
  {
    if paths == [] then ReportHeader
    else
      var last := RowFor(paths[|paths| - 1], mtcnn, mediapipe, insightface);
      ReportLines(paths[..|paths| - 1], mtcnn, mediapipe, insightface, seconds) + [RenderRow(last, seconds)]
  }

  /** The report is the three header lines and then one row per path, in path
      order, whatever the detectors returned. */
  lemma {:induction false} ReportShape(paths: seq<Path>, mtcnn: seq<Result>, mediapipe: seq<Result>,
                                       insightface: seq<Result>, seconds: real -> string)
    ensures var lines := ReportLines(paths, mtcnn, mediapipe, insightface, seconds);
      |lines| == |ReportHeader| + |paths|
      && lines[..|ReportHeader|] == ReportHeader
      && forall i :: 0 <= i < |paths| ==>
           lines[|ReportHeader| + i] == RenderRow(RowFor(paths[i], mtcnn, mediapipe, insightface), seconds)
    decreases |paths|
  {
    if paths != [] {
      var init := paths[..|paths| - 1];
      ReportShape(init, mtcnn, mediapipe, insightface, seconds);
      var prev := ReportLines(init, mtcnn, mediapipe, insightface, seconds);
      var lines := ReportLines(paths, mtcnn, mediapipe, insightface, seconds);
      assert lines == prev + [RenderRow(RowFor(paths[|paths| - 1], mtcnn, mediapipe, insightface), seconds)];
      assert lines[..|ReportHeader|] == prev[..|ReportHeader|];
      forall i | 0 <= i < |init|
        ensures lines[|ReportHeader| + i] == RenderRow(RowFor(paths[i], mtcnn, mediapipe, insightface), seconds)
      {
        assert lines[|ReportHeader| + i] == prev[|ReportHeader| + i];
        assert init[i] == paths[i];
      }
    }
  }

  /** write_report, as the sequence of strings it writes. */
  method WriteReport(paths: seq<Path>, mtcnn: seq<Result>, mediapipe: seq<Result>, insightface: seq<Result>,
                     seconds: real -> string)
    returns (writes: seq<string>)
    ensures writes == ReportLines(paths, mtcnn, mediapipe, insightface, seconds)
  {
    writes := ReportHeader;
    var i := 0;
    while i < |paths|
      invariant i <= |paths|
      invariant writes == ReportLines(paths[..i], mtcnn, mediapipe, insightface, seconds)
    {
      var p := paths[i];
      var name := Name(p);
      var mt := FirstMatch(mtcnn, name);
      var mp := FirstMatch(mediapipe, name);
      var inf := FirstMatch(insightface, name);
      assert paths[..i + 1][..i] == paths[..i];
      writes := writes + ["| " + name + " | " + Cell(mt, seconds) + " | " + Cell(mp, seconds) + " | " + Cell(inf, seconds) + " |\n"];
      i := i + 1;
    }
    assert paths[..i] == paths;
  }

  /** A cell is the dash exactly when no result carries the row's name; with
      no results at all, as for MTCNN in main, every cell of the column is the
      dash. */
  lemma CellIsPlaceholderIff(results: seq<Result>, name: string, seconds: real -> string)
    ensures Cell(FirstMatch(results, name), seconds) == Placeholder <==> forall k :: 0 <= k < |results| ==> results[k].name != name
    ensures results == [] ==> Cell(FirstMatch(results, name), seconds) == Placeholder
  {
    CellPlaceholder(FirstMatch(results, name), seconds);
  }

  /** The results for a name are empty exactly when every path with that
      name fails to decode. */
  lemma {:induction false} PassNoMatch<Img, Face>(paths: seq<Path>, decode: Path -> Option<Img>, detect: Img -> Option<seq<Face>>,
                                                toBox: Face -> Box, elapsed: nat -> real, n: nat, name: string)
    requires n <= |paths|
    ensures FirstMatch(Pass(paths, decode, detect, toBox, elapsed, n), name).None?
        <==> forall i :: 0 <= i < n && Name(paths[i]) == name ==> decode(paths[i]).None?
  {
    if n > 0 {
      PassNoMatch(paths, decode, detect, toBox, elapsed, n - 1, name);
      var p := paths[n - 1];
      var tail := if decode(p).Some? then [Measure(p, decode(p).value, detect, toBox, elapsed(n - 1))] else [];
      FirstMatchAppend(Pass(paths, decode, detect, toBox, elapsed, n - 1), tail, name);
      assert FirstMatch(tail, name).None? <==> Name(p) != name || decode(p).None?;
    }
  }

  /** The cell a pass's results give a name: the measurement of the first
      decodable path with that name. */
  lemma {:induction false} PassFirstMatch<Img, Face>(paths: seq<Path>, decode: Path -> Option<Img>, detect: Img -> Option<seq<Face>>,
                                                   toBox: Face -> Box, elapsed: nat -> real, n: nat, i: nat)
    requires i < n <= |paths|
    requires decode(paths[i]).Some?
    requires forall j :: 0 <= j < i && Name(paths[j]) == Name(paths[i]) ==> decode(paths[j]).None?
    ensures FirstMatch(Pass(paths, decode, detect, toBox, elapsed, n), Name(paths[i]))
         == Some(Measure(paths[i], decode(paths[i]).value, detect, toBox, elapsed(i)))
  {
    var name := Name(paths[i]);
    var p := paths[n - 1];
    var prev := Pass(paths, decode, detect, toBox, elapsed, n - 1);
    var tail := if decode(p).Some? then [Measure(p, decode(p).value, detect, toBox, elapsed(n - 1))] else [];
    FirstMatchAppend(prev, tail, name);
    if i < n - 1 {
      PassFirstMatch(paths, decode, detect, toBox, elapsed, n - 1, i);
    } else {
      PassNoMatch(paths, decode, detect, toBox, elapsed, n - 1, name);
      assert tail[0].name == name;
    }
  }

  /** When the image names are distinct, a row shows exactly its own image's
      measurement, and a dash when that image does not decode. */
  lemma DistinctNamesAlign<Img, Face>(paths: seq<Path>, decode: Path -> Option<Img>, detect: Img -> Option<seq<Face>>,
                                      toBox: Face -> Box, elapsed: nat -> real, i: nat)
    requires i < |paths|
    requires forall j :: 0 <= j < |paths| && j != i ==> Name(paths[j]) != Name(paths[i])
    ensures FirstMatch(Pass(paths, decode, detect, toBox, elapsed, |paths|), Name(paths[i]))
         == if decode(paths[i]).Some? then Some(Measure(paths[i], decode(paths[i]).value, detect, toBox, elapsed(i))) else None
  {
    if decode(paths[i]).Some? {
      PassFirstMatch(paths, decode, detect, toBox, elapsed, |paths|, i);
    } else {
      PassNoMatch(paths, decode, detect, toBox, elapsed, |paths|, Name(paths[i]));
    }
  }

  /** Paths that share a name share a row: both rows show the same cells. */
  lemma DuplicateNamesShareRow(p: Path, q: Path, mtcnn: seq<Result>, mediapipe: seq<Result>,
                               insightface: seq<Result>, seconds: real -> string)
    requires Name(p) == Name(q)
    ensures RenderRow(RowFor(p, mtcnn, mediapipe, insightface), seconds)
         == RenderRow(RowFor(q, mtcnn, mediapipe, insightface), seconds)
  {
  }

  /** Line 61: `<stem>_<detector>.jpg`. */
  function AnnotatedName(name: string, detector: string): string {
    Stem(name) + "_" + detector + ".jpg"
  }

  /** The output name has suffix .jpg and keeps the image's stem and the
      detector's name before it; list_images would take it for an image. */
  lemma AnnotatedNameParts(name: string, detector: string)
    ensures Suffix(AnnotatedName(name, detector)) == ".jpg"
    ensures Stem(AnnotatedName(name, detector)) == Stem(name) + "_" + detector
    ensures IsImage([AnnotatedName(name, detector)])
  {
    SuffixOfExtension(Stem(name) + "_" + detector, "jpg");
    assert Stem(name) + "_" + detector + "." + "jpg" == AnnotatedName(name, detector);
    assert Lower(".jpg") == ".jpg";
  }

  /** `directory / name`: appending an empty name leaves the path as it is. */
  function Child(directory: Path, name: string): Path {
    if name == "" then directory else directory + [name]
  }

  /** A file annotate_and_save writes: its path, the image it was drawn on,
      the boxes and the caption drawn with them. */
  datatype Annotation = Annotation(output: Path, source: Path, boxes: seq<Box>, caption: string)

  /** annotate_and_save: nothing when the image does not decode. */
  function Annotate<Img>(detector: string, imgPath: Path, boxes: seq<Box>, outDir: Path, decode: Path -> Option<Img>): Option<Annotation> {
    if decode(imgPath).None? then None
    else Some(Annotation(Child(outDir, AnnotatedName(Name(imgPath), detector)), imgPath, boxes, detector))
  }

  /** The files written for the first n results, each drawn from the image
      `imgDir / r[0]`. */
  function Annotations<Img>(detector: string, imgDir: Path, results: seq<Result>, outDir: Path, decode: Path -> Option<Img>, n: nat): seq<Annotation>
    requires n <= |results|
  {
    if n == 0 then []
    else
      var r := results[n - 1];
      var a := Annotate(detector, Child(imgDir, r.name), r.boxes, outDir, decode);
      Annotations(detector, imgDir, results, outDir, decode, n - 1) + if a.Some? then [a.value] else []
  }

  /** The annotation loops of main. */
  method AnnotateAll<Img>(detector: string, imgDir: Path, results: seq<Result>, outDir: Path, decode: Path -> Option<Img>)
    returns (written: seq<Annotation>)
    ensures written == Annotations(detector, imgDir, results, outDir, decode, |results|)
  {
    written := [];
    var i := 0;
    while i < |results|
      invariant i <= |results|
      invariant written == Annotations(detector, imgDir, results, outDir, decode, i)
    {
      var r := results[i];
      var imgPath := Child(imgDir, r.name);
      if decode(imgPath).Some? {
        var out := Child(outDir, AnnotatedName(Name(imgPath), detector));
        written := written + [Annotation(out, imgPath, r.boxes, detector)];
      }
      i := i + 1;
    }
  }

  /** a is the annotation of result r: drawn, captioned with the detector's
      name, on the image `imgDir / r[0]` with r's boxes, and written to outDir
      under `<stem>_<detector>.jpg`. */
  predicate AnnotationOf(a: Annotation, detector: string, imgDir: Path, r: Result, outDir: Path) {
    && a.source == Child(imgDir, r.name)
    && a.boxes == r.boxes
    && a.caption == detector
    && a.output == outDir + [AnnotatedName(Name(a.source), detector)]
  }

  /** Every annotation written is the annotation of some result. */
  lemma {:induction false} AnnotationsFromResults<Img>(detector: string, imgDir: Path, results: seq<Result>, outDir: Path,
                                                     decode: Path -> Option<Img>, n: nat)
    requires n <= |results|
    ensures forall a :: a in Annotations(detector, imgDir, results, outDir, decode, n) ==>
              exists k :: 0 <= k < n && AnnotationOf(a, detector, imgDir, results[k], outDir)
  {
    if n > 0 {
      AnnotationsFromResults(detector, imgDir, results, outDir, decode, n - 1);
      var prev := Annotations(detector, imgDir, results, outDir, decode, n - 1);
      var r := results[n - 1];
      var source := Child(imgDir, r.name);
      var a := Annotate(detector, source, r.boxes, outDir, decode);
      if a.Some? {
        assert AnnotatedName(Name(source), detector) != "";
        assert AnnotationOf(a.value, detector, imgDir, r, outDir);
        assert Annotations(detector, imgDir, results, outDir, decode, n) == prev + [a.value];
      } else {
        assert Annotations(detector, imgDir, results, outDir, decode, n) == prev;
      }
    }
  }

  /** There are at most as many annotations as results, and exactly as many
      when every image `imgDir / r[0]` decodes. */
  lemma {:induction false} AnnotationsCount<Img>(detector: string, imgDir: Path, results: seq<Result>, outDir: Path,
                                               decode: Path -> Option<Img>, n: nat)
    requires n <= |results|
    ensures |Annotations(detector, imgDir, results, outDir, decode, n)| <= n
    ensures (forall k :: 0 <= k < n ==> decode(Child(imgDir, results[k].name)).Some?)
            ==> |Annotations(detector, imgDir, results, outDir, decode, n)| == n
  {
    if n > 0 {
      AnnotationsCount(detector, imgDir, results, outDir, decode, n - 1);
    }
  }

  /** An image directly inside imgDir is re-read from its own path when it is
      annotated; an image in a subdirectory is looked up as `imgDir / name`,
      a different path. */
  lemma AnnotationSource(imgDir: Path, p: Path)
    requires |p| > |imgDir| && p[..|imgDir|] == imgDir && Name(p) != ""
    ensures Child(imgDir, Name(p)) == p <==> |p| == |imgDir| + 1
  {
    if |p| == |imgDir| + 1 {
      assert p == p[..|imgDir|] + [p[|imgDir|]];
    }
  }

  /** What main leaves behind when there are images: the report's writes and
      the annotated files, MediaPipe's first. */
  datatype Outcome = Outcome(report: seq<string>, annotations: seq<Annotation>)

  /** main, with the directory listing, the decoder, the two detectors that
      run, their timings and the seconds formatter as parameters. MTCNN is
      skipped and reported with an empty result list. */
  method RunBenchmark<Img, MpFace, InfFace>(imgDir: Path, listing: seq<Path>, outDir: Path, decode: Path -> Option<Img>,
                                           mpDetect: Img -> Option<seq<MpFace>>, mpBox: MpFace -> Box, mpElapsed: nat -> real,
                                           infDetect: Img -> Option<seq<InfFace>>, infBox: InfFace -> Box, infElapsed: nat -> real,
                                           seconds: real -> string)
    returns (outcome: Option<Outcome>)
    ensures var imgs := ListImages(listing);
      && (outcome.None? <==> imgs == [])
      && (outcome.Some? ==>
            var mp := Pass(imgs, decode, mpDetect, mpBox, mpElapsed, |imgs|);
            var inf := Pass(imgs, decode, infDetect, infBox, infElapsed, |imgs|);
            outcome.value == Outcome(ReportLines(imgs, [], mp, inf, seconds),
                                     Annotations("MediaPipe", imgDir, mp, outDir, decode, |mp|)
                                     + Annotations("InsightFace", imgDir, inf, outDir, decode, |inf|)))
  {
    var imgs := ListImages(listing);
    if imgs == [] {
      return None;
    }
    var mtcnn: seq<Result> := [];
    var mp := DetectorPass(imgs, decode, mpDetect, mpBox, mpElapsed);
    var mpWritten := AnnotateAll("MediaPipe", imgDir, mp, outDir, decode);
    var inf := DetectorPass(imgs, decode, infDetect, infBox, infElapsed);
    var infWritten := AnnotateAll("InsightFace", imgDir, inf, outDir, decode);
    var report := WriteReport(imgs, mtcnn, mp, inf, seconds);
    outcome := Some(Outcome(report, mpWritten + infWritten));
  }

  /** In main's report every MTCNN cell is the dash, and an image that every
      path with its name fails to decode gets a row of dashes: such an image
      keeps its row. */
  lemma BenchmarkReportCells<Img, MpFace, InfFace>(imgs: seq<Path>, decode: Path -> Option<Img>,
                                                  mpDetect: Img -> Option<seq<MpFace>>, mpBox: MpFace -> Box, mpElapsed: nat -> real,
                                                  infDetect: Img -> Option<seq<InfFace>>, infBox: InfFace -> Box, infElapsed: nat -> real,
                                                  i: nat)
    requires i < |imgs|
    ensures var mp := Pass(imgs, decode, mpDetect, mpBox, mpElapsed, |imgs|);
      var inf := Pass(imgs, decode, infDetect, infBox, infElapsed, |imgs|);
      var row := RowFor(imgs[i], [], mp, inf);
      && row.name == Name(imgs[i])
      && row.mtcnn.None?
      && ((forall j :: 0 <= j < |imgs| && Name(imgs[j]) == Name(imgs[i]) ==> decode(imgs[j]).None?) ==>
            row.mediapipe.None? && row.insightface.None?)
  {
    PassNoMatch(imgs, decode, mpDetect, mpBox, mpElapsed, |imgs|, Name(imgs[i]));
    PassNoMatch(imgs, decode, infDetect, infBox, infElapsed, |imgs|, Name(imgs[i]));
  }
}
