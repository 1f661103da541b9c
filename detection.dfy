/** The per-image loops of benchmark_mtcnn, benchmark_mediapipe and
    benchmark_insightface. The three share one shape: skip an image that does
    not decode, otherwise time the detector, convert each face to corner
    coordinates and append (name, count, elapsed, boxes). The decoder, the
    detectors and their face records are parameters; elapsed times come from
    an oracle indexed by the image's position. */
module Detection {
  import opened Text
  import opened Discovery

  /** A box as corner coordinates (x1, y1, x2, y2). */
  datatype Box = Box(x1: int, y1: int, x2: int, y2: int)

  /** A box as MTCNN reports it: corner, width and height. */
  datatype Xywh = Xywh(x: int, y: int, w: int, h: int)

  /** An MTCNN face record, whose 'box' entry may be missing. */
  datatype MtcnnFace = MtcnnFace(box: Option<Xywh>)

  /** One entry of a pass's results: (p.name, len(boxes), elapsed, boxes). */
  datatype Result = Result(name: string, count: nat, elapsed: real, boxes: seq<Box>)

  /** Lines 81-82: the (x, y, w, h) box, or [0, 0, 0, 0] without one, as
      (x, y, x + w, y + h). */
  function MtcnnBox(f: MtcnnFace): Box {
    var b := if f.box.Some? then f.box.value else Xywh(0, 0, 0, 0);
    Box(b.x, b.y, b.x + b.w, b.y + b.h)
  }

  /** The inverse reading of a corner box: its corner, width and height. */
  function Extent(b: Box): Xywh {
    Xywh(b.x1, b.y1, b.x2 - b.x1, b.y2 - b.y1)
  }

  /** The conversion keeps the corner and gives x2 - x1 == w, y2 - y1 == h;
      a face without a box gives the zero box. */
  lemma MtcnnBoxRoundTrip(f: MtcnnFace)
    ensures f.box.Some? ==> Extent(MtcnnBox(f)) == f.box.value
    ensures f.box.None? ==> MtcnnBox(f) == Box(0, 0, 0, 0)
  {
  }

  /** `detector(...) or []`, and `if res.detections:` in the MediaPipe pass:
      no result and an empty result both give no faces. */
  function FacesOf<Face>(found: Option<seq<Face>>): seq<Face> {
    if found.Some? then found.value else []
  }

  /** The boxes the inner loop appends, one per face, in face order. */
  function ConvertAll<Face>(faces: seq<Face>, toBox: Face -> Box): (boxes: seq<Box>)
    ensures |boxes| == |faces|
    ensures forall k :: 0 <= k < |faces| ==> boxes[k] == toBox(faces[k])
  {
    if faces == [] then []
    else ConvertAll(faces[..|faces| - 1], toBox) + [toBox(faces[|faces| - 1])]
  }

  /** The result for one decoded image. */
  function Measure<Img, Face>(p: Path, img: Img, detect: Img -> Option<seq<Face>>, toBox: Face -> Box, elapsed: real): Result {
    var boxes := ConvertAll(FacesOf(detect(img)), toBox);
    Result(Name(p), |boxes|, elapsed, boxes)
  }

  /** The results after the first n paths. */
  function Pass<Img, Face>(paths: seq<Path>, decode: Path -> Option<Img>, detect: Img -> Option<seq<Face>>,
                           toBox: Face -> Box, elapsed: nat -> real, n: nat): seq<Result>
    requires n <= |paths|
  {
    if n == 0 then []
    else
      var p := paths[n - 1];
      Pass(paths, decode, detect, toBox, elapsed, n - 1)
      + if decode(p).Some? then [Measure(p, decode(p).value, detect, toBox, elapsed(n - 1))] else []
  }

  /** The inner loop: one box per face. */
  method ConvertFaces<Face>(faces: seq<Face>, toBox: Face -> Box) returns (boxes: seq<Box>)
    ensures boxes == ConvertAll(faces, toBox)
  {
    boxes := [];
    var j := 0;
    while j < |faces|
      invariant j <= |faces|
      invariant boxes == ConvertAll(faces[..j], toBox)
    {
      assert faces[..j + 1][..j] == faces[..j];
      boxes := boxes + [toBox(faces[j])];
      j := j + 1;
    }
    assert faces[..j] == faces;
  }

  /** One detector pass over the image paths. */
  method DetectorPass<Img, Face>(paths: seq<Path>, decode: Path -> Option<Img>, detect: Img -> Option<seq<Face>>,
                                 toBox: Face -> Box, elapsed: nat -> real)
    returns (results: seq<Result>)
    ensures results == Pass(paths, decode, detect, toBox, elapsed, |paths|)
  {
    results := [];
    var i := 0;
    while i < |paths|
      invariant i <= |paths|
      invariant results == Pass(paths, decode, detect, toBox, elapsed, i)
    {
      var p := paths[i];
      var img := decode(p);
      if img.None? {
        i := i + 1;
        continue;
      }
      var t := elapsed(i);
      var boxes := ConvertFaces(FacesOf(detect(img.value)), toBox);
      results := results + [Result(Name(p), |boxes|, t, boxes)];
      i := i + 1;
    }
  }

  /** benchmark_mtcnn: the pass with MTCNN's box conversion. */
  method MtcnnPass<Img>(paths: seq<Path>, decode: Path -> Option<Img>, detect: Img -> Option<seq<MtcnnFace>>, elapsed: nat -> real)
    returns (results: seq<Result>)
    ensures results == Pass(paths, decode, detect, MtcnnBox, elapsed, |paths|)
  {
    results := DetectorPass(paths, decode, detect, MtcnnBox, elapsed);
  }

  /** In every result the count is the number of boxes. */
  lemma {:induction false} PassCounts<Img, Face>(paths: seq<Path>, decode: Path -> Option<Img>, detect: Img -> Option<seq<Face>>,
                                               toBox: Face -> Box, elapsed: nat -> real, n: nat)
    requires n <= |paths|
    ensures forall r :: r in Pass(paths, decode, detect, toBox, elapsed, n) ==> r.count == |r.boxes|
  {
    if n > 0 {
      PassCounts(paths, decode, detect, toBox, elapsed, n - 1);
    }
  }

  /** r is the measurement of paths[i], which decodes. */
  predicate MeasuredAt<Img, Face>(r: Result, paths: seq<Path>, i: nat, decode: Path -> Option<Img>,
                                  detect: Img -> Option<seq<Face>>, toBox: Face -> Box, elapsed: nat -> real)
    requires i < |paths|
  {
    decode(paths[i]).Some? && r == Measure(paths[i], decode(paths[i]).value, detect, toBox, elapsed(i))
  }

  /** A pass yields one result per decodable path and none for the others, in
      path order: a strictly increasing index map sends each result to the
      path it measures, and reaches every decodable path. */
  lemma {:induction false} PassIndices<Img, Face>(paths: seq<Path>, decode: Path -> Option<Img>, detect: Img -> Option<seq<Face>>,
                                                toBox: Face -> Box, elapsed: nat -> real, n: nat)
    returns (idx: seq<nat>)
    requires n <= |paths|
    ensures var results := Pass(paths, decode, detect, toBox, elapsed, n);
      |idx| == |results|
      && (forall k :: 0 <= k < |idx| ==> idx[k] < n && MeasuredAt(results[k], paths, idx[k], decode, detect, toBox, elapsed))
      && (forall k, l :: 0 <= k < l < |idx| ==> idx[k] < idx[l])
      && (forall i :: 0 <= i < n && decode(paths[i]).Some? ==> i in idx)
  {
    if n == 0 {
      idx := [];
    } else {
      var prev := PassIndices(paths, decode, detect, toBox, elapsed, n - 1);
      var front := Pass(paths, decode, detect, toBox, elapsed, n - 1);
      var p := paths[n - 1];
      if decode(p).Some? {
        idx := prev + [n - 1];
        assert Pass(paths, decode, detect, toBox, elapsed, n) == front + [Measure(p, decode(p).value, detect, toBox, elapsed(n - 1))];
        assert forall k :: 0 <= k < |prev| ==> idx[k] == prev[k];
        assert MeasuredAt(Pass(paths, decode, detect, toBox, elapsed, n)[|prev|], paths, n - 1, decode, detect, toBox, elapsed);
      } else {
        idx := prev;
        assert Pass(paths, decode, detect, toBox, elapsed, n) == front;
      }
    }
  }

  /** The result names are the names of the decodable paths, in path order:
      a subsequence of the input names. */
  lemma PassNames<Img, Face>(paths: seq<Path>, decode: Path -> Option<Img>, detect: Img -> Option<seq<Face>>,
                             toBox: Face -> Box, elapsed: nat -> real)
    ensures var results := Pass(paths, decode, detect, toBox, elapsed, |paths|);
      |results| <= |paths|
      && (exists idx: seq<nat> ::
            && |idx| == |results|
            && (forall k :: 0 <= k < |idx| ==> idx[k] < |paths| && results[k].name == Name(paths[idx[k]]))
            && (forall k, l :: 0 <= k < l < |idx| ==> idx[k] < idx[l]))
  {
    var idx := PassIndices(paths, decode, detect, toBox, elapsed, |paths|);
    IncreasingBound(idx, |paths|);
  }

  /** A strictly increasing sequence of indices below n has at most n
      elements. */
  lemma {:induction false} IncreasingBound(idx: seq<nat>, n: nat)
    requires forall k :: 0 <= k < |idx| ==> idx[k] < n
    requires forall k, l :: 0 <= k < l < |idx| ==> idx[k] < idx[l]
    ensures |idx| <= n
    decreases n
  {
    if idx != [] {
      var init := idx[..|idx| - 1];
      IncreasingBound(init, idx[|idx| - 1]);
    }
  }
}
