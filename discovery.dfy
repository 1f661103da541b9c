/** Image discovery: list_images keeps the sorted paths whose lower-cased
    Path.suffix is one of six image extensions. A path is the sequence of its
    components; Python's PurePosixPath orders paths component by component,
    each component by code point. */
module Discovery {
  import opened Text

  type Path = seq<string>

  /** Path.name: the final component, empty for the empty path. */
  function Name(p: Path): string {
    if p == [] then "" else p[|p| - 1]
  }

  /** str.rfind for one character: the last index holding c, or -1. */
  function RFind(s: string, c: char): (i: int)
    ensures -1 <= i < |s|
    ensures i >= 0 ==> s[i] == c && c !in s[i + 1..]
    ensures i == -1 ==> c !in s
  {
    if s == [] then -1
    else if s[|s| - 1] == c then |s| - 1
    else
      var i := RFind(s[..|s| - 1], c);
      assert s == s[..|s| - 1] + [s[|s| - 1]];
      i
  }

  /** Path.suffix of a name: from its last dot, provided that dot is neither
      the first nor the last character; otherwise empty. */
  function Suffix(name: string): string {
    var i := RFind(name, '.');
    if 0 < i < |name| - 1 then name[i..] else ""
  }

  /** Path.stem of a name: the name without its suffix. */
  function Stem(name: string): string {
    var i := RFind(name, '.');
    if 0 < i < |name| - 1 then name[..i] else name
  }

  /** Stem and suffix split the name: nothing is lost or added, the suffix is
      empty or a dot followed by at least one character that is not a dot, and
      a non-empty stem is what remains before it. */
  lemma StemSuffixSplit(name: string)
    ensures Stem(name) + Suffix(name) == name
    ensures Suffix(name) == "" || (|Suffix(name)| >= 2 && Suffix(name)[0] == '.' && '.' !in Suffix(name)[1..])
    ensures Suffix(name) != "" ==> Stem(name) != ""
  {
    var i := RFind(name, '.');
    if 0 < i < |name| - 1 {
      assert name[..i] + name[i..] == name;
      assert name[i..][1..] == name[i + 1..];
    }
  }

  /** A name that ends in a dot followed by a dot-free extension has exactly
      that suffix, whenever something stands before the dot. */
  lemma {:induction false} SuffixOfExtension(base: string, ext: string)
    requires base != [] && ext != [] && '.' !in ext
    ensures Suffix(base + "." + ext) == "." + ext
    ensures Stem(base + "." + ext) == base
  {
    var name := base + "." + ext;
    RFindLastDot(base, ext);
    assert name[|base|..] == "." + ext;
    assert name[..|base|] == base;
  }

  lemma {:induction false} RFindLastDot(base: string, ext: string)
    requires '.' !in ext
    ensures RFind(base + "." + ext, '.') == |base|
    decreases |ext|
  {
    var name := base + "." + ext;
    if ext == [] {
      assert name[|name| - 1] == '.';
    } else {
      var shorter := ext[..|ext| - 1];
      assert name[|name| - 1] == ext[|ext| - 1];
      assert name[..|name| - 1] == base + "." + shorter;
      assert forall c :: c in shorter ==> c in ext;
      RFindLastDot(base, shorter);
    }
  }

  /** Lower-casing does not move the last dot. */
  lemma {:induction false} RFindLower(s: string)
    ensures RFind(Lower(s), '.') == RFind(s, '.')
    decreases |s|
  {
    if s != [] {
      var init := s[..|s| - 1];
      assert Lower(s)[..|s| - 1] == Lower(init);
      RFindLower(init);
    }
  }

  /** Lower-casing a name and taking its suffix commute. */
  lemma LowerSuffix(name: string)
    ensures Lower(Suffix(name)) == Suffix(Lower(name))
  {
    RFindLower(name);
    var i := RFind(name, '.');
    if 0 < i < |name| - 1 {
      assert Lower(name[i..]) == Lower(name)[i..];
    } else {
      assert Lower("") == "";
    }
  }

  /** The extensions list_images accepts. */
  const ImageExtensions: set<string> := {".jpg", ".jpeg", ".png", ".bmp", ".avif", ".webp"}

  /** The test of list_images: the lower-cased suffix of the name is one of
      the image extensions. */
  predicate IsImage(p: Path) {
    Lower(Suffix(Name(p))) in ImageExtensions
  }

  /** Matching ignores case: two paths whose names agree once lower-cased,
      such as A.JPG and a.jpg, are either both images or both not. */
  lemma CaseInsensitive(p: Path, q: Path)
    requires Lower(Name(p)) == Lower(Name(q))
    ensures IsImage(p) <==> IsImage(q)
  {
    LowerSuffix(Name(p));
    LowerSuffix(Name(q));
  }

  /** Code-point order on strings, as Python compares str values. */
  predicate StrLess(a: string, b: string)
    decreases |a|
  {
    b != [] && (a == [] || a[0] < b[0] || (a[0] == b[0] && StrLess(a[1..], b[1..])))
  }

  lemma {:induction false} StrLessIrreflexive(a: string)
    ensures !StrLess(a, a)
    decreases |a|
  {
    if a != [] {
      StrLessIrreflexive(a[1..]);
    }
  }

  lemma {:induction false} StrLessTransitive(a: string, b: string, c: string)
    requires StrLess(a, b) && StrLess(b, c)
    ensures StrLess(a, c)
    decreases |a|
  {
    if a != [] && a[0] == b[0] && b[0] == c[0] {
      StrLessTransitive(a[1..], b[1..], c[1..]);
    }
  }

  lemma {:induction false} StrLessTotal(a: string, b: string)
    requires a != b
    ensures StrLess(a, b) || StrLess(b, a)
    decreases |a|
  {
    if a != [] && b != [] && a[0] == b[0] {
      assert a == [a[0]] + a[1..];
      assert b == [b[0]] + b[1..];
      StrLessTotal(a[1..], b[1..]);
    }
  }

  /** PurePosixPath ordering: lexicographic over components. */
  predicate PathLess(p: Path, q: Path)
    decreases |p|
  {
    q != [] && (p == [] || StrLess(p[0], q[0]) || (p[0] == q[0] && PathLess(p[1..], q[1..])))
  }

  predicate PathLeq(p: Path, q: Path) {
    p == q || PathLess(p, q)
  }

  lemma {:induction false} PathLessIrreflexive(p: Path)
    ensures !PathLess(p, p)
    decreases |p|
  {
    if p != [] {
      StrLessIrreflexive(p[0]);
      PathLessIrreflexive(p[1..]);
    }
  }

  lemma {:induction false} PathLessTransitive(p: Path, q: Path, r: Path)
    requires PathLess(p, q) && PathLess(q, r)
    ensures PathLess(p, r)
    decreases |p|
  {
    if p != [] {
      if StrLess(p[0], q[0]) && StrLess(q[0], r[0]) {
        StrLessTransitive(p[0], q[0], r[0]);
      } else if p[0] == q[0] && q[0] == r[0] {
        PathLessTransitive(p[1..], q[1..], r[1..]);
      }
    }
  }

  lemma {:induction false} PathLessTotal(p: Path, q: Path)
    requires p != q
    ensures PathLess(p, q) || PathLess(q, p)
    decreases |p|
  {
    if p != [] && q != [] {
      if p[0] == q[0] {
        assert p == [p[0]] + p[1..];
        assert q == [q[0]] + q[1..];
        PathLessTotal(p[1..], q[1..]);
      } else {
        StrLessTotal(p[0], q[0]);
      }
    }
  }

  /** PathLeq is a total order. */
  lemma PathLeqTotalOrder(p: Path, q: Path, r: Path)
    ensures PathLeq(p, q) || PathLeq(q, p)
    ensures PathLeq(p, q) && PathLeq(q, p) ==> p == q
    ensures PathLeq(p, q) && PathLeq(q, r) ==> PathLeq(p, r)
  {
    if p != q {
      PathLessTotal(p, q);
      if PathLess(p, q) && PathLess(q, p) {
        PathLessTransitive(p, q, p);
        PathLessIrreflexive(p);
      }
    }
    if PathLess(p, q) && PathLess(q, r) {
      PathLessTransitive(p, q, r);
    }
  }

  predicate Sorted(s: seq<Path>) {
    forall i, j :: 0 <= i < j < |s| ==> PathLeq(s[i], s[j])
  }

  /** Inserts p before the first path that is not below it. */
  function Insert(p: Path, s: seq<Path>): (r: seq<Path>)
    ensures multiset(r) == multiset(s) + multiset{p}
  {
    if s == [] then [p]
    else if PathLeq(p, s[0]) then [p] + s
    else
      assert s == [s[0]] + s[1..];
      [s[0]] + Insert(p, s[1..])
  }

  /** A lower bound of p and of every element of s bounds the insertion. */
  lemma {:induction false} InsertKeepsBound(x: Path, p: Path, s: seq<Path>)
    requires PathLeq(x, p)
    requires forall j :: 0 <= j < |s| ==> PathLeq(x, s[j])
    ensures forall j :: 0 <= j < |Insert(p, s)| ==> PathLeq(x, Insert(p, s)[j])
    decreases |s|
  {
    if s != [] && !PathLeq(p, s[0]) {
      InsertKeepsBound(x, p, s[1..]);
      assert forall j :: 0 < j < |Insert(p, s)| ==> Insert(p, s)[j] == Insert(p, s[1..])[j - 1];
    }
  }

  /** Inserting into a sorted sequence keeps it sorted. */
  lemma {:induction false} InsertSorted(p: Path, s: seq<Path>)
    requires Sorted(s)
    ensures Sorted(Insert(p, s))
    decreases |s|
  {
    if s != [] {
      var r := Insert(p, s);
      if PathLeq(p, s[0]) {
        forall j | 0 < j < |s|
          ensures PathLeq(p, s[j])
        {
          PathLeqTotalOrder(p, s[0], s[j]);
        }
        assert forall j :: 0 < j < |r| ==> r[j] == s[j - 1];
      } else {
        var tail := s[1..];
        InsertSorted(p, tail);
        PathLeqTotalOrder(p, s[0], p);
        assert forall j :: 0 < j < |s| ==> PathLeq(s[0], s[j]);
        assert forall j :: 0 <= j < |tail| ==> PathLeq(s[0], tail[j]);
        InsertKeepsBound(s[0], p, tail);
        var rest := Insert(p, tail);
        assert r == [s[0]] + rest;
        forall i, j | 0 <= i < j < |r|
          ensures PathLeq(r[i], r[j])
        {
          if i > 0 {
            assert r[i] == rest[i - 1] && r[j] == rest[j - 1];
          } else {
            assert r[j] == rest[j - 1];
          }
        }
      }
    }
  }

  /** sorted(): insertion sort on the path order. */
  function SortPaths(s: seq<Path>): (r: seq<Path>)
    ensures Sorted(r)
    ensures multiset(r) == multiset(s)
  {
    if s == [] then []
    else
      assert s == [s[0]] + s[1..];
      var sortedTail := SortPaths(s[1..]);
      InsertSorted(s[0], sortedTail);
      Insert(s[0], sortedTail)
  }

  /** The first element of a sorted sequence is below each of its elements. */
  lemma SortedHeadIsLeast(s: seq<Path>, x: Path)
    requires Sorted(s) && x in multiset(s)
    ensures PathLeq(s[0], x)
  {
    var j :| 0 <= j < |s| && s[j] == x;
    if j > 0 {
      assert PathLeq(s[0], s[j]);
    }
  }

  /** Sorting is determined by its input's contents: any sorted rearrangement
      of s equals SortPaths(s), so the model does not depend on how Python's
      sort proceeds. */
  lemma {:induction false} SortedUnique(a: seq<Path>, b: seq<Path>)
    requires Sorted(a) && Sorted(b) && multiset(a) == multiset(b)
    ensures a == b
    decreases |a|
  {
    assert |a| == |multiset(a)| == |b|;
    if a != [] {
      SortedHeadIsLeast(a, b[0]);
      SortedHeadIsLeast(b, a[0]);
      PathLeqTotalOrder(a[0], b[0], a[0]);
      SortedTail(a);
      SortedTail(b);
      SortedUnique(a[1..], b[1..]);
      assert a == [a[0]] + a[1..];
      assert b == [b[0]] + b[1..];
    }
  }

  /** Dropping the first element keeps a sequence sorted and removes one
      occurrence of that element. */
  lemma SortedTail(s: seq<Path>)
    requires Sorted(s) && s != []
    ensures Sorted(s[1..])
    ensures multiset(s[1..]) == multiset(s) - multiset{s[0]}
  {
    assert s == [s[0]] + s[1..];
    assert forall i, j :: 0 <= i < j < |s[1..]| ==> s[1..][i] == s[i + 1] && s[1..][j] == s[j + 1];
  }

  /** The comprehension of list_images, for any test: the paths that pass
      it, in order. */
  function Filter(s: seq<Path>, keep: Path -> bool): (r: seq<Path>)
    ensures |r| <= |s|
  {
    if s == [] then []
    else Filter(s[..|s| - 1], keep) + if keep(s[|s| - 1]) then [s[|s| - 1]] else []
  }

  /** a keeps some elements of b, in b's order: a strictly increasing index map
      witnesses it. */
  ghost predicate IsSubsequence(a: seq<Path>, b: seq<Path>) {
    exists idx: seq<nat> ::
      |idx| == |a|
      && (forall k :: 0 <= k < |idx| ==> idx[k] < |b| && a[k] == b[idx[k]])
      && (forall k, l :: 0 <= k < l < |idx| ==> idx[k] < idx[l])
  }

  /** Filter keeps exactly the paths that pass, each as often as it occurs. */
  lemma {:induction false} FilterCounts(s: seq<Path>, keep: Path -> bool, p: Path)
    ensures multiset(Filter(s, keep))[p] == if keep(p) then multiset(s)[p] else 0
    decreases |s|
  {
    if s != [] {
      var init := s[..|s| - 1];
      FilterCounts(init, keep, p);
      assert s == init + [s[|s| - 1]];
      assert multiset(s) == multiset(init) + multiset{s[|s| - 1]};
    }
  }

  /** Filter returns a subsequence of its input, given by the indices it
      keeps. */
  lemma {:induction false} FilterSubsequence(s: seq<Path>, keep: Path -> bool) returns (idx: seq<nat>)
    ensures |idx| == |Filter(s, keep)|
    ensures forall k :: 0 <= k < |idx| ==> idx[k] < |s| && Filter(s, keep)[k] == s[idx[k]]
    ensures forall k, l :: 0 <= k < l < |idx| ==> idx[k] < idx[l]
    decreases |s|
  {
    if s == [] {
      idx := [];
    } else {
      var init, last := s[..|s| - 1], s[|s| - 1];
      var prev := FilterSubsequence(init, keep);
      var front := Filter(init, keep);
      if keep(last) {
        idx := prev + [|s| - 1];
        assert Filter(s, keep) == front + [last];
        forall k | 0 <= k < |idx|
          ensures idx[k] < |s| && Filter(s, keep)[k] == s[idx[k]]
        {
          if k < |prev| {
            assert idx[k] == prev[k] && front[k] == init[prev[k]];
          }
        }
      } else {
        idx := prev;
        assert Filter(s, keep) == front;
        forall k | 0 <= k < |idx|
          ensures idx[k] < |s| && Filter(s, keep)[k] == s[idx[k]]
        {
          assert front[k] == init[prev[k]];
        }
      }
    }
  }

  /** A subsequence of a sorted sequence is sorted. */
  lemma SubsequenceSorted(a: seq<Path>, b: seq<Path>)
    requires IsSubsequence(a, b) && Sorted(b)
    ensures Sorted(a)
  {
    var idx: seq<nat> :| |idx| == |a|
      && (forall k :: 0 <= k < |idx| ==> idx[k] < |b| && a[k] == b[idx[k]])
      && (forall k, l :: 0 <= k < l < |idx| ==> idx[k] < idx[l]);
    forall i, j | 0 <= i < j < |a|
      ensures PathLeq(a[i], a[j])
    {
      assert PathLeq(b[idx[i]], b[idx[j]]);
    }
  }

  /** list_images over the paths the recursive glob yields, in any order. */
  function ListImages(listing: seq<Path>): seq<Path> {
    Filter(SortPaths(listing), IsImage)
  }

  /** list_images returns exactly the image paths of the listing, each as
      often as the listing holds it, sorted, and as a subsequence of the
      sorted listing. */
  lemma ListImagesSpec(listing: seq<Path>)
    ensures var r := ListImages(listing);
      Sorted(r)
      && IsSubsequence(r, SortPaths(listing))
      && (forall p :: multiset(r)[p] == if IsImage(p) then multiset(listing)[p] else 0)
  {
    var sorted := SortPaths(listing);
    var r := ListImages(listing);
    var idx := FilterSubsequence(sorted, IsImage);
    assert IsSubsequence(r, sorted);
    SubsequenceSorted(r, sorted);
    forall p
      ensures multiset(r)[p] == if IsImage(p) then multiset(listing)[p] else 0
    {
      FilterCounts(sorted, IsImage, p);
    }
  }

  /** A path is listed exactly when the listing holds it and it is an image. */
  lemma ListImagesMembers(listing: seq<Path>, p: Path)
    ensures p in ListImages(listing) <==> p in listing && IsImage(p)
  {
    FilterCounts(SortPaths(listing), IsImage, p);
    assert p in ListImages(listing) <==> multiset(ListImages(listing))[p] > 0;
    assert p in listing <==> multiset(listing)[p] > 0;
  }
}
