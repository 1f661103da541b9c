/** The download script: each URL becomes a sanitised local file name, the
    file is fetched unless a file of that name is already present, a failed
    fetch is skipped, and the (name, url) pairs recorded on the way form the
    manifest written to the image directory's README. The output directory
    is a set of present names and each fetch's success is an oracle. */
module Acquisition {
  import opened Text

  /** url.split("/")[-1]: the text after the last '/' of the URL. */
  function FinalSegment(url: string): (r: string)
    ensures '/' !in r && EndsWith(url, r)
    ensures |r| == |url| || url[|url| - |r| - 1] == '/'
  {
    LastPiece(url, '/');
    var pieces := Split(url, '/');
    pieces[|pieces| - 1]
  }

  /** name.split("?")[0]: the text before the first '?'. */
  function StripQuery(name: string): (r: string)
    ensures '?' !in r && |r| <= |name| && name[..|r|] == r
    ensures |r| == |name| || name[|r|] == '?'
  {
    FirstPiece(name, '?');
    Split(name, '?')[0]
  }

  /** The name used for URL number i when its segment is empty: f"face_{i:02d}". */
  function DefaultName(i: nat): string {
    "face_" + Pad2(i)
  }

  /** name.lower().endswith((".jpg", ".jpeg", ".png")) */
  predicate HasImageExtension(name: string) {
    var lower := Lower(name);
    EndsWith(lower, ".jpg") || EndsWith(lower, ".jpeg") || EndsWith(lower, ".png")
  }

  /** c.isalnum() or c in "._-" */
  predicate IsSafeChar(c: char) {
    IsAlnum(c) || c in "._-"
  }

  /** "".join(c if c.isalnum() or c in "._-" else "_" for c in name) */
  function ReplaceUnsafe(name: string): string {
    seq(|name|, k requires 0 <= k < |name| => if IsSafeChar(name[k]) then name[k] else '_')
  }

  /** The replacement keeps the length, makes every character safe, and at
      each position either keeps the character or writes '_', keeping
      exactly the safe ones. */
  lemma ReplaceUnsafeSpec(name: string)
    ensures var r := ReplaceUnsafe(name);
      |r| == |name|
      && (forall k :: 0 <= k < |r| ==> IsSafeChar(r[k]))
      && (forall k :: 0 <= k < |r| ==> r[k] == name[k] || r[k] == '_')
      && (forall k :: 0 <= k < |r| ==> (r[k] == name[k] <==> IsSafeChar(name[k])))
  {
  }

  /** The file name that URL number i is saved under (the reassignments of
      `name` in the download loop, taken together). */
  function SanitizeName(url: string, i: nat): string {
    var segment := StripQuery(FinalSegment(url));
    var base := if segment == [] then DefaultName(i) else segment;
    var withExtension := if HasImageExtension(base) then base else base + ".jpg";
    ReplaceUnsafe(withExtension)
  }

  /** A string made only of safe characters is left as it is. */
  lemma ReplaceUnsafeKeepsSafe(name: string)
    requires forall k :: 0 <= k < |name| ==> IsSafeChar(name[k])
    ensures ReplaceUnsafe(name) == name
  {
  }

  /** A suffix of the lower-cased name made of safe characters survives the
      replacement: every character whose lower case is safe is safe itself. */
  lemma SafeLowerSuffixSurvives(name: string, ext: string)
    requires forall k :: 0 <= k < |ext| ==> IsSafeChar(ext[k])
    requires EndsWith(Lower(name), ext)
    ensures EndsWith(Lower(ReplaceUnsafe(name)), ext)
  {
    var r := ReplaceUnsafe(name);
    var start := |name| - |ext|;
    forall k | start <= k < |name|
      ensures Lower(r)[k] == Lower(name)[k]
    {
      assert Lower(name)[k] == ext[k - start];
      assert IsSafeChar(name[k]);
    }
    assert Lower(r)[start..] == Lower(name)[start..];
  }

  /** Replacing unsafe characters keeps a recognised image extension. */
  lemma ExtensionSurvivesReplacement(name: string)
    requires HasImageExtension(name)
    ensures HasImageExtension(ReplaceUnsafe(name))
  {
    var lower := Lower(name);
    if EndsWith(lower, ".jpg") {
      SafeLowerSuffixSurvives(name, ".jpg");
    } else if EndsWith(lower, ".jpeg") {
      SafeLowerSuffixSurvives(name, ".jpeg");
    } else {
      SafeLowerSuffixSurvives(name, ".png");
    }
  }

  /** Appending ".jpg" gives a name with an image extension. */
  lemma AppendedJpgIsImage(base: string)
    ensures HasImageExtension(base + ".jpg")
  {
    var lower := Lower(base + ".jpg");
    assert lower[|lower| - 4..] == ".jpg";
  }

  /** Every sanitised name is non-empty, made of alphanumerics, '.', '_' and
      '-' only, and ends (case-insensitively) in .jpg, .jpeg or .png. */
  lemma SanitizedNameIsSafe(url: string, i: nat)
    ensures var name := SanitizeName(url, i);
      |name| > 0
      && (forall k :: 0 <= k < |name| ==> IsSafeChar(name[k]))
      && HasImageExtension(name)
  {
    var segment := StripQuery(FinalSegment(url));
    var base := if segment == [] then DefaultName(i) else segment;
    if !HasImageExtension(base) {
      AppendedJpgIsImage(base);
    }
    var withExtension := if HasImageExtension(base) then base else base + ".jpg";
    ExtensionSurvivesReplacement(withExtension);
    ReplaceUnsafeSpec(withExtension);
  }

  /** The name keeps, character for character up to unsafe characters, the
      start of the URL's last '/' segment cut at its first '?'. */
  lemma SanitizedNameFromSegment(url: string, i: nat)
    requires StripQuery(FinalSegment(url)) != []
    ensures var segment := StripQuery(FinalSegment(url));
      var name := SanitizeName(url, i);
      |segment| <= |name| && name[..|segment|] == ReplaceUnsafe(segment)
  {
    var segment := StripQuery(FinalSegment(url));
    var withExtension := if HasImageExtension(segment) then segment else segment + ".jpg";
    var name := ReplaceUnsafe(withExtension);
    assert name[..|segment|] == ReplaceUnsafe(segment);
  }

  lemma LastCharDiffers(s: string, t: string)
    requires s != [] && t != [] && s[|s| - 1] != t[|t| - 1]
    ensures !EndsWith(s, t)
  {
    if |t| <= |s| {
      assert s[|s| - |t|..][|t| - 1] == s[|s| - 1];
    }
  }

  /** A URL with an empty segment (it ends in '/', or its last segment starts
      with '?') is saved as face_<i, two digits at least>.jpg. */
  lemma EmptySegmentName(url: string, i: nat)
    requires StripQuery(FinalSegment(url)) == []
    ensures SanitizeName(url, i) == "face_" + Pad2(i) + ".jpg"
  {
    var name := DefaultName(i) + ".jpg";
    DefaultNameNeedsExtension(i);
    assert SanitizeName(url, i) == ReplaceUnsafe(name);
    DefaultNameIsSafe(i);
    ReplaceUnsafeKeepsSafe(name);
  }

  /** face_<i:02d> ends in a digit, so it has none of the image extensions. */
  lemma DefaultNameNeedsExtension(i: nat)
    ensures !HasImageExtension(DefaultName(i))
  {
    var base := DefaultName(i);
    var lower := Lower(base);
    assert IsDigit(base[|base| - 1]);
    assert lower[|lower| - 1] == base[|base| - 1];
    LastCharDiffers(lower, ".jpg");
    LastCharDiffers(lower, ".jpeg");
    LastCharDiffers(lower, ".png");
  }

  /** face_<i:02d>.jpg is made of safe characters only. */
  lemma DefaultNameIsSafe(i: nat)
    ensures forall k :: 0 <= k < |DefaultName(i) + ".jpg"| ==> IsSafeChar((DefaultName(i) + ".jpg")[k])
  {
    var digits := Pad2(i);
    var name := "face_" + digits + ".jpg";
    forall k | 0 <= k < |name|
      ensures IsSafeChar(name[k])
    {
      if 5 <= k < 5 + |digits| {
        assert name[k] == digits[k - 5];
        assert IsDigit(digits[k - 5]);
      }
    }
  }

  /** A segment that is the whole of a string free of '/' and '?' is found
      again by FinalSegment and StripQuery. */
  lemma SegmentOfPlainName(name: string)
    requires '/' !in name && '?' !in name
    ensures StripQuery(FinalSegment(name)) == name
  {
    SplitWithoutSeparator(name, '/');
    SplitWithoutSeparator(name, '?');
  }

  /** Sanitising is idempotent: a sanitised name, read as a URL, gives
      itself back, whatever its index. */
  lemma SanitizeNameIdempotent(url: string, i: nat, j: nat)
    ensures SanitizeName(SanitizeName(url, i), j) == SanitizeName(url, i)
  {
    SanitizedNameIsSafe(url, i);
    SafeImageNameIsFixed(SanitizeName(url, i), j);
  }

  /** A non-empty name of safe characters with an image extension is its own
      sanitised form. */
  lemma SafeImageNameIsFixed(name: string, j: nat)
    requires |name| > 0 && HasImageExtension(name)
    requires forall k :: 0 <= k < |name| ==> IsSafeChar(name[k])
    ensures SanitizeName(name, j) == name
  {
    assert '/' !in name && '?' !in name by {
      forall k | 0 <= k < |name|
        ensures name[k] != '/' && name[k] != '?'
      {
        assert IsSafeChar(name[k]);
      }
    }
    SegmentOfPlainName(name);
    ReplaceUnsafeKeepsSafe(name);
  }

  /** The last '/' segment of prefix + "/" + segment is segment. */
  lemma FinalSegmentAfterSlash(prefix: string, segment: string)
    requires '/' !in segment
    ensures FinalSegment(prefix + "/" + segment) == segment
  {
    var url := prefix + "/" + segment;
    var r := FinalSegment(url);
    var start := |url| - |segment|;
    assert url[start - 1] == '/';
    assert forall m :: start <= m < |url| ==> url[m] == segment[m - start];
    assert url[|url| - |r|..] == r;
    assert |r| == |segment|;
  }

  /** The part of name + "?" + query before the first '?' is name. */
  lemma StripQueryBeforeMark(name: string, query: string)
    requires '?' !in name
    ensures StripQuery(name + "?" + query) == name
  {
    var s := name + "?" + query;
    var r := StripQuery(s);
    assert s[|name|] == '?';
    assert forall m :: 0 <= m < |name| ==> s[m] == name[m];
    assert |r| == |name|;
  }

  /** The file name of every URL, by position. */
  function TargetNames(urls: seq<string>): (names: seq<string>)
    ensures |names| == |urls|
    ensures forall k :: 0 <= k < |urls| ==> names[k] == SanitizeName(urls[k], k)
  {
    seq(|urls|, k requires 0 <= k < |urls| => SanitizeName(urls[k], k))
  }

  /** The loop's state after some URLs: the `sources` list, the names present
      in the output directory, and how many downloads were attempted. */
  datatype Progress = Progress(sources: seq<(string, string)>, present: set<string>, fetches: nat)

  /** One iteration for a URL saved under `name`: record it without fetching
      when the file exists; otherwise fetch, and record it only if the fetch
      succeeds. */
  function Visit(p: Progress, name: string, url: string, fetchOk: bool): Progress {
    if name in p.present then p.(sources := p.sources + [(name, url)])
    else if fetchOk then Progress(p.sources + [(name, url)], p.present + {name}, p.fetches + 1)
    else p.(fetches := p.fetches + 1)
  }

  /** The state after the first n URLs, where URL k is saved under names[k],
      starting from the names in present0. The lemmas below hold whatever the
      names are; DownloadAll uses TargetNames(urls). */
  function AcquireFirst(urls: seq<string>, names: seq<string>, fetchOk: nat -> bool, present0: set<string>, n: nat): Progress
    requires n <= |urls| == |names|
  {
    if n == 0 then Progress([], present0, 0)
    else Visit(AcquireFirst(urls, names, fetchOk, present0, n - 1), names[n - 1], urls[n - 1], fetchOk(n - 1))
  }

  /** Lines 57-64 of the download loop, as the source writes them: `name` is
      reassigned step by step. */
  method NameFor(urls: seq<string>, i: nat) returns (name: string)
    requires i < |urls|
    ensures name == TargetNames(urls)[i]
  {
    var url := urls[i];
    name := FinalSegment(url);
    name := StripQuery(name);
    if name == [] {
      name := DefaultName(i);
    }
    if !HasImageExtension(name) {
      name := name + ".jpg";
    }
    name := ReplaceUnsafe(name);
  }

  /** Lines 66-74 for one URL: keep an existing file, otherwise fetch it and
      record it only when the fetch succeeds. */
  method SaveOne(sources: seq<(string, string)>, present: set<string>, fetches: nat, name: string, url: string, fetchOk: bool)
    returns (sources': seq<(string, string)>, present': set<string>, fetches': nat)
    ensures Progress(sources', present', fetches') == Visit(Progress(sources, present, fetches), name, url, fetchOk)
  {
    sources', present', fetches' := sources, present, fetches;
    if name in present {
      sources' := sources + [(name, url)];
      return;
    }
    fetches' := fetches + 1;
    if fetchOk {
      present' := present + {name};
      sources' := sources + [(name, url)];
    }
  }

  /** The download loop. */
  method DownloadAll(urls: seq<string>, fetchOk: nat -> bool, present0: set<string>)
    returns (sources: seq<(string, string)>, present: set<string>, fetches: nat)
    ensures Progress(sources, present, fetches) == AcquireFirst(urls, TargetNames(urls), fetchOk, present0, |urls|)
  {
    ghost var names := TargetNames(urls);
    sources, present, fetches := [], present0, 0;
    var i := 0;
    while i < |urls|
      invariant 0 <= i <= |urls|
      invariant Progress(sources, present, fetches) == AcquireFirst(urls, names, fetchOk, present0, i)
    {
      var name := NameFor(urls, i);
      sources, present, fetches := SaveOne(sources, present, fetches, name, urls[i], fetchOk(i));
      i := i + 1;
    }
  }

  /** URL k is recorded exactly when its name was present at the start, its
      own download succeeds, or an earlier URL with the same name was
      downloaded. */
  predicate Recorded(names: seq<string>, fetchOk: nat -> bool, present0: set<string>, k: nat)
    requires k < |names|
  {
    names[k] in present0 || fetchOk(k) || exists j :: 0 <= j < k && fetchOk(j) && names[j] == names[k]
  }

  /** The manifest as the recorded URLs among the first n, in URL order. */
  function Manifest(urls: seq<string>, names: seq<string>, fetchOk: nat -> bool, present0: set<string>, n: nat): seq<(string, string)>
    requires n <= |urls| == |names|
  {
    if n == 0 then []
    else
      Manifest(urls, names, fetchOk, present0, n - 1)
      + if Recorded(names, fetchOk, present0, n - 1) then [(names[n - 1], urls[n - 1])] else []
  }

  /** After n URLs the directory holds the starting names and the names of
      every successful download. */
  lemma {:induction false} PresentAfter(urls: seq<string>, names: seq<string>, fetchOk: nat -> bool, present0: set<string>, n: nat, name: string)
    requires n <= |urls| == |names|
    ensures name in AcquireFirst(urls, names, fetchOk, present0, n).present <==>
      name in present0 || exists j :: 0 <= j < n && fetchOk(j) && names[j] == name
  {
    if n > 0 {
      PresentAfter(urls, names, fetchOk, present0, n - 1, name);
      PresentAfter(urls, names, fetchOk, present0, n - 1, names[n - 1]);
    }
  }

  /** The loop records exactly the URLs that Recorded names, in order: a
      failing URL adds nothing and the loop goes on. */
  lemma {:induction false} SourcesAreManifest(urls: seq<string>, names: seq<string>, fetchOk: nat -> bool, present0: set<string>, n: nat)
    requires n <= |urls| == |names|
    ensures AcquireFirst(urls, names, fetchOk, present0, n).sources == Manifest(urls, names, fetchOk, present0, n)
  {
    if n > 0 {
      SourcesAreManifest(urls, names, fetchOk, present0, n - 1);
      PresentAfter(urls, names, fetchOk, present0, n - 1, names[n - 1]);
    }
  }

  /** Once an earlier URL j has been downloaded, a later URL k with the same
      name is recorded without a fetch and the directory is unchanged. */
  lemma DuplicateNameSkipsFetch(urls: seq<string>, names: seq<string>, fetchOk: nat -> bool, present0: set<string>, j: nat, k: nat)
    requires j < k < |urls| == |names| && fetchOk(j) && names[j] == names[k]
    ensures var before := AcquireFirst(urls, names, fetchOk, present0, k);
      AcquireFirst(urls, names, fetchOk, present0, k + 1)
        == before.(sources := before.sources + [(names[k], urls[k])])
  {
    PresentAfter(urls, names, fetchOk, present0, k, names[k]);
  }

  /** The (name, url) pair of each of the first n URLs, in order. */
  function AllPairs(urls: seq<string>, names: seq<string>, n: nat): seq<(string, string)>
    requires n <= |urls| == |names|
  {
    if n == 0 then [] else AllPairs(urls, names, n - 1) + [(names[n - 1], urls[n - 1])]
  }

  lemma {:induction false} AllPairsAt(urls: seq<string>, names: seq<string>, n: nat, k: nat)
    requires k < n <= |urls| == |names|
    ensures |AllPairs(urls, names, n)| == n && AllPairs(urls, names, n)[k] == (names[k], urls[k])
  {
    if k < n - 1 {
      AllPairsAt(urls, names, n - 1, k);
    } else if n > 1 {
      AllPairsAt(urls, names, n - 1, 0);
    }
  }

  /** When every target name is already present, nothing is fetched, the
      directory is unchanged and every URL is recorded. */
  lemma {:induction false} AllPresentFetchesNothing(urls: seq<string>, names: seq<string>, fetchOk: nat -> bool, present0: set<string>, n: nat)
    requires n <= |urls| == |names|
    requires forall k :: 0 <= k < n ==> names[k] in present0
    ensures AcquireFirst(urls, names, fetchOk, present0, n) == Progress(AllPairs(urls, names, n), present0, 0)
  {
    if n > 0 {
      AllPresentFetchesNothing(urls, names, fetchOk, present0, n - 1);
    }
  }

  /** Every recorded name is present afterwards, and a run that records as
      many pairs as there are URLs has recorded all of them. */
  lemma {:induction false} SourcesArePresent(urls: seq<string>, names: seq<string>, fetchOk: nat -> bool, present0: set<string>, n: nat)
    requires n <= |urls| == |names|
    ensures var p := AcquireFirst(urls, names, fetchOk, present0, n);
      |p.sources| <= n
      && (forall k :: 0 <= k < |p.sources| ==> p.sources[k].0 in p.present)
      && (|p.sources| == n ==> p.sources == AllPairs(urls, names, n))
  {
    if n > 0 {
      SourcesArePresent(urls, names, fetchOk, present0, n - 1);
    }
  }

  /** Running the download again over a directory where the first run
      recorded every URL fetches nothing and reproduces the same manifest,
      whatever the network does. */
  lemma RerunReproducesManifest(urls: seq<string>, names: seq<string>, firstOk: nat -> bool, secondOk: nat -> bool, present0: set<string>)
    requires |urls| == |names|
    requires |AcquireFirst(urls, names, firstOk, present0, |urls|).sources| == |urls|
    ensures var first := AcquireFirst(urls, names, firstOk, present0, |urls|);
      var second := AcquireFirst(urls, names, secondOk, first.present, |urls|);
      second.sources == first.sources && second.fetches == 0 && second.present == first.present
  {
    var first := AcquireFirst(urls, names, firstOk, present0, |urls|);
    SourcesArePresent(urls, names, firstOk, present0, |urls|);
    forall k | 0 <= k < |urls|
      ensures names[k] in first.present
    {
      AllPairsAt(urls, names, |urls|, k);
      assert first.sources[k].0 in first.present;
    }
    AllPresentFetchesNothing(urls, names, secondOk, first.present, |urls|);
  }

  /** The README written after the loop, as the strings passed to f.write. */
  const ManifestHeader: seq<string> := [
    "# Benchmark Images\n\n",
    "This folder contains CC0/royalty-free images downloaded from public sources.\\n\n",
    "## Sources\n"
  ]

  const ManifestFooter: string := "\nUsage: Research/benchmarking only. Replace any failed URLs as needed.\n"

  /** One manifest line: `- name: url`. */
  function SourceLine(source: (string, string)): string {
    "- " + source.0 + ": " + source.1 + "\n"
  }

  /** Writes the manifest: the header, one line per recorded source in
      order, and the footer. */
  method WriteManifest(sources: seq<(string, string)>) returns (writes: seq<string>)
    ensures |writes| == |sources| + 4
    ensures writes[..3] == ManifestHeader && writes[|writes| - 1] == ManifestFooter
    ensures forall k :: 0 <= k < |sources| ==> writes[3 + k] == SourceLine(sources[k])
  {
    writes := ManifestHeader;
    var i := 0;
    while i < |sources|
      invariant 0 <= i <= |sources|
      invariant |writes| == 3 + i && writes[..3] == ManifestHeader
      invariant forall k :: 0 <= k < i ==> writes[3 + k] == SourceLine(sources[k])
    {
      writes := writes + [SourceLine(sources[i])];
      i := i + 1;
    }
    writes := writes + [ManifestFooter];
  }
}
