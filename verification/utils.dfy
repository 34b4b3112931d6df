/** The URL helpers of `internal/utils` and its copy of the codec naming
    function. `IsCorrectUrl` (URL parsing plus a DNS lookup) is not part of
    this model. */
module Utils {
  import opened Text
  import CodecTable

  /** A fragment holding a scheme separator replaces whatever came before. */
  predicate IsAbsolute(url: string) {
    Contains(url, "://")
  }

  /** One iteration of the `ResolveUrl` loop: skip an empty fragment, let an
      absolute one replace the accumulator, and otherwise join with exactly
      one '/' after removing every trailing '/' of the accumulator. */
  function Join(acc: string, url: string): string {
    if url == "" then acc
    else if IsAbsolute(url) then url
    else TrimRight(acc, '/') + "/" + url
  }

  /** The `ResolveUrl` loop from accumulator `acc` over `urls`, left to right.
      The result is empty exactly when the accumulator and every fragment are. */
  function ResolveFrom(acc: string, urls: seq<string>): (r: string)
    ensures r == "" <==> acc == "" && forall i :: 0 <= i < |urls| ==> urls[i] == ""
    decreases |urls|
  {
    if |urls| == 0 then acc
    else
      var r := ResolveFrom(Join(acc, urls[0]), urls[1..]);
      assert forall i :: 1 <= i < |urls| ==> urls[1..][i - 1] == urls[i];
      r
  }

  /** `ResolveUrl`: fold the BaseURL fragments, starting from "". The result
      is "" exactly when there is no non-empty fragment. */
  function ResolveUrl(urls: seq<string>): (r: string)
    ensures r == "" <==> forall i :: 0 <= i < |urls| ==> urls[i] == ""
  {
    ResolveFrom("", urls)
  }

  /** Folding over a concatenation is folding over the second part from the
      result of the first. */
  lemma {:induction false} ResolveFromAppend(acc: string, xs: seq<string>, ys: seq<string>)
    ensures ResolveFrom(acc, xs + ys) == ResolveFrom(ResolveFrom(acc, xs), ys)
    decreases |xs|
  {
    if |xs| > 0 {
      assert (xs + ys)[0] == xs[0];
      assert (xs + ys)[1..] == xs[1..] + ys;
      ResolveFromAppend(Join(acc, xs[0]), xs[1..], ys);
    } else {
      assert xs + ys == ys;
    }
  }

  /** A fold that meets only empty fragments leaves the accumulator alone. */
  lemma {:induction false} ResolveFromEmpties(acc: string, urls: seq<string>)
    requires forall i :: 0 <= i < |urls| ==> urls[i] == ""
    ensures ResolveFrom(acc, urls) == acc
    decreases |urls|
  {
    if |urls| > 0 {
      assert urls[0] == "";
      ResolveFromEmpties(acc, urls[1..]);
    }
  }

  /** An absolute fragment makes the fold forget its accumulator. */
  lemma ResolveFromAbsolute(acc: string, urls: seq<string>)
    requires |urls| > 0 && IsAbsolute(urls[0])
    ensures ResolveFrom(acc, urls) == ResolveFrom("", urls)
  {
    assert urls[0] != "";
  }

  /** The last step of the fold is one `Join`. */
  lemma ResolveUrlSnoc(xs: seq<string>, r: string)
    ensures ResolveUrl(xs + [r]) == Join(ResolveUrl(xs), r)
  {
    ResolveFromAppend("", xs, [r]);
  }

  /** Relative append: a non-empty fragment without a scheme separator is
      joined to the resolution of everything before it. */
  lemma ResolveUrlRelativeAppend(xs: seq<string>, r: string)
    requires r != "" && !IsAbsolute(r)
    ensures ResolveUrl(xs + [r]) == TrimRight(ResolveUrl(xs), '/') + "/" + r
  {
    ResolveUrlSnoc(xs, r);
  }

  /** Empty fragments are ignored wherever they stand. */
  lemma ResolveUrlIgnoresEmpty(xs: seq<string>, ys: seq<string>)
    ensures ResolveUrl(xs + [""] + ys) == ResolveUrl(xs + ys)
  {
    ResolveFromAppend("", xs + [""], ys);
    ResolveFromAppend("", xs, [""]);
    ResolveFromAppend("", xs, ys);
  }

  /** Absolute override: from an absolute fragment on, the earlier fragments
      no longer matter. */
  lemma ResolveUrlAbsoluteOverride(urls: seq<string>, k: int)
    requires 0 <= k < |urls| && IsAbsolute(urls[k])
    ensures ResolveUrl(urls) == ResolveUrl(urls[k..])
  {
    assert urls == urls[..k] + urls[k..];
    ResolveFromAppend("", urls[..k], urls[k..]);
    ResolveFromAbsolute(ResolveUrl(urls[..k]), urls[k..]);
  }

  /** When the last non-empty fragment is absolute, it is the result. */
  lemma ResolveUrlLastAbsolute(urls: seq<string>, k: int)
    requires 0 <= k < |urls| && IsAbsolute(urls[k])
    requires forall j :: k < j < |urls| ==> urls[j] == ""
    ensures ResolveUrl(urls) == urls[k]
  {
    ResolveUrlAbsoluteOverride(urls, k);
    assert urls[k] != "";
    ResolveFromEmpties(urls[k], urls[k + 1..]);
    assert urls[k..][1..] == urls[k + 1..];
  }

  /** The result always ends with the last non-empty fragment. */
  lemma ResolveUrlEndsWithLast(urls: seq<string>, k: int)
    requires 0 <= k < |urls| && urls[k] != ""
    requires forall j :: k < j < |urls| ==> urls[j] == ""
    ensures |urls[k]| <= |ResolveUrl(urls)|
    ensures ResolveUrl(urls)[|ResolveUrl(urls)| - |urls[k]|..] == urls[k]
  {
    assert urls == urls[..k] + [urls[k]] + urls[k + 1..];
    ResolveFromAppend("", urls[..k] + [urls[k]], urls[k + 1..]);
    ResolveFromEmpties(ResolveUrl(urls[..k] + [urls[k]]), urls[k + 1..]);
    ResolveUrlSnoc(urls[..k], urls[k]);
  }

  /** Worked example: a later absolute fragment wins over everything before. */
  lemma ResolveUrlExampleOverride()
    ensures ResolveUrl(["http://a.com/x/", "y/", "http://b.com/z"]) == "http://b.com/z"
  {
    assert OccursAt("http://b.com/z", "://", 4);
    ResolveUrlLastAbsolute(["http://a.com/x/", "y/", "http://b.com/z"], 2);
  }

  /** Worked example: a relative fragment is joined with one '/'. */
  lemma ResolveUrlExampleAppend()
    ensures ResolveUrl(["http://a.com/x", "y"]) == "http://a.com/x/y"
  {
    assert !IsAbsolute("y");
    assert OccursAt("http://a.com/x", "://", 4);
    ResolveUrlLastAbsolute(["http://a.com/x"], 0);
    ResolveUrlRelativeAppend(["http://a.com/x"], "y");
    assert ["http://a.com/x"] + ["y"] == ["http://a.com/x", "y"];
  }

  /** Worked example: every trailing '/' of the accumulator is dropped before
      the join, so a doubled slash collapses to one. */
  lemma ResolveUrlExampleTrimsSlashes()
    ensures ResolveUrl(["http://a.com/x//", "y"]) == "http://a.com/x/y"
  {
    assert !IsAbsolute("y");
    assert OccursAt("http://a.com/x//", "://", 4);
    ResolveUrlLastAbsolute(["http://a.com/x//"], 0);
    ResolveUrlRelativeAppend(["http://a.com/x//"], "y");
    assert ["http://a.com/x//"] + ["y"] == ["http://a.com/x//", "y"];
    assert TrimRight("http://a.com/x//", '/') == "http://a.com/x" by {
      assert "http://a.com/x//"[..15] == "http://a.com/x/";
      assert "http://a.com/x/"[..14] == "http://a.com/x";
    }
  }

  /** Worked example: with nothing before it, a relative fragment gets a
      leading '/'. */
  lemma ResolveUrlExampleLeadingSlash()
    ensures ResolveUrl(["y"]) == "/y"
  {
    assert !IsAbsolute("y");
    ResolveUrlRelativeAppend([], "y");
    assert [] + ["y"] == ["y"];
  }

  /** `StripUrlFilename`: cut the URL after its last '/', or keep it whole
      when it has none. */
  function StripUrlFilename(url: string): (r: string)
    ensures r <= url
    ensures '/' in url ==> |r| > 0 && r[|r| - 1] == '/' && '/' !in url[|r|..]
    ensures '/' !in url ==> r == url
  {
    var i := LastIndexOf(url, '/');
    if i >= 0 then url[..i + 1] else url
  }

  /** Stripping twice is stripping once. */
  lemma StripUrlFilenameIdempotent(url: string)
    ensures StripUrlFilename(StripUrlFilename(url)) == StripUrlFilename(url)
  {
  }

  /** `CodecRepr`: the utility copy of the codec naming `switch` over the
      lower-cased codec string; like the parser's copy, it agrees with the
      naming table on every input. */
  function CodecRepr(codec: string): (r: string)
    ensures r == CodecTable.Label(Lower(codec))
  {
    var c := Lower(codec);
    LowerIdempotent(codec);
    CodecTable.ExactPatternsLowerCase();
    if "avc1" <= c then CodecTable.LabelOfMatch(c, 0); "H.264"
    else if "hvc1" <= c then CodecTable.LabelOfMatch(c, 1); "H.265"
    else if "hev1" <= c then CodecTable.LabelOfMatch(c, 2); "HEVC"
    else if "av01" <= c then CodecTable.LabelOfMatch(c, 3); "AV1"
    else if "vp09" <= c then CodecTable.LabelOfMatch(c, 4); "VP9"
    else if EqualFold(c, "mp4a.40.2") then CodecTable.LabelOfMatch(c, 5); "AAC-LC"
    else if EqualFold(c, "mp4a.40.5") then CodecTable.LabelOfMatch(c, 6); "HE-AAC (v1)"
    else if EqualFold(c, "mp4a.40.29") then CodecTable.LabelOfMatch(c, 7); "HE-AAC v2"
    else if EqualFold(c, "ac-3") then CodecTable.LabelOfMatch(c, 8); "Dolby AC-3"
    else if EqualFold(c, "ec-3") then CodecTable.LabelOfMatch(c, 9); "Dolby E-AC-3 (Atmos)"
    else CodecTable.LabelOfNoMatch(c); c
  }
}
