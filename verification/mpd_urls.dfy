/** The BaseURL chain of one Representation, fed to `ResolveUrl`. The Go code
    declares a BaseURL on every level of the tree but never combines them; this
    helper is the combination the `ResolveUrl` utility is written for: the
    manifest's own fetch URL, then the Mpd, Period, AdaptationSet and
    Representation BaseURLs, an absent one counting as an empty fragment.
    The fetch URL enters the chain as given, so a relative BaseURL is joined
    after the manifest's file name; a caller that wants the manifest's
    directory passes `StripUrlFilename(fetchUrl)` instead. */
module MpdUrls {
  import opened Text
  import opened MpdTree
  import opened Utils

  /** The fragments of one Representation's chain, outermost first. */
  function BaseUrlChain(fetchUrl: string, m: Mpd, p: Period, a: AdaptationSet, rep: Representation): seq<string> {
    [fetchUrl, m.baseUrl.GetOr(""), p.baseUrl.GetOr(""), a.baseUrl.GetOr(""), rep.baseUrl.GetOr("")]
  }

  /** The resolved location of a Representation. */
  function RepresentationUrl(fetchUrl: string, m: Mpd, p: Period, a: AdaptationSet, rep: Representation): (r: string)
    ensures r == "" <==> fetchUrl == "" && m.baseUrl.GetOr("") == "" && p.baseUrl.GetOr("") == ""
                         && a.baseUrl.GetOr("") == "" && rep.baseUrl.GetOr("") == ""
  {
    var chain := BaseUrlChain(fetchUrl, m, p, a, rep);
    assert chain[0] == fetchUrl && chain[1] == m.baseUrl.GetOr("") && chain[2] == p.baseUrl.GetOr("");
    assert chain[3] == a.baseUrl.GetOr("") && chain[4] == rep.baseUrl.GetOr("");
    ResolveUrl(chain)
  }

  /** With no BaseURL anywhere, an absolute fetch URL is the result. */
  lemma NoBaseUrlGivesFetchUrl(fetchUrl: string, m: Mpd, p: Period, a: AdaptationSet, rep: Representation)
    requires m.baseUrl.None? && p.baseUrl.None? && a.baseUrl.None? && rep.baseUrl.None?
    requires IsAbsolute(fetchUrl)
    ensures RepresentationUrl(fetchUrl, m, p, a, rep) == fetchUrl
  {
    ResolveUrlLastAbsolute(BaseUrlChain(fetchUrl, m, p, a, rep), 0);
  }

  /** An absolute BaseURL on the Representation overrides every ancestor. */
  lemma AbsoluteRepresentationBaseUrlWins(fetchUrl: string, m: Mpd, p: Period, a: AdaptationSet, rep: Representation)
    requires rep.baseUrl.Some? && IsAbsolute(rep.baseUrl.value)
    ensures RepresentationUrl(fetchUrl, m, p, a, rep) == rep.baseUrl.value
  {
    ResolveUrlLastAbsolute(BaseUrlChain(fetchUrl, m, p, a, rep), 4);
  }

  /** A relative BaseURL on the Representation is appended to what its
      ancestors resolve to. */
  lemma RelativeRepresentationBaseUrlAppends(fetchUrl: string, m: Mpd, p: Period, a: AdaptationSet, rep: Representation)
    requires rep.baseUrl.Some? && rep.baseUrl.value != "" && !IsAbsolute(rep.baseUrl.value)
    ensures RepresentationUrl(fetchUrl, m, p, a, rep)
            == TrimRight(ResolveUrl([fetchUrl, m.baseUrl.GetOr(""), p.baseUrl.GetOr(""), a.baseUrl.GetOr("")]), '/')
               + "/" + rep.baseUrl.value
  {
    var outer := [fetchUrl, m.baseUrl.GetOr(""), p.baseUrl.GetOr(""), a.baseUrl.GetOr("")];
    assert BaseUrlChain(fetchUrl, m, p, a, rep) == outer + [rep.baseUrl.value];
    ResolveUrlRelativeAppend(outer, rep.baseUrl.value);
  }
}
