/** DRM extraction: one ContentProtection element becomes one normalised
    descriptor, and an AdaptationSet's elements are collected fail-fast. The
    system identifiers are those of the DASH-IF content protection registry. */
module MpdEncryption {
  import opened Results
  import opened Text
  import opened MpdTree

  const WidevineSchemeId := "urn:uuid:EDEF8BA9-79D6-4ACE-A3C8-27DCD51D21ED"
  const PlayReadySchemeId := "urn:uuid:9A04F079-9840-4286-AB92-E65BE0885F95"

  /** The element's schemeIdUri is present and equals `id` up to case. */
  predicate HasScheme(cp: ContentProtection, id: string) {
    cp.schemeIdUri.Some? && EqualFold(cp.schemeIdUri.value, id)
  }

  /** `GetEncryption`: a default_KID decides first, whatever else is set; then
      the Widevine scheme, which needs a pssh; then the PlayReady scheme, which
      needs both pssh and pro; anything else is not a protection this layer
      recognises. */
  function GetEncryption(cp: ContentProtection): (r: Result<MediaEncryption>)
    ensures cp.defaultKid.Some? ==>
      r == Success(MediaEncryption(Cenc, cp.defaultKid.value, None))
    ensures cp.defaultKid.None? && HasScheme(cp, WidevineSchemeId) ==>
      r == (if cp.pssh.Some? then Success(MediaEncryption(Widevine, cp.pssh.value, None))
            else Failure(MissingWidevinePssh))
    ensures cp.defaultKid.None? && HasScheme(cp, PlayReadySchemeId) ==>
      r == (if cp.pssh.Some? && cp.pro.Some? then Success(MediaEncryption(PlayReady, cp.pssh.value, cp.pro))
            else Failure(MissingPlayReadyFields))
    ensures cp.defaultKid.None? && !HasScheme(cp, WidevineSchemeId) && !HasScheme(cp, PlayReadySchemeId) ==>
      r == Failure(UnrecognizedProtectionScheme)
  {
    SchemeIdsDistinct(cp);
    if cp.defaultKid.Some? then
      Success(MediaEncryption(Cenc, cp.defaultKid.value, None))
    else if cp.schemeIdUri.Some? then
      if EqualFold(cp.schemeIdUri.value, WidevineSchemeId) then
        if cp.pssh.Some? then Success(MediaEncryption(Widevine, cp.pssh.value, None))
        else Failure(MissingWidevinePssh)
      else if EqualFold(cp.schemeIdUri.value, PlayReadySchemeId) then
        if cp.pssh.Some? && cp.pro.Some? then Success(MediaEncryption(PlayReady, cp.pssh.value, cp.pro))
        else Failure(MissingPlayReadyFields)
      else
        Failure(UnrecognizedProtectionScheme)
    else
      Failure(UnrecognizedProtectionScheme)
  }

  /** The two registry identifiers differ even up to case, so no scheme is
      both Widevine and PlayReady and the order of the two checks is moot. */
  lemma SchemeIdsDistinct(cp: ContentProtection)
    ensures !(HasScheme(cp, WidevineSchemeId) && HasScheme(cp, PlayReadySchemeId))
  {
    assert Lower(WidevineSchemeId)[9] != Lower(PlayReadySchemeId)[9];
  }

  /** No partial descriptor: every successful result is complete for its
      system and built only from the element's own fields. */
  lemma GetEncryptionComplete(cp: ContentProtection)
    requires GetEncryption(cp).Success?
    ensures var e := GetEncryption(cp).value;
      && (e.system == Cenc <==> cp.defaultKid.Some?)
      && (e.system == Cenc ==> Some(e.value) == cp.defaultKid && e.pro.None?)
      && (e.system == Widevine ==> Some(e.value) == cp.pssh && e.pro.None? && HasScheme(cp, WidevineSchemeId))
      && (e.system == PlayReady ==> Some(e.value) == cp.pssh && e.pro.Some? && e.pro == cp.pro
                                    && HasScheme(cp, PlayReadySchemeId))
      && e.system.Name() == (if cp.defaultKid.Some? then "cenc"
                             else if HasScheme(cp, WidevineSchemeId) then "widevine"
                             else "playready")
  {
  }

  /** Extraction looks at the scheme only up to case. */
  lemma GetEncryptionSchemeCaseInsensitive(cp: ContentProtection, scheme: string)
    requires cp.schemeIdUri == Some(scheme)
    ensures GetEncryption(cp) == GetEncryption(cp.(schemeIdUri := Some(Lower(scheme))))
  {
    LowerIdempotent(scheme);
  }

  /** The fail-fast collection loop over a sequence of elements. */
  function CollectEncryption(cps: seq<ContentProtection>): (r: Result<seq<MediaEncryption>>)
    ensures r.Success? <==> forall i :: 0 <= i < |cps| ==> GetEncryption(cps[i]).Success?
    ensures r.Success? ==>
      && |r.value| == |cps|
      && forall i :: 0 <= i < |cps| ==> GetEncryption(cps[i]) == Success(r.value[i])
    ensures r.Failure? ==>
      exists i :: 0 <= i < |cps| && GetEncryption(cps[i]) == Failure(r.error)
                  && forall j :: 0 <= j < i ==> GetEncryption(cps[j]).Success?
  {
    if |cps| == 0 then Success([])
    else
      match GetEncryption(cps[0])
      case Failure(e) => Failure(e)
      case Success(head) =>
        match CollectEncryption(cps[1..])
        case Failure(e) =>
          assert forall i :: 1 <= i < |cps| ==> cps[1..][i - 1] == cps[i];
          var k :| 0 <= k < |cps[1..]| && GetEncryption(cps[1..][k]) == Failure(e)
                   && forall j :: 0 <= j < k ==> GetEncryption(cps[1..][j]).Success?;
          assert GetEncryption(cps[k + 1]) == Failure(e);
          Failure(e)
        case Success(tail) =>
          assert forall i :: 1 <= i < |cps| ==> cps[1..][i - 1] == cps[i];
          Success([head] + tail)
  }

  /** `GetAllEncryption`: the descriptors of all the AdaptationSet's
      ContentProtections, in order, or the first failure and no list. */
  function GetAllEncryption(a: AdaptationSet): (r: Result<seq<MediaEncryption>>)
    ensures r.Success? <==>
      forall i :: 0 <= i < |a.contentProtections| ==> GetEncryption(a.contentProtections[i]).Success?
    ensures r.Success? ==>
      && |r.value| == |a.contentProtections|
      && forall i :: 0 <= i < |a.contentProtections| ==>
           GetEncryption(a.contentProtections[i]) == Success(r.value[i])
    ensures r.Failure? ==>
      exists i :: 0 <= i < |a.contentProtections|
                  && GetEncryption(a.contentProtections[i]) == Failure(r.error)
                  && forall j :: 0 <= j < i ==> GetEncryption(a.contentProtections[j]).Success?
  {
    CollectEncryption(a.contentProtections)
  }
}
