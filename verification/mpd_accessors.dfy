/** The attribute accessors of `internal/parser/mpd`: each reads one fact off
    the tree. Language, codec and media type read the AdaptationSet's own
    attribute first and then fall back to its Representations in document
    order; audio channels read the AdaptationSet, bandwidth one
    Representation, resolution either receiver with no fallback, and
    liveness the Mpd. */
module MpdAccessors {
  import opened Results
  import opened Text
  import opened Enums
  import opened MpdTree
  import CodecTable
  import Utils

  // ---------------------------------------------------------------------
  // Audio channels and bandwidth
  // ---------------------------------------------------------------------

  /** `GetAudioChannels`: the integer value of AudioChannelConfiguration@value.
      A missing element or attribute and an unparsable value are different
      errors. */
  function GetAudioChannels(a: AdaptationSet): (r: Result<int>)
    ensures (a.audioChannelConfiguration.None? || a.audioChannelConfiguration.value.value.None?)
            ==> r == Failure(NoChannelInfo)
    ensures a.audioChannelConfiguration.Some? && a.audioChannelConfiguration.value.value.Some? ==>
      var raw := a.audioChannelConfiguration.value.value.value;
      && (r.Success? <==> Atoi(raw).Some?)
      && (r.Success? ==> r.value == Atoi(raw).value)
      && (r.Failure? ==> r.error == InvalidChannelValue(raw))
  {
    match a.audioChannelConfiguration
    case None => Failure(NoChannelInfo)
    case Some(conf) =>
      match conf.value
      case None => Failure(NoChannelInfo)
      case Some(raw) =>
        match Atoi(raw)
        case None => Failure(InvalidChannelValue(raw))
        case Some(n) => Success(n)
  }

  /** Any integer written in decimal is read back as that channel count. */
  lemma GetAudioChannelsRoundTrip(a: AdaptationSet, n: int)
    requires a.audioChannelConfiguration == Some(AudioChannelConfiguration(Some(IntToString(n))))
    ensures GetAudioChannels(a) == Success(n)
  {
    AtoiIntToString(n);
  }

  /** `GetBandwith`: the bandwidth attribute (bytes per second) divided by
      1024 and rounded down. */
  function GetBandwidth(rep: Representation): (r: Result<uint64>)
    ensures r.Failure? <==> rep.bandwidth.None?
    ensures r.Failure? ==> r.error == NoBandwidthInfo
    ensures r.Success? ==> r.value * 1024 <= rep.bandwidth.value < (r.value + 1) * 1024
  {
    match rep.bandwidth
    case None => Failure(NoBandwidthInfo)
    case Some(b) => Success(b / 1024)
  }

  // ---------------------------------------------------------------------
  // Language: AdaptationSet first, then the first Representation
  // ---------------------------------------------------------------------

  /** The Representations' lang attributes, in document order. */
  function RepresentationLangs(a: AdaptationSet): seq<Option<string>> {
    seq(|a.representations|, i requires 0 <= i < |a.representations| => a.representations[i].lang)
  }

  /** `GetLang`: the AdaptationSet's lang if present, otherwise that of the
      first Representation that has one (an empty value counts as present);
      an error exactly when no node has a lang. */
  function GetLang(a: AdaptationSet): (r: Result<string>)
    ensures a.lang.Some? ==> r == Success(a.lang.value)
    ensures r.Failure? <==> a.lang.None? && forall i :: 0 <= i < |a.representations| ==> a.representations[i].lang.None?
    ensures r.Failure? ==> r.error == NoLanguageInfo
    ensures a.lang.None? ==>
      forall i :: 0 <= i < |a.representations| && a.representations[i].lang.Some?
                  && (forall j :: 0 <= j < i ==> a.representations[j].lang.None?)
                  ==> r == Success(a.representations[i].lang.value)
  {
    if a.lang.Some? then Success(a.lang.value)
    else
      var langs := RepresentationLangs(a);
      assert forall i :: 0 <= i < |langs| ==> langs[i] == a.representations[i].lang;
      match FirstPresent(langs)
      case None => Failure(NoLanguageInfo)
      case Some(k) => Success(langs[k].value)
  }

  // ---------------------------------------------------------------------
  // Codecs
  // ---------------------------------------------------------------------

  /** `codecRepr`: the human-readable name of a codec string, decided on its
      lower-cased form; the lower-cased string itself when it is not named.
      The `switch` agrees with the naming table on every input. */
  function CodecRepr(codec: string): (r: string)
    ensures r == CodecTable.Label(Lower(codec))
  {
    var c := Lower(codec);
    LowerIdempotent(codec);
    CodecTable.ExactPatternsLowerCase();
    if "avc1" <= c then CodecTable.LabelOfMatch(c, 0); "H.264"
    else if "hvc1" <= c then CodecTable.LabelOfMatch(c, 1); "H.265"
    else if "hev1" <= c then CodecTable.LabelOfMatch(c, 2); "HEVC"
    else if "av01" <= c then CodecTable.LabelOfMatch(c, 3); "AV1"
    else if "vp09" <= c then CodecTable.LabelOfMatch(c, 4); "VP9"
    else if EqualFold(c, "mp4a.40.2") then CodecTable.LabelOfMatch(c, 5); "AAC-LC"
    else if EqualFold(c, "mp4a.40.5") then CodecTable.LabelOfMatch(c, 6); "HE-AAC (v1)"
    else if EqualFold(c, "mp4a.40.29") then CodecTable.LabelOfMatch(c, 7); "HE-AAC v2"
    else if EqualFold(c, "ac-3") then CodecTable.LabelOfMatch(c, 8); "Dolby AC-3"
    else if EqualFold(c, "ec-3") then CodecTable.LabelOfMatch(c, 9); "Dolby E-AC-3 (Atmos)"
    else CodecTable.LabelOfNoMatch(c); c
  }

  /** The naming guarantees of the `switch`: a codec that matches a rule of
      the table (avc1, hvc1, hev1, av01, vp09 as prefixes; mp4a.40.2,
      mp4a.40.5, mp4a.40.29, ac-3, ec-3 exactly) gets that rule's label, and
      any other codec comes back lower-cased. */
  lemma CodecReprNames(codec: string)
    ensures forall i :: 0 <= i < |CodecTable.Rules| && CodecTable.Matches(CodecTable.Rules[i], Lower(codec))
                        ==> CodecRepr(codec) == CodecTable.Rules[i].name
    ensures (forall i :: 0 <= i < |CodecTable.Rules| ==> !CodecTable.Matches(CodecTable.Rules[i], Lower(codec)))
            ==> CodecRepr(codec) == Lower(codec)
  {
    forall i | 0 <= i < |CodecTable.Rules| && CodecTable.Matches(CodecTable.Rules[i], Lower(codec))
      ensures CodecRepr(codec) == CodecTable.Rules[i].name
    {
      CodecTable.LabelOfMatch(Lower(codec), i);
    }
  }

  /** Case does not matter. */
  lemma CodecReprCaseInsensitive(codec: string)
    ensures CodecRepr(codec) == CodecRepr(Lower(codec))
  {
    LowerIdempotent(codec);
  }

  /** A table label comes out exactly when the codec is recognised: labels
      hold upper-case letters, passed-through strings never do. */
  lemma CodecReprRecognised(codec: string)
    ensures (exists i :: 0 <= i < |CodecTable.Rules| && CodecRepr(codec) == CodecTable.Rules[i].name)
            <==> CodecTable.Lookup(CodecTable.Rules, Lower(codec)).Some?
  {
    if CodecTable.Lookup(CodecTable.Rules, Lower(codec)).None? {
      LowerIsLowerCase(codec);
      forall i | 0 <= i < |CodecTable.Rules| ensures CodecRepr(codec) != CodecTable.Rules[i].name {
        CodecTable.LabelsHaveUpperCase(i);
      }
    }
  }

  /** Worked example: a prefix decides whatever follows it and whatever its
      case. */
  lemma CodecReprExamplePrefix()
    ensures CodecRepr("AVC1.640028") == "H.264"
  {
    assert Lower("AVC1.640028")[..4] == "avc1";
    CodecTable.LabelOfMatch(Lower("AVC1.640028"), 0);
  }

  /** Worked example: an exact pattern is named. */
  lemma CodecReprExampleExact()
    ensures CodecRepr("mp4a.40.2") == "AAC-LC"
  {
    CodecTable.ExactPatternsLowerCase();
    CodecTable.LabelOfMatch("mp4a.40.2", 5);
  }

  /** Worked example: an unnamed codec is passed through. */
  lemma CodecReprExamplePassThrough()
    ensures CodecRepr("xyz123") == "xyz123"
  {
    LowerOfLowerCase("xyz123");
    assert "xyz123"[0] == 'x';
    CodecTable.LabelOfNoMatch("xyz123");
  }

  /** The copy in `internal/utils` names every codec the same way. */
  lemma UtilsCodecReprAgrees(codec: string)
    ensures Utils.CodecRepr(codec) == CodecRepr(codec)
  {
  }

  /** The body shared by `AdaptationSet.GetCodec` and `Representation.GetCodec`:
      the named form of a node's codecs attribute. */
  function CodecOf(codecs: Option<string>): (r: Result<string>)
    ensures r.Success? <==> codecs.Some?
    ensures r.Success? ==> r.value == CodecRepr(codecs.value)
    ensures r.Failure? ==> r.error == NoCodecInfo
  {
    match codecs
    case None => Failure(NoCodecInfo)
    case Some(c) => Success(CodecRepr(c))
  }

  /** `AdaptationSet.GetCodec`. */
  function AdaptationSetCodec(a: AdaptationSet): Result<string> {
    CodecOf(a.codecs)
  }

  /** `Representation.GetCodec`. */
  function RepresentationCodec(rep: Representation): Result<string> {
    CodecOf(rep.codecs)
  }

  /** The Representations' codecs attributes, in document order. */
  function RepresentationCodecs(a: AdaptationSet): seq<Option<string>> {
    seq(|a.representations|, i requires 0 <= i < |a.representations| => a.representations[i].codecs)
  }

  /** `GetCodecAll`: the AdaptationSet's own codec if it has one, otherwise the
      codec of the first Representation that has one; an error exactly when
      no node has a codecs attribute. */
  function GetCodecAll(a: AdaptationSet): (r: Result<string>)
    ensures AdaptationSetCodec(a).Success? ==> r == AdaptationSetCodec(a)
    ensures r.Failure? <==>
      AdaptationSetCodec(a).Failure? && forall i :: 0 <= i < |a.representations| ==> RepresentationCodec(a.representations[i]).Failure?
    ensures r.Failure? ==> r.error == NoCodecInfo
    ensures AdaptationSetCodec(a).Failure? ==>
      forall i :: 0 <= i < |a.representations| && RepresentationCodec(a.representations[i]).Success?
                  && (forall j :: 0 <= j < i ==> RepresentationCodec(a.representations[j]).Failure?)
                  ==> r == RepresentationCodec(a.representations[i])
  {
    if AdaptationSetCodec(a).Success? then AdaptationSetCodec(a)
    else
      var codecs := RepresentationCodecs(a);
      assert forall i :: 0 <= i < |codecs| ==>
        codecs[i] == a.representations[i].codecs
        && (RepresentationCodec(a.representations[i]).Success? <==> codecs[i].Some?);
      match FirstPresent(codecs)
      case None => Failure(NoCodecInfo)
      case Some(k) => RepresentationCodec(a.representations[k])
  }

  // ---------------------------------------------------------------------
  // Resolution
  // ---------------------------------------------------------------------

  /** fmt's "%dx%d". */
  function FormatResolution(w: nat, h: nat): string {
    NatToString(w) + "x" + NatToString(h)
  }

  /** Splits a resolution string at its first 'x' and reads both sides as
      decimal numbers. */
  function ParseResolution(s: string): Option<(nat, nat)> {
    var i := IndexOf(s, 'x');
    if i < 0 then None
    else
      var w, h := s[..i], s[i + 1..];
      if |w| > 0 && |h| > 0 && AllDigits(w) && AllDigits(h) then Some((ParseDigits(w), ParseDigits(h)))
      else None
  }

  /** The formatted resolution holds exactly one 'x', and splitting there
      recovers width and height. */
  lemma ParseFormatResolution(w: nat, h: nat)
    ensures ParseResolution(FormatResolution(w, h)) == Some((w, h))
    ensures forall i :: 0 <= i < |FormatResolution(w, h)| && FormatResolution(w, h)[i] == 'x'
                        ==> i == |NatToString(w)|
  {
    var sw, sh := NatToString(w), NatToString(h);
    var s := FormatResolution(w, h);
    assert 'x' !in sw by { assert forall k :: 0 <= k < |sw| ==> IsDigit(sw[k]); }
    assert s[..|sw|] == sw;
    assert s[|sw| + 1..] == sh;
    assert s[|sw|] == 'x';
    assert IndexOf(s, 'x') == |sw|;
    ParseNatToString(w);
    ParseNatToString(h);
    forall i | 0 <= i < |s| && i != |sw| ensures s[i] != 'x' {
      if i < |sw| { assert s[i] == sw[i]; }
      else { assert s[i] == sh[i - |sw| - 1]; }
    }
  }

  /** The body shared by `AdaptationSet.GetResolutionRepr` and
      `Representation.GetResolutionRepr`: "<width>x<height>" when both are
      present. */
  function ResolutionOf(width: Option<uint64>, height: Option<uint64>): (r: Result<string>)
    ensures r.Success? <==> width.Some? && height.Some?
    ensures r.Success? ==> r.value == FormatResolution(width.value, height.value)
    ensures r.Success? ==> ParseResolution(r.value) == Some((width.value as nat, height.value as nat))
    ensures r.Failure? ==> r.error == NoResolutionInfo
  {
    if width.Some? && height.Some? then
      ParseFormatResolution(width.value, height.value);
      Success(FormatResolution(width.value, height.value))
    else Failure(NoResolutionInfo)
  }

  /** `AdaptationSet.GetResolutionRepr`. */
  function AdaptationSetResolution(a: AdaptationSet): Result<string> {
    ResolutionOf(a.width, a.height)
  }

  /** `Representation.GetResolutionRepr`. */
  function RepresentationResolution(rep: Representation): Result<string> {
    ResolutionOf(rep.width, rep.height)
  }

  // ---------------------------------------------------------------------
  // Media type
  // ---------------------------------------------------------------------

  /** The major type of a MIME string: the text before its first '/'. */
  function MimeMajor(mime: Option<string>): Option<string> {
    match mime
    case None => None
    case Some(m) => Some(BeforeFirst(m, '/'))
  }

  /** What a Representation says about its type: its mimeType's major type
      if it has a mimeType, otherwise its contentType. */
  function RepresentationTypeField(rep: Representation): Option<string> {
    if rep.mimeType.Some? then MimeMajor(rep.mimeType) else rep.contentType
  }

  /** What each Representation says about its type, in document order. */
  function RepresentationTypeFields(a: AdaptationSet): seq<Option<string>> {
    seq(|a.representations|, i requires 0 <= i < |a.representations| => RepresentationTypeField(a.representations[i]))
  }

  /** `GetType`: the first present field among the AdaptationSet's mimeType
      (major type), its contentType, then each Representation's mimeType
      (major type) or contentType, decides, and its parse is final even when
      it fails. Without any such field the type is unknown. */
  function GetType(a: AdaptationSet): (r: Result<MediaType>)
    ensures a.mimeType.Some? ==> r == ParseMediaType(BeforeFirst(a.mimeType.value, '/'))
    ensures a.mimeType.None? && a.contentType.Some? ==> r == ParseMediaType(a.contentType.value)
    ensures r == Failure(NoMediaTypeInfo) <==>
      && a.mimeType.None? && a.contentType.None?
      && forall i :: 0 <= i < |a.representations| ==>
           a.representations[i].mimeType.None? && a.representations[i].contentType.None?
    ensures a.mimeType.None? && a.contentType.None? ==>
      forall i :: 0 <= i < |a.representations| && RepresentationTypeField(a.representations[i]).Some?
                  && (forall j :: 0 <= j < i ==> RepresentationTypeField(a.representations[j]).None?)
                  ==> r == ParseMediaType(RepresentationTypeField(a.representations[i]).value)
  {
    if a.mimeType.Some? then ParseMediaType(BeforeFirst(a.mimeType.value, '/'))
    else if a.contentType.Some? then ParseMediaType(a.contentType.value)
    else
      var fields := RepresentationTypeFields(a);
      assert forall i :: 0 <= i < |fields| ==> fields[i] == RepresentationTypeField(a.representations[i]);
      match FirstPresent(fields)
      case None => Failure(NoMediaTypeInfo)
      case Some(k) => ParseMediaType(fields[k].value)
  }

  /** An AdaptationSet with no attributes and no children. */
  const EmptyAdaptationSet := AdaptationSet(None, None, None, None, None, None, None, None, [], [], None)

  /** Worked example: a MIME type decides by its major type. */
  lemma GetTypeExampleMime()
    ensures GetType(EmptyAdaptationSet.(mimeType := Some("video/mp4"))) == Success(Video)
  {
    var mime := "video/mp4";
    assert mime[..5] == "video";
    BeforeFirstAt(mime, '/', 5);
  }

  /** Worked examples: a lone contentType decides by itself; a subtree
      without either field has no type; a Representation's field is used
      when the AdaptationSet has none. */
  lemma GetTypeExamplesFallback()
    ensures GetType(EmptyAdaptationSet.(contentType := Some("audio"))) == Success(Audio)
    ensures GetType(EmptyAdaptationSet) == Failure(NoMediaTypeInfo)
    ensures GetType(EmptyAdaptationSet.(representations := [
              Representation(None, None, None, Some("text"), None, None, None, None, None, None)]))
            == Success(Subtitle)
  {
  }

  // ---------------------------------------------------------------------
  // Liveness
  // ---------------------------------------------------------------------

  /** `IsLive`: "static" (any case) is not live, "dynamic" (any case) is;
      any other value is an error, and so is a missing type. */
  function IsLive(m: Mpd): (r: Result<bool>)
    ensures r == Success(false) <==> m.presentationType.Some? && EqualFold(m.presentationType.value, "static")
    ensures r == Success(true) <==> m.presentationType.Some? && EqualFold(m.presentationType.value, "dynamic")
    ensures m.presentationType.None? ==> r == Failure(MissingManifestType)
    ensures r.Failure? && m.presentationType.Some? ==> r.error == InvalidManifestType(m.presentationType.value)
  {
    match m.presentationType
    case None => Failure(MissingManifestType)
    case Some(t) =>
      if EqualFold(t, "static") then Success(false)
      else if EqualFold(t, "dynamic") then Success(true)
      else Failure(InvalidManifestType(t))
  }

  /** The answer depends on the type only up to case. */
  lemma IsLiveCaseInsensitive(m: Mpd, t: string)
    requires m.presentationType == Some(t)
    ensures IsLive(m).Success? ==> IsLive(m) == IsLive(m.(presentationType := Some(Lower(t))))
    ensures IsLive(m).Failure? <==> IsLive(m.(presentationType := Some(Lower(t)))).Failure?
  {
    LowerIdempotent(t);
  }

  /** Worked examples: mixed case is accepted, other words are not. */
  lemma IsLiveExamples(m: Mpd)
    ensures IsLive(m.(presentationType := Some("Dynamic"))) == Success(true)
    ensures IsLive(m.(presentationType := Some("STATIC"))) == Success(false)
    ensures IsLive(m.(presentationType := Some("paused"))) == Failure(InvalidManifestType("paused"))
  {
    assert Lower("paused")[0] == 'p';
    assert Lower("static")[0] == 's' && Lower("dynamic")[0] == 'd';
  }
}
