/** The typed MPD tree of `internal/parser/mpd`: Mpd owns Periods, a Period
    owns AdaptationSets, an AdaptationSet owns Representations and
    ContentProtections. Every attribute is optional, as every attribute
    field of the Go structs is a pointer; children are sequences, as they are
    slices there. The tree is a value, built once and never changed. XML
    decoding is not part of this model. */
module MpdTree {
  import opened Results

  /** Go's `uint64`, the type of the numeric attributes. */
  type uint64 = x: int | 0 <= x < 0x1_0000_0000_0000_0000

  datatype Mpd = Mpd(
    xmlns: Option<string>,
    presentationType: Option<string>,   // the `type` attribute: "static" or "dynamic"
    availabilityStartTime: Option<string>,
    publishTime: Option<string>,
    mediaPresentationDuration: Option<string>,
    timeShiftBufferDepth: Option<string>,
    maxSegmentDuration: Option<string>,
    baseUrl: Option<string>,
    periods: seq<Period>)

  datatype Period = Period(
    duration: Option<string>,
    id: Option<string>,
    baseUrl: Option<string>,
    adaptationSets: seq<AdaptationSet>)

  /** The AudioChannelConfiguration child element, present or not, whose
      `value` attribute is itself optional. */
  datatype AudioChannelConfiguration = AudioChannelConfiguration(value: Option<string>)

  datatype AdaptationSet = AdaptationSet(
    mimeType: Option<string>,
    contentType: Option<string>,
    frameRate: Option<string>,
    baseUrl: Option<string>,
    codecs: Option<string>,
    width: Option<uint64>,
    height: Option<uint64>,
    lang: Option<string>,
    representations: seq<Representation>,
    contentProtections: seq<ContentProtection>,
    audioChannelConfiguration: Option<AudioChannelConfiguration>)

  datatype Representation = Representation(
    id: Option<string>,
    frameRate: Option<string>,
    mimeType: Option<string>,
    contentType: Option<string>,
    bandwidth: Option<uint64>,          // bytes per second
    codecs: Option<string>,
    lang: Option<string>,
    width: Option<uint64>,
    height: Option<uint64>,
    baseUrl: Option<string>)

  datatype ContentProtection = ContentProtection(
    schemeIdUri: Option<string>,
    value: Option<string>,
    defaultKid: Option<string>,         // cenc:default_KID
    pssh: Option<string>,               // cenc:pssh
    pro: Option<string>)                // mspr:pro

  /** The DRM systems a ContentProtection can be normalised to. */
  datatype DrmSystem = Cenc | Widevine | PlayReady {
    /** The `Type` string the Go descriptor carries. */
    function Name(): string {
      match this
      case Cenc => "cenc"
      case Widevine => "widevine"
      case PlayReady => "playready"
    }
  }

  /** The normalised DRM descriptor: the key id for cenc, the pssh payload for
      Widevine and PlayReady, and the PlayReady object for PlayReady only. */
  datatype MediaEncryption = MediaEncryption(system: DrmSystem, value: string, pro: Option<string>)
}
