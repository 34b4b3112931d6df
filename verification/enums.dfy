/** The closed media-type enumeration of `internal/enums`: the Go type is an
    `int` with three `iota` constants and two lookup tables, one from value
    to name and one from name to value. */
module Enums {
  import opened Results

  datatype MediaType = Video | Audio | Subtitle

  /** The `iota` value of each constant. */
  function Code(t: MediaType): (code: int)
    ensures 0 <= code < 3
  {
    match t
    case Video => 0
    case Audio => 1
    case Subtitle => 2
  }

  /** The name table `mediaName`, keyed by `iota` value. */
  const MediaNames: map<int, string> := map[0 := "video", 1 := "audio", 2 := "text"]

  /** `MediaType.String` on a constant: its entry in the name table. */
  function Name(t: MediaType): (r: string)
    ensures Code(t) in MediaNames && r == MediaNames[Code(t)]
  {
    match t
    case Video => "video"
    case Audio => "audio"
    case Subtitle => "text"
  }

  /** `ParseMediaType`: an exact, case-sensitive lookup in the name table. */
  function ParseMediaType(s: string): (r: Result<MediaType>)
    ensures r.Success? <==> s in {"video", "audio", "text"}
    ensures r.Success? ==> Name(r.value) == s
    ensures r.Failure? ==> r.error == UnknownMediaType(s)
  {
    if s == "video" then Success(Video)
    else if s == "audio" then Success(Audio)
    else if s == "text" then Success(Subtitle)
    else Failure(UnknownMediaType(s))
  }

  /** The integer `ParseMediaType` returns beside its error: the constant's
      value on success, the sentinel -1 on failure. */
  function ParseMediaTypeCode(s: string): (code: int)
    ensures code == -1 <==> s !in {"video", "audio", "text"}
    ensures ParseMediaType(s).Success? ==> code == Code(ParseMediaType(s).value)
  {
    match ParseMediaType(s)
    case Success(t) => Code(t)
    case Failure(_) => -1
  }

  /** `MediaType.String` on an arbitrary integer: a lookup in the name table,
      which yields Go's zero value "" for a key the table does not hold. */
  function CodeName(code: int): (name: string)
    ensures name == "" <==> !(0 <= code < 3)
  {
    if code in MediaNames then MediaNames[code] else ""
  }

  /** Parsing a constant's name gives back the constant. */
  lemma ParseName(t: MediaType)
    ensures ParseMediaType(Name(t)) == Success(t)
  {
  }

  /** Whatever `ParseMediaType` accepts, the name of its result is the input. */
  lemma NameOfParsed(s: string)
    requires ParseMediaType(s).Success?
    ensures Name(ParseMediaType(s).value) == s
  {
  }

  /** The integer channel of the Go signature agrees with the typed one: the
      name of the returned integer is the input on success and "" for the
      sentinel. */
  lemma CodeNameOfParsedCode(s: string)
    ensures ParseMediaType(s).Success? ==> CodeName(ParseMediaTypeCode(s)) == s
    ensures ParseMediaType(s).Failure? ==> CodeName(ParseMediaTypeCode(s)) == ""
  {
  }

  /** Matching is case-sensitive: capitalised names are rejected. */
  lemma ParseIsCaseSensitive()
    ensures ParseMediaType("Video") == Failure(UnknownMediaType("Video"))
    ensures ParseMediaType("AUDIO").Failure?
    ensures ParseMediaType("Text").Failure?
  {
  }
}
