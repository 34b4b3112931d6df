/** Optional values, results and the error taxonomy shared by every accessor
    of the manifest query layer.

    Every attribute of the manifest tree is optional (a Go pointer that may be
    nil), and every accessor either returns a value or an error; the Go
    functions return `(value, error)` pairs, modelled here as `Result`. */
module Results {

  /** A present-or-absent attribute (a Go `*T`). */
  datatype Option<+T> = None | Some(value: T) {

    /** The value if present, otherwise `default`. */
    function GetOr(default: T): T {
      match this
      case Some(v) => v
      case None => default
    }
  }

  /** The kinds of error the accessors report. The Go code builds message
      strings with `fmt.Errorf`; only the kind (and the offending input where
      the message quotes it) is kept. */
  datatype Error =
    | UnknownMediaType(name: string)   // enums.ParseMediaType on a name outside the table
    | NoMediaTypeInfo                  // GetType: no mimeType/contentType anywhere
    | MissingWidevinePssh              // Widevine ContentProtection without pssh
    | MissingPlayReadyFields           // PlayReady ContentProtection without pssh or pro
    | UnrecognizedProtectionScheme     // no default_KID and no known scheme
    | NoChannelInfo                    // no AudioChannelConfiguration@value
    | InvalidChannelValue(raw: string) // AudioChannelConfiguration@value is not an integer
    | NoBandwidthInfo
    | NoLanguageInfo
    | NoCodecInfo
    | NoResolutionInfo
    | MissingManifestType              // MPD@type absent (a nil dereference in the Go code)
    | InvalidManifestType(raw: string) // MPD@type neither static nor dynamic

  /** The outcome of an accessor: a value or an error, never both. */
  datatype Result<+T> = Success(value: T) | Failure(error: Error)

  /** True iff `i` is the first position of `xs` holding a present value. */
  ghost predicate IsFirstPresent<T>(xs: seq<Option<T>>, i: int) {
    && 0 <= i < |xs|
    && xs[i].Some?
    && forall j :: 0 <= j < i ==> xs[j].None?
  }

  /** Ordered-candidate evaluation with early return: the position of the
      first present candidate, or None when every candidate is absent. This is
      the shape of every fallback chain of the accessors (the AdaptationSet's
      own attribute first, then each Representation in document order). */
  function FirstPresent<T>(xs: seq<Option<T>>): (r: Option<nat>)
    ensures r.Some? ==> IsFirstPresent(xs, r.value)
    ensures r.None? <==> forall i :: 0 <= i < |xs| ==> xs[i].None?
  {
    if |xs| == 0 then None
    else if xs[0].Some? then Some(0)
    else
      match FirstPresent(xs[1..])
      case None => None
      case Some(k) => Some(k + 1)
  }
}
