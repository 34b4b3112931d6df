# DASH manifest query layer of ddl3, in Dafny

This project models the query layer of ddl3. ddl3 is a downloader that reads an
MPEG-DASH manifest (an MPD). The layer is a typed, immutable MPD tree plus the
pure functions that derive facts from it:

- **Tree** (`mpd_tree.dfy`, module `MpdTree`): Mpd → Period → AdaptationSet →
  Representation / ContentProtection. Every attribute is an `Option`, as every
  attribute field of the Go structs is a pointer. Children are sequences, as
  they are slices in Go.
- **DRM extraction** (`mpd_encryption.dfy`, module `MpdEncryption`):
  `GetEncryption` checks cenc via `default_KID` first, then the Widevine UUID,
  then the PlayReady UUID. `GetAllEncryption` collects all descriptors and stops
  at the first failure.
- **Attribute accessors** (`mpd_accessors.dfy`, module `MpdAccessors`): audio
  channels, bandwidth, language, codec label, resolution, media type and
  liveness. Language, codec and media type read the AdaptationSet first and
  then fall back to its Representations in document order. Audio channels
  read the AdaptationSet's AudioChannelConfiguration. Bandwidth reads one
  Representation. Resolution has two independent receivers, AdaptationSet and
  Representation, with no fallback. Liveness reads the Mpd's `type`.
- **URL helpers** (`utils.dfy`, module `Utils`): `ResolveUrl` folds BaseURL
  fragments from left to right. `StripUrlFilename` cuts a URL after its last
  `/`. `CodecRepr` is the utility copy of the codec naming switch.
- **Media-type enum** (`enums.dfy`, module `Enums`): three constants, a
  case-sensitive parse and a total display function.

Supporting modules:

- `Results` holds `Option`, `Result`, the error kinds and `FirstPresent`. The
  fallback chains are built from `FirstPresent`, an ordered scan that stops at
  the first present candidate.
- `Text` holds the parts of Go's `strings`/`strconv`/`fmt` that the layer uses.
  Case folding is ASCII only and integers are unbounded.
- `CodecTable` writes the codec names as a data table. The `switch` is proved
  equal to that table.
- `MpdUrls` feeds `ResolveUrl` the BaseURL chain of one Representation. The Go
  code declares a BaseURL at every level but never combines them, so this
  helper has no Go counterpart.

Go returns `(value, error)` pairs; here they are `Result`s. `IsLive` on a
manifest without `type` dereferences nil in Go (`parser.go:271`). Here it
returns the error `MissingManifestType`.

Behaviour of the Go code that is easy to misread:

- `ResolveUrl` removes **every** trailing `/` from the accumulator
  (`strings.TrimRight`), not only one.
- An empty accumulator still gets the joining `/`, so a relative first
  fragment comes back with a leading `/`.
- The codec and language fallbacks take the first Representation whose
  attribute is *present*, even if it is empty.
- There is no `resolvedUrl` field in the tree.
- `GetBandwith` divides the byte rate by 1024 and does not multiply by 8.

## Model

| member | source | states |
|---|---|---|
| MpdEncryption.GetEncryption | internal/parser/mpd/parser.go:96-130 | A present default_KID gives {cenc, kid, no pro} whatever the other fields hold. Otherwise a Widevine scheme (any case) gives {widevine, pssh} or MissingWidevinePssh. A PlayReady scheme gives {playready, pssh, pro} only when both are present, else MissingPlayReadyFields. Any other or absent scheme is UnrecognizedProtectionScheme. |
| MpdEncryption.SchemeIdsDistinct | internal/parser/mpd/parser.go:105-127 | No scheme matches both the Widevine and the PlayReady identifier, even up to case, so the order of those two checks cannot change a result. |
| MpdEncryption.GetEncryptionComplete | internal/parser/mpd/parser.go:96-130 | No partial descriptor: a success is cenc exactly when default_KID is present. Its value is the kid or the pssh, and it carries a pro exactly for PlayReady. Every field comes from the element itself. Its `Type` string is "cenc", "widevine" or "playready", by the same order of checks. |
| MpdEncryption.GetEncryptionSchemeCaseInsensitive | internal/parser/mpd/parser.go:106-117 | Lower-casing the schemeIdUri never changes the extraction result. |
| MpdEncryption.CollectEncryption | internal/parser/mpd/parser.go:86-93 | The loop succeeds iff every element's extraction succeeds. On success it has the same length and order, and element i is element i's descriptor. On failure the error is that of the first failing element. |
| MpdEncryption.GetAllEncryption | internal/parser/mpd/parser.go:83-94 | The same fail-fast guarantee for an AdaptationSet's ContentProtections. No list is returned when any one fails. |
| MpdAccessors.GetAudioChannels | internal/parser/mpd/parser.go:132-144 | A missing element or attribute gives NoChannelInfo. Otherwise the result succeeds exactly when the value is an integer literal (Atoi), with that value. Otherwise it is InvalidChannelValue with the raw text. |
| MpdAccessors.GetAudioChannelsRoundTrip | internal/parser/mpd/parser.go:133-139 | Any integer written in decimal is read back as that channel count. |
| MpdAccessors.GetBandwidth | internal/parser/mpd/parser.go:146-153 | Fails with NoBandwidthInfo exactly when bandwidth is absent. Otherwise the result r satisfies r*1024 <= bandwidth < (r+1)*1024, i.e. it is rounded down and not multiplied by 8. |
| MpdAccessors.GetLang | internal/parser/mpd/parser.go:155-168 | Returns the AdaptationSet's lang if present. Otherwise it returns the lang of the first Representation that has one, empty values included. It fails with NoLanguageInfo iff no node has a lang. |
| MpdAccessors.CodecOf | internal/parser/mpd/parser.go:186-200 | Both `GetCodec` methods succeed iff the node has codecs, with the named form of that string. Otherwise the error is NoCodecInfo. |
| MpdAccessors.GetCodecAll | internal/parser/mpd/parser.go:170-184 | The AdaptationSet's own codec wins when present. Otherwise the result is the codec of the first Representation that has one. It fails with NoCodecInfo iff no node has codecs. |
| MpdAccessors.CodecRepr | internal/parser/mpd/parser.go:202-229 | The `switch` equals the ordered naming table applied to the lower-cased string, with pass-through of the lower-cased string when no rule matches. |
| MpdAccessors.CodecReprNames | internal/parser/mpd/parser.go:205-227 | A lower-cased codec that starts with avc1/hvc1/hev1/av01/vp09 gets that prefix's label. One equal to mp4a.40.2/.5/.29, ac-3 or ec-3 gets its label. Anything else comes back lower-cased. |
| MpdAccessors.CodecReprCaseInsensitive | internal/parser/mpd/parser.go:204 | codecRepr(s) == codecRepr(lower(s)). |
| MpdAccessors.CodecReprRecognised | internal/parser/mpd/parser.go:202-229 | A table label comes out iff the codec matches a rule. A passed-through string can never be mistaken for a label. |
| MpdAccessors.CodecReprExamplePrefix | internal/parser/mpd/parser.go:206-207 | "AVC1.640028" is H.264: a prefix decides, whatever its case and whatever follows. |
| MpdAccessors.CodecReprExampleExact | internal/parser/mpd/parser.go:216-217 | "mp4a.40.2" is AAC-LC. |
| MpdAccessors.CodecReprExamplePassThrough | internal/parser/mpd/parser.go:226-227 | "xyz123" is not named and comes back as it is. |
| Utils.CodecRepr | internal/utils/utils.go:57-84 | The utility copy of the `switch` also equals the ordered naming table applied to the lower-cased string, with pass-through when no rule matches. |
| MpdAccessors.UtilsCodecReprAgrees | internal/utils/utils.go:57-84 | The utility copy names every codec exactly as the parser's codecRepr does. |
| MpdAccessors.ResolutionOf | internal/parser/mpd/parser.go:231-245 | Both `GetResolutionRepr` methods succeed iff width and height are both present. The value is decimal(width) "x" decimal(height), and splitting it at the 'x' gives both numbers back. Otherwise the error is NoResolutionInfo. |
| MpdAccessors.ParseFormatResolution | internal/parser/mpd/parser.go:234 | The `%dx%d` string has exactly one 'x', placed after the width's digits. Splitting there recovers width and height. |
| MpdAccessors.GetType | internal/parser/mpd/parser.go:247-268 | The first present field decides, in this order: the AdaptationSet mimeType (text before the first '/'), its contentType, then each Representation's mimeType before its contentType. That field's ParseMediaType result is final, even when it is an error. NoMediaTypeInfo comes back iff no node has either field. |
| MpdAccessors.GetTypeExampleMime | internal/parser/mpd/parser.go:248-251 | mimeType "video/mp4" gives Video. |
| MpdAccessors.GetTypeExamplesFallback | internal/parser/mpd/parser.go:253-267 | A lone contentType "audio" gives Audio. No field anywhere gives NoMediaTypeInfo. A Representation's contentType "text" gives Subtitle. |
| MpdAccessors.IsLive | internal/parser/mpd/parser.go:270-279 | The result is false iff the type equals "static" up to case, and true iff it equals "dynamic" up to case. An absent type is MissingManifestType. Any other value is InvalidManifestType. |
| MpdAccessors.IsLiveCaseInsensitive | internal/parser/mpd/parser.go:271-274 | Lower-casing the type changes neither the answer nor whether it is an error. |
| MpdAccessors.IsLiveExamples | internal/parser/mpd/parser.go:270-279 | "Dynamic" is live, "STATIC" is not, and "paused" is InvalidManifestType. |
| Results.FirstPresent | internal/parser/mpd/parser.go:161-165 | The ordered fallback scan returns the first position holding a present value. It returns none iff every candidate is absent. |
| Utils.ResolveFrom | internal/utils/utils.go:36-47 | The fold's result is empty iff its start value and every fragment are empty. |
| Utils.ResolveUrl | internal/utils/utils.go:35-48 | Returns "" iff there are no fragments or every fragment is empty. |
| Utils.ResolveFromAppend | internal/utils/utils.go:37-46 | Folding over xs+ys is folding over ys from the result for xs. |
| Utils.ResolveFromEmpties | internal/utils/utils.go:38-40 | Empty fragments leave the accumulator unchanged. |
| Utils.ResolveFromAbsolute | internal/utils/utils.go:41-42 | A fragment containing "://" makes the fold forget its accumulator. |
| Utils.ResolveUrlSnoc | internal/utils/utils.go:37-46 | The last fragment is applied to the resolution of the ones before it. |
| Utils.ResolveUrlRelativeAppend | internal/utils/utils.go:43-45 | For a non-empty fragment r without "://", ResolveUrl(xs+[r]) == TrimRight(ResolveUrl(xs), "/") + "/" + r. |
| Utils.ResolveUrlIgnoresEmpty | internal/utils/utils.go:38-40 | Inserting "" anywhere in the fragments leaves the result unchanged. |
| Utils.ResolveUrlAbsoluteOverride | internal/utils/utils.go:41-42 | If fragment k contains "://", the result depends only on fragments k onward. |
| Utils.ResolveUrlLastAbsolute | internal/utils/utils.go:41-42 | When the last non-empty fragment is absolute, the result is that fragment. |
| Utils.ResolveUrlEndsWithLast | internal/utils/utils.go:35-48 | The result always ends with the last non-empty fragment. |
| Utils.ResolveUrlExampleOverride | internal/utils/utils.go:41-42 | ["http://a.com/x/", "y/", "http://b.com/z"] resolves to "http://b.com/z". |
| Utils.ResolveUrlExampleAppend | internal/utils/utils.go:43-45 | ["http://a.com/x", "y"] resolves to "http://a.com/x/y". |
| Utils.ResolveUrlExampleTrimsSlashes | internal/utils/utils.go:43-45 | ["http://a.com/x//", "y"] also resolves to "http://a.com/x/y": both trailing slashes are removed before the join. |
| Utils.ResolveUrlExampleLeadingSlash | internal/utils/utils.go:36-44 | ["y"] resolves to "/y": an empty accumulator still gets the joining '/'. |
| Utils.StripUrlFilename | internal/utils/utils.go:50-55 | The result is a prefix of the URL. If the URL has a '/', the result ends in '/' and the removed tail has none. Otherwise the URL is returned unchanged. |
| Utils.StripUrlFilenameIdempotent | internal/utils/utils.go:50-55 | Stripping twice is stripping once. |
| MpdUrls.RepresentationUrl | internal/utils/utils.go:35-48 | The resolved location of a Representation, from its fetch URL and the four BaseURLs. It is empty iff every piece is absent or empty. |
| MpdUrls.NoBaseUrlGivesFetchUrl | internal/utils/utils.go:41-42 | With no BaseURL anywhere, an absolute fetch URL is the result. |
| MpdUrls.AbsoluteRepresentationBaseUrlWins | internal/utils/utils.go:41-42 | An absolute Representation BaseURL overrides every ancestor. |
| MpdUrls.RelativeRepresentationBaseUrlAppends | internal/utils/utils.go:43-45 | A relative Representation BaseURL is joined to what its ancestors resolve to. |
| Enums.Name | internal/enums/enums.go:34-36 | String() on each constant is its entry in the name table at its iota value: "video", "audio" or "text". |
| Enums.ParseMediaType | internal/enums/enums.go:25-32 | Succeeds exactly on "video", "audio" and "text", case-sensitively. The name of the result is the input. Every other string is UnknownMediaType. |
| Enums.ParseMediaTypeCode | internal/enums/enums.go:25-29 | The integer returned beside the error is -1 exactly for the rejected names. For an accepted name it is the iota value of the parsed constant. |
| Enums.CodeName | internal/enums/enums.go:34-36 | String() on an integer gives "" exactly outside the three constants. |
| Enums.ParseName | internal/enums/enums.go:13-23 | ParseMediaType(t.String()) == t for Video, Audio and Subtitle. |
| Enums.NameOfParsed | internal/enums/enums.go:19-36 | If ParseMediaType(s) succeeds with t, then t.String() == s. |
| Enums.CodeNameOfParsedCode | internal/enums/enums.go:25-36 | The name of the returned integer is the input on success and "" for the sentinel. |
| Enums.ParseIsCaseSensitive | internal/enums/enums.go:26-29 | "Video", "AUDIO" and "Text" are rejected. |
| Text.Atoi | internal/parser/mpd/parser.go:135 | strconv.Atoi accepts exactly an optional sign followed by one or more ASCII digits. The magnitude of the result is the value of those digits, and it is negated exactly when the sign is '-'. |
| Text.AtoiSignedDigits | internal/parser/mpd/parser.go:135 | A sign of "", "+" or "-" followed by digits reads as the digits' value, negated only for "-". |
| Text.AtoiLiteral | internal/parser/mpd/parser.go:135 | Every accepted shape (sign, any number of leading zeros, then a `%d` number n) reads as n or -n. A '+' and leading zeros change nothing. |
| Text.AtoiExamples | internal/parser/mpd/parser.go:135 | "+2" reads as 2, "007" as 7 and "-0" as 0. |
| Text.ParseDigitsLeadingZeros | internal/parser/mpd/parser.go:135 | Leading zero digits do not change a digit string's value. |
| Text.AtoiIntToString | internal/parser/mpd/parser.go:135 | Atoi reads back every integer written in decimal. |
| Text.NatToString | internal/parser/mpd/parser.go:234 | `%d` gives a non-empty string of digits with no leading zero. |
| Text.ParseNatToString | internal/parser/mpd/parser.go:234 | Reading back a `%d` string gives the number. |
| Text.BeforeFirst | internal/parser/mpd/parser.go:249 | strings.Split(s, "/")[0] is the longest prefix without '/'. It is either s itself or is followed by '/'. |
| Text.TrimRight | internal/utils/utils.go:44 | The result is a prefix that does not end in '/'. Everything removed is '/'. |
| Text.Contains | internal/utils/utils.go:41 | The result is true iff the needle occurs at some position. |
| Text.LastIndexOf | internal/utils/utils.go:51 | Returns -1 iff '/' is absent. Otherwise it is the position of a '/' with none after it. |
| Text.IndexOf | internal/parser/mpd/parser.go:249 | Returns -1 iff the character is absent. Otherwise it is the position of its first occurrence. |
| Text.Lower | internal/parser/mpd/parser.go:204 | strings.ToLower keeps the string's length. |
| Text.LowerChars | internal/parser/mpd/parser.go:204 | Each ASCII 'A'..'Z' becomes the matching 'a'..'z', 32 code points higher. Every other character is kept. |
| Text.LowerIdempotent | internal/parser/mpd/parser.go:204 | Lower-casing twice is the same as lower-casing once. |
| Text.EqualFoldChars | internal/parser/mpd/parser.go:271-274 | strings.EqualFold holds iff both strings have the same length and agree at every position up to ASCII case. |
| CodecTable.Lookup | internal/parser/mpd/parser.go:205-227 | The table lookup returns none iff no rule matches. Otherwise it returns the label of the first matching rule, as the ordered `switch` does. |
| CodecTable.RulesDisjoint | internal/parser/mpd/parser.go:205-225 | No string matches two different rules of the table. |
| CodecTable.LabelOfMatch | internal/parser/mpd/parser.go:205-225 | A string that matches rule k gets rule k's label. |
| CodecTable.LabelOfNoMatch | internal/parser/mpd/parser.go:226-227 | A string that matches no rule is its own label. |

## Left out

- XML decoding of the manifest: `encoding/xml`, its struct tags and namespaces (`parser.go:16-74`). It is a foreign library, so the tree is built directly as datatypes.
- `IsCorrectUrl` (`utils.go:14-33`): it needs `net/url` parsing and a DNS lookup.
- `internal/httputils/httputil.go`: it is an HTTP GET client.
- `internal/parser/extractor.go`: `LoadFromUri` is fetch glue. `LoadFromText` sniffs substrings and calls `xml.Unmarshal`, and it depends on an HLS package that is not part of this model.
- `cmd/ddl3/main.go`: it reads a file from a hard-coded path.
- Text.Lower: ASCII letters only. Go's Unicode lower-casing and `EqualFold`'s Unicode simple folding (for example the Kelvin sign) are not modelled.
- Text.Atoi: it does not model the range error of Go's 64-bit `int`, because integers here are unbounded.
- Error message texts: every error is a kind of the `Error` datatype. Where a message quotes the input, the kind carries that input.
- The shared `Pro` pointer between element and descriptor (`parser.go:123`): values have no identity here.
- Mpd attributes other than `type` and `BaseURL`, Period's `duration` (`parser.go:30`), the frameRate and id attributes, and ContentProtection's `value` (`parser.go:71`) are carried in the tree, but no accessor of the core reads them.
