# aioytt core in Dafny

A model of the part of `aioytt` that turns a video page link into timed
caption snippets, with the properties each step promises proved about it.

The steps, each in its own module:

- **Resolving a link (`VideoId`).** `parse_video_id` checks the scheme,
  then the host, then reads the ID. A `/watch` link gives the first
  non-blank `v` value. Any other path gives its last `/`-segment. Only the
  candidate's length of 11 is checked.
- **Reading the caption catalogue (`PlayerResponse`, `Caption`, `Json`).**
  `parse_captions` cuts the `ytInitialPlayerResponse` object out of the
  page and decodes it. It then walks `captions` to
  `playerCaptionsTracklistRenderer` to `captionTracks` and validates the
  tracks.
- **Choosing a track (`TrackSelection`).** `get_caption_track` takes the
  only track, or else the first track in the earliest preferred language
  that any track offers, or else the first track.
- **Reading the caption document (`TranscriptXml`, `Entities`).**
  `parse_transcript` skips elements without a text node. Every other
  element becomes a snippet: its text is stripped and unescaped, `start`
  is converted, and `dur` (or `"0.0"`) is converted.
- **The whole path (`Pipeline`).** `get_transcript_from_video_id` and
  `get_transcript_from_url` chain the steps. Any step's failure is the
  result, and a selected track without `base_url` fails with
  `CaptionsNotFoundError`.

Python facts the model states directly:

- `str.split`, `strip`, `lstrip` and `endswith` are written over
  `seq<char>` in `Text`.
- The exceptions the code raises, its own and the built-in ones that
  escape, are variants of `Errors.Error`. They are carried in a `Result`.

Parts of the library the model takes as parameters, since their code is
not part of this model:

- `json.loads` is `decode: string -> Option<Json.Value>`.
- `float()` is `toFloat: string -> Option<real>`.
- `ElementTree.fromstring` is `parseXml`.
- The two HTTP fetches are `fetchVideoHtml` and `fetchHtml`.
- `urlparse` is replaced by its result, `Url.UrlParts`.

Behaviour of the code worth knowing, all of it modelled as written:

- Only leading slashes are stripped from a path (video_id.py:70). So
  `https://youtu.be/<id>/` yields an empty candidate and is rejected with
  `VideoIDError("")` (`VideoId.TrailingSlashRejected`).
- A text node made only of whitespace is kept as a snippet with empty text
  (transcript.py:181-187, `TranscriptXml.WhitespaceTextKept`). Only a
  missing text node is skipped.
- `;` is stripped from both ends of the extracted object
  (transcript.py:77).
- `language_codes` defaults to `("en",)` in both pipeline entry points
  (transcript.py:196, 233); the two methods take the same default.

## Model

| member | source | states |
|---|---|---|
| VideoId.ParseVideoId | src/aioytt/video_id.py:51-76 | Checks run in order: a scheme outside {http, https} gives UnsupportedURLScheme(scheme) whatever else the link holds; then a host outside the six allowed hosts gives UnsupportedURLNetloc(netloc). A result is an ID of exactly 11 characters. VideoIDError is returned exactly when scheme and host pass and the candidate exists with the wrong length, and it carries that candidate. |
| VideoId.QueryValues | src/aioytt/video_id.py:62-66 | The `v` values as `parse_qs` keeps them: never blank. The list is non-empty exactly when some field gives the key a non-blank value, and its first value is the first such field's. |
| VideoId.FirstValueUnique | src/aioytt/video_id.py:64-66 | The "first non-blank `v` field" picked by the watch branch is a single, well-defined field. |
| VideoId.Candidate | src/aioytt/video_id.py:59-71 | The candidate step fails exactly for a `/watch` path without a non-blank `v` value, and then with NoVideoIDFound carrying the link. |
| VideoId.WatchWithoutV | src/aioytt/video_id.py:61-68 | A `/watch` link whose query has no non-blank `v` (none at all, or only `v=`) is rejected with NoVideoIDFound, whatever other fields it has. |
| VideoId.WatchUsesFirstV | src/aioytt/video_id.py:61-66 | For a `/watch` link the ID is the first non-blank `v` value, or VideoIDError for that value when it is not 11 characters long; later fields have no effect. |
| VideoId.PathUsesLastSegment | src/aioytt/video_id.py:69-74 | For any other path, written as a directory ending in `/` followed by a slash-free segment, the result is that segment when it is 11 characters long and VideoIDError(segment) otherwise. |
| VideoId.TrailingSlashRejected | src/aioytt/video_id.py:69-74 | A non-watch path ending in `/` is rejected with VideoIDError(""), since only leading slashes are removed. |
| VideoId.ShortLinkRoundTrip | src/aioytt/video_id.py:69-76 | Round trip: any well-formed 11-character ID placed as the path `/<id>` on any allowed scheme and host resolves back to that ID. |
| VideoId.WatchRoundTrip | src/aioytt/video_id.py:61-76 | Round trip: any well-formed ID given as the first field `v=<id>` of a `/watch` link resolves back to that ID, whatever fields follow. |
| VideoId.WatchExamples | src/aioytt/test_video_id.py:11-34 | The standard watch link and one with `&feature=featured` give `dQw4w9WgXcQ`. A bare `/watch` link gives NoVideoIDFound. |
| VideoId.ShortLinkExample | src/aioytt/test_video_id.py:16-19 | `https://youtu.be/dQw4w9WgXcQ` gives `dQw4w9WgXcQ`. |
| VideoId.ExtraSegmentsExample | src/aioytt/test_video_id.py:61-64 | `/watch/v/dQw4w9WgXcQ` is not a watch path and gives its last segment. |
| VideoId.WrongLengthExample | src/aioytt/test_video_id.py:56-59 | `https://youtu.be/short` gives VideoIDError("short"). |
| VideoId.RejectedExamples | src/aioytt/test_video_id.py:41-49 | An `ftp` link is rejected for its scheme and a `vimeo.com` link for its host. |
| Text.LStripKeepsLastSegment | src/aioytt/video_id.py:70-71 | Removing leading slashes never changes the text after the last `/`. |
| Text.Before | src/aioytt/transcript.py:75-76 | `split(sep)[0]` is the text from the start up to the first occurrence of `sep`, no occurrence starting inside it, or the whole text when `sep` is absent. |
| Text.SecondPiece | src/aioytt/transcript.py:69-74 | `split(sep)[1]` exists exactly when `sep` occurs. It is the text from right after the first `sep` up to the next occurrence of `sep` or the end, with no occurrence starting inside it. |
| Text.PieceUnique | src/aioytt/transcript.py:69-76 | From a given index there is only one text up to the next separator, so the pieces `Before` and `SecondPiece` describe are determined. |
| Text.Find | src/aioytt/transcript.py:69-74 | The first occurrence of the separator, where `split` cuts: absent exactly when the separator does not occur, and no occurrence starts before it. |
| Text.LStrip | src/aioytt/video_id.py:70 | `lstrip(chars)` leaves a suffix of its input that does not begin with one of `chars`. |
| Text.RStrip | src/aioytt/transcript.py:77 | `rstrip(chars)` leaves a prefix of its input that does not end with one of `chars`. |
| Text.LastSegment | src/aioytt/video_id.py:71 | `split("/")[-1]` is a suffix without `/`, preceded by a `/` whenever it is not the whole text. |
| Text.Strip | src/aioytt/transcript.py:77 | `strip(chars)` leaves no stripped character at either end and never lengthens its input. |
| Text.StripEmpty | src/aioytt/transcript.py:77 | `strip(chars)` leaves nothing exactly when every character of the input is one of `chars`. |
| Text.LStripDropsOnly | src/aioytt/video_id.py:70 | Everything `lstrip(chars)` removes is a character of `chars`. |
| Text.RStripDropsOnly | src/aioytt/transcript.py:77 | Everything `rstrip(chars)` removes is a character of `chars`. |
| Text.StripContained | src/aioytt/transcript.py:77 | What `strip` leaves is a contiguous piece of its input. |
| Text.StripSpans | src/aioytt/transcript.py:77 | `strip(chars)` leaves a piece of its input with only characters of `chars` before and after it: it removes a leading and a trailing run and nothing in between. |
| Text.StripUnique | src/aioytt/transcript.py:77 | The piece `strip(chars)` leaves is the only piece surrounded by characters of `chars` that neither begins nor ends with one of them. |
| PlayerResponse.ExtractPlayerResponse | src/aioytt/transcript.py:69-77 | Fails with InitialPlayerResponseNotFound exactly when the marker is absent; a payload it returns neither begins nor ends with `;`. |
| PlayerResponse.ExtractedPayloadClean | src/aioytt/transcript.py:69-77 | The returned payload is a piece of the page and contains neither the marker, nor `</script>`, nor `;var head =`. |
| PlayerResponse.ExtractEmbedded | src/aioytt/transcript.py:69-77 | Round trip: a page embedding a payload right after the first marker and right before `</script>` yields exactly that payload, provided the payload holds no delimiter and does not begin or end with `;`. |
| PlayerResponse.ParseCaptions | src/aioytt/transcript.py:53-85 | InitialPlayerResponseNotFound exactly when the marker is absent. An undecodable payload gives MalformedPlayerResponse. A decoded payload gives exactly what the caption walk gives for it. |
| PlayerResponse.CaptionsOf | src/aioytt/transcript.py:81-85 | A response that is not an object, or whose `captions` is not an object, is rejected with UnexpectedResponseShape. A missing or false renderer, or one without `captionTracks`, gives CaptionsNotFound; `in` raising gives UnexpectedResponseShape. Otherwise the result is the renderer's validation. |
| PlayerResponse.CaptionsNotFoundExactly | src/aioytt/transcript.py:81-83 | When `captions` is an object or missing, CaptionsNotFound is returned exactly when the renderer is missing, false by Python truthiness, or a container without `captionTracks`. |
| PlayerResponse.MissingCatalogueExamples | tests/test_transcript.py:333-368 | A response without `captions` and a renderer without `captionTracks` are both rejected with CaptionsNotFound. |
| PlayerResponse.OneTrackExample | tests/test_transcript.py:293-320 | The example response yields one English track carrying its base URL. |
| Caption.TrackFromJson | src/aioytt/transcript.py:85 | A track validates exactly when it is an object with a string `languageCode` and a `baseUrl` that is a string, null or absent; the fields are copied across. |
| Caption.TracksFromJson | src/aioytt/transcript.py:85 | The track list validates exactly when every element does; it keeps length and order, each track being its element's. |
| Caption.CaptionsFromJson | src/aioytt/transcript.py:85 | A catalogue validates exactly when the renderer is an object whose `captionTracks` is an array of valid tracks, and then holds that array's tracks. |
| Json.HasKey | src/aioytt/transcript.py:82 | `key in x` raises exactly for null, booleans and numbers, and tests the keys of an object. |
| Json.Truthy | src/aioytt/transcript.py:82 | A value is false exactly when it is null, `false`, zero, or an empty string, list or object. |
| Json.Get | src/aioytt/transcript.py:81 | `.get(key, default)` gives the value under `key`, or `default` when the key is absent. |
| TrackSelection.GetCaptionTrack | src/aioytt/transcript.py:133-164 | Fails, with CaptionsNotFound, exactly when there are no tracks. Otherwise it returns the track the selection rule picks: the only track; or the first track offering the earliest preference any track offers; or the first track. |
| TrackSelection.SelectionUnique | src/aioytt/transcript.py:150-164 | The selection rule determines at most one track. |
| TrackSelection.SelectionIsMember | src/aioytt/transcript.py:153-164 | The selected track is one of the tracks, and among several it has a preferred language whenever any track does. |
| TrackSelection.NoPreferenceMeansFirst | src/aioytt/transcript.py:164 | With no preference offered, or none given, the first track is selected. |
| TrackSelection.SelectionExamples | tests/test_transcript.py:234-291 | The examples' selections: `en` among fr/en/es; `es` first among es, en, fr; no match gives the first; a single track wins regardless, even for an empty list. |
| TrackSelection.LanguageCodes.AsList | src/aioytt/transcript.py:156-157 | A bare language code is treated as a one-element list. |
| TranscriptXml.ToSnippet | src/aioytt/transcript.py:185-190 | A snippet is built exactly when `start` is present and both `start` and `dur` (or `"0.0"`) convert. Otherwise a missing `start` gives MissingStart, and the first text that does not convert gives InvalidFloat for that text. A snippet has the stripped and unescaped text and the two converted values. |
| TranscriptXml.ParseTranscript | src/aioytt/transcript.py:167-192 | A successful walk yields as many snippets as there are elements with a text node. |
| TranscriptXml.Kept | src/aioytt/transcript.py:180-183 | The elements that produce snippets are never more than the children. |
| TranscriptXml.KeptMembers | src/aioytt/transcript.py:180-183 | An element is kept for a snippet exactly when it is one of the children and has a text node. |
| TranscriptXml.ParseTranscriptOk | src/aioytt/transcript.py:179-192 | The walk succeeds exactly when every element with a text node converts. Its snippets are then those elements' snippets, one each, in document order. |
| TranscriptXml.ParseTranscriptValues | src/aioytt/transcript.py:179-192 | A successful walk yields exactly one snippet per element with a text node, in document order. |
| TranscriptXml.ParseTranscriptFirstError | src/aioytt/transcript.py:179-192 | A failed walk reports the error of the first element with a text node that does not convert; all earlier such elements convert. |
| TranscriptXml.SnippetCountBounded | src/aioytt/transcript.py:179-192 | There are never more snippets than elements. |
| TranscriptXml.TextlessChildIgnored | src/aioytt/transcript.py:180-183 | Inserting an element without a text node anywhere does not change the result. |
| TranscriptXml.WhitespaceTextKept | src/aioytt/transcript.py:181-187 | A whitespace-only text node is not skipped; it becomes a snippet with empty text. |
| TranscriptXml.MissingDurationIsZero | src/aioytt/transcript.py:189 | Without `dur` the duration is `float("0.0")`, which is zero. |
| TranscriptXml.ThreeLineExample | tests/test_transcript.py:158-173 | The three-line example document yields the three expected snippets. |
| TranscriptXml.DecodedEntitiesExample | tests/test_transcript.py:209-224 | The document with `&amp;`, `&lt;`, `&gt;` and `&quot;` yields `I & you`, `Less < Greater >` and `Quote "test"`: the XML parser has already decoded them, and `unescape` keeps the lone `&`. |
| TranscriptXml.AmpersandLine | tests/test_transcript.py:212 | The line whose text the XML parser decoded to `I & you` becomes the snippet `I & you`. |
| Entities.ReferenceAtTable | src/aioytt/transcript.py:187 | The reference recogniser used by the scan finds a reference exactly when the text starts with one of the six listed references, and reports that reference's character and length. |
| Entities.Unescape | src/aioytt/transcript.py:187 | `html.unescape` never lengthens its input, and a first character other than `&` is copied. |
| Entities.UnescapePlain | src/aioytt/transcript.py:187 | Text without `&` holds no reference and is left unchanged. |
| Entities.UnescapeNoReference | src/aioytt/transcript.py:187 | Text in which no `&` starts a reference is left unchanged; a lone `&` is kept. |
| Entities.LoneAmpersandExample | tests/test_transcript.py:212-222 | `unescape` keeps `I & you`, the text it receives for the example line `I &amp; you`. |
| Entities.UnescapeEscape | src/aioytt/transcript.py:187 | Round trip: unescaping the `html.escape` form of any text gives that text back. |
| Entities.AmpersandExample | src/aioytt/transcript.py:187 | `html.unescape("I &amp; you")` is `I & you`. |
| Entities.AngleBracketExample | src/aioytt/transcript.py:187 | `html.unescape("Less &lt; Greater &gt;")` is `Less < Greater >`. |
| Entities.QuoteExample | src/aioytt/transcript.py:187 | `html.unescape("Quote &quot;test&quot;")` is `Quote "test"`. |
| Pipeline.CaptionsOfVideo | src/aioytt/transcript.py:219-221 | A fetch failure is the result; otherwise the result is the page's caption parse. |
| Pipeline.TrackTranscript | src/aioytt/transcript.py:225-230 | A track without `base_url` gives CaptionsNotFound. A failed fetch gives the fetch error, and a failed XML parse gives the parse error. Otherwise the result is the walk of the parsed document. |
| Pipeline.GetTranscriptFromVideoId | src/aioytt/transcript.py:195-230 | A page or catalogue failure is the result, and an empty catalogue gives CaptionsNotFound. Otherwise the result is the transcript of the track the selection rule picks; `languageCodes` defaults to `en`. A success implies a selected track with a base URL. |
| Pipeline.GetTranscriptFromUrl | src/aioytt/transcript.py:233-261 | A link the resolver rejects gives the resolver's error before anything is fetched. Otherwise the result is the transcript of the selected track of the resolved video. |

## Left out

- Network access (`fetch_html`, `fetch_video_html`, the retry policy with exponential back-off, HTTP status handling) is a parameter of `Pipeline.Environment`. The retry loop is not modelled, since it concerns timing, not data.
- `async`/`await` and the logger calls: they carry no data.
- `json.loads`, `float()`, `urlparse` and `ElementTree.fromstring` are taken as parameters or as their parsed results. Their own grammars (JSON syntax, float literals including `inf`/`nan`, URL syntax, XML) are not modelled.
- `urlparse`'s lower-casing of the scheme is not modelled, since `UrlParts` holds the parsed scheme.
- Entities.Unescape: decodes only `&amp;`, `&lt;`, `&gt;`, `&quot;`, `&#39;` and `&#x27;`. `html.unescape` also decodes every other named and numeric reference, some without the `;`. The full HTML5 entity table is not part of this model.
- The `Captions`/`CaptionTrack` models: their source file is not part of this model. Their fields (`captionTracks`, `baseUrl` optional, `languageCode`) are inferred from how the library and its tests use them. Pydantic's other coercions are not modelled.
- `_FORMATTING_TAGS` in transcript.py is declared but never used by the code modelled here.
- The percent-encoding of the ID in the watch-page request is left to `fetchVideoHtml`.
- The audio tracks the `parse_captions` docstring mentions (transcript.py:63): the code modelled here never reads them, and `Captions` keeps only `captionTracks`.
- The `example.py` script, and the package exports and logger set-up in `__init__.py`: they are usage and configuration, not logic.
