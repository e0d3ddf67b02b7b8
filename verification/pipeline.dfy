/** `get_transcript_from_video_id` and `get_transcript_from_url`: the steps
    from a video to its snippets. The network and the XML parser are
    parameters: `fetchVideoHtml` is `fetch_video_html`, `fetchHtml` is
    `fetch_html` (retries included), `parseXml` is `ElementTree.fromstring`
    returning the root's children; `decode` and `toFloat` are as in the
    caption and transcript parsers. */
module Pipeline {
  import opened Errors
  import Url
  import Json
  import opened Caption
  import PlayerResponse
  import opened TrackSelection
  import opened TranscriptXml
  import VideoId

  /** The outside world the pipeline runs against. */
  datatype Environment = Environment(
    fetchVideoHtml: string -> Result<string>,
    fetchHtml: string -> Result<string>,
    decode: string -> Option<Json.Value>,
    parseXml: string -> Result<seq<XmlElement>>,
    toFloat: string -> Option<real>)

  /** The caption catalogue of a video's page, or why there is none. */
  function CaptionsOfVideo(videoId: string, env: Environment): (r: Result<Captions>)
    ensures env.fetchVideoHtml(videoId).Err? ==> r == Err(env.fetchVideoHtml(videoId).error)
    ensures env.fetchVideoHtml(videoId).Ok? ==>
              r == PlayerResponse.ParseCaptions(env.fetchVideoHtml(videoId).value, env.decode)
  {
    var html :- env.fetchVideoHtml(videoId);
    PlayerResponse.ParseCaptions(html, env.decode)
  }

  /** The snippets of one selected track: a track without a `baseUrl` has no
      captions to fetch; otherwise its document is fetched, parsed and
      walked. */
  function TrackTranscript(track: CaptionTrack, env: Environment): (r: Result<seq<Snippet>>)
    ensures track.baseUrl.None? ==> r == Err(CaptionsNotFound)
    ensures track.baseUrl.Some? && env.fetchHtml(track.baseUrl.value).Err? ==>
              r == Err(env.fetchHtml(track.baseUrl.value).error)
    ensures track.baseUrl.Some? && env.fetchHtml(track.baseUrl.value).Ok? ==>
              var parsed := env.parseXml(env.fetchHtml(track.baseUrl.value).value);
              && (parsed.Err? ==> r == Err(parsed.error))
              && (parsed.Ok? ==> r == ParseTranscript(parsed.value, env.toFloat))
    ensures r.Ok? ==> && track.baseUrl.Some?
                      && env.fetchHtml(track.baseUrl.value).Ok?
                      && env.parseXml(env.fetchHtml(track.baseUrl.value).value).Ok?
                      && var children := env.parseXml(env.fetchHtml(track.baseUrl.value).value).value;
                         ParseTranscript(children, env.toFloat) == r
  {
    match track.baseUrl
    case None => Err(CaptionsNotFound)
    case Some(url) =>
      var xml :- env.fetchHtml(url);
      var children :- env.parseXml(xml);
      ParseTranscript(children, env.toFloat)
  }

  /** `get_transcript_from_video_id`. The steps run in order and the first
      failure is the result: the page, its catalogue, a track (none when the
      catalogue is empty), the track's `baseUrl`, its document. */
  method GetTranscriptFromVideoId(videoId: string, env: Environment, languageCodes: LanguageCodes := Codes(["en"]))
    returns (r: Result<seq<Snippet>>)
    ensures CaptionsOfVideo(videoId, env).Err? ==> r == Err(CaptionsOfVideo(videoId, env).error)
    ensures CaptionsOfVideo(videoId, env).Ok? && |CaptionsOfVideo(videoId, env).value.captionTracks| == 0 ==>
              r == Err(CaptionsNotFound)
    ensures CaptionsOfVideo(videoId, env).Ok? ==>
              forall t :: IsSelection(CaptionsOfVideo(videoId, env).value.captionTracks, languageCodes.AsList(), t) ==>
                r == TrackTranscript(t, env)
    ensures r.Ok? ==> && CaptionsOfVideo(videoId, env).Ok?
                      && exists t :: && IsSelection(CaptionsOfVideo(videoId, env).value.captionTracks, languageCodes.AsList(), t)
                                     && t.baseUrl.Some?
  {
    var captions := CaptionsOfVideo(videoId, env);
    if captions.Err? {
      return Err(captions.error);
    }
    var tracks := captions.value.captionTracks;
    var track := GetCaptionTrack(tracks, languageCodes);
    if track.Err? {
      return Err(track.error);
    }
    forall t | IsSelection(tracks, languageCodes.AsList(), t)
      ensures t == track.value
    {
      SelectionUnique(tracks, languageCodes.AsList(), t, track.value);
    }
    r := TrackTranscript(track.value, env);
  }

  /** `get_transcript_from_url`: the video ID is resolved first, and any
      failure to resolve it is the result before anything is fetched. */
  method GetTranscriptFromUrl(url: Url.UrlParts, env: Environment, languageCodes: LanguageCodes := Codes(["en"]))
    returns (r: Result<seq<Snippet>>)
    ensures VideoId.ParseVideoId(url).Err? ==> r == Err(VideoId.ParseVideoId(url).error)
    ensures VideoId.ParseVideoId(url).Ok? ==>
              var videoId := VideoId.ParseVideoId(url).value;
              && (CaptionsOfVideo(videoId, env).Err? ==> r == Err(CaptionsOfVideo(videoId, env).error))
              && (CaptionsOfVideo(videoId, env).Ok? ==>
                    forall t :: IsSelection(CaptionsOfVideo(videoId, env).value.captionTracks, languageCodes.AsList(), t) ==>
                      r == TrackTranscript(t, env))
  {
    var videoId := VideoId.ParseVideoId(url);
    if videoId.Err? {
      return Err(videoId.error);
    }
    r := GetTranscriptFromVideoId(videoId.value, env, languageCodes);
  }
}
