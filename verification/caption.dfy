/** The caption catalogue records (`Captions`, `CaptionTrack`) and their
    validation from the decoded renderer object. The records' own source
    file is not part of this model; their fields are inferred from how the
    library and its tests build and read them: a track has an optional
    `baseUrl` and a `languageCode`, the catalogue a `captionTracks` list. */
module Caption {
  import opened Errors
  import Json

  /** `base_url` absent means the track is listed but cannot be fetched. */
  datatype CaptionTrack = CaptionTrack(baseUrl: Option<string>, languageCode: string)

  datatype Captions = Captions(captionTracks: seq<CaptionTrack>)

  const TracksKey := "captionTracks"

  /** One element of `captionTracks`: an object with a string `languageCode`
      and a `baseUrl` that is a string, `null` or absent. Other fields are
      ignored. */
  function TrackFromJson(v: Json.Value): (r: Result<CaptionTrack>)
    ensures r.Err? ==> r.error == UnexpectedResponseShape
    ensures r.Ok? <==>
              && v.Object?
              && "languageCode" in v.fields && v.fields["languageCode"].String?
              && ("baseUrl" in v.fields ==> v.fields["baseUrl"].Null? || v.fields["baseUrl"].String?)
    ensures r.Ok? ==> r.value.languageCode == v.fields["languageCode"].s
    ensures r.Ok? ==> (r.value.baseUrl.None? <==> "baseUrl" !in v.fields || v.fields["baseUrl"].Null?)
    ensures r.Ok? && r.value.baseUrl.Some? ==> v.fields["baseUrl"] == Json.String(r.value.baseUrl.value)
  {
    if !v.Object? || "languageCode" !in v.fields || !v.fields["languageCode"].String? then
      Err(UnexpectedResponseShape)
    else
      var code := v.fields["languageCode"].s;
      if "baseUrl" !in v.fields then Ok(CaptionTrack(None, code))
      else match v.fields["baseUrl"]
        case Null => Ok(CaptionTrack(None, code))
        case String(url) => Ok(CaptionTrack(Some(url), code))
        case _ => Err(UnexpectedResponseShape)
  }

  /** The whole `captionTracks` array: every element must validate, and the
      tracks keep the array's order. */
  function TracksFromJson(items: seq<Json.Value>): (r: Result<seq<CaptionTrack>>)
    ensures r.Err? ==> r.error == UnexpectedResponseShape
    ensures r.Ok? <==> forall i :: 0 <= i < |items| ==> TrackFromJson(items[i]).Ok?
    ensures r.Ok? ==> |r.value| == |items|
    ensures r.Ok? ==> forall i :: 0 <= i < |items| ==> TrackFromJson(items[i]) == Ok(r.value[i])
  {
    if |items| == 0 then Ok([])
    else
      var track :- TrackFromJson(items[0]);
      var rest :- TracksFromJson(items[1..]);
      Ok([track] + rest)
  }

  /** `Captions.model_validate(renderer)`: the renderer must be an object
      whose `captionTracks` is an array of valid tracks. */
  function CaptionsFromJson(renderer: Json.Value): (r: Result<Captions>)
    ensures r.Err? ==> r.error == UnexpectedResponseShape
    ensures r.Ok? <==> && renderer.Object? && TracksKey in renderer.fields
                       && renderer.fields[TracksKey].Array?
                       && TracksFromJson(renderer.fields[TracksKey].items).Ok?
    ensures r.Ok? ==> TracksFromJson(renderer.fields[TracksKey].items) == Ok(r.value.captionTracks)
  {
    if !renderer.Object? || TracksKey !in renderer.fields || !renderer.fields[TracksKey].Array? then
      Err(UnexpectedResponseShape)
    else
      var tracks :- TracksFromJson(renderer.fields[TracksKey].items);
      Ok(Captions(tracks))
  }
}
