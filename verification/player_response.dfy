/** `parse_captions`: locating the player-response object embedded in a
    video page, and walking the decoded object down to the caption
    catalogue. Decoding the JSON text is a parameter (`json.loads`). */
module PlayerResponse {
  import opened Errors
  import opened Text
  import Json
  import opened Caption

  /** The assignment that introduces the embedded object. */
  const Marker := "var ytInitialPlayerResponse ="
  /** The end of the script element holding it. */
  const ScriptEnd := "</script>"
  /** The statement the page appends after the object in the same script. */
  const HeadMarker := ";var head ="

  const CaptionsKey := "captions"
  const RendererKey := "playerCaptionsTracklistRenderer"

  /** The text of the embedded object: what follows the first marker up to
      the next marker, cut before the first `</script>`, then before the
      first `;var head =`, with `;` stripped from both ends. */
  function ExtractPlayerResponse(html: string): (r: Result<string>)
    ensures r.Err? <==> !Contains(html, Marker)
    ensures r.Err? ==> r.error == InitialPlayerResponseNotFound
    ensures r.Ok? && |r.value| > 0 ==> r.value[0] != ';' && r.value[|r.value| - 1] != ';'
  {
    match SecondPiece(html, Marker)
    case None => Err(InitialPlayerResponseNotFound)
    case Some(data) =>
      var script := Before(data, ScriptEnd);
      var obj := Before(script, HeadMarker);
      Ok(Strip(obj, {';'}))
  }

  /** The extracted payload is a piece of the page that holds neither the
      marker, nor the closing tag, nor the statement appended after it. */
  lemma ExtractedPayloadClean(html: string)
    ensures var r := ExtractPlayerResponse(html);
            r.Ok? ==> Contains(html, r.value) && !Contains(r.value, Marker)
    ensures var r := ExtractPlayerResponse(html);
            r.Ok? ==> !Contains(r.value, ScriptEnd) && !Contains(r.value, HeadMarker)
  {
    match SecondPiece(html, Marker)
    case None =>
    case Some(data) =>
      var script := Before(data, ScriptEnd);
      var obj := Before(script, HeadMarker);
      var payload := Strip(obj, {';'});
      StripContained(obj, {';'});
      PrefixContained(data, script);
      PrefixContained(script, obj);
      ContainsTransitive(script, obj, payload);
      ContainsTransitive(data, script, payload);
      ContainsTransitive(html, data, payload);
      NotContainedInPart(data, payload, Marker);
      NotContainedInPart(script, payload, ScriptEnd);
      NotContainedInPart(obj, payload, HeadMarker);
  }

  lemma PrefixContained(s: string, p: string)
    requires StartsWith(s, p)
    ensures Contains(s, p)
  {
    assert OccursAt(s, p, 0);
  }

  /** What does not occur in a text does not occur in any part of it. */
  lemma NotContainedInPart(s: string, part: string, pat: string)
    requires Contains(s, part)
    requires !Contains(s, pat)
    ensures !Contains(part, pat)
  {
    if Contains(part, pat) {
      ContainsTransitive(s, part, pat);
    }
  }

  /** `parse_captions`: extract the embedded object, decode it with
      `decode` (`None` when it is not valid JSON), then walk it to the
      caption catalogue. */
  function ParseCaptions(html: string, decode: string -> Option<Json.Value>): (r: Result<Captions>)
    ensures r == Err(InitialPlayerResponseNotFound) <==> !Contains(html, Marker)
    ensures var payload := ExtractPlayerResponse(html);
            payload.Ok? && decode(payload.value).None? ==> r == Err(MalformedPlayerResponse)
    ensures var payload := ExtractPlayerResponse(html);
            payload.Ok? && decode(payload.value).Some? ==> r == CaptionsOf(decode(payload.value).value)
  {
    var payload :- ExtractPlayerResponse(html);
    match decode(payload)
    case None => Err(MalformedPlayerResponse)
    case Some(response) => CaptionsOf(response)
  }

  /** `response.get("captions", {}).get("playerCaptionsTracklistRenderer")`,
      the truthiness and `"captionTracks" in` checks, then validation. `.get`
      on something that is not a dict raises, as does `in` on a value that
      is not a container. */
  function CaptionsOf(response: Json.Value): (r: Result<Captions>)
    ensures r != Err(InitialPlayerResponseNotFound) && r != Err(MalformedPlayerResponse)
    ensures !response.Object? ==> r == Err(UnexpectedResponseShape)
    ensures r.Ok? ==> CaptionsKey in response.fields && response.fields[CaptionsKey].Object?
    ensures r.Ok? ==> var captions := response.fields[CaptionsKey].fields;
                      RendererKey in captions && CaptionsFromJson(captions[RendererKey]) == r
    ensures response.Object? && !Json.Get(response.fields, CaptionsKey, Json.Object(map[])).Object? ==>
              r == Err(UnexpectedResponseShape)
    ensures response.Object? && Json.Get(response.fields, CaptionsKey, Json.Object(map[])).Object? ==>
              var captions := Json.Get(response.fields, CaptionsKey, Json.Object(map[])).fields;
              if RendererKey !in captions || !Json.Truthy(captions[RendererKey]) then r == Err(CaptionsNotFound)
              else
                var present := Json.HasKey(captions[RendererKey], TracksKey);
                && (present.Err? ==> r == Err(UnexpectedResponseShape))
                && (present == Ok(false) ==> r == Err(CaptionsNotFound))
                && (present == Ok(true) ==> r == CaptionsFromJson(captions[RendererKey]))
  {
    if !response.Object? then Err(UnexpectedResponseShape)
    else
      var captions := Json.Get(response.fields, CaptionsKey, Json.Object(map[]));
      if !captions.Object? then Err(UnexpectedResponseShape)
      else if RendererKey !in captions.fields || !Json.Truthy(captions.fields[RendererKey]) then
        Err(CaptionsNotFound)
      else
        var renderer := captions.fields[RendererKey];
        var present :- Json.HasKey(renderer, TracksKey);
        if !present then Err(CaptionsNotFound) else CaptionsFromJson(renderer)
  }

  /** For a response whose `captions` entry is an object (or missing), the
      catalogue is reported missing exactly when the renderer is missing,
      empty or otherwise false, or is a dict, list or string without
      `captionTracks` in it. */
  lemma CaptionsNotFoundExactly(response: Json.Value)
    requires response.Object?
    requires CaptionsKey in response.fields ==> response.fields[CaptionsKey].Object?
    ensures var captions := Json.Get(response.fields, CaptionsKey, Json.Object(map[])).fields;
            CaptionsOf(response) == Err(CaptionsNotFound) <==>
              || RendererKey !in captions
              || !Json.Truthy(captions[RendererKey])
              || Json.HasKey(captions[RendererKey], TracksKey) == Ok(false)
  {
    var captions := Json.Get(response.fields, CaptionsKey, Json.Object(map[]));
    if RendererKey in captions.fields && Json.Truthy(captions.fields[RendererKey]) {
      var renderer := captions.fields[RendererKey];
      if Json.HasKey(renderer, TracksKey) == Ok(true) {
        assert CaptionsOf(response) == CaptionsFromJson(renderer);
      }
    }
  }

  /** The catalogue shapes the library's own examples reject: no `captions`
      entry, a renderer without `captionTracks`, and an empty renderer. */
  lemma MissingCatalogueExamples()
    ensures CaptionsOf(Json.Object(map["someOtherData" := Json.Object(map[])]))
              == Err(CaptionsNotFound)
    ensures CaptionsOf(Json.Object(map[CaptionsKey := Json.Object(map[RendererKey :=
              Json.Object(map["someOtherField" := Json.Array([])])])])) == Err(CaptionsNotFound)
    ensures CaptionsOf(Json.Object(map[CaptionsKey := Json.Object(map[RendererKey :=
              Json.Object(map[])])])) == Err(CaptionsNotFound)
  {
    var other := map["someOtherField" := Json.Array([])];
    assert |other| == 1;
    assert Json.HasKey(Json.Object(other), TracksKey) == Ok(false);
  }

  /** The catalogue of the library's own example page: one English track. */
  lemma OneTrackExample(url: string)
    ensures var track := Json.Object(map["baseUrl" := Json.String(url), "languageCode" := Json.String("en"),
                                         "name" := Json.Object(map["simpleText" := Json.String("English")])]);
            CaptionsOf(Json.Object(map[CaptionsKey := Json.Object(map[RendererKey :=
              Json.Object(map[TracksKey := Json.Array([track])])])]))
              == Ok(Captions([CaptionTrack(Some(url), "en")]))
  {
    var track := Json.Object(map["baseUrl" := Json.String(url), "languageCode" := Json.String("en"),
                                 "name" := Json.Object(map["simpleText" := Json.String("English")])]);
    assert TrackFromJson(track) == Ok(CaptionTrack(Some(url), "en"));
    var tracks := TracksFromJson([track]);
    assert [track][0] == track;
    assert tracks.Ok?;
    assert tracks.value == [CaptionTrack(Some(url), "en")];
    var fields := map[TracksKey := Json.Array([track])];
    assert |fields| == 1;
    assert CaptionsFromJson(Json.Object(fields)) == Ok(Captions([CaptionTrack(Some(url), "en")]));
  }

  /** Round trip: a page that embeds `payload` after the first marker and
      closes the script right after it yields exactly `payload`, provided
      the payload itself contains neither delimiter nor the marker and does
      not begin or end with `;`. */
  lemma ExtractEmbedded(pre: string, payload: string, post: string)
    requires forall i :: 0 <= i < |pre| ==> !OccursAt(pre + Marker + payload + ScriptEnd + post, Marker, i)
    requires !Contains(payload, Marker)
    requires !Contains(payload, ScriptEnd) && !Contains(payload, HeadMarker)
    requires |payload| > 0 ==> payload[0] != ';' && payload[|payload| - 1] != ';'
    ensures ExtractPlayerResponse(pre + Marker + payload + ScriptEnd + post) == Ok(payload)
  {
    var html := pre + Marker + payload + ScriptEnd + post;
    assert OccursAt(html, Marker, |pre|) by {
      assert html[|pre|..|pre| + |Marker|] == Marker;
    }
    var rest := payload + ScriptEnd + post;
    assert html[|pre| + |Marker|..] == rest;
    var data := Before(rest, Marker);
    DataCoversScript(payload, post, data);
    var script := Before(data, ScriptEnd);
    ScriptIsPayload(payload, data, script);
    StripNothing(payload, {';'});
  }

  /** The piece up to the next marker reaches past the closing tag, because
      the marker can start neither inside the payload (it would overlap the
      `<` of the tag, which the marker lacks) nor inside the tag (which has no
      `v`). */
  lemma DataCoversScript(payload: string, post: string, data: string)
    requires !Contains(payload, Marker)
    requires data == Before(payload + ScriptEnd + post, Marker)
    ensures StartsWith(data, payload + ScriptEnd)
  {
    var rest := payload + ScriptEnd + post;
    var n := |payload| + |ScriptEnd|;
    if |data| < n {
      var k := |data|;
      assert OccursAt(rest, Marker, k);
      if k + |Marker| <= |payload| {
        assert rest[k..k + |Marker|] == payload[k..k + |Marker|];
        assert OccursAt(payload, Marker, k);
      } else if k <= |payload| {
        MarkerNotAcrossTag(payload, post, k);
        assert false;
      } else {
        MarkerNotInTag(payload, post, k);
        assert false;
      }
    } else {
      assert data[..n] == rest[..n];
    }
  }

  /** The marker has no `<`, so it cannot cover the first character of the tag. */
  lemma MarkerNotAcrossTag(payload: string, post: string, k: int)
    requires 0 <= k <= |payload| < k + |Marker|
    ensures !OccursAt(payload + ScriptEnd + post, Marker, k)
  {
    var rest := payload + ScriptEnd + post;
    if k + |Marker| <= |rest| {
      assert rest[k..k + |Marker|][|payload| - k] == rest[|payload|] == '<';
      assert Marker[|payload| - k] != '<';
    }
  }

  /** The tag has no `v`, so the marker cannot start inside it. */
  lemma MarkerNotInTag(payload: string, post: string, k: int)
    requires |payload| < k < |payload| + |ScriptEnd|
    ensures !OccursAt(payload + ScriptEnd + post, Marker, k)
  {
    var rest := payload + ScriptEnd + post;
    assert rest[k] == ScriptEnd[k - |payload|] != 'v';
    if k + |Marker| <= |rest| {
      assert rest[k..k + |Marker|][0] == rest[k];
    }
  }

  /** Cutting before the first `</script>` leaves exactly the payload: the
      tag cannot start earlier, since it does not occur in the payload and
      its `<` appears only at its start. */
  lemma ScriptIsPayload(payload: string, data: string, script: string)
    requires !Contains(payload, ScriptEnd)
    requires StartsWith(data, payload + ScriptEnd)
    requires script == Before(data, ScriptEnd)
    ensures script == payload
  {
    assert data[..|payload| + |ScriptEnd|] == payload + ScriptEnd;
    assert OccursAt(data, ScriptEnd, |payload|) by {
      assert data[|payload|..|payload| + |ScriptEnd|] == ScriptEnd;
    }
    var k := |script|;
    assert OccursAt(data, ScriptEnd, k);
    if k < |payload| {
      if k + |ScriptEnd| <= |payload| {
        assert data[k..k + |ScriptEnd|] == payload[k..k + |ScriptEnd|];
        assert OccursAt(payload, ScriptEnd, k);
      } else {
        TagNotAcrossTag(payload, data, k);
        assert false;
      }
    } else if k > |payload| {
      assert false;
    } else {
      assert script == data[..|payload|];
    }
  }

  /** The tag's `<` appears only at its start, so an occurrence of the tag
      cannot start inside the payload and reach past its end. */
  lemma TagNotAcrossTag(payload: string, data: string, k: int)
    requires StartsWith(data, payload + ScriptEnd)
    requires 0 <= k < |payload| < k + |ScriptEnd|
    ensures !OccursAt(data, ScriptEnd, k)
  {
    assert data[..|payload| + |ScriptEnd|] == payload + ScriptEnd;
    assert data[|payload|] == '<';
    if k + |ScriptEnd| <= |data| {
      assert data[k..k + |ScriptEnd|][|payload| - k] == data[|payload|];
      assert ScriptEnd[|payload| - k] != '<';
    }
  }
}
