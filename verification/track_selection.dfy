/** `get_caption_track`: choosing one caption track by language preference.
    The rule is stated declaratively (`IsSelection`) and implemented as the
    source does it, with a loop over preferences around a loop over tracks. */
module TrackSelection {
  import opened Errors
  import opened Caption

  /** The `language_codes` argument: a bare string or a sequence of codes in
      priority order. */
  datatype LanguageCodes = Code(code: string) | Codes(codes: seq<string>) {
    /** A bare string is treated as a one-element list. */
    function AsList(): (r: seq<string>)
      ensures Code? ==> r == [code]
      ensures Codes? ==> r == codes
    {
      match this
      case Code(c) => [c]
      case Codes(cs) => cs
    }
  }

  /** The language codes of `tracks`, in catalogue order. */
  function LanguagesOf(tracks: seq<CaptionTrack>): (r: seq<string>)
    ensures |r| == |tracks|
    ensures forall j :: 0 <= j < |tracks| ==> r[j] == tracks[j].languageCode
  {
    seq(|tracks|, j requires 0 <= j < |tracks| => tracks[j].languageCode)
  }

  /** Some preference names a language some track offers. */
  predicate AnyPreferred(tracks: seq<CaptionTrack>, prefs: seq<string>) {
    exists i :: 0 <= i < |prefs| && prefs[i] in LanguagesOf(tracks)
  }

  /** `prefs[i]` is the earliest preference any track offers and
      `tracks[j]` the first track offering it. */
  predicate FirstPreferred(tracks: seq<CaptionTrack>, prefs: seq<string>, i: int, j: int) {
    && 0 <= i < |prefs| && 0 <= j < |tracks|
    && tracks[j].languageCode == prefs[i]
    && (forall i' :: 0 <= i' < i ==> prefs[i'] !in LanguagesOf(tracks))
    && (forall j' :: 0 <= j' < j ==> tracks[j'].languageCode != prefs[i])
  }

  /** The selection rule: a single track is taken whatever the preferences;
      among several, the first track with the earliest preferred language
      that any track offers; if no preference matches, the first track. */
  predicate IsSelection(tracks: seq<CaptionTrack>, prefs: seq<string>, t: CaptionTrack) {
    && |tracks| > 0
    && if |tracks| == 1 then t == tracks[0]
       else if AnyPreferred(tracks, prefs) then
         exists i, j :: 0 <= i < |prefs| && 0 <= j < |tracks| && FirstPreferred(tracks, prefs, i, j) && t == tracks[j]
       else t == tracks[0]
  }

  /** `get_caption_track`. */
  method GetCaptionTrack(tracks: seq<CaptionTrack>, languageCodes: LanguageCodes)
    returns (r: Result<CaptionTrack>)
    ensures r.Err? <==> |tracks| == 0
    ensures r.Err? ==> r.error == CaptionsNotFound
    ensures r.Ok? ==> IsSelection(tracks, languageCodes.AsList(), r.value)
  {
    if |tracks| == 0 {
      return Err(CaptionsNotFound);
    }
    if |tracks| == 1 {
      return Ok(tracks[0]);
    }
    var prefs := languageCodes.AsList();
    var i := 0;
    while i < |prefs|
      invariant 0 <= i <= |prefs|
      invariant forall i' :: 0 <= i' < i ==> prefs[i'] !in LanguagesOf(tracks)
    {
      var j := 0;
      while j < |tracks|
        invariant 0 <= j <= |tracks|
        invariant forall j' :: 0 <= j' < j ==> tracks[j'].languageCode != prefs[i]
      {
        if tracks[j].languageCode == prefs[i] {
          assert FirstPreferred(tracks, prefs, i, j);
          return Ok(tracks[j]);
        }
        j := j + 1;
      }
      i := i + 1;
    }
    return Ok(tracks[0]);
  }

  /** The rule picks at most one track. */
  lemma SelectionUnique(tracks: seq<CaptionTrack>, prefs: seq<string>, t1: CaptionTrack, t2: CaptionTrack)
    requires IsSelection(tracks, prefs, t1) && IsSelection(tracks, prefs, t2)
    ensures t1 == t2
  {
    if |tracks| > 1 && AnyPreferred(tracks, prefs) {
      var i1, j1 :| 0 <= i1 < |prefs| && 0 <= j1 < |tracks| && FirstPreferred(tracks, prefs, i1, j1) && t1 == tracks[j1];
      var i2, j2 :| 0 <= i2 < |prefs| && 0 <= j2 < |tracks| && FirstPreferred(tracks, prefs, i2, j2) && t2 == tracks[j2];
      assert i1 == i2;
    }
  }

  /** The selected track is always one of the catalogue's tracks, and it
      has a preferred language whenever any track does. */
  lemma SelectionIsMember(tracks: seq<CaptionTrack>, prefs: seq<string>, t: CaptionTrack)
    requires IsSelection(tracks, prefs, t)
    ensures t in tracks
    ensures |tracks| > 1 && AnyPreferred(tracks, prefs) ==> t.languageCode in prefs
  {
  }

  /** With several tracks and no usable preference (none given, or none
      offered), the first track is the default. */
  lemma NoPreferenceMeansFirst(tracks: seq<CaptionTrack>, prefs: seq<string>)
    requires |tracks| > 0
    requires forall i :: 0 <= i < |prefs| ==> prefs[i] !in LanguagesOf(tracks)
    ensures IsSelection(tracks, prefs, tracks[0])
  {
  }

  /** The selections the library's own examples expect. */
  lemma SelectionExamples(fr: CaptionTrack, en: CaptionTrack, es: CaptionTrack)
    requires fr.languageCode == "fr" && en.languageCode == "en" && es.languageCode == "es"
    ensures IsSelection([fr, en, es], ["en"], en)
    ensures IsSelection([fr, en, es], ["es", "en", "fr"], es)
    ensures IsSelection([fr, es], ["en"], fr)
    ensures IsSelection([fr], ["en"], fr) && IsSelection([fr], [], fr)
  {
    assert FirstPreferred([fr, en, es], ["en"], 0, 1);
    assert FirstPreferred([fr, en, es], ["es", "en", "fr"], 0, 2);
    assert "en" !in LanguagesOf([fr, es]);
  }
}
