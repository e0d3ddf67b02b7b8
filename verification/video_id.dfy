/** Resolution of a video page URL to its 11-character video ID
    (`parse_video_id`). The checks run in a fixed order: scheme, host, then
    the path shape decides where the candidate comes from, and only the
    candidate's length is validated. */
module VideoId {
  import opened Url
  import opened Errors
  import opened Text

  const AllowedSchemes: set<string> := {"http", "https"}

  /** Hosts are compared exactly: no sub-domain, port or case folding. */
  const AllowedNetlocs: set<string> := {
    "youtu.be",
    "m.youtube.com",
    "youtube.com",
    "www.youtube.com",
    "www.youtube-nocookie.com",
    "vid.plus"
  }

  const WatchSuffix := "/watch"

  const IdLength := 11

  /** `parse_qs(query)[key]`: the non-blank values given for `key`, in
      query order. Blank values are dropped, so `v=` does not count. */
  function QueryValues(query: seq<QueryField>, key: string): (r: seq<string>)
    ensures forall i :: 0 <= i < |r| ==> r[i] != ""
    ensures |r| > 0 <==> exists i :: 0 <= i < |query| && query[i].0 == key && query[i].1 != ""
    ensures |r| > 0 ==> exists i :: FirstValueAt(query, key, i) && query[i].1 == r[0]
  {
    if |query| == 0 then []
    else
      var rest := QueryValues(query[1..], key);
      if query[0].0 == key && query[0].1 != "" then [query[0].1] + rest
      else
        assert |rest| > 0 ==> exists i :: FirstValueAt(query, key, i) && query[i].1 == rest[0] by {
          if |rest| > 0 {
            var i :| FirstValueAt(query[1..], key, i) && query[1..][i].1 == rest[0];
            assert FirstValueAt(query, key, i + 1);
          }
        }
        rest
  }

  /** `query[i]` is the first field that gives `key` a non-blank value. */
  predicate FirstValueAt(query: seq<QueryField>, key: string, i: int) {
    && 0 <= i < |query|
    && query[i].0 == key && query[i].1 != ""
    && forall j :: 0 <= j < i ==> query[j].0 != key || query[j].1 == ""
  }

  /** Two first non-blank fields for the same key are the same field. */
  lemma FirstValueUnique(query: seq<QueryField>, key: string, i: int, k: int)
    requires FirstValueAt(query, key, i) && FirstValueAt(query, key, k)
    ensures i == k
  {
  }

  /** The ID candidate before the length check: the first `v` value of a
      `/watch` URL, otherwise the last path segment once leading slashes are
      removed. Only leading slashes go, so a trailing `/` leaves an empty
      candidate. */
  function Candidate(url: UrlParts): (r: Result<string>)
    ensures r.Err? <==> EndsWith(url.path, WatchSuffix) && |QueryValues(url.query, "v")| == 0
    ensures r.Err? ==> r.error == NoVideoIDFound(url)
  {
    if EndsWith(url.path, WatchSuffix) then
      var ids := QueryValues(url.query, "v");
      if |ids| > 0 then Ok(ids[0]) else Err(NoVideoIDFound(url))
    else
      Ok(LastSegment(LStrip(url.path, {'/'})))
  }

  /** `parse_video_id`. */
  function ParseVideoId(url: UrlParts): (r: Result<string>)
    ensures url.scheme !in AllowedSchemes ==> r == Err(UnsupportedURLScheme(url.scheme))
    ensures url.scheme in AllowedSchemes && url.netloc !in AllowedNetlocs ==>
              r == Err(UnsupportedURLNetloc(url.netloc))
    ensures r.Ok? ==> |r.value| == IdLength
    ensures r.Ok? ==> url.scheme in AllowedSchemes && url.netloc in AllowedNetlocs
    ensures r.Ok? ==> Candidate(url) == r
    ensures url.scheme in AllowedSchemes && url.netloc in AllowedNetlocs && Candidate(url).Err? ==>
              r == Candidate(url)
    ensures url.scheme in AllowedSchemes && url.netloc in AllowedNetlocs && Candidate(url).Ok? ==>
              (r.Ok? <==> |Candidate(url).value| == IdLength)
    ensures r.Err? && r.error.VideoIDError? <==>
              && url.scheme in AllowedSchemes && url.netloc in AllowedNetlocs
              && Candidate(url).Ok? && |Candidate(url).value| != IdLength
    ensures r.Err? && r.error.VideoIDError? ==> Candidate(url) == Ok(r.error.videoId)
  {
    if url.scheme !in AllowedSchemes then Err(UnsupportedURLScheme(url.scheme))
    else if url.netloc !in AllowedNetlocs then Err(UnsupportedURLNetloc(url.netloc))
    else
      var id :- Candidate(url);
      if |id| != IdLength then Err(VideoIDError(id)) else Ok(id)
  }

  /** A `/watch` URL whose query has no non-blank `v` value is rejected with
      the URL itself, whatever other parameters it carries. */
  lemma WatchWithoutV(url: UrlParts)
    requires url.scheme in AllowedSchemes && url.netloc in AllowedNetlocs
    requires EndsWith(url.path, WatchSuffix)
    requires forall i :: 0 <= i < |url.query| ==> url.query[i].0 != "v" || url.query[i].1 == ""
    ensures ParseVideoId(url) == Err(NoVideoIDFound(url))
  {
  }

  /** A `/watch` URL takes its ID from the first non-blank `v` field; no
      other query field and no later `v` field has any effect. */
  lemma WatchUsesFirstV(url: UrlParts, i: int)
    requires url.scheme in AllowedSchemes && url.netloc in AllowedNetlocs
    requires EndsWith(url.path, WatchSuffix)
    requires FirstValueAt(url.query, "v", i)
    ensures var id := url.query[i].1;
            ParseVideoId(url) == if |id| == IdLength then Ok(id) else Err(VideoIDError(id))
  {
    var ids := QueryValues(url.query, "v");
    assert |ids| > 0;
    var k :| FirstValueAt(url.query, "v", k) && url.query[k].1 == ids[0];
    FirstValueUnique(url.query, "v", i, k);
  }

  /** Any other path takes its ID from the text after its last `/`. */
  lemma PathUsesLastSegment(url: UrlParts, dir: string, segment: string)
    requires url.scheme in AllowedSchemes && url.netloc in AllowedNetlocs
    requires !EndsWith(url.path, WatchSuffix)
    requires url.path == dir + segment
    requires '/' !in segment
    requires dir == [] || dir[|dir| - 1] == '/'
    ensures ParseVideoId(url) == if |segment| == IdLength then Ok(segment) else Err(VideoIDError(segment))
  {
    LStripKeepsLastSegment(url.path);
    LastSegmentOfJoin(dir, segment);
  }

  /** A path that ends in `/` (and is not a `/watch` path) leaves an empty
      candidate, which fails the length check. */
  lemma TrailingSlashRejected(url: UrlParts)
    requires url.scheme in AllowedSchemes && url.netloc in AllowedNetlocs
    requires |url.path| > 0 && url.path[|url.path| - 1] == '/'
    ensures ParseVideoId(url) == Err(VideoIDError(""))
  {
    PathUsesLastSegment(url, url.path, "");
  }

  /** The characters the site uses in its IDs. */
  predicate IsIdChar(c: char) {
    'a' <= c <= 'z' || 'A' <= c <= 'Z' || '0' <= c <= '9' || c == '-' || c == '_'
  }

  predicate IsWellFormedId(id: string) {
    |id| == IdLength && forall i :: 0 <= i < |id| ==> IsIdChar(id[i])
  }

  /** Round trip: an ID placed in the path, short-link style, is resolved back. */
  lemma ShortLinkRoundTrip(scheme: string, netloc: string, id: string, query: seq<QueryField>)
    requires scheme in AllowedSchemes && netloc in AllowedNetlocs
    requires IsWellFormedId(id)
    ensures ParseVideoId(UrlParts(scheme, netloc, "/" + id, query)) == Ok(id)
  {
    var url := UrlParts(scheme, netloc, "/" + id, query);
    assert !EndsWith(url.path, WatchSuffix) by {
      assert url.path[|url.path| - 6] == id[|id| - 6];
    }
    assert '/' !in id by {
      forall i | 0 <= i < |id|
        ensures id[i] != '/'
      {
        assert IsIdChar(id[i]);
      }
    }
    PathUsesLastSegment(url, "/", id);
  }

  /** Round trip: an ID given as the `v` parameter of `/watch` is resolved
      back, whatever parameters follow it. */
  lemma WatchRoundTrip(scheme: string, netloc: string, id: string, query: seq<QueryField>)
    requires scheme in AllowedSchemes && netloc in AllowedNetlocs
    requires IsWellFormedId(id)
    ensures ParseVideoId(UrlParts(scheme, netloc, "/watch", [("v", id)] + query)) == Ok(id)
  {
    var url := UrlParts(scheme, netloc, "/watch", [("v", id)] + query);
    assert EndsWith(url.path, WatchSuffix);
    WatchUsesFirstV(url, 0);
  }

  /** The `/watch` URL shapes of the library's own examples. */
  lemma WatchExamples()
    ensures ParseVideoId(UrlParts("https", "www.youtube.com", "/watch", [("v", "dQw4w9WgXcQ")]))
              == Ok("dQw4w9WgXcQ")
    ensures ParseVideoId(UrlParts("https", "www.youtube.com", "/watch",
              [("v", "dQw4w9WgXcQ"), ("feature", "featured")])) == Ok("dQw4w9WgXcQ")
    ensures var u := UrlParts("https", "www.youtube.com", "/watch", []);
            ParseVideoId(u) == Err(NoVideoIDFound(u))
  {
    var id := "dQw4w9WgXcQ";
    assert IsWellFormedId(id);
    WatchRoundTrip("https", "www.youtube.com", id, [("feature", "featured")]);
  }

  /** A short link carries the ID as its only path segment. */
  lemma ShortLinkExample()
    ensures ParseVideoId(UrlParts("https", "youtu.be", "/dQw4w9WgXcQ", [])) == Ok("dQw4w9WgXcQ")
  {
    var url := UrlParts("https", "youtu.be", "/dQw4w9WgXcQ", []);
    assert url.path == "/" + "dQw4w9WgXcQ";
    assert !EndsWith(url.path, WatchSuffix) by { assert url.path[|url.path| - 1] != 'h'; }
    PathUsesLastSegment(url, "/", "dQw4w9WgXcQ");
  }

  /** Extra segments before the ID are ignored, even one spelled `watch`. */
  lemma ExtraSegmentsExample()
    ensures ParseVideoId(UrlParts("https", "www.youtube.com", "/watch/v/dQw4w9WgXcQ", []))
              == Ok("dQw4w9WgXcQ")
  {
    var url := UrlParts("https", "www.youtube.com", "/watch/v/dQw4w9WgXcQ", []);
    assert url.path == "/watch/v/" + "dQw4w9WgXcQ";
    assert !EndsWith(url.path, WatchSuffix) by { assert url.path[|url.path| - 1] != 'h'; }
    PathUsesLastSegment(url, "/watch/v/", "dQw4w9WgXcQ");
  }

  /** A candidate of the wrong length is reported as it was found. */
  lemma WrongLengthExample()
    ensures ParseVideoId(UrlParts("https", "youtu.be", "/short", [])) == Err(VideoIDError("short"))
  {
    var url := UrlParts("https", "youtu.be", "/short", []);
    assert url.path == "/" + "short";
    assert !EndsWith(url.path, WatchSuffix) by { assert url.path[|url.path| - 1] != 'h'; }
    PathUsesLastSegment(url, "/", "short");
  }

  /** The scheme and host rejections of the library's own examples. */
  lemma RejectedExamples()
    ensures ParseVideoId(UrlParts("ftp", "www.youtube.com", "/watch", [("v", "dQw4w9WgXcQ")]))
              == Err(UnsupportedURLScheme("ftp"))
    ensures ParseVideoId(UrlParts("https", "vimeo.com", "/watch", [("v", "dQw4w9WgXcQ")]))
              == Err(UnsupportedURLNetloc("vimeo.com"))
  {
  }
}
