/** The Python `str` operations the library relies on, over `seq<char>`:
    `startswith`/`endswith`, `find`, `split(sep)[0]`, `split(sep)[1]`,
    `split("/")[-1]` and `strip`/`lstrip`/`rstrip` with a character set. */
module Text {
  import opened Errors
  import opened Sequences

  /** `pat` occurs in `s` starting at index `i`. */
  predicate OccursAt(s: string, pat: string, i: int) {
    0 <= i && i + |pat| <= |s| && s[i..i + |pat|] == pat
  }

  /** Python's `pat in s`. */
  predicate Contains(s: string, pat: string) {
    exists i :: 0 <= i <= |s| - |pat| && OccursAt(s, pat, i)
  }

  predicate StartsWith(s: string, prefix: string) {
    |prefix| <= |s| && s[..|prefix|] == prefix
  }

  /** `startswith` with a prefix of four to six characters, character by
      character. */
  lemma StartsWithShort(s: string, prefix: string)
    requires 4 <= |prefix| <= 6
    ensures StartsWith(s, prefix) <==>
            && |prefix| <= |s|
            && s[0] == prefix[0] && s[1] == prefix[1] && s[2] == prefix[2] && s[3] == prefix[3]
            && (|prefix| > 4 ==> s[4] == prefix[4])
            && (|prefix| > 5 ==> s[5] == prefix[5])
  {
    if |prefix| <= |s| {
      var head := s[..|prefix|];
      assert forall i :: 0 <= i < |prefix| ==> head[i] == s[i];
    }
  }

  predicate EndsWith(s: string, suffix: string) {
    |suffix| <= |s| && s[|s| - |suffix|..] == suffix
  }

  /** The first occurrence of `pat` in `s` at or after `from`. */
  function FindFrom(s: string, pat: string, from: nat): (r: Option<nat>)
    ensures r.Some? ==> from <= r.value && OccursAt(s, pat, r.value)
    ensures forall i :: from <= i && (r.None? || i < r.value) ==> !OccursAt(s, pat, i)
    decreases |s| - from
  {
    if from + |pat| > |s| then None
    else if s[from..from + |pat|] == pat then Some(from)
    else FindFrom(s, pat, from + 1)
  }

  /** `str.find`: the index of the first occurrence, `None` for -1. */
  function Find(s: string, pat: string): (r: Option<nat>)
    ensures r.None? <==> !Contains(s, pat)
    ensures r.Some? ==> OccursAt(s, pat, r.value)
    ensures r.Some? ==> forall i :: 0 <= i < r.value ==> !OccursAt(s, pat, i)
  {
    FindFrom(s, pat, 0)
  }

  /** An occurrence inside a slice is an occurrence in the whole sequence. */
  lemma OccursInSlice(s: string, lo: int, hi: int, pat: string, i: int)
    requires 0 <= lo <= hi <= |s|
    requires OccursAt(s[lo..hi], pat, i)
    ensures OccursAt(s, pat, lo + i)
  {
    forall k | 0 <= k < |pat|
      ensures s[lo + i..lo + i + |pat|][k] == pat[k]
    {
      assert s[lo..hi][i..i + |pat|][k] == pat[k];
    }
  }

  /** Containment is transitive: what occurs in a substring occurs in the whole. */
  lemma ContainsTransitive(s: string, t: string, pat: string)
    requires Contains(s, t)
    requires Contains(t, pat)
    ensures Contains(s, pat)
  {
    var k :| 0 <= k <= |s| - |t| && OccursAt(s, t, k);
    var i :| 0 <= i <= |t| - |pat| && OccursAt(t, pat, i);
    OccursInSlice(s, k, k + |t|, pat, i);
  }

  /** A slice of `s` is contained in `s`. */
  lemma SliceContained(s: string, lo: int, hi: int)
    requires 0 <= lo <= hi <= |s|
    ensures Contains(s, s[lo..hi])
  {
    assert OccursAt(s, s[lo..hi], lo);
  }

  /** `p` is the text of `s` from index `lo` up to the next occurrence of
      `sep` at or after `lo`, or up to the end when there is none. */
  predicate PieceUpTo(s: string, sep: string, lo: int, p: string) {
    && 0 <= lo && lo + |p| <= |s| && s[lo..lo + |p|] == p
    && (forall j :: lo <= j < lo + |p| ==> !OccursAt(s, sep, j))
    && (lo + |p| == |s| || OccursAt(s, sep, lo + |p|))
  }

  /** `split` pieces are unique: from a given index there is one text up to
      the next separator. */
  lemma PieceUnique(s: string, sep: string, lo: int, p: string, q: string)
    requires PieceUpTo(s, sep, lo, p) && PieceUpTo(s, sep, lo, q)
    ensures p == q
  {
  }

  /** A piece of a suffix `s[k..]` is the same piece of `s`, shifted by `k`. */
  lemma PieceInSuffix(s: string, sep: string, k: int, p: string)
    requires 0 <= k <= |s|
    requires PieceUpTo(s[k..], sep, 0, p)
    ensures PieceUpTo(s, sep, k, p)
  {
    var t := s[k..];
    forall j | k <= j <= k + |p| && j + |sep| <= |s|
      ensures OccursAt(s, sep, j) <==> OccursAt(t, sep, j - k)
    {
      assert t[j - k..j - k + |sep|] == s[j..j + |sep|];
    }
    assert s[k..k + |p|] == t[..|p|];
  }

  /** `s.split(sep)[0]`: everything before the first `sep`, or all of `s`. */
  function Before(s: string, sep: string): (r: string)
    requires |sep| > 0
    ensures StartsWith(s, r)
    ensures !Contains(r, sep)
    ensures Contains(s, sep) ==> OccursAt(s, sep, |r|)
    ensures !Contains(s, sep) ==> r == s
    ensures PieceUpTo(s, sep, 0, r)
  {
    match Find(s, sep)
    case None => s
    case Some(i) =>
      var r := s[..i];
      assert !Contains(r, sep) by {
        forall j | OccursAt(r, sep, j)
          ensures false
        {
          OccursInSlice(s, 0, i, sep, j);
        }
      }
      r
  }

  /** `s.split(sep)[1]` when the split has at least two pieces: the text
      between the first occurrence of `sep` and the next one (or the end). */
  function SecondPiece(s: string, sep: string): (r: Option<string>)
    requires |sep| > 0
    ensures r.None? <==> !Contains(s, sep)
    ensures r.Some? ==> !Contains(r.value, sep)
    ensures r.Some? ==> Contains(s, r.value)
    ensures r.Some? ==> Find(s, sep).Some? && PieceUpTo(s, sep, Find(s, sep).value + |sep|, r.value)
  {
    match Find(s, sep)
    case None => None
    case Some(i) =>
      var rest := s[i + |sep|..];
      var piece := Before(rest, sep);
      PieceInSuffix(s, sep, i + |sep|, piece);
      SliceContained(s, i + |sep|, i + |sep| + |piece|);
      Some(piece)
  }

  /** `s.split("/")[-1]`: the text after the last `/`, or all of `s`. */
  function LastSegment(s: string): (r: string)
    ensures '/' !in r
    ensures EndsWith(s, r)
    ensures |r| < |s| ==> s[|s| - |r| - 1] == '/'
  {
    if |s| == 0 || s[|s| - 1] == '/' then []
    else LastSegment(s[..|s| - 1]) + [s[|s| - 1]]
  }

  /** A segment without `/` after a directory that is empty or ends in `/`
      is the last segment of the joined path. */
  lemma {:induction false} LastSegmentOfJoin(dir: string, segment: string)
    requires '/' !in segment
    requires dir == [] || dir[|dir| - 1] == '/'
    ensures LastSegment(dir + segment) == segment
    decreases |segment|
  {
    if |segment| == 0 {
      ConcatEmpty(dir);
    } else {
      var init := segment[..|segment| - 1];
      InitOfConcat(dir, segment);
      LastSegmentOfJoin(dir, init);
      SplitLast(segment);
    }
  }

  /** `s.lstrip(chars)`: drops the longest prefix made of characters in `cs`. */
  function LStrip(s: string, cs: set<char>): (r: string)
    ensures |r| <= |s| && r == s[|s| - |r|..]
    ensures |r| > 0 ==> r[0] !in cs
  {
    if |s| > 0 && s[0] in cs then LStrip(s[1..], cs) else s
  }

  /** `lstrip` drops only characters of `cs`. */
  lemma {:induction false} LStripDropsOnly(s: string, cs: set<char>)
    ensures forall i :: 0 <= i < |s| - |LStrip(s, cs)| ==> s[i] in cs
    decreases |s|
  {
    if |s| > 0 && s[0] in cs {
      LStripDropsOnly(s[1..], cs);
    }
  }

  /** `s.rstrip(chars)`: drops the longest suffix made of characters in `cs`. */
  function RStrip(s: string, cs: set<char>): (r: string)
    ensures |r| <= |s| && r == s[..|r|]
    ensures |r| > 0 ==> r[|r| - 1] !in cs
  {
    if |s| > 0 && s[|s| - 1] in cs then RStrip(s[..|s| - 1], cs) else s
  }

  /** `rstrip` drops only characters of `cs`. */
  lemma {:induction false} RStripDropsOnly(s: string, cs: set<char>)
    ensures forall i :: |RStrip(s, cs)| <= i < |s| ==> s[i] in cs
    decreases |s|
  {
    if |s| > 0 && s[|s| - 1] in cs {
      RStripDropsOnly(s[..|s| - 1], cs);
    }
  }

  /** `s.strip(chars)`: both ends. */
  function Strip(s: string, cs: set<char>): (r: string)
    ensures |r| <= |s|
    ensures |r| > 0 ==> r[0] !in cs && r[|r| - 1] !in cs
  {
    RStrip(LStrip(s, cs), cs)
  }

  /** `strip` leaves nothing exactly when every character is in `cs`. */
  lemma StripEmpty(s: string, cs: set<char>)
    ensures Strip(s, cs) == [] <==> forall i :: 0 <= i < |s| ==> s[i] in cs
  {
    var l := LStrip(s, cs);
    LStripDropsOnly(s, cs);
    RStripDropsOnly(l, cs);
  }

  /** What `strip` leaves is a piece of the original text. */
  lemma StripContained(s: string, cs: set<char>)
    ensures Contains(s, Strip(s, cs))
  {
    var l := LStrip(s, cs);
    var r := RStrip(l, cs);
    var i := |s| - |l|;
    PrefixOfSuffix(s, i, |r|);
    assert OccursAt(s, r, i);
  }

  /** `r` is the piece of `s` at index `i`, and every character before it
      and after it is in `cs`. */
  predicate StrippedAt(s: string, cs: set<char>, i: int, r: string) {
    && 0 <= i && i + |r| <= |s| && s[i..i + |r|] == r
    && (forall k :: 0 <= k < i ==> s[k] in cs)
    && (forall k :: i + |r| <= k < |s| ==> s[k] in cs)
  }

  /** `strip` removes a leading and a trailing run of characters of `cs`
      and nothing in between. */
  lemma StripSpans(s: string, cs: set<char>)
    ensures exists i :: StrippedAt(s, cs, i, Strip(s, cs))
  {
    var l := LStrip(s, cs);
    var r := RStrip(l, cs);
    var i := |s| - |l|;
    LStripDropsOnly(s, cs);
    RStripDropsOnly(l, cs);
    PrefixOfSuffix(s, i, |r|);
    forall k | i + |r| <= k < |s|
      ensures s[k] in cs
    {
      assert s[k] == l[k - i];
    }
    assert r == Strip(s, cs);
    assert StrippedAt(s, cs, i, Strip(s, cs));
  }

  /** Two pieces that leave only characters of `cs` around them, and that
      neither begin nor end with one, are the same piece. */
  lemma StrippedSame(s: string, cs: set<char>, i: int, r: string, i': int, r': string)
    requires StrippedAt(s, cs, i, r) && (|r| > 0 ==> r[0] !in cs && r[|r| - 1] !in cs)
    requires StrippedAt(s, cs, i', r') && (|r'| > 0 ==> r'[0] !in cs && r'[|r'| - 1] !in cs)
    ensures r == r'
  {
    if |r| > 0 && |r'| > 0 {
      assert s[i] == r[0] && s[i'] == r'[0];
      assert s[i + |r| - 1] == r[|r| - 1] && s[i' + |r'| - 1] == r'[|r'| - 1];
      assert i == i';
      assert i + |r| == i' + |r'|;
    }
  }

  /** `strip` is characterised by `StrippedAt`: the only piece of `s` that
      leaves characters of `cs` alone around it and neither begins nor ends
      with one is `Strip(s, cs)`. */
  lemma StripUnique(s: string, cs: set<char>, i: int, r: string)
    requires StrippedAt(s, cs, i, r)
    requires |r| > 0 ==> r[0] !in cs && r[|r| - 1] !in cs
    ensures r == Strip(s, cs)
  {
    StripSpans(s, cs);
    var i' :| StrippedAt(s, cs, i', Strip(s, cs));
    StrippedSame(s, cs, i, r, i', Strip(s, cs));
  }

  /** The characters Python's `str.isspace` accepts, which `str.strip()`
      without arguments removes: the C0 separators and controls from tab to
      carriage return and from U+001C to the space, NEL, no-break space, the
      Ogham space mark, the spaces U+2000 to U+200A, the line and paragraph
      separators, and the narrow, medium mathematical and ideographic spaces. */
  predicate IsSpace(c: char) {
    || '\t' <= c <= '\r' || '\U{001C}' <= c <= ' '
    || c == '\U{0085}' || c == '\U{00A0}' || c == '\U{1680}'
    || '\U{2000}' <= c <= '\U{200A}'
    || c == '\U{2028}' || c == '\U{2029}' || c == '\U{202F}' || c == '\U{205F}' || c == '\U{3000}'
  }

  const Whitespace: set<char> := set c: char | '\t' <= c <= '\U{3000}' && IsSpace(c)

  /** `lstrip` never changes the last `/`-segment: a leading run of slashes
      either is followed by the last segment or is all there is. */
  lemma {:induction false} LStripKeepsLastSegment(s: string)
    ensures LastSegment(LStrip(s, {'/'})) == LastSegment(s)
    decreases |s|
  {
    if |s| > 0 && s[0] == '/' {
      LStripKeepsLastSegment(s[1..]);
      LastSegmentOfTail(s);
    }
  }

  /** Dropping a leading `/` does not change the last segment. */
  lemma {:induction false} LastSegmentOfTail(s: string)
    requires |s| > 0 && s[0] == '/'
    ensures LastSegment(s[1..]) == LastSegment(s)
    decreases |s|
  {
    if |s| == 1 || s[|s| - 1] == '/' {
    } else {
      var t := s[..|s| - 1];
      LastSegmentOfTail(t);
      assert s[1..][..|s[1..]| - 1] == t[1..];
    }
  }

  /** Stripping characters that are at neither end changes nothing. */
  lemma StripNothing(s: string, cs: set<char>)
    requires |s| > 0 ==> s[0] !in cs && s[|s| - 1] !in cs
    ensures Strip(s, cs) == s
  {
  }
}
