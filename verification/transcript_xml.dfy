/** `parse_transcript`: turning the children of a caption document's root
    into timed snippets. The XML parser's output is the input here: each
    child is an element with an optional text node and its attributes.
    Python's `float()` is the parameter `toFloat` (`None` where it raises). */
module TranscriptXml {
  import opened Errors
  import opened Text
  import opened Entities
  import opened Sequences

  /** One child element: `.text` (`None` when the element has no text
      node) and `.attrib`. */
  datatype XmlElement = XmlElement(text: Option<string>, attrib: map<string, string>)

  /** `TranscriptSnippet`. */
  datatype Snippet = Snippet(text: string, start: real, duration: real)

  /** The text `float()` is given when an element has no `dur`. */
  const DefaultDuration := "0.0"

  /** The children that produce a snippet: those with a text node, in
      document order. */
  function Kept(children: seq<XmlElement>): (r: seq<XmlElement>)
    ensures |r| <= |children|
  {
    if |children| == 0 then []
    else if children[0].text.None? then Kept(children[1..])
    else [children[0]] + Kept(children[1..])
  }

  /** The kept children are exactly the children with a text node. */
  lemma {:induction false} KeptMembers(children: seq<XmlElement>)
    ensures forall e :: e in Kept(children) <==> e in children && e.text.Some?
    decreases |children|
  {
    if |children| > 0 {
      KeptMembers(children[1..]);
      assert forall e :: e in children <==> e == children[0] || e in children[1..];
    }
  }

  /** The text `float()` is given for the duration: `dur`, or `"0.0"`. */
  function DurationText(e: XmlElement): string {
    if "dur" in e.attrib then e.attrib["dur"] else DefaultDuration
  }

  /** One snippet: the text stripped of whitespace and then unescaped,
      `start` looked up (a `KeyError` when missing) and converted, then
      `dur` (or `"0.0"`) converted. */
  function ToSnippet(e: XmlElement, toFloat: string -> Option<real>): (r: Result<Snippet>)
    requires e.text.Some?
    ensures r.Ok? <==> "start" in e.attrib && toFloat(e.attrib["start"]).Some? && toFloat(DurationText(e)).Some?
    ensures "start" !in e.attrib ==> r == Err(MissingStart)
    ensures "start" in e.attrib && toFloat(e.attrib["start"]).None? ==> r == Err(InvalidFloat(e.attrib["start"]))
    ensures "start" in e.attrib && toFloat(e.attrib["start"]).Some? && toFloat(DurationText(e)).None? ==>
              r == Err(InvalidFloat(DurationText(e)))
    ensures r.Ok? ==> r.value.text == Unescape(Strip(e.text.value, Whitespace))
    ensures r.Ok? ==> Some(r.value.start) == toFloat(e.attrib["start"])
    ensures r.Ok? ==> Some(r.value.duration) == toFloat(DurationText(e))
  {
    var text := Unescape(Strip(e.text.value, Whitespace));
    if "start" !in e.attrib then Err(MissingStart)
    else match toFloat(e.attrib["start"])
      case None => Err(InvalidFloat(e.attrib["start"]))
      case Some(start) =>
        var dur := if "dur" in e.attrib then e.attrib["dur"] else DefaultDuration;
        match toFloat(dur)
        case None => Err(InvalidFloat(dur))
        case Some(duration) => Ok(Snippet(text, start, duration))
  }

  /** `parse_transcript`: walk the children in order, skipping those without
      a text node; the first child whose snippet cannot be built ends the walk
      with its error. */
  function ParseTranscript(children: seq<XmlElement>, toFloat: string -> Option<real>): (r: Result<seq<Snippet>>)
    ensures r.Ok? ==> |r.value| == |Kept(children)|
  {
    if |children| == 0 then Ok([])
    else if children[0].text.None? then ParseTranscript(children[1..], toFloat)
    else
      var snippet :- ToSnippet(children[0], toFloat);
      var rest :- ParseTranscript(children[1..], toFloat);
      Ok([snippet] + rest)
  }

  /** `e` has a text node and yields the snippet `v`. */
  predicate Yields(e: XmlElement, toFloat: string -> Option<real>, v: Snippet) {
    e.text.Some? && ToSnippet(e, toFloat) == Ok(v)
  }

  /** `e` has a text node and yields some snippet. */
  predicate Converts(e: XmlElement, toFloat: string -> Option<real>) {
    e.text.Some? && ToSnippet(e, toFloat).Ok?
  }

  /** `e` has a text node whose snippet fails with `error`. */
  predicate Fails(e: XmlElement, toFloat: string -> Option<real>, error: Error) {
    e.text.Some? && ToSnippet(e, toFloat) == Err(error)
  }

  /** Every child in `kept` yields a snippet. */
  predicate AllConvert(kept: seq<XmlElement>, toFloat: string -> Option<real>) {
    forall k :: 0 <= k < |kept| ==> Converts(kept[k], toFloat)
  }

  /** `Kept` takes the head when it has a text node, and the rest from the tail. */
  lemma KeptUnfold(children: seq<XmlElement>)
    requires |children| > 0
    ensures children[0].text.None? ==> Kept(children) == Kept(children[1..])
    ensures children[0].text.Some? ==> Kept(children) == [children[0]] + Kept(children[1..])
  {
  }

  /** `snippets` are the snippets of `kept`, one each, in order. */
  predicate SnippetsOf(kept: seq<XmlElement>, toFloat: string -> Option<real>, snippets: seq<Snippet>) {
    && |snippets| == |kept|
    && forall k :: 0 <= k < |kept| ==> Yields(kept[k], toFloat, snippets[k])
  }

  /** Putting a child that converts in front puts its snippet in front. */
  lemma SnippetsShift(head: XmlElement, tail: seq<XmlElement>, toFloat: string -> Option<real>, v: Snippet, rest: seq<Snippet>)
    requires Yields(head, toFloat, v)
    requires SnippetsOf(tail, toFloat, rest)
    ensures SnippetsOf([head] + tail, toFloat, [v] + rest)
  {
    var kept, snippets := [head] + tail, [v] + rest;
    forall k | 0 <= k < |kept|
      ensures Yields(kept[k], toFloat, snippets[k])
    {
      if k > 0 {
        IndexOfCons(head, tail, k);
        IndexOfCons(v, rest, k);
      }
    }
  }

  /** A successful walk yields one snippet per kept child, each that
      child's, in document order. */
  lemma {:induction false} ParseTranscriptValues(children: seq<XmlElement>, toFloat: string -> Option<real>)
    requires ParseTranscript(children, toFloat).Ok?
    ensures SnippetsOf(Kept(children), toFloat, ParseTranscript(children, toFloat).value)
    decreases |children|
  {
    if |children| > 0 {
      var tail := children[1..];
      KeptUnfold(children);
      ParseTranscriptValues(tail, toFloat);
      if children[0].text.Some? {
        var rest := ParseTranscript(tail, toFloat).value;
        assert ParseTranscript(children, toFloat).value == [ToSnippet(children[0], toFloat).value] + rest;
        SnippetsShift(children[0], Kept(tail), toFloat, ToSnippet(children[0], toFloat).value, rest);
      }
    }
  }

  /** The walk succeeds exactly when every child with a text node yields a
      snippet, and then the snippets are those children's, one each, in
      document order. */
  lemma ParseTranscriptOk(children: seq<XmlElement>, toFloat: string -> Option<real>)
    ensures ParseTranscript(children, toFloat).Ok? <==> AllConvert(Kept(children), toFloat)
    ensures var r := ParseTranscript(children, toFloat); var kept := Kept(children);
            r.Ok? ==> |r.value| == |kept| && forall k :: 0 <= k < |kept| ==> Yields(kept[k], toFloat, r.value[k])
  {
    if ParseTranscript(children, toFloat).Ok? {
      ParseTranscriptValues(children, toFloat);
      assert SnippetsOf(Kept(children), toFloat, ParseTranscript(children, toFloat).value);
    } else {
      ParseTranscriptFirstError(children, toFloat);
    }
  }

  /** `k` is the position of the first element of `kept` whose snippet
      fails, with `error`. */
  predicate FirstFailure(kept: seq<XmlElement>, toFloat: string -> Option<real>, k: int, error: Error) {
    && 0 <= k < |kept|
    && Fails(kept[k], toFloat, error)
    && forall k' :: 0 <= k' < k ==> Converts(kept[k'], toFloat)
  }

  /** Putting a child that converts in front moves the first failure one on. */
  lemma FirstFailureShift(head: XmlElement, tail: seq<XmlElement>, toFloat: string -> Option<real>, k: int, error: Error)
    requires Converts(head, toFloat)
    requires FirstFailure(tail, toFloat, k, error)
    ensures FirstFailure([head] + tail, toFloat, k + 1, error)
  {
    var kept := [head] + tail;
    IndexOfCons(head, tail, k + 1);
    forall k' | 0 <= k' < k + 1
      ensures Converts(kept[k'], toFloat)
    {
      if k' > 0 {
        IndexOfCons(head, tail, k');
      }
    }
  }

  /** When the walk fails, its error is that of the first child with a text
      node whose snippet cannot be built. */
  lemma {:induction false} ParseTranscriptFirstError(children: seq<XmlElement>, toFloat: string -> Option<real>)
    requires ParseTranscript(children, toFloat).Err?
    ensures exists k :: FirstFailure(Kept(children), toFloat, k, ParseTranscript(children, toFloat).error)
    decreases |children|
  {
    var tail := children[1..];
    KeptUnfold(children);
    if children[0].text.None? {
      ParseTranscriptFirstError(tail, toFloat);
    } else if ToSnippet(children[0], toFloat).Err? {
      assert FirstFailure(Kept(children), toFloat, 0, ParseTranscript(children, toFloat).error);
    } else {
      var error := ParseTranscript(children, toFloat).error;
      assert ParseTranscript(tail, toFloat) == Err(error);
      ParseTranscriptFirstError(tail, toFloat);
      var k :| FirstFailure(Kept(tail), toFloat, k, error);
      FirstFailureShift(children[0], Kept(tail), toFloat, k, error);
    }
  }

  /** The snippet count never exceeds the number of children. */
  lemma SnippetCountBounded(children: seq<XmlElement>, toFloat: string -> Option<real>)
    requires ParseTranscript(children, toFloat).Ok?
    ensures |ParseTranscript(children, toFloat).value| <= |children|
  {
    ParseTranscriptOk(children, toFloat);
  }

  /** Two walks that start with the same child and go on alike end alike. */
  lemma SameHeadSameWalk(a: seq<XmlElement>, b: seq<XmlElement>, toFloat: string -> Option<real>)
    requires |a| > 0 && |b| > 0 && a[0] == b[0]
    requires ParseTranscript(a[1..], toFloat) == ParseTranscript(b[1..], toFloat)
    ensures ParseTranscript(a, toFloat) == ParseTranscript(b, toFloat)
  {
  }

  /** A child without a text node at the front is skipped. */
  lemma TextlessHeadSkipped(e: XmlElement, after: seq<XmlElement>, toFloat: string -> Option<real>)
    requires e.text.None?
    ensures ParseTranscript([e] + after, toFloat) == ParseTranscript(after, toFloat)
  {
    TailOfConcat([e], after);
  }

  /** A child without a text node contributes nothing, wherever it stands. */
  lemma {:induction false} TextlessChildIgnored(before: seq<XmlElement>, e: XmlElement, after: seq<XmlElement>,
                                                 toFloat: string -> Option<real>)
    requires e.text.None?
    ensures ParseTranscript(before + [e] + after, toFloat) == ParseTranscript(before + after, toFloat)
    decreases |before|
  {
    if |before| == 0 {
      ConcatEmpty([e]);
      ConcatEmpty(after);
      TextlessHeadSkipped(e, after, toFloat);
    } else {
      var tail := before[1..];
      TextlessChildIgnored(tail, e, after, toFloat);
      var withE, without := before + [e] + after, before + after;
      TailOfConcat(before, [e]);
      TailOfConcat(before + [e], after);
      TailOfConcat(before, after);
      SameHeadSameWalk(withE, without, toFloat);
    }
  }

  /** `strip()` turns text made only of whitespace into the empty string,
      which `unescape` leaves empty. */
  lemma WhitespaceOnlyText(raw: string)
    requires forall i :: 0 <= i < |raw| ==> raw[i] in Whitespace
    ensures Unescape(Strip(raw, Whitespace)) == ""
  {
    StripEmpty(raw, Whitespace);
  }

  /** A text node of whitespace only is kept, as an empty snippet. */
  lemma WhitespaceTextKept(e: XmlElement, toFloat: string -> Option<real>)
    requires e.text.Some? && forall i :: 0 <= i < |e.text.value| ==> e.text.value[i] in Whitespace
    requires ToSnippet(e, toFloat).Ok?
    ensures ParseTranscript([e], toFloat) == Ok([ToSnippet(e, toFloat).value])
    ensures ToSnippet(e, toFloat).value.text == ""
  {
    WhitespaceOnlyText(e.text.value);
    var v := ToSnippet(e, toFloat).value;
    ParseTranscriptCons(e, [], toFloat);
    ConcatEmpty([e]);
    ConcatEmpty([v]);
  }

  /** When `dur` is absent the duration is what `float("0.0")` gives: zero. */
  lemma MissingDurationIsZero(e: XmlElement, toFloat: string -> Option<real>)
    requires e.text.Some? && "dur" !in e.attrib
    requires toFloat(DefaultDuration) == Some(0.0)
    requires ToSnippet(e, toFloat).Ok?
    ensures ToSnippet(e, toFloat).value.duration == 0.0
  {
  }

  /** A caption element with a text node and the given attributes. */
  function Element(text: string, attrib: map<string, string>): (r: XmlElement)
    ensures r.text == Some(text) && r.attrib == attrib
  {
    XmlElement(Some(text), attrib)
  }

  /** Text that `strip()` and `unescape` leave as it is: no whitespace at
      either end and no `&`. */
  predicate Plain(text: string) {
    && (|text| > 0 ==> text[0] !in Whitespace && text[|text| - 1] !in Whitespace)
    && '&' !in text
  }

  /** An element with `start` and `dur` that convert, whose text is plain,
      becomes exactly that snippet. */
  lemma TimedLine(text: string, startText: string, durText: string, start: real, duration: real,
                  toFloat: string -> Option<real>)
    requires Plain(text)
    requires toFloat(startText) == Some(start) && toFloat(durText) == Some(duration)
    ensures ToSnippet(Element(text, map["start" := startText, "dur" := durText]), toFloat)
            == Ok(Snippet(text, start, duration))
  {
    StripNothing(text, Whitespace);
    UnescapePlain(text);
  }

  /** One more element in front of a walk that succeeds. */
  lemma ParseTranscriptCons(e: XmlElement, rest: seq<XmlElement>, toFloat: string -> Option<real>)
    requires e.text.Some? && ToSnippet(e, toFloat).Ok? && ParseTranscript(rest, toFloat).Ok?
    ensures ParseTranscript([e] + rest, toFloat) == Ok([ToSnippet(e, toFloat).value] + ParseTranscript(rest, toFloat).value)
  {
    TailOfConcat([e], rest);
    ConcatEmpty(rest);
  }

  /** An element that yields `v` in front of a walk that yields `vs`. */
  lemma ConsOk(e: XmlElement, rest: seq<XmlElement>, v: Snippet, vs: seq<Snippet>, toFloat: string -> Option<real>)
    requires e.text.Some? && ToSnippet(e, toFloat) == Ok(v) && ParseTranscript(rest, toFloat) == Ok(vs)
    ensures ParseTranscript([e] + rest, toFloat) == Ok([v] + vs)
  {
    ParseTranscriptCons(e, rest, toFloat);
  }

  /** Three elements that each yield a snippet yield those three, in order. */
  lemma ParseThree(e1: XmlElement, e2: XmlElement, e3: XmlElement, v1: Snippet, v2: Snippet, v3: Snippet,
                   toFloat: string -> Option<real>)
    requires e1.text.Some? && e2.text.Some? && e3.text.Some?
    requires ToSnippet(e1, toFloat) == Ok(v1) && ToSnippet(e2, toFloat) == Ok(v2) && ToSnippet(e3, toFloat) == Ok(v3)
    ensures ParseTranscript([e1, e2, e3], toFloat) == Ok([v1, v2, v3])
  {
    ConsThree(e1, e2, e3);
    ConsThree(v1, v2, v3);
    ConsOk(e3, [], v3, [], toFloat);
    ConsOk(e2, [e3], v2, [v3], toFloat);
    ConsOk(e1, [e2, e3], v1, [v2, v3], toFloat);
  }

  /** The words of the library's three-line document are plain. */
  lemma PlainWords()
    ensures Plain("Hello") && Plain("World") && Plain("Testing")
  {
  }

  /** The library's three-line document: each line becomes one snippet with
      its text, start and duration. */
  lemma ThreeLineExample(toFloat: string -> Option<real>)
    requires toFloat("0.0") == Some(0.0) && toFloat("1.0") == Some(1.0) && toFloat("2.0") == Some(2.0)
    requires toFloat("3.0") == Some(3.0) && toFloat("1.5") == Some(1.5)
    ensures ParseTranscript([Element("Hello", map["start" := "0.0", "dur" := "1.0"]),
                             Element("World", map["start" := "1.0", "dur" := "2.0"]),
                             Element("Testing", map["start" := "3.0", "dur" := "1.5"])], toFloat)
            == Ok([Snippet("Hello", 0.0, 1.0), Snippet("World", 1.0, 2.0), Snippet("Testing", 3.0, 1.5)])
  {
    PlainWords();
    TimedLine("Hello", "0.0", "1.0", 0.0, 1.0, toFloat);
    TimedLine("World", "1.0", "2.0", 1.0, 2.0, toFloat);
    TimedLine("Testing", "3.0", "1.5", 3.0, 1.5, toFloat);
    ParseThree(Element("Hello", map["start" := "0.0", "dur" := "1.0"]),
               Element("World", map["start" := "1.0", "dur" := "2.0"]),
               Element("Testing", map["start" := "3.0", "dur" := "1.5"]),
               Snippet("Hello", 0.0, 1.0), Snippet("World", 1.0, 2.0), Snippet("Testing", 3.0, 1.5), toFloat);
  }

  /** The words of the library's document with character references, as
      the XML parser hands them over: it has already decoded `&lt;`, `&gt;`
      and `&quot;`, so they reach `unescape` as plain characters. */
  lemma DecodedWords()
    ensures Plain("Less < Greater >") && Plain("Quote \"test\"")
  {
  }

  /** The parser has decoded `&amp;` too, so `unescape` sees a lone `&`,
      which starts no reference and is kept. */
  lemma AmpersandLine(toFloat: string -> Option<real>)
    requires toFloat("0.0") == Some(0.0) && toFloat("1.0") == Some(1.0)
    ensures ToSnippet(Element("I & you", map["start" := "0.0", "dur" := "1.0"]), toFloat)
            == Ok(Snippet("I & you", 0.0, 1.0))
  {
    StripNothing("I & you", Whitespace);
    LoneAmpersandExample();
  }

  /** The library's document with character references: the texts the XML
      parser decoded come out unchanged, and the lone `&` is kept. */
  lemma DecodedEntitiesExample(toFloat: string -> Option<real>)
    requires toFloat("0.0") == Some(0.0) && toFloat("1.0") == Some(1.0) && toFloat("2.0") == Some(2.0)
    ensures ParseTranscript([Element("I & you", map["start" := "0.0", "dur" := "1.0"]),
                             Element("Less < Greater >", map["start" := "1.0", "dur" := "1.0"]),
                             Element("Quote \"test\"", map["start" := "2.0", "dur" := "1.0"])], toFloat)
            == Ok([Snippet("I & you", 0.0, 1.0), Snippet("Less < Greater >", 1.0, 1.0),
                   Snippet("Quote \"test\"", 2.0, 1.0)])
  {
    DecodedWords();
    AmpersandLine(toFloat);
    TimedLine("Less < Greater >", "1.0", "1.0", 1.0, 1.0, toFloat);
    TimedLine("Quote \"test\"", "2.0", "1.0", 2.0, 1.0, toFloat);
    ParseThree(Element("I & you", map["start" := "0.0", "dur" := "1.0"]),
               Element("Less < Greater >", map["start" := "1.0", "dur" := "1.0"]),
               Element("Quote \"test\"", map["start" := "2.0", "dur" := "1.0"]),
               Snippet("I & you", 0.0, 1.0), Snippet("Less < Greater >", 1.0, 1.0),
               Snippet("Quote \"test\"", 2.0, 1.0), toFloat);
  }
}
