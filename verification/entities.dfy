/** Character-reference decoding as `html.unescape` performs it, for the
    references caption documents carry: `&amp;`, `&lt;`, `&gt;`, `&quot;`
    and the two spellings of the apostrophe, `&#39;` and `&#x27;`. Any other
    `&` is left as it is. The scan runs left to right in one pass, so the
    text a reference produces is never decoded again. */
module Entities {
  import opened Errors
  import opened Text
  import opened Sequences

  /** The references decoded, each with the character it stands for. */
  const References: seq<(string, char)> := [
    ("&amp;", '&'), ("&lt;", '<'), ("&gt;", '>'), ("&quot;", '"'),
    ("&#39;", '\''), ("&#x27;", '\'')
  ]

  /** The reference `s` starts with, if any, as the character it stands for
      and the reference's length. The references are recognised character by
      character; `ReferenceAtTable` shows this agrees with `References`. */
  function ReferenceAt(s: string): (r: Option<(char, nat)>)
    ensures r.Some? ==> 0 < r.value.1 <= |s| && s[0] == '&'
  {
    if |s| < 4 || s[0] != '&' then None
    else if s[1] == 'l' && s[2] == 't' && s[3] == ';' then Some(('<', 4))
    else if s[1] == 'g' && s[2] == 't' && s[3] == ';' then Some(('>', 4))
    else if |s| < 5 then None
    else if s[1] == 'a' && s[2] == 'm' && s[3] == 'p' && s[4] == ';' then Some(('&', 5))
    else if s[1] == '#' && s[2] == '3' && s[3] == '9' && s[4] == ';' then Some(('\'', 5))
    else if |s| < 6 then None
    else if s[1] == 'q' && s[2] == 'u' && s[3] == 'o' && s[4] == 't' && s[5] == ';' then Some(('"', 6))
    else if s[1] == '#' && s[2] == 'x' && s[3] == '2' && s[4] == '7' && s[5] == ';' then Some(('\'', 6))
    else None
  }

  /** `ReferenceAt` finds a reference exactly when `s` starts with an entry
      of `References`, and then it reports that entry's character and
      length. */
  lemma ReferenceAtTable(s: string)
    ensures ReferenceAt(s).Some? <==> exists j :: 0 <= j < |References| && StartsWith(s, References[j].0)
    ensures forall j :: 0 <= j < |References| && StartsWith(s, References[j].0) ==>
              ReferenceAt(s) == Some((References[j].1, |References[j].0|))
  {
    StartsWithShort(s, "&amp;");
    StartsWithShort(s, "&lt;");
    StartsWithShort(s, "&gt;");
    StartsWithShort(s, "&quot;");
    StartsWithShort(s, "&#39;");
    StartsWithShort(s, "&#x27;");
    forall j | 0 <= j < |References| && StartsWith(s, References[j].0)
      ensures ReferenceAt(s) == Some((References[j].1, |References[j].0|))
    {
    }
    if ReferenceAt(s).Some? {
      var j := if StartsWith(s, "&amp;") then 0 else if StartsWith(s, "&lt;") then 1
               else if StartsWith(s, "&gt;") then 2 else if StartsWith(s, "&quot;") then 3
               else if StartsWith(s, "&#39;") then 4 else 5;
      assert StartsWith(s, References[j].0);
    }
  }

  /** `html.unescape` restricted to `References`: a left-to-right scan that
      replaces each reference by its character and copies everything else. */
  function Unescape(s: string): (r: string)
    ensures |r| <= |s|
    ensures |s| > 0 && s[0] != '&' ==> |r| > 0 && r[0] == s[0]
    decreases |s|
  {
    if |s| == 0 then []
    else match ReferenceAt(s)
      case Some((c, n)) => [c] + Unescape(s[n..])
      case None => [s[0]] + Unescape(s[1..])
  }

  /** Text without `&` holds no reference and is left as it is. */
  lemma {:induction false} UnescapePlain(s: string)
    requires '&' !in s
    ensures Unescape(s) == s
    decreases |s|
  {
    if |s| > 0 {
      assert s[0] in s;
      assert forall c :: c in s[1..] ==> c in s;
      UnescapePlain(s[1..]);
    }
  }

  /** Text where no `&` starts a reference is left as it is: a lone `&` is
      copied like any other character. */
  lemma {:induction false} UnescapeNoReference(s: string)
    requires forall i :: 0 <= i < |s| && s[i] == '&' ==> ReferenceAt(s[i..]).None?
    ensures Unescape(s) == s
    decreases |s|
  {
    if |s| > 0 {
      assert s[0..] == s;
      var t := s[1..];
      forall i | 0 <= i < |t| && t[i] == '&'
        ensures ReferenceAt(t[i..]).None?
      {
        assert t[i..] == s[i + 1..];
      }
      UnescapeNoReference(t);
    }
  }

  /** `html.escape(s, quote=True)`: the inverse direction, used to state
      what `Unescape` undoes. */
  function Escape(s: string): (r: string)
    ensures |r| >= |s|
  {
    if |s| == 0 then []
    else EscapeChar(s[0]) + Escape(s[1..])
  }

  /** The escape of one character: a reference for the five special
      characters, the character itself otherwise. */
  function EscapeChar(c: char): (r: string)
    ensures |r| >= 1
    ensures |r| == 1 ==> r == [c]
  {
    match c
    case '&' => "&amp;"
    case '<' => "&lt;"
    case '>' => "&gt;"
    case '"' => "&quot;"
    case '\'' => "&#x27;"
    case _ => [c]
  }

  /** Decoding one escaped character yields that character and leaves the
      rest of the text to the scan. */
  lemma UnescapeEscapedChar(c: char, rest: string)
    ensures Unescape(EscapeChar(c) + rest) == [c] + Unescape(rest)
  {
    var e := EscapeChar(c);
    var s := e + rest;
    SplitConcat(e, rest);
    assert ReferenceAt(s) == if c in "&<>\"'" then Some((c, |e|)) else None by {
      if c == '&' {
        assert s[1] == 'a' && s[2] == 'm' && s[3] == 'p' && s[4] == ';';
      } else if c == '<' {
        assert s[1] == 'l' && s[2] == 't' && s[3] == ';';
      } else if c == '>' {
        assert s[1] == 'g' && s[2] == 't' && s[3] == ';';
      } else if c == '"' {
        assert s[1] == 'q' && s[2] == 'u' && s[3] == 'o' && s[4] == 't' && s[5] == ';';
      } else if c == '\'' {
        assert s[1] == '#' && s[2] == 'x' && s[3] == '2' && s[4] == '7' && s[5] == ';';
      } else {
        assert s[0] == c;
      }
    }
  }

  /** Escaping then unescaping gives back the original text. */
  lemma {:induction false} UnescapeEscape(s: string)
    ensures Unescape(Escape(s)) == s
    decreases |s|
  {
    if |s| > 0 {
      UnescapeEscape(s[1..]);
      UnescapeEscapedChar(s[0], Escape(s[1..]));
    }
  }

  /** `Escape` works character by character, so it distributes over
      concatenation. */
  lemma {:induction false} EscapeAppend(a: string, b: string)
    ensures Escape(a + b) == Escape(a) + Escape(b)
    decreases |a|
  {
    if |a| > 0 {
      TailOfConcat(a, b);
      EscapeAppend(a[1..], b);
    } else {
      ConcatEmpty(b);
    }
  }

  /** Text without characters to escape is its own escape. */
  lemma {:induction false} EscapePlain(s: string)
    requires forall i :: 0 <= i < |s| ==> s[i] !in "&<>\"'"
    ensures Escape(s) == s
    decreases |s|
  {
    if |s| > 0 {
      EscapePlain(s[1..]);
      assert EscapeChar(s[0]) == [s[0]];
    }
  }

  /** The escape of `a`, a special character `c`, then `b`, when `a` and
      `b` have nothing to escape. */
  lemma EscapeOne(a: string, c: char, b: string)
    requires forall i :: 0 <= i < |a| ==> a[i] !in "&<>\"'"
    requires forall i :: 0 <= i < |b| ==> b[i] !in "&<>\"'"
    ensures Escape(a + [c] + b) == a + EscapeChar(c) + b
  {
    EscapeAppend(a + [c], b);
    EscapeAppend(a, [c]);
    EscapePlain(a);
    EscapePlain(b);
    assert [c][1..] == [];
    assert Escape([c]) == EscapeChar(c) + Escape([]);
    assert Escape([c]) == EscapeChar(c);
  }

  /** `Escape` of a text is the escape of its first character followed by
      the escape of the rest. */
  lemma EscapeCons(c: char, s: string)
    ensures Escape([c] + s) == EscapeChar(c) + Escape(s)
  {
    assert ([c] + s)[0] == c;
    assert ([c] + s)[1..] == s;
  }

  /** An `&` that starts no reference is kept: the text the library's
      ampersand example hands to `unescape` after XML decoding. */
  lemma LoneAmpersandExample()
    ensures Unescape("I & you") == "I & you"
  {
    UnescapePlain(" you");
    assert ReferenceAt("& you") == None;
    assert Unescape("& you") == "&" + Unescape(" you");
  }

  /** `html.unescape` decodes `&amp;` in running text. */
  lemma AmpersandExample()
    ensures Unescape("I &amp; you") == "I & you"
  {
    EscapeOne("I ", '&', " you");
    assert "I " + ['&'] + " you" == "I & you";
    assert "I " + EscapeChar('&') + " you" == "I &amp; you";
    UnescapeEscape("I & you");
  }

  /** `html.unescape` decodes `&lt;` and `&gt;`, the last one at the very end. */
  lemma AngleBracketExample()
    ensures Unescape("Less &lt; Greater &gt;") == "Less < Greater >"
  {
    assert "Less " + ['<'] + " Greater " == "Less < Greater ";
    assert "Less < Greater " + ">" == "Less < Greater >";
    assert ">" == ['>'] + "";
    assert "Less " + "&lt;" + " Greater " + "&gt;" == "Less &lt; Greater &gt;";
    assert EscapeChar('<') == "&lt;";
    assert EscapeChar('>') + "" == "&gt;";
    EscapeOne("Less ", '<', " Greater ");
    EscapeAppend("Less < Greater ", ">");
    EscapeCons('>', "");
    UnescapeEscape("Less < Greater >");
  }

  /** `html.unescape` decodes `&quot;` on both sides of a word. */
  lemma QuoteExample()
    ensures Unescape("Quote &quot;test&quot;") == "Quote \"test\""
  {
    assert "Quote " + ['"'] + "test" == "Quote \"test";
    assert "Quote \"test" + "\"" == "Quote \"test\"";
    assert "\"" == ['"'] + "";
    assert "Quote " + "&quot;" + "test" + "&quot;" == "Quote &quot;test&quot;";
    assert EscapeChar('"') == "&quot;";
    assert EscapeChar('"') + "" == "&quot;";
    EscapeOne("Quote ", '"', "test");
    EscapeAppend("Quote \"test", "\"");
    EscapeCons('"', "");
    UnescapeEscape("Quote \"test\"");
  }
}
