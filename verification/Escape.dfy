/** `escapeHtml` from the popup: five chained global replacements, their
    per-character reading, the round trip through the five entities and
    the absence of markup characters in the result. */
module Escape {
  import opened Text

  /** `s.replace(/c/g, entity)`. */
  function ReplaceChar(s: string, c: char, entity: string): (r: string)
    ensures c !in s ==> r == s
  {
    if s == [] then [] else (if s[0] == c then entity else [s[0]]) + ReplaceChar(s[1..], c, entity)
  }

  lemma {:induction false} ReplaceCharConcat(a: string, b: string, c: char, entity: string)
    ensures ReplaceChar(a + b, c, entity) == ReplaceChar(a, c, entity) + ReplaceChar(b, c, entity)
  {
    if a == [] {
      assert a + b == b;
    } else {
      assert (a + b)[1..] == a[1..] + b;
      ReplaceCharConcat(a[1..], b, c, entity);
    }
  }

  /** `escapeHtml`: five global replacements, ampersands first. */
  function EscapeHtml(unsafe: string): string
  {
    ReplaceChar(ReplaceChar(ReplaceChar(ReplaceChar(ReplaceChar(unsafe,
      '&', "&amp;"), '<', "&lt;"), '>', "&gt;"), '"', "&quot;"), '\'', "&#039;")
  }

  /** The entity each character becomes. */
  function EscapeChar(c: char): string
  {
    match c
    case '&' => "&amp;"
    case '<' => "&lt;"
    case '>' => "&gt;"
    case '"' => "&quot;"
    case '\'' => "&#039;"
    case _ => [c]
  }

  /** Escaping one character at a time. */
  function EscapeEach(s: string): string
  {
    if s == [] then [] else EscapeChar(s[0]) + EscapeEach(s[1..])
  }

  lemma EscapeHtmlConcat(a: string, b: string)
    ensures EscapeHtml(a + b) == EscapeHtml(a) + EscapeHtml(b)
  {
    var a1, b1 := ReplaceChar(a, '&', "&amp;"), ReplaceChar(b, '&', "&amp;");
    ReplaceCharConcat(a, b, '&', "&amp;");
    var a2, b2 := ReplaceChar(a1, '<', "&lt;"), ReplaceChar(b1, '<', "&lt;");
    ReplaceCharConcat(a1, b1, '<', "&lt;");
    var a3, b3 := ReplaceChar(a2, '>', "&gt;"), ReplaceChar(b2, '>', "&gt;");
    ReplaceCharConcat(a2, b2, '>', "&gt;");
    var a4, b4 := ReplaceChar(a3, '"', "&quot;"), ReplaceChar(b3, '"', "&quot;");
    ReplaceCharConcat(a3, b3, '"', "&quot;");
    ReplaceCharConcat(a4, b4, '\'', "&#039;");
  }

  /** One character through one replacement. */
  lemma ReplaceOne(c: char, x: char, entity: string)
    ensures ReplaceChar([c], x, entity) == if c == x then entity else [c]
  {
    assert [c][1..] == [];
  }

  lemma EscapeHtmlSingle(c: char)
    ensures EscapeHtml([c]) == EscapeChar(c)
  {
    ReplaceOne(c, '&', "&amp;");
    if c == '&' {
      assert '<' !in "&amp;" && '>' !in "&amp;" && '"' !in "&amp;" && '\'' !in "&amp;";
      return;
    }
    ReplaceOne(c, '<', "&lt;");
    if c == '<' {
      assert '>' !in "&lt;" && '"' !in "&lt;" && '\'' !in "&lt;";
      return;
    }
    ReplaceOne(c, '>', "&gt;");
    if c == '>' {
      assert '"' !in "&gt;" && '\'' !in "&gt;";
      return;
    }
    ReplaceOne(c, '"', "&quot;");
    if c == '"' {
      assert '\'' !in "&quot;";
      return;
    }
    ReplaceOne(c, '\'', "&#039;");
  }

  /** The chained replacements escape every character exactly once: no
      entity produced by one step is escaped again by a later one. */
  lemma {:induction false} EscapeHtmlPerChar(s: string)
    ensures EscapeHtml(s) == EscapeEach(s)
  {
    if s != [] {
      assert s == [s[0]] + s[1..];
      EscapeHtmlConcat([s[0]], s[1..]);
      EscapeHtmlSingle(s[0]);
      EscapeHtmlPerChar(s[1..]);
    }
  }

  /** Reads the five entities back. */
  function UnescapeHtml(s: string): string
    decreases |s|
  {
    if s == [] then []
    else if "&amp;" <= s then "&" + UnescapeHtml(s[5..])
    else if "&lt;" <= s then "<" + UnescapeHtml(s[4..])
    else if "&gt;" <= s then ">" + UnescapeHtml(s[4..])
    else if "&quot;" <= s then "\"" + UnescapeHtml(s[6..])
    else if "&#039;" <= s then "'" + UnescapeHtml(s[6..])
    else [s[0]] + UnescapeHtml(s[1..])
  }

  lemma UnescapeStep(c: char, t: string)
    ensures UnescapeHtml(EscapeChar(c) + t) == [c] + UnescapeHtml(t)
  {
    if c == '&' {
      UnescapeAmp(t);
    } else if c == '<' || c == '>' {
      UnescapeAngle(c, t);
    } else if c == '"' || c == '\'' {
      UnescapeQuote(c, t);
    } else {
      UnescapePlain(c, t);
    }
  }

  lemma UnescapeAmp(t: string)
    ensures UnescapeHtml("&amp;" + t) == "&" + UnescapeHtml(t)
  {
    var e := "&amp;" + t;
    assert "&amp;" <= e && e[5..] == t;
  }

  /** `&lt;` and `&gt;` read back as the bracket they stand for. */
  lemma UnescapeAngle(c: char, t: string)
    requires c == '<' || c == '>'
    ensures UnescapeHtml(EscapeChar(c) + t) == [c] + UnescapeHtml(t)
  {
    var e := EscapeChar(c) + t;
    if c == '<' {
      assert e[1] == 'l' && "&lt;" <= e;
    } else {
      assert e[1] == 'g' && "&gt;" <= e;
    }
    assert e[4..] == t;
  }

  /** `&quot;` and `&#039;` read back as the quote they stand for. */
  lemma UnescapeQuote(c: char, t: string)
    requires c == '"' || c == '\''
    ensures UnescapeHtml(EscapeChar(c) + t) == [c] + UnescapeHtml(t)
  {
    var e := EscapeChar(c) + t;
    if c == '"' {
      assert e[1] == 'q' && "&quot;" <= e;
    } else {
      assert e[1] == '#' && "&#039;" <= e;
    }
    assert e[6..] == t;
  }

  lemma UnescapePlain(c: char, t: string)
    requires c != '&'
    ensures UnescapeHtml([c] + t) == [c] + UnescapeHtml(t)
  {
    var e := [c] + t;
    assert e[0] == c && e[1..] == t;
  }

  /** Escaping loses nothing: the escaped text reads back as the original. */
  lemma {:induction false} EscapeHtmlRoundTrip(s: string)
    ensures UnescapeHtml(EscapeHtml(s)) == s
  {
    EscapeHtmlPerChar(s);
    EscapeEachRoundTrip(s);
  }

  lemma {:induction false} EscapeEachRoundTrip(s: string)
    ensures UnescapeHtml(EscapeEach(s)) == s
  {
    if s != [] {
      UnescapeStep(s[0], EscapeEach(s[1..]));
      EscapeEachRoundTrip(s[1..]);
    }
  }

  /** Escaped text holds no tag delimiter and no quote, so it cannot open
      an element or leave an attribute. */
  lemma {:induction false} EscapeHtmlSafe(s: string)
    ensures var e := EscapeHtml(s);
      '<' !in e && '>' !in e && '"' !in e && '\'' !in e
  {
    EscapeHtmlPerChar(s);
    EscapeEachSafe(s);
  }

  lemma {:induction false} EscapeEachSafe(s: string)
    ensures var e := EscapeEach(s);
      '<' !in e && '>' !in e && '"' !in e && '\'' !in e
  {
    if s != [] {
      EscapeEachSafe(s[1..]);
      var e := EscapeChar(s[0]);
      assert '<' !in e && '>' !in e && '"' !in e && '\'' !in e;
    }
  }

  /** Text without the five special characters is left alone. */
  lemma {:induction false} EscapeHtmlPlain(s: string)
    requires forall c :: c in s ==> c != '&' && c != '<' && c != '>' && c != '"' && c != '\''
    ensures EscapeHtml(s) == s
  {
    EscapeHtmlPerChar(s);
    EscapeEachPlain(s);
  }

  lemma {:induction false} EscapeEachPlain(s: string)
    requires forall c :: c in s ==> c != '&' && c != '<' && c != '>' && c != '"' && c != '\''
    ensures EscapeEach(s) == s
  {
    if s != [] {
      assert s[0] in s;
      forall c | c in s[1..] ensures c != '&' && c != '<' && c != '>' && c != '"' && c != '\'' {
        assert c in s;
      }
      EscapeEachPlain(s[1..]);
    }
  }
}
