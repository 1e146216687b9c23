/** The HTML escaping applied to order ids and restaurant names before they are rendered. */
module Html {

  /** The five characters that are replaced by an entity. */
  predicate Special(ch: char)
  {
    ch == '&' || ch == '<' || ch == '>' || ch == '"' || ch == '\''
  }

  /** The replacement of one character: its entity, or the character itself. */
  function EscapeChar(ch: char): (r: string)
  {
    match ch
    case '&' => "&amp;"
    case '<' => "&lt;"
    case '>' => "&gt;"
    case '"' => "&quot;"
    case '\'' => "&#039;"
    case _ => [ch]
  }

  /** The escaped text: every character replaced by EscapeChar, left to right. No markup
      delimiter or quote survives, and nothing gets shorter. */
  function Escape(text: string): (r: string)
    ensures |r| >= |text|
    ensures forall i :: 0 <= i < |r| ==> r[i] != '<' && r[i] != '>' && r[i] != '"' && r[i] != '\''
  {
    if text == [] then []
    else
      var head := EscapeChar(text[0]);
      assert forall i :: 0 <= i < |head| ==> head[i] != '<' && head[i] != '>' && head[i] != '"' && head[i] != '\'';
      head + Escape(text[1..])
  }

  /** Escaping works character by character, so it distributes over concatenation. */
  lemma {:induction false} EscapeAppend(a: string, b: string)
    ensures Escape(a + b) == Escape(a) + Escape(b)
  {
    if a == [] {
      assert a + b == b;
    } else {
      assert (a + b)[0] == a[0] && (a + b)[1..] == a[1..] + b;
      EscapeAppend(a[1..], b);
    }
  }

  /** Text without any of the five characters is left exactly as it is. */
  lemma {:induction false} EscapePlainText(text: string)
    requires forall i :: 0 <= i < |text| ==> !Special(text[i])
    ensures Escape(text) == text
  {
    if text != [] {
      EscapePlainText(text[1..]);
      assert [text[0]] + text[1..] == text;
    }
  }

  /** A reference decoder for the five entities, used to state that escaping loses nothing. */
  function Unescape(s: string): (r: string)
    decreases |s|
  {
    if s == [] then []
    else if "&amp;" <= s then "&" + Unescape(s[5..])
    else if "&lt;" <= s then "<" + Unescape(s[4..])
    else if "&gt;" <= s then ">" + Unescape(s[4..])
    else if "&quot;" <= s then "\"" + Unescape(s[6..])
    else if "&#039;" <= s then "'" + Unescape(s[6..])
    else [s[0]] + Unescape(s[1..])
  }

  /** Decoding the replacement of one character gives that character back. */
  lemma UnescapeEscapeChar(ch: char, rest: string)
    ensures Unescape(EscapeChar(ch) + rest) == [ch] + Unescape(rest)
  {
    var s := EscapeChar(ch) + rest;
    if ch == '&' {
      assert "&amp;" <= s && s[5..] == rest;
    } else if ch == '<' {
      assert s[1] == 'l' && "&lt;" <= s && s[4..] == rest;
    } else if ch == '>' {
      assert s[1] == 'g' && "&gt;" <= s && s[4..] == rest;
    } else if ch == '"' {
      assert s[1] == 'q' && "&quot;" <= s && s[6..] == rest;
    } else if ch == '\'' {
      assert s[1] == '#' && "&#039;" <= s && s[6..] == rest;
    } else {
      assert s[0] == ch && s[1..] == rest;
    }
  }

  /** Escaping is lossless: decoding the escaped text gives the original text back. */
  lemma {:induction false} UnescapeEscape(text: string)
    ensures Unescape(Escape(text)) == text
  {
    if text != [] {
      UnescapeEscapeChar(text[0], Escape(text[1..]));
      UnescapeEscape(text[1..]);
      assert [text[0]] + text[1..] == text;
    }
  }
}
