/**
  `escapeHtml`: every occurrence of one of the five HTML-special characters
  is replaced by its entity; every other character is copied unchanged.
 */
module HtmlEscape {

  /** The characters the replacement pattern `[&<>"']` matches. */
  predicate IsSpecial(c: char) {
    c == '&' || c == '<' || c == '>' || c == '"' || c == '\''
  }

  /** Characters that must not survive escaping. */
  predicate IsMarkup(c: char) {
    c == '<' || c == '>' || c == '"' || c == '\''
  }

  /** The replacement for one character: its entity if special, else itself. */
  function EscapeChar(c: char): (r: string)
    ensures |r| >= 1
    ensures IsSpecial(c) ==> r[0] == '&' && r[|r| - 1] == ';'
    ensures !IsSpecial(c) ==> r == [c]
    ensures forall i :: 0 <= i < |r| ==> !IsMarkup(r[i])
  {
    match c
    case '&' => "&amp;"
    case '<' => "&lt;"
    case '>' => "&gt;"
    case '"' => "&quot;"
    case '\'' => "&#039;"
    case _ => [c]
  }

  function Escape(s: string): (r: string)
    ensures |r| >= |s|
    ensures forall i :: 0 <= i < |r| ==> !IsMarkup(r[i])
  {
    if |s| == 0 then ""
    else
      var head := EscapeChar(s[0]);
      var tail := Escape(s[1..]);
      assert forall i :: 0 <= i < |head + tail| ==> (head + tail)[i] in head || (head + tail)[i] in tail;
      head + tail
  }

  /** Escaping distributes over concatenation. */
  lemma {:induction false} EscapeConcat(x: string, y: string)
    ensures Escape(x + y) == Escape(x) + Escape(y)
  {
    if |x| > 0 {
      assert (x + y)[0] == x[0];
      assert (x + y)[1..] == x[1..] + y;
      EscapeConcat(x[1..], y);
    } else {
      assert x + y == y;
    }
  }

  /** Text without special characters is returned unchanged. */
  lemma {:induction false} EscapePlain(s: string)
    requires forall i :: 0 <= i < |s| ==> !IsSpecial(s[i])
    ensures Escape(s) == s
  {
    if |s| > 0 {
      EscapePlain(s[1..]);
      assert s == [s[0]] + s[1..];
    }
  }

  /** How many times `c` occurs in `s`. */
  function Count(s: string, c: char): (n: nat)
    ensures n == multiset(s)[c]
  {
    if |s| == 0 then 0
    else
      assert s == [s[0]] + s[1..];
      (if s[0] == c then 1 else 0) + Count(s[1..], c)
  }

  /** Each `&` adds four characters, each `<` or `>` three, each quote five. */
  lemma {:induction false} EscapeLength(s: string)
    ensures |Escape(s)| == |s| + 4 * Count(s, '&') + 3 * Count(s, '<') + 3 * Count(s, '>')
                               + 5 * Count(s, '"') + 5 * Count(s, '\'')
  {
    if |s| > 0 {
      EscapeLength(s[1..]);
      var c := s[0];
      assert |Escape(s)| == |EscapeChar(c)| + |Escape(s[1..])|;
      assert |EscapeChar(c)| == 1 + (if c == '&' then 4 else if c == '<' || c == '>' then 3
                                     else if c == '"' || c == '\'' then 5 else 0);
      assert Count(s, '&') == (if c == '&' then 1 else 0) + Count(s[1..], '&');
      assert Count(s, '<') == (if c == '<' then 1 else 0) + Count(s[1..], '<');
      assert Count(s, '>') == (if c == '>' then 1 else 0) + Count(s[1..], '>');
      assert Count(s, '"') == (if c == '"' then 1 else 0) + Count(s[1..], '"');
      assert Count(s, '\'') == (if c == '\'' then 1 else 0) + Count(s[1..], '\'');
    }
  }

  /**
    The inverse of escaping: each of the five entities is read back as its
    character, anything else is copied.
   */
  function Unescape(s: string): string
    decreases |s|
  {
    if |s| == 0 then ""
    else if "&amp;" <= s then "&" + Unescape(s[5..])
    else if "&lt;" <= s then "<" + Unescape(s[4..])
    else if "&gt;" <= s then ">" + Unescape(s[4..])
    else if "&quot;" <= s then "\"" + Unescape(s[6..])
    else if "&#039;" <= s then "'" + Unescape(s[6..])
    else [s[0]] + Unescape(s[1..])
  }

  /** Unescaping one escaped character in front of any text reads that character back. */
  lemma UnescapeChar(c: char, t: string)
    ensures Unescape(EscapeChar(c) + t) == [c] + Unescape(t)
  {
    var e := EscapeChar(c);
    var s := e + t;
    assert s[..|e|] == e;
    assert s[|e|..] == t;
    if c == '&' {
      assert "&amp;" <= s;
    } else if c == '<' {
      assert s[1] == 'l';
      assert "&lt;" <= s;
    } else if c == '>' {
      assert s[1] == 'g';
      assert "&gt;" <= s;
    } else if c == '"' {
      assert s[1] == 'q';
      assert "&quot;" <= s;
    } else if c == '\'' {
      assert s[1] == '#';
      assert "&#039;" <= s;
    } else {
      assert s[0] == c;
      assert s[1..] == t;
    }
  }

  /** Escaping loses nothing: the input, characters and order, is recovered. */
  lemma {:induction false} UnescapeEscape(s: string)
    ensures Unescape(Escape(s)) == s
  {
    if |s| > 0 {
      UnescapeChar(s[0], Escape(s[1..]));
      UnescapeEscape(s[1..]);
      assert s == [s[0]] + s[1..];
    }
  }
}
