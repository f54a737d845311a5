/** `esc`: Python's `html.escape(s, quote=True)` with `None` read as the empty
    string, and a decoder for the five entities it writes. */
module HtmlEscape {
  import opened Common

  /** The characters `html.escape(..., quote=True)` replaces. */
  predicate IsSpecial(c: char)
  {
    c == '&' || c == '<' || c == '>' || c == '"' || c == '\''
  }

  /** The characters that must never appear raw in escaped text. */
  predicate IsMarkup(c: char)
  {
    c == '<' || c == '>' || c == '"' || c == '\''
  }

  /** What one character becomes. */
  function EscapeChar(c: char): string
  {
    if c == '&' then "&amp;"
    else if c == '<' then "&lt;"
    else if c == '>' then "&gt;"
    else if c == '"' then "&quot;"
    else if c == '\'' then "&#x27;"
    else [c]
  }

  /** Escapes every character of s, left to right. The result is never shorter than s
      and holds no raw `<`, `>`, `"` or `'`. */
  function EscapeText(s: string): (r: string)
    ensures |r| >= |s|
    ensures forall i :: 0 <= i < |r| ==> !IsMarkup(r[i])
  {
    if s == [] then [] else EscapeChar(s[0]) + EscapeText(s[1..])
  }

  /** `esc(s)`: a missing or empty string gives the empty string; anything else is
      escaped so that decoding it gives the text back. */
  function Esc(s: Option<string>): (r: string)
    ensures OrEmpty(s) == "" ==> r == ""
    ensures forall i :: 0 <= i < |r| ==> !IsMarkup(r[i])
    ensures Unescape(r) == OrEmpty(s)
  {
    UnescapeEscape(OrEmpty(s));
    EscapeText(OrEmpty(s))
  }

  predicate StartsWith(s: string, prefix: string)
  {
    |prefix| <= |s| && s[..|prefix|] == prefix
  }

  /** Decodes the five entities `esc` writes and copies every other character. */
  function Unescape(s: string): (r: string)
    decreases |s|
  {
    if s == [] then []
    else if StartsWith(s, "&amp;") then "&" + Unescape(s[5..])
    else if StartsWith(s, "&lt;") then "<" + Unescape(s[4..])
    else if StartsWith(s, "&gt;") then ">" + Unescape(s[4..])
    else if StartsWith(s, "&quot;") then "\"" + Unescape(s[6..])
    else if StartsWith(s, "&#x27;") then "'" + Unescape(s[6..])
    else [s[0]] + Unescape(s[1..])
  }

  /** Decoding undoes one escaped character in front of any text. */
  lemma UnescapeEscapeChar(c: char, t: string)
    ensures Unescape(EscapeChar(c) + t) == [c] + Unescape(t)
  {
    var e := EscapeChar(c);
    var s := e + t;
    assert s[..|e|] == e && s[|e|..] == t;
    if c == '&' {
      assert StartsWith(s, "&amp;");
    } else if c == '<' {
      assert s[1] == 'l' && !StartsWith(s, "&amp;");
      assert StartsWith(s, "&lt;");
    } else if c == '>' {
      assert s[1] == 'g' && !StartsWith(s, "&amp;") && !StartsWith(s, "&lt;");
      assert StartsWith(s, "&gt;");
    } else if c == '"' {
      assert s[1] == 'q' && !StartsWith(s, "&amp;") && !StartsWith(s, "&lt;") && !StartsWith(s, "&gt;");
      assert StartsWith(s, "&quot;");
    } else if c == '\'' {
      assert s[1] == '#' && !StartsWith(s, "&amp;") && !StartsWith(s, "&lt;") && !StartsWith(s, "&gt;");
      assert !StartsWith(s, "&quot;");
      assert StartsWith(s, "&#x27;");
    } else {
      assert s[0] == c && s[1..] == t;
      assert !StartsWith(s, "&amp;") && !StartsWith(s, "&lt;") && !StartsWith(s, "&gt;");
      assert !StartsWith(s, "&quot;") && !StartsWith(s, "&#x27;");
    }
  }

  /** Decoding inverts escaping. */
  lemma {:induction false} UnescapeEscape(s: string)
    ensures Unescape(EscapeText(s)) == s
  {
    if s != [] {
      UnescapeEscapeChar(s[0], EscapeText(s[1..]));
      UnescapeEscape(s[1..]);
    }
  }

  /** Escaping works character by character: escaping a concatenation is
      concatenating the escaped parts, so the text keeps its order. */
  lemma {:induction false} EscapeAppend(a: string, b: string)
    ensures EscapeText(a + b) == EscapeText(a) + EscapeText(b)
  {
    if a != [] {
      assert (a + b)[0] == a[0] && (a + b)[1..] == a[1..] + b;
      EscapeAppend(a[1..], b);
      assert EscapeText(a + b) == EscapeChar(a[0]) + EscapeText(a[1..] + b);
    } else {
      assert a + b == b;
    }
  }

  /** Escaping changes a string exactly when it holds one of the five special
      characters; otherwise every character is kept as it is. */
  lemma {:induction false} EscapeUnchangedIff(s: string)
    ensures EscapeText(s) == s <==> forall i :: 0 <= i < |s| ==> !IsSpecial(s[i])
  {
    if s != [] {
      EscapeUnchangedIff(s[1..]);
      if IsSpecial(s[0]) {
        assert |EscapeText(s)| > |s|;
      } else {
        assert EscapeText(s) == [s[0]] + EscapeText(s[1..]);
        if EscapeText(s) == s {
          assert EscapeText(s[1..]) == s[1..];
        }
        assert (forall i :: 0 <= i < |s| ==> !IsSpecial(s[i]))
          <==> (forall i :: 0 <= i < |s[1..]| ==> !IsSpecial(s[1..][i]));
      }
    }
  }
}
