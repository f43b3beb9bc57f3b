/**
 * `he.escape`: the six characters `&`, `<`, `>`, `"`, `'` and `` ` `` become
 * character references (`&amp;`, `&lt;`, `&gt;`, `&quot;`, `&#x27;`,
 * `&#x60;`); every other character is kept. `Unescape` reads exactly those
 * six references back.
 */
module HtmlEscape {
  import opened Text

  predicate IsSpecial(c: char)
  {
    c == '&' || c == '<' || c == '>' || c == '"' || c == '\'' || c == '`'
  }

  /** The character reference that stands for a special character. */
  function Reference(c: char): (r: string)
    requires IsSpecial(c)
    ensures |r| >= 4 && r[0] == '&' && r[|r| - 1] == ';'
  {
    match c
    case '&' => "&amp;"
    case '<' => "&lt;"
    case '>' => "&gt;"
    case '"' => "&quot;"
    case '\'' => "&#x27;"
    case _ => "&#x60;"
  }

  /** No character that escaping removes: markup cannot be opened or an attribute value closed. */
  predicate IsMarkupFree(s: string)
  {
    forall i :: 0 <= i < |s| ==> s[i] != '<' && s[i] != '>' && s[i] != '"' && s[i] != '\'' && s[i] != '`'
  }

  function EscapeChar(c: char): (r: string)
    ensures IsMarkupFree(r) && |r| >= 1
  {
    if IsSpecial(c) then Reference(c) else [c]
  }

  /** `he.escape(s)`. */
  function Escape(s: string): (r: string)
    ensures IsMarkupFree(r)
    ensures |s| <= |r|
  {
    if |s| == 0 then "" else EscapeChar(s[0]) + Escape(s[1..])
  }

  /** Reads the six references back; any other `&` stays as it is. */
  function Unescape(s: string): string
  {
    if |s| == 0 then ""
    else if StartsWith(s, "&amp;") then "&" + Unescape(s[5..])
    else if StartsWith(s, "&lt;") then "<" + Unescape(s[4..])
    else if StartsWith(s, "&gt;") then ">" + Unescape(s[4..])
    else if StartsWith(s, "&quot;") then "\"" + Unescape(s[6..])
    else if StartsWith(s, "&#x27;") then "'" + Unescape(s[6..])
    else if StartsWith(s, "&#x60;") then "`" + Unescape(s[6..])
    else [s[0]] + Unescape(s[1..])
  }

  lemma UnescapeReference(c: char, t: string)
    requires IsSpecial(c)
    ensures Unescape(Reference(c) + t) == [c] + Unescape(t)
  {
    match c
    case '&' => UnescapeAmp(t);
    case '<' => UnescapeLt(t);
    case '>' => UnescapeGt(t);
    case '"' => UnescapeQuot(t);
    case '\'' => UnescapeApos(t);
    case _ => UnescapeGrave(t);
  }

  /** A text that differs from `p` at position `i` does not start with `p`. */
  lemma Differs(s: string, p: string, i: nat)
    requires i < |p| && i < |s| && s[i] != p[i]
    ensures !StartsWith(s, p)
  {
    assert |p| <= |s| ==> s[..|p|][i] == s[i];
  }

  lemma UnescapeAmp(t: string)
    ensures Unescape("&amp;" + t) == "&" + Unescape(t)
  {
    var s := "&amp;" + t;
    assert s[..5] == "&amp;" && s[5..] == t;
  }

  lemma UnescapeLt(t: string)
    ensures Unescape("&lt;" + t) == "<" + Unescape(t)
  {
    var s := "&lt;" + t;
    Differs(s, "&amp;", 1);
    assert s[..4] == "&lt;" && s[4..] == t;
  }

  lemma UnescapeGt(t: string)
    ensures Unescape("&gt;" + t) == ">" + Unescape(t)
  {
    var s := "&gt;" + t;
    Differs(s, "&amp;", 1);
    Differs(s, "&lt;", 1);
    assert s[..4] == "&gt;" && s[4..] == t;
  }

  lemma UnescapeQuot(t: string)
    ensures Unescape("&quot;" + t) == "\"" + Unescape(t)
  {
    var s := "&quot;" + t;
    Differs(s, "&amp;", 1);
    Differs(s, "&lt;", 1);
    Differs(s, "&gt;", 1);
    assert s[..6] == "&quot;" && s[6..] == t;
  }

  lemma UnescapeApos(t: string)
    ensures Unescape("&#x27;" + t) == "'" + Unescape(t)
  {
    var s := "&#x27;" + t;
    Differs(s, "&amp;", 1);
    Differs(s, "&lt;", 1);
    Differs(s, "&gt;", 1);
    Differs(s, "&quot;", 1);
    assert s[..6] == "&#x27;" && s[6..] == t;
  }

  lemma UnescapeGrave(t: string)
    ensures Unescape("&#x60;" + t) == "`" + Unescape(t)
  {
    var s := "&#x60;" + t;
    Differs(s, "&amp;", 1);
    Differs(s, "&lt;", 1);
    Differs(s, "&gt;", 1);
    Differs(s, "&quot;", 1);
    Differs(s, "&#x27;", 3);
    assert s[..6] == "&#x60;" && s[6..] == t;
  }

  lemma UnescapePlain(c: char, t: string)
    requires !IsSpecial(c)
    ensures Unescape([c] + t) == [c] + Unescape(t)
  {
    var s := [c] + t;
    assert s[1..] == t;
    Differs(s, "&amp;", 0);
    Differs(s, "&lt;", 0);
    Differs(s, "&gt;", 0);
    Differs(s, "&quot;", 0);
    Differs(s, "&#x27;", 0);
    Differs(s, "&#x60;", 0);
  }

  /** Escaping loses nothing: unescaping gives back the original text. */
  lemma {:induction false} UnescapeEscape(s: string)
    ensures Unescape(Escape(s)) == s
  {
    if |s| > 0 {
      var c, t := s[0], Escape(s[1..]);
      UnescapeEscape(s[1..]);
      UnescapeChar(c, t);
      assert [c] + s[1..] == s;
    }
  }

  lemma UnescapeChar(c: char, t: string)
    ensures Unescape(EscapeChar(c) + t) == [c] + Unescape(t)
  {
    if IsSpecial(c) {
      UnescapeReference(c, t);
    } else {
      UnescapePlain(c, t);
    }
  }

  /** Escaping works character by character. */
  lemma {:induction false} EscapeAppend(a: string, b: string)
    ensures Escape(a + b) == Escape(a) + Escape(b)
  {
    if |a| == 0 {
      assert a + b == b;
    } else {
      assert (a + b)[1..] == a[1..] + b;
      EscapeAppend(a[1..], b);
    }
  }

  /** Text without the six special characters is left as it is. */
  lemma {:induction false} EscapePlain(s: string)
    requires forall i :: 0 <= i < |s| ==> !IsSpecial(s[i])
    ensures Escape(s) == s
  {
    if |s| > 0 {
      EscapePlain(s[1..]);
      assert [s[0]] + s[1..] == s;
    }
  }
}
