/**
 * `escapeHtml`: the five HTML-special characters replaced by their entity
 * references, every other character kept. `UnescapeHtml` decodes those five
 * references and is proved to undo the escaping.
 */
module Html {

  /** The replacement of one character. */
  function EscapeChar(c: char): (r: string)
    ensures r != [] && forall i :: 0 <= i < |r| ==> !IsMarkupChar(r[i])
    ensures r == [c] <==> c != '&' && !IsMarkupChar(c)
  {
    match c
    case '&' => "&amp;"
    case '<' => "&lt;"
    case '>' => "&gt;"
    case '"' => "&quot;"
    case '\'' => "&#039;"
    case _ => [c]
  }

  /** A character the escaped text never contains. */
  predicate IsMarkupChar(c: char) {
    c == '<' || c == '>' || c == '"' || c == '\''
  }

  /** `String(str).replace(/[&<>"']/g, ...)` */
  function EscapeHtml(s: string): (r: string)
    ensures |r| >= |s|
    ensures forall i :: 0 <= i < |r| ==> !IsMarkupChar(r[i])
  {
    if s == [] then [] else EscapeChar(s[0]) + EscapeHtml(s[1..])
  }

  predicate StartsWith(t: string, p: string) {
    |p| <= |t| && t[..|p|] == p
  }

  /** Decodes the five entity references `EscapeHtml` produces. */
  function UnescapeHtml(t: string): string
    decreases |t|
  {
    if t == [] then []
    else if StartsWith(t, "&amp;") then "&" + UnescapeHtml(t[5..])
    else if StartsWith(t, "&lt;") then "<" + UnescapeHtml(t[4..])
    else if StartsWith(t, "&gt;") then ">" + UnescapeHtml(t[4..])
    else if StartsWith(t, "&quot;") then "\"" + UnescapeHtml(t[6..])
    else if StartsWith(t, "&#039;") then "'" + UnescapeHtml(t[6..])
    else [t[0]] + UnescapeHtml(t[1..])
  }

  /** A text that starts with `p` does not start with a `q` that differs from
      `p` at some position both have. */
  lemma NotBothPrefixes(t: string, p: string, q: string, k: nat)
    requires StartsWith(t, p) && k < |p| && k < |q| && p[k] != q[k]
    ensures !StartsWith(t, q)
  {
    assert t[..|p|][k] == t[k];
    if |q| <= |t| {
      assert t[..|q|][k] == t[k];
    }
  }

  lemma UnescapeEscapedChar(c: char, rest: string)
    ensures UnescapeHtml(EscapeChar(c) + rest) == [c] + UnescapeHtml(rest)
  {
    var e := EscapeChar(c);
    var t := e + rest;
    assert t[..|e|] == e;
    assert t[|e|..] == rest;
    if c == '<' {
      NotBothPrefixes(t, e, "&amp;", 1);
    } else if c == '>' {
      NotBothPrefixes(t, e, "&amp;", 1);
      NotBothPrefixes(t, e, "&lt;", 1);
    } else if c == '"' {
      NotBothPrefixes(t, e, "&amp;", 1);
      NotBothPrefixes(t, e, "&lt;", 1);
      NotBothPrefixes(t, e, "&gt;", 1);
    } else if c == '\'' {
      NotBothPrefixes(t, e, "&amp;", 1);
      NotBothPrefixes(t, e, "&lt;", 1);
      NotBothPrefixes(t, e, "&gt;", 1);
      NotBothPrefixes(t, e, "&quot;", 1);
    } else if c != '&' {
      assert e == [c];
      NotBothPrefixes(t, e, "&amp;", 0);
      NotBothPrefixes(t, e, "&lt;", 0);
      NotBothPrefixes(t, e, "&gt;", 0);
      NotBothPrefixes(t, e, "&quot;", 0);
      NotBothPrefixes(t, e, "&#039;", 0);
    }
  }

  /** Unescaping the escaped text gives back the original text: no
      character is lost or confused with another. */
  lemma {:induction false} UnescapeEscape(s: string)
    ensures UnescapeHtml(EscapeHtml(s)) == s
  {
    if s != [] {
      UnescapeEscapedChar(s[0], EscapeHtml(s[1..]));
      UnescapeEscape(s[1..]);
    }
  }

  /** Text without the five special characters is left as it is. */
  lemma {:induction false} EscapeKeepsPlainText(s: string)
    requires forall i :: 0 <= i < |s| ==> !IsMarkupChar(s[i]) && s[i] != '&'
    ensures EscapeHtml(s) == s
  {
    if s != [] {
      EscapeKeepsPlainText(s[1..]);
    }
  }
}
