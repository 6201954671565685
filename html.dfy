/** The client's `escapeHtml`, applied to every user-supplied string before it is put
    into page markup. */
module Html {
  import Text

  /** The five characters the escaping regular expression `/[&<>"']/g` matches. */
  predicate IsHtmlSpecial(c: char) {
    c == '&' || c == '<' || c == '>' || c == '"' || c == '\''
  }

  /** The entity each special character is replaced by; any other character stays. */
  function EscapeChar(c: char): string {
    match c
    case '&' => "&amp;"
    case '<' => "&lt;"
    case '>' => "&gt;"
    case '"' => "&quot;"
    case '\'' => "&#39;"
    case _ => [c]
  }

  /** No replacement contains a raw `<`, `>`, `"` or `'`. */
  lemma EscapeCharIsSafe(c: char)
    ensures forall i :: 0 <= i < |EscapeChar(c)| ==>
      EscapeChar(c)[i] != '<' && EscapeChar(c)[i] != '>' && EscapeChar(c)[i] != '"' && EscapeChar(c)[i] != '\''
  {
    var e := EscapeChar(c);
    if c == '&' {
      assert e == ['&', 'a', 'm', 'p', ';'];
    } else if c == '<' {
      assert e == ['&', 'l', 't', ';'];
    } else if c == '>' {
      assert e == ['&', 'g', 't', ';'];
    } else if c == '"' {
      assert e == ['&', 'q', 'u', 'o', 't', ';'];
    } else if c == '\'' {
      assert e == ['&', '#', '3', '9', ';'];
    }
  }

  /** `escapeHtml`: each character replaced by its entity. The output holds no raw `<`,
      `>`, `"` or `'`, and is at least as long as the input. */
  function EscapeHtml(s: string): (r: string)
    ensures |r| >= |s|
    ensures forall i :: 0 <= i < |r| ==> r[i] != '<' && r[i] != '>' && r[i] != '"' && r[i] != '\''
  {
    if s == [] then []
    else
      var head := EscapeChar(s[0]);
      var tail := EscapeHtml(s[1..]);
      EscapeCharIsSafe(s[0]);
      assert forall i :: 0 <= i < |head| ==> (head + tail)[i] == head[i];
      assert forall i :: |head| <= i < |head| + |tail| ==> (head + tail)[i] == tail[i - |head|];
      head + tail
  }

  /** Escaping works character by character: it distributes over concatenation. */
  lemma {:induction false} EscapeHtmlConcat(a: string, b: string)
    ensures EscapeHtml(a + b) == EscapeHtml(a) + EscapeHtml(b)
  {
    if a == [] {
      assert a + b == b;
    } else {
      assert (a + b)[0] == a[0];
      assert (a + b)[1..] == a[1..] + b;
      EscapeHtmlConcat(a[1..], b);
    }
  }

  /** A string without any of the five special characters is left unchanged. */
  lemma {:induction false} EscapeHtmlKeepsPlain(s: string)
    requires forall i :: 0 <= i < |s| ==> !IsHtmlSpecial(s[i])
    ensures EscapeHtml(s) == s
  {
    if s != [] {
      EscapeHtmlKeepsPlain(s[1..]);
    }
  }

  /** How an HTML reader turns the five entities back into characters, used as the
      reference against which escaping is shown to lose nothing. */
  function Unescape(s: string): string
    decreases |s|
  {
    if s == [] then []
    else if Text.HasPrefix(s, "&amp;") then "&" + Unescape(s[5..])
    else if Text.HasPrefix(s, "&lt;") then "<" + Unescape(s[4..])
    else if Text.HasPrefix(s, "&gt;") then ">" + Unescape(s[4..])
    else if Text.HasPrefix(s, "&quot;") then "\"" + Unescape(s[6..])
    else if Text.HasPrefix(s, "&#39;") then "'" + Unescape(s[5..])
    else [s[0]] + Unescape(s[1..])
  }

  /** A string that differs from `p` at some position does not start with `p`. */
  lemma DiffersAt(s: string, p: string, i: nat)
    requires i < |p| && i < |s| && s[i] != p[i]
    ensures !Text.HasPrefix(s, p)
  {
    if |p| <= |s| {
      assert s[..|p|][i] != p[i];
    }
  }

  /** Reading back an entity followed by anything yields its character followed by
      the reading of the rest; one lemma per entity keeps each proof small. */
  lemma UnescapeAmp(t: string) ensures Unescape("&amp;" + t) == "&" + Unescape(t) {
    var e := "&amp;" + t;
    assert e[..5] == "&amp;" && e[5..] == t;
  }

  lemma UnescapeLt(t: string) ensures Unescape("&lt;" + t) == "<" + Unescape(t) {
    var e := "&lt;" + t;
    DiffersAt(e, "&amp;", 1);
    assert e[..4] == "&lt;" && e[4..] == t;
  }

  lemma UnescapeGt(t: string) ensures Unescape("&gt;" + t) == ">" + Unescape(t) {
    var e := "&gt;" + t;
    DiffersAt(e, "&amp;", 1);
    DiffersAt(e, "&lt;", 1);
    assert e[..4] == "&gt;" && e[4..] == t;
  }

  lemma UnescapeQuot(t: string) ensures Unescape("&quot;" + t) == "\"" + Unescape(t) {
    var e := "&quot;" + t;
    DiffersAt(e, "&amp;", 1);
    DiffersAt(e, "&lt;", 1);
    DiffersAt(e, "&gt;", 1);
    assert e[..6] == "&quot;" && e[6..] == t;
  }

  lemma UnescapeApos(t: string) ensures Unescape("&#39;" + t) == "'" + Unescape(t) {
    var e := "&#39;" + t;
    DiffersAt(e, "&amp;", 1);
    DiffersAt(e, "&lt;", 1);
    DiffersAt(e, "&gt;", 1);
    DiffersAt(e, "&quot;", 1);
    assert e[..5] == "&#39;" && e[5..] == t;
  }

  lemma UnescapePlain(c: char, t: string)
    requires c != '&'
    ensures Unescape([c] + t) == [c] + Unescape(t)
  {
    var e := [c] + t;
    DiffersAt(e, "&amp;", 0);
    DiffersAt(e, "&lt;", 0);
    DiffersAt(e, "&gt;", 0);
    DiffersAt(e, "&quot;", 0);
    DiffersAt(e, "&#39;", 0);
    assert e[1..] == t;
  }

  /** Reading back one escaped character followed by anything yields that character
      followed by the reading of the rest. */
  lemma UnescapeStep(c: char, t: string)
    ensures Unescape(EscapeChar(c) + t) == [c] + Unescape(t)
  {
    if c == '&' { UnescapeAmp(t); }
    else if c == '<' { UnescapeLt(t); }
    else if c == '>' { UnescapeGt(t); }
    else if c == '"' { UnescapeQuot(t); }
    else if c == '\'' { UnescapeApos(t); }
    else { UnescapePlain(c, t); }
  }

  /** The escaped text reads back as exactly the original text. */
  lemma {:induction false} UnescapeEscapeHtml(s: string)
    ensures Unescape(EscapeHtml(s)) == s
  {
    if s != [] {
      UnescapeStep(s[0], EscapeHtml(s[1..]));
      UnescapeEscapeHtml(s[1..]);
      assert s == [s[0]] + s[1..];
    }
  }
}
