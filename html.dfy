/** The two string helpers of the report renderer (reporter.js):
    HTML escaping and the impact badge. */
module Html {
  import opened Wrappers

  /** `s.replaceAll(c, rep)` for a one-character pattern `c`: every
      occurrence of `c` in `s` is replaced by `rep`, left to right. */
  function ReplaceAll(s: string, c: char, rep: string): (r: string)
    ensures c !in s ==> r == s
  {
    if s == [] then []
    else (if s[0] == c then rep else [s[0]]) + ReplaceAll(s[1..], c, rep)
  }

  lemma {:induction false} ReplaceAllAppend(a: string, b: string, c: char, rep: string)
    ensures ReplaceAll(a + b, c, rep) == ReplaceAll(a, c, rep) + ReplaceAll(b, c, rep)
  {
    if a == [] {
      assert a + b == b;
    } else {
      assert (a + b)[0] == a[0];
      assert (a + b)[1..] == a[1..] + b;
      ReplaceAllAppend(a[1..], b, c, rep);
    }
  }

  /** The HTML character reference (section 13.1.4 of the WHATWG HTML
      standard) that the renderer writes for one character. */
  function EscapeChar(c: char): string
  {
    match c
    case '&' => "&amp;"
    case '<' => "&lt;"
    case '>' => "&gt;"
    case '"' => "&quot;"
    case '\'' => "&#039;"
    case _ => [c]
  }

  /** Reference definition: each character escaped on its own. */
  function EscapeEach(s: string): string
  {
    if s == [] then [] else EscapeChar(s[0]) + EscapeEach(s[1..])
  }

  /** `escapeHtml(str)`: five `replaceAll` passes, `&` first. */
  function EscapeHtml(s: string): (r: string)
    ensures r == EscapeEach(s)
    ensures '<' !in r && '>' !in r && '"' !in r && '\'' !in r
  {
    PassesEscapeEach(s);
    EscapeEachHasNoMarkup(s);
    Passes(s)
  }

  function Passes(s: string): string
  {
    ReplaceAll(ReplaceAll(ReplaceAll(ReplaceAll(ReplaceAll(
      s, '&', "&amp;"), '<', "&lt;"), '>', "&gt;"), '"', "&quot;"), '\'', "&#039;")
  }

  lemma PassesAppend(a: string, b: string)
    ensures Passes(a + b) == Passes(a) + Passes(b)
  {
    ReplaceAllAppend(a, b, '&', "&amp;");
    var a1, b1 := ReplaceAll(a, '&', "&amp;"), ReplaceAll(b, '&', "&amp;");
    ReplaceAllAppend(a1, b1, '<', "&lt;");
    var a2, b2 := ReplaceAll(a1, '<', "&lt;"), ReplaceAll(b1, '<', "&lt;");
    ReplaceAllAppend(a2, b2, '>', "&gt;");
    var a3, b3 := ReplaceAll(a2, '>', "&gt;"), ReplaceAll(b2, '>', "&gt;");
    ReplaceAllAppend(a3, b3, '"', "&quot;");
    var a4, b4 := ReplaceAll(a3, '"', "&quot;"), ReplaceAll(b3, '"', "&quot;");
    ReplaceAllAppend(a4, b4, '\'', "&#039;");
  }

  lemma PassesOnChar(c: char)
    ensures Passes([c]) == EscapeChar(c)
  {
    var a := [c];
    if c == '&' {
      var e := ReplaceAll(a, '&', "&amp;");
      assert e == "&amp;";
      assert '<' !in e && '>' !in e && '"' !in e && '\'' !in e;
    } else if c == '<' {
      assert '&' !in a;
      var e := ReplaceAll(a, '<', "&lt;");
      assert e == "&lt;";
      assert '>' !in e && '"' !in e && '\'' !in e;
    } else if c == '>' {
      assert '&' !in a && '<' !in a;
      var e := ReplaceAll(a, '>', "&gt;");
      assert e == "&gt;";
      assert '"' !in e && '\'' !in e;
    } else if c == '"' {
      assert '&' !in a && '<' !in a && '>' !in a;
      var e := ReplaceAll(a, '"', "&quot;");
      assert e == "&quot;";
      assert '\'' !in e;
    } else if c == '\'' {
      assert '&' !in a && '<' !in a && '>' !in a && '"' !in a;
      assert ReplaceAll(a, '\'', "&#039;") == "&#039;";
    } else {
      assert '&' !in a && '<' !in a && '>' !in a && '"' !in a && '\'' !in a;
    }
  }

  lemma {:induction false} PassesEscapeEach(s: string)
    ensures Passes(s) == EscapeEach(s)
  {
    if s != [] {
      assert s == [s[0]] + s[1..];
      PassesAppend([s[0]], s[1..]);
      PassesOnChar(s[0]);
      PassesEscapeEach(s[1..]);
    }
  }

  lemma {:induction false} EscapeEachHasNoMarkup(s: string)
    ensures '<' !in EscapeEach(s) && '>' !in EscapeEach(s)
    ensures '"' !in EscapeEach(s) && '\'' !in EscapeEach(s)
  {
    if s != [] {
      EscapeEachHasNoMarkup(s[1..]);
      EscapeCharHasNoMarkup(s[0]);
      var head, tail := EscapeChar(s[0]), EscapeEach(s[1..]);
      assert EscapeEach(s) == head + tail;
      assert forall x :: x in head + tail ==> x in head || x in tail;
    }
  }

  lemma EscapeCharHasNoMarkup(c: char)
    ensures '<' !in EscapeChar(c) && '>' !in EscapeChar(c)
    ensures '"' !in EscapeChar(c) && '\'' !in EscapeChar(c)
  {
  }

  /** Decodes the five character references the renderer emits and keeps
      every other character. */
  function Unescape(t: string): string
    decreases |t|
  {
    if t == [] then []
    else if |t| >= 5 && t[..5] == "&amp;" then ['&'] + Unescape(t[5..])
    else if |t| >= 4 && t[..4] == "&lt;" then ['<'] + Unescape(t[4..])
    else if |t| >= 4 && t[..4] == "&gt;" then ['>'] + Unescape(t[4..])
    else if |t| >= 6 && t[..6] == "&quot;" then ['"'] + Unescape(t[6..])
    else if |t| >= 6 && t[..6] == "&#039;" then ['\''] + Unescape(t[6..])
    else [t[0]] + Unescape(t[1..])
  }

  lemma UnescapeAmp(rest: string)
    ensures Unescape("&amp;" + rest) == ['&'] + Unescape(rest)
  {
    var t := "&amp;" + rest;
    assert t[..5] == "&amp;";
    assert t[5..] == rest;
  }

  lemma UnescapeLt(rest: string)
    ensures Unescape("&lt;" + rest) == ['<'] + Unescape(rest)
  {
    var t := "&lt;" + rest;
    assert t[..4] == "&lt;";
    assert t[4..] == rest;
    assert t[1] == 'l';
    assert !(|t| >= 5 && t[..5] == "&amp;");
  }

  lemma UnescapeGt(rest: string)
    ensures Unescape("&gt;" + rest) == ['>'] + Unescape(rest)
  {
    var t := "&gt;" + rest;
    assert t[..4] == "&gt;";
    assert t[4..] == rest;
    assert t[1] == 'g';
    assert !(|t| >= 5 && t[..5] == "&amp;");
    assert t[..4] != "&lt;";
  }

  lemma UnescapeQuot(rest: string)
    ensures Unescape("&quot;" + rest) == ['"'] + Unescape(rest)
  {
    var t := "&quot;" + rest;
    assert t[..6] == "&quot;";
    assert t[6..] == rest;
    assert t[1] == 'q';
    assert !(|t| >= 5 && t[..5] == "&amp;");
    assert t[..4] != "&lt;";
    assert t[..4] != "&gt;";
  }

  lemma UnescapeApos(rest: string)
    ensures Unescape("&#039;" + rest) == ['\''] + Unescape(rest)
  {
    var t := "&#039;" + rest;
    assert t[..6] == "&#039;";
    assert t[6..] == rest;
    assert t[1] == '#';
    assert !(|t| >= 5 && t[..5] == "&amp;");
    assert t[..4] != "&lt;";
    assert t[..4] != "&gt;";
    assert t[..6] != "&quot;";
  }

  lemma UnescapePlain(c: char, rest: string)
    requires c != '&'
    ensures Unescape([c] + rest) == [c] + Unescape(rest)
  {
    var t := [c] + rest;
    assert t[0] == c;
    assert t[1..] == rest;
  }

  lemma UnescapeFirst(c: char, rest: string)
    ensures Unescape(EscapeChar(c) + rest) == [c] + Unescape(rest)
  {
    match c
    case '&' => UnescapeAmp(rest);
    case '<' => UnescapeLt(rest);
    case '>' => UnescapeGt(rest);
    case '"' => UnescapeQuot(rest);
    case '\'' => UnescapeApos(rest);
    case _ => UnescapePlain(c, rest);
  }

  /** Escaping is undone by decoding the five references: replacing `&`
      before the references are introduced is what makes this hold. */
  lemma {:induction false} UnescapeEscapeHtml(s: string)
    ensures Unescape(EscapeHtml(s)) == s
  {
    if s != [] {
      assert EscapeEach(s) == EscapeChar(s[0]) + EscapeEach(s[1..]);
      UnescapeFirst(s[0], EscapeEach(s[1..]));
      UnescapeEscapeHtml(s[1..]);
      assert [s[0]] + s[1..] == s;
    }
  }

  /** Distinct inputs give distinct escaped strings. */
  lemma EscapeHtmlInjective(a: string, b: string)
    requires EscapeHtml(a) == EscapeHtml(b)
    ensures a == b
  {
    UnescapeEscapeHtml(a);
    UnescapeEscapeHtml(b);
  }

  // ---- impactBadge ----

  /** ASCII `toLowerCase` of one character. */
  function LowerChar(c: char): char
  {
    if 'A' <= c <= 'Z' then (c as int + 32) as char else c
  }

  function Lower(s: string): (r: string)
    ensures |r| == |s|
    ensures forall i :: 0 <= i < |s| ==> r[i] == LowerChar(s[i])
    ensures IsLower(r)
  {
    seq(|s|, i requires 0 <= i < |s| => LowerChar(s[i]))
  }

  /** Lower-casing an already lower-case string changes nothing. */
  lemma LowerIdempotent(s: string)
    ensures Lower(Lower(s)) == Lower(s)
  {
    var r := Lower(s);
    forall i | 0 <= i < |r| ensures Lower(r)[i] == r[i] {
      assert !('A' <= r[i] <= 'Z');
    }
  }

  predicate IsLower(s: string)
  {
    forall i :: 0 <= i < |s| ==> !('A' <= s[i] <= 'Z')
  }

  /** `(impact || "unknown").toLowerCase()`: a missing or empty impact
      reads as "unknown". */
  function ImpactLevel(impact: Option<string>): (v: string)
    ensures impact.None? || impact == Some("") ==> v == "unknown"
    ensures impact.Some? && impact.value != "" ==> v == Lower(impact.value)
    ensures IsLower(v)
  {
    var raw := if impact.None? || impact.value == "" then "unknown" else impact.value;
    Lower(raw)
  }

  const KnownImpacts: set<string> := {"critical", "serious", "moderate", "minor"}

  /** The CSS class chosen for an already lower-cased impact. */
  function BadgeClass(v: string): (cls: string)
    ensures cls == "badge badge-" + v <==> v in KnownImpacts
    ensures v !in KnownImpacts ==> cls == "badge"
  {
    if v == "critical" then "badge badge-critical"
    else if v == "serious" then "badge badge-serious"
    else if v == "moderate" then "badge badge-moderate"
    else if v == "minor" then "badge badge-minor"
    else "badge"
  }

  function Span(cls: string, text: string): string
  {
    "<span class=\"" + cls + "\">" + text + "</span>"
  }

  /** `impactBadge(impact)`: a span whose class follows the impact level
      and whose text is the escaped level. */
  function ImpactBadge(impact: Option<string>): (html: string)
    ensures html == Span(BadgeClass(ImpactLevel(impact)), EscapeHtml(ImpactLevel(impact)))
    ensures Unescape(EscapeHtml(ImpactLevel(impact))) == ImpactLevel(impact)
  {
    var v := ImpactLevel(impact);
    UnescapeEscapeHtml(v);
    Span(BadgeClass(v), EscapeHtml(v))
  }

  /** Upper- and lower-case spellings of an impact give the same badge. */
  lemma ImpactBadgeIgnoresCase(s: string)
    ensures ImpactBadge(Some(s)) == ImpactBadge(Some(Lower(s)))
  {
    LowerIdempotent(s);
  }
}
