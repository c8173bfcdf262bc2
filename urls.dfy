/** The URL handling the crawler relies on.  Parsing and serialisation
    follow the WHATWG URL Standard (section 4.4, URL parsing); they are not
    re-implemented here: the parser is a parameter and a parsed URL is a
    record of the parts the crawler reads. */
module Urls {
  import opened Wrappers

  /** A parsed URL: its scheme as `url.protocol` reports it ("https:"), its
      serialised origin, its serialisation without the fragment, and the
      fragment (absent, or the text after '#'). */
  datatype Url = Url(protocol: string, origin: string, withoutFragment: string, fragment: Option<string>)

  /** `url.toString()`: the serialisation, then "#" and the fragment when
      there is one. */
  function Serialize(u: Url): string
  {
    u.withoutFragment + (if u.fragment.Some? then "#" + u.fragment.value else "")
  }

  /** The URL serializer percent-encodes '#' everywhere but the fragment
      delimiter, so the part before the fragment never holds one. */
  predicate WellFormed(u: Url)
  {
    '#' !in u.withoutFragment
  }

  /** `new URL(input, base)`: `None` where the constructor throws. */
  type Parser = (string, Option<string>) -> Option<Url>

  predicate IsHttp(u: Url)
  {
    u.protocol == "http:" || u.protocol == "https:"
  }

  /** Which discovered links the crawl may follow: those with the start
      URL's origin when `sameOriginOnly` holds, any origin otherwise. */
  datatype Scope = Scope(origin: string, sameOriginOnly: bool)

  predicate InScope(u: Url, scope: Scope)
  {
    IsHttp(u) && (scope.sameOriginOnly ==> u.origin == scope.origin)
  }

  /** The crawler's treatment of one discovered `href` on the page `base`
      (crawler.js:52-62): resolve it against the page, drop it when that
      fails, when it is not http(s) or when it leaves the scope, and
      otherwise serialise it with its fragment cleared. */
  function Normalize(parse: Parser, href: string, base: string, scope: Scope): (r: Option<string>)
    ensures r.Some? <==> parse(href, Some(base)).Some? && InScope(parse(href, Some(base)).value, scope)
    ensures r.Some? ==> r.value == Serialize(parse(href, Some(base)).value.(fragment := None))
    ensures r.Some? && WellFormed(parse(href, Some(base)).value) ==> '#' !in r.value
  {
    match parse(href, Some(base))
    case None => None
    case Some(next) =>
      if !IsHttp(next) then None
      else if scope.sameOriginOnly && next.origin != scope.origin then None
      else Some(Serialize(next.(fragment := None)))
  }

  /** The set of URLs a list of hrefs on page `base` leads to. */
  function Links(parse: Parser, hrefs: seq<string>, base: string, scope: Scope): set<string>
  {
    if hrefs == [] then {}
    else
      var n := Normalize(parse, hrefs[0], base, scope);
      (if n.Some? then {n.value} else {}) + Links(parse, hrefs[1..], base, scope)
  }

  /** A URL is among the links exactly when some href normalises to it. */
  lemma {:induction false} LinksMember(parse: Parser, hrefs: seq<string>, base: string, scope: Scope, x: string)
    ensures x in Links(parse, hrefs, base, scope)
            <==> exists k :: 0 <= k < |hrefs| && Normalize(parse, hrefs[k], base, scope) == Some(x)
  {
    if hrefs != [] {
      var rest := hrefs[1..];
      LinksMember(parse, rest, base, scope, x);
      if x in Links(parse, rest, base, scope) {
        var k :| 0 <= k < |rest| && Normalize(parse, rest[k], base, scope) == Some(x);
        assert hrefs[k + 1] == rest[k];
      }
      if exists k :: 0 <= k < |hrefs| && Normalize(parse, hrefs[k], base, scope) == Some(x) {
        var k :| 0 <= k < |hrefs| && Normalize(parse, hrefs[k], base, scope) == Some(x);
        if k > 0 {
          assert rest[k - 1] == hrefs[k];
        }
      }
    }
  }
}
