/** The breadth-first crawl frontier of `crawlSite` (crawler.js:11-78).
    The browser is replaced by a link oracle and `new URL` by a parser
    parameter; the loop keeps the source's queue, visited list and queued
    set and is proved against the properties of the frontier. */
module Crawler {
  import opened Wrappers
  import opened Urls
  import opened Seqs

  const DefaultMaxPages: int := 25
  const PageCap: int := 200
  const DefaultMaxDepth: int := 2
  const DepthCap: int := 10

  /** The caller's `options`; an absent field is `undefined`. */
  datatype Options = Options(maxPages: Option<int>, maxDepth: Option<int>, sameOriginOnly: Option<bool>)

  /** `Math.min(options.maxPages ?? 25, 200)`. */
  function EffectiveMaxPages(o: Options): (n: int)
    ensures n <= PageCap
    ensures o.maxPages.None? ==> n == DefaultMaxPages
    ensures o.maxPages.Some? ==> (n == o.maxPages.value <==> o.maxPages.value <= PageCap)
    ensures o.maxPages.Some? && o.maxPages.value > PageCap ==> n == PageCap
  {
    Min(o.maxPages.GetOr(DefaultMaxPages), PageCap)
  }

  /** `Math.min(options.maxDepth ?? 2, 10)`. */
  function EffectiveMaxDepth(o: Options): (n: int)
    ensures n <= DepthCap
    ensures o.maxDepth.None? ==> n == DefaultMaxDepth
    ensures o.maxDepth.Some? ==> (n == o.maxDepth.value <==> o.maxDepth.value <= DepthCap)
    ensures o.maxDepth.Some? && o.maxDepth.value > DepthCap ==> n == DepthCap
  {
    Min(o.maxDepth.GetOr(DefaultMaxDepth), DepthCap)
  }

  /** `options.sameOriginOnly ?? true`. */
  function SameOriginOnly(o: Options): (b: bool)
    ensures o.sameOriginOnly.None? ==> b
    ensures o.sameOriginOnly.Some? ==> b == o.sameOriginOnly.value
  {
    o.sameOriginOnly.GetOr(true)
  }

  /** What the shared browser page yields for a URL: `page.goto` threw,
      `page.evaluate` threw, or the page loaded and these are the non-empty
      `href` attributes of its anchors. */
  datatype PageOutcome = NavigationFailed | EvaluationFailed | Loaded(hrefs: seq<string>)

  type Browser = string -> PageOutcome

  /** A queue entry `{ url, depth }`. */
  datatype Target = Target(url: string, depth: nat)

  /** Why `crawlSite` rejects: `new URL(startUrl)` threw, or `page.evaluate`
      threw on the given page (it is outside the try/catch). */
  datatype CrawlError = InvalidStartUrl | EvaluationThrew(url: string)

  /** Everything one crawl consults besides its own state. */
  datatype Env = Env(parse: Parser, browse: Browser, scope: Scope, maxPages: int, maxDepth: int)

  function CrawlEnv(start: Url, o: Options, parse: Parser, browse: Browser): Env
  {
    Env(parse, browse, Scope(start.origin, SameOriginOnly(o)), EffectiveMaxPages(o), EffectiveMaxDepth(o))
  }

  /** The URLs a visited page contributes when it is expanded: none when
      its depth is at the cap or navigation to it fails. */
  function Outlinks(env: Env, url: string, depth: nat): set<string>
  {
    if depth < env.maxDepth && env.browse(url).Loaded?
    then Links(env.parse, env.browse(url).hrefs, url, env.scope)
    else {}
  }

  /** `to` at depth `toDepth` was enqueued while expanding `from`. */
  predicate DiscoveredFrom(env: Env, from: string, fromDepth: nat, to: string, toDepth: nat)
  {
    && fromDepth < env.maxDepth
    && env.browse(from).Loaded?
    && toDepth == fromDepth + 1
    && to in Links(env.parse, env.browse(from).hrefs, from, env.scope)
  }

  function UrlsOf(q: seq<Target>): (urls: seq<string>)
    ensures |urls| == |q|
    ensures forall j :: 0 <= j < |q| ==> urls[j] == q[j].url
  {
    seq(|q|, j requires 0 <= j < |q| => q[j].url)
  }

  /** Every URL after the first was discovered on an earlier entry, and
      the depths form the breadth-first levels of that discovery tree. */
  ghost predicate DiscoveryTree(env: Env, urls: seq<string>, depths: seq<nat>, parents: seq<nat>)
  {
    && |depths| == |urls| && |parents| == |urls|
    && (urls != [] ==> depths[0] == 0)
    && (forall i :: 1 <= i < |urls| ==>
          parents[i] < i && DiscoveredFrom(env, urls[parents[i]], depths[parents[i]], urls[i], depths[i]))
  }

  predicate NonDecreasing(depths: seq<nat>)
  {
    forall i, j :: 0 <= i < j < |depths| ==> depths[i] <= depths[j]
  }

  function Known(visited: seq<string>, queue: seq<Target>): set<string>
  {
    Elems(visited) + Elems(UrlsOf(queue))
  }

  /** Ghost bookkeeping beside the crawl state: the depth and discovering
      page of each visited URL, the discovering page of each queued one,
      and whether the link loop has ever stopped at the page cap. */
  datatype Trace = Trace(depths: seq<nat>, parents: seq<nat>, queueParents: seq<nat>, capped: bool)

  /** The frontier invariant of the crawl loop: the queue and the visited
      list are duplicate-free and disjoint, `queued` is exactly the set of
      queued URLs, their sizes respect the page cap, every URL but the
      start was discovered on a visited page, and depths grow in
      breadth-first order. */
  ghost predicate Frontier(env: Env, startHref: string, visited: seq<string>, queued: set<string>,
                           queue: seq<Target>, tr: Trace)
  {
    && |tr.queueParents| == |queue|
    && DiscoveryTree(env, visited, tr.depths, tr.parents)
    && (visited == [] ==> queue == [Target(startHref, 0)])
    && (visited != [] ==> visited[0] == startHref)
    && (|visited| <= env.maxPages || visited == [])
    && (env.maxPages >= 1 ==> |visited| + |queue| <= env.maxPages)
    && Distinct(visited) && Distinct(UrlsOf(queue))
    && (forall j :: 0 <= j < |queue| ==> queue[j].url !in visited)
    && queued == Elems(UrlsOf(queue))
    && (visited != [] ==> QueueDiscovered(env, visited, tr.depths, queue, tr.queueParents))
    && NonDecreasing(tr.depths)
    && (visited != [] ==> QueueLevels(queue, tr.depths[|visited| - 1]))
    && (tr.capped ==> |visited| + |queue| >= env.maxPages)
  }

  /** Every queued URL was discovered on a visited page. */
  ghost predicate QueueDiscovered(env: Env, visited: seq<string>, depths: seq<nat>, queue: seq<Target>, queueParents: seq<nat>)
    requires |depths| == |visited| && |queueParents| == |queue|
  {
    forall j :: 0 <= j < |queue| ==>
      queueParents[j] < |visited| &&
      DiscoveredFrom(env, visited[queueParents[j]], depths[queueParents[j]], queue[j].url, queue[j].depth)
  }

  /** Queue depths are sorted and lie between the depth `d` of the last
      visited page and `d + 1`: the breadth-first shape of the frontier. */
  ghost predicate QueueLevels(queue: seq<Target>, d: nat)
  {
    && (forall i, j :: 0 <= i < j < |queue| ==> queue[i].depth <= queue[j].depth)
    && (forall j :: 0 <= j < |queue| ==> d <= queue[j].depth <= d + 1)
  }

  /** The first `n` visited pages are done with: none of them made
      `page.evaluate` throw, and unless the link loop was ever capped,
      every link they contribute is visited or queued. */
  ghost predicate Settled(env: Env, visited: seq<string>, queue: seq<Target>, tr: Trace, n: nat)
  {
    && n <= |visited| == |tr.depths|
    && (forall i :: 0 <= i < n && tr.depths[i] < env.maxDepth ==> env.browse(visited[i]) != EvaluationFailed)
    && (!tr.capped ==> forall i :: 0 <= i < n ==> Outlinks(env, visited[i], tr.depths[i]) <= Known(visited, queue))
    && Levelled(env, visited, tr.depths, queue, n)
  }

  /** None of the first `n` visited pages links to a visited or queued URL
      more than one level below its own depth. */
  ghost predicate Levelled(env: Env, visited: seq<string>, depths: seq<nat>, queue: seq<Target>, n: nat)
    requires n <= |visited| == |depths|
  {
    && (forall i, j :: 0 <= i < n && 0 <= j < |visited| && visited[j] in Outlinks(env, visited[i], depths[i]) ==>
          depths[j] <= depths[i] + 1)
    && (forall i, j :: 0 <= i < n && 0 <= j < |queue| && queue[j].url in Outlinks(env, visited[i], depths[i]) ==>
          queue[j].depth <= depths[i] + 1)
  }

  /** No listed page links to a listed URL more than one level below it.
      Together with `DiscoveryTree`, whose depths count the links followed
      from the start, each depth is the shortest link distance from the
      start URL. */
  ghost predicate BreadthFirst(env: Env, urls: seq<string>, depths: seq<nat>)
    requires |depths| == |urls|
  {
    forall i, j :: 0 <= i < |urls| && 0 <= j < |urls| && urls[j] in Outlinks(env, urls[i], depths[i]) ==>
      depths[j] <= depths[i] + 1
  }

  /** The crawl loop of crawler.js:30-69 run from a state: the visited
      list in visiting order and the queue (`queued` is the queue's URL
      set).  It stops with the visited list when the queue is empty or the
      page cap is reached, and with an error when `page.evaluate` throws. */
  function Run(env: Env, visited: seq<string>, queue: seq<Target>): Result<seq<string>, CrawlError>
    decreases env.maxPages - |visited|, |queue|
  {
    if queue == [] || |visited| >= env.maxPages then Success(visited)
    else
      var t, rest := queue[0], queue[1..];
      if t.url in visited then Run(env, visited, rest)
      else
        var visited' := visited + [t.url];
        if t.depth >= env.maxDepth then Run(env, visited', rest)
        else
          match env.browse(t.url)
          case NavigationFailed => Run(env, visited', rest)
          case EvaluationFailed => Failure(EvaluationThrew(t.url))
          case Loaded(hrefs) => Run(env, visited', rest + Expansion(env, visited', rest, t, hrefs))
  }

  /** The targets the link loop appends for page `t` with the given
      hrefs, when `visited` and `queue` are the crawl state. */
  function Expansion(env: Env, visited: seq<string>, queue: seq<Target>, t: Target, hrefs: seq<string>): seq<Target>
  {
    var w := LinkWalk(env.parse, env.scope, t.url, hrefs, Elems(visited) + Elems(UrlsOf(queue)),
                      env.maxPages - |visited| - |queue|);
    Targets(w.links, t.depth + 1)
  }

  /** `crawlSite(startUrl, options)` as a function of its inputs: reject
      an unparsable start URL, otherwise run the loop from the start URL
      alone in the queue at depth 0. */
  function Crawl(startUrl: string, options: Options, parse: Parser, browse: Browser): Result<seq<string>, CrawlError>
  {
    match parse(startUrl, None)
    case None => Failure(InvalidStartUrl)
    case Some(start) => Run(CrawlEnv(start, options, parse, browse), [], [Target(Serialize(start), 0)])
  }

  /** `crawlSite(startUrl, options)` with the browser and URL parser given
      as parameters.  It returns what `Crawl` computes.  On success it
      returns the visited URLs in visiting order, with (ghost) the depth at
      which each was dequeued and the index of the page it was discovered
      on; when `page.evaluate` throws, (ghost) `pages` are the pages visited
      up to and including the one that threw. */
  method CrawlSite(startUrl: string, options: Options, parse: Parser, browse: Browser)
    returns (r: Result<seq<string>, CrawlError>, ghost pages: seq<string>, ghost depths: seq<nat>, ghost parents: seq<nat>)
    ensures r == Crawl(startUrl, options, parse, browse)
    ensures r == Failure(InvalidStartUrl) <==> parse(startUrl, None).None?
    ensures r.Success? ==>
              && pages == r.value
              && parse(startUrl, None).Some?
              && Crawled(CrawlEnv(parse(startUrl, None).value, options, parse, browse),
                         Serialize(parse(startUrl, None).value), r.value, depths, parents)
    ensures r.Failure? && r.error.EvaluationThrew? ==>
              && parse(startUrl, None).Some?
              && pages != [] && pages[|pages| - 1] == r.error.url
              && Aborted(CrawlEnv(parse(startUrl, None).value, options, parse, browse),
                         Serialize(parse(startUrl, None).value), pages, depths, parents)
  {
    var maxPages := EffectiveMaxPages(options);
    var maxDepth := EffectiveMaxDepth(options);
    var parsedStart := parse(startUrl, None);
    if parsedStart.None? {
      return Failure(InvalidStartUrl), [], [], [];
    }
    var start := parsedStart.value;
    var scope := Scope(start.origin, SameOriginOnly(options));
    var env := Env(parse, browse, scope, maxPages, maxDepth);
    assert env == CrawlEnv(start, options, parse, browse);
    var startHref := Serialize(start);

    var visited: seq<string> := [];
    var queued: set<string> := {startHref};
    var queue: seq<Target> := [Target(startHref, 0)];
    ghost var tr := Trace([], [], [0], false);
    ghost var result := Run(env, visited, queue);
    assert result == Crawl(startUrl, options, parse, browse);
    assert UrlsOf(queue) == [startHref];

    while queue != [] && |visited| < env.maxPages
      invariant Crawling(env, startHref, visited, queued, queue, tr, result)
      decreases env.maxPages - |visited|
    {
      VisitTurn(env, startHref, visited, queued, queue, tr, result);
      tr := VisitTrace(tr, visited, queue);
      var target := queue[0];
      queue := queue[1..];
      queued := queued - {target.url};

      if target.url in visited {
        assert false;
      }
      visited := visited + [target.url];

      if target.depth >= env.maxDepth {
        continue;
      }
      var outcome := env.browse(target.url);
      if outcome.NavigationFailed? {
        continue;
      }
      if outcome.EvaluationFailed? {
        return Failure(EvaluationThrew(target.url)), visited, tr.depths, tr.parents;
      }
      queue, queued, tr := ExpandPage(env, startHref, target, outcome.hrefs, visited, queue, queued, tr, result);
    }
    CrawlExit(env, startHref, visited, queued, queue, tr, result);
    return Success(visited), visited, tr.depths, tr.parents;
  }

  /** The invariant of the crawl loop: the frontier invariant, every
      visited page settled, and the rest of the loop yielding `result`. */
  ghost predicate Crawling(env: Env, startHref: string, visited: seq<string>, queued: set<string>,
                           queue: seq<Target>, tr: Trace, result: Result<seq<string>, CrawlError>)
  {
    && Frontier(env, startHref, visited, queued, queue, tr)
    && Settled(env, visited, queue, tr, |visited|)
    && Run(env, visited, queue) == result
  }

  /** What a successful crawl returns, with the depths and discovering
      pages of its URLs: no duplicates; at most `maxPages` URLs; the start
      URL (fragment kept) first; a discovery tree whose depths are
      breadth-first distances, non-decreasing in visiting order and within
      `maxDepth`; every later URL one of the hrefs of the page it was
      discovered on, resolved, in scope and without fragment; no page below
      the depth cap whose link extraction throws; and, unless the page cap
      was reached, every link of every expanded page in the list. */
  ghost predicate Crawled(env: Env, startHref: string, urls: seq<string>, depths: seq<nat>, parents: seq<nat>)
  {
    && Distinct(urls)
    && (|urls| <= env.maxPages || urls == [])
    && (env.maxPages >= 1 ==> urls != [] && urls[0] == startHref)
    && DiscoveryTree(env, urls, depths, parents)
    && NonDecreasing(depths)
    && BreadthFirst(env, urls, depths)
    && (forall i :: 1 <= i < |urls| ==> depths[i] <= env.maxDepth)
    && (forall i :: 1 <= i < |urls| ==>
          env.browse(urls[parents[i]]).Loaded? &&
          ResolvedFrom(env.parse, env.scope, urls[i], urls[parents[i]], env.browse(urls[parents[i]]).hrefs))
    && (forall i :: 0 <= i < |urls| && depths[i] < env.maxDepth ==> env.browse(urls[i]) != EvaluationFailed)
    && (|urls| < env.maxPages ==> forall i :: 0 <= i < |urls| ==> Outlinks(env, urls[i], depths[i]) <= Elems(urls))
  }

  /** The pages visited by a crawl that `page.evaluate` aborted: they end
      with the page that threw, which lay below the depth cap; they start
      with the start URL, have no duplicates and respect the page cap; they
      form a discovery tree with breadth-first depths; and no earlier page
      below the depth cap threw. */
  ghost predicate Aborted(env: Env, startHref: string, pages: seq<string>, depths: seq<nat>, parents: seq<nat>)
  {
    && pages != []
    && env.browse(pages[|pages| - 1]) == EvaluationFailed
    && Distinct(pages) && |pages| <= env.maxPages
    && pages[0] == startHref
    && DiscoveryTree(env, pages, depths, parents)
    && depths[|pages| - 1] < env.maxDepth
    && BreadthFirst(env, pages, depths)
    && forall i :: 0 <= i < |pages| - 1 && depths[i] < env.maxDepth ==> env.browse(pages[i]) != EvaluationFailed
  }

  /** One turn of the crawl loop up to the link loop (crawler.js:31-48):
      the front target was never visited; visiting it keeps the frontier
      invariant; a page at the depth cap or whose navigation fails ends the
      turn with the loop invariant restored; a page whose link extraction
      throws ends the crawl with that page named; a loaded page leaves its
      links to be queued. */
  lemma VisitTurn(env: Env, startHref: string, visited: seq<string>, queued: set<string>, queue: seq<Target>,
                  tr: Trace, result: Result<seq<string>, CrawlError>)
    requires Crawling(env, startHref, visited, queued, queue, tr, result)
    requires queue != [] && |visited| < env.maxPages
    ensures queue[0].url !in visited
    ensures var t, visited', queued', queue', tr' :=
              queue[0], visited + [queue[0].url], queued - {queue[0].url}, queue[1..], VisitTrace(tr, visited, queue);
            && Frontier(env, startHref, visited', queued', queue', tr')
            && Settled(env, visited', queue', tr', |visited|)
            && tr'.depths[|visited|] == t.depth
            && (t.depth >= env.maxDepth || env.browse(t.url).NavigationFailed? ==>
                  Crawling(env, startHref, visited', queued', queue', tr', result))
            && (t.depth < env.maxDepth && env.browse(t.url).EvaluationFailed? ==>
                  result == Failure(EvaluationThrew(t.url)) && Aborted(env, startHref, visited', tr'.depths, tr'.parents))
            && (t.depth < env.maxDepth && env.browse(t.url).Loaded? ==>
                  Run(env, visited', queue' + Expansion(env, visited', queue', t, env.browse(t.url).hrefs)) == result)
  {
    VisitStep(env, startHref, visited, queued, queue, tr);
    var t, tr' := queue[0], VisitTrace(tr, visited, queue);
    if t.depth >= env.maxDepth || env.browse(t.url).NavigationFailed? {
      RunSkip(env, visited, queue);
    } else if env.browse(t.url).EvaluationFailed? {
      RunAbort(env, visited, queue);
      AbortExit(env, startHref, visited + [t.url], queued - {t.url}, queue[1..], tr');
    } else {
      RunExpand(env, visited, queue, env.browse(t.url).hrefs);
    }
  }

  /** The link loop for the page `target` just visited (crawler.js:50-69),
      with the ghost bookkeeping that restores the crawl loop's invariant. */
  method ExpandPage(env: Env, ghost startHref: string, target: Target, hrefs: seq<string>,
                    visited: seq<string>, queue: seq<Target>, queued: set<string>, ghost tr: Trace,
                    ghost result: Result<seq<string>, CrawlError>)
    returns (queue': seq<Target>, queued': set<string>, ghost tr': Trace)
    requires Frontier(env, startHref, visited, queued, queue, tr)
    requires visited != [] && Settled(env, visited, queue, tr, |visited| - 1)
    requires visited[|visited| - 1] == target.url && tr.depths[|visited| - 1] == target.depth
    requires target.depth < env.maxDepth && env.browse(target.url) == Loaded(hrefs)
    requires Run(env, visited, queue + Expansion(env, visited, queue, target, hrefs)) == result
    ensures queue' == queue + Expansion(env, visited, queue, target, hrefs)
    ensures Crawling(env, startHref, visited, queued', queue', tr', result)
  {
    var capped;
    queue', queued', capped := EnqueueLinks(env.parse, env.scope, target.url, target.depth, hrefs, visited, env.maxPages, queue, queued);
    ExpansionOf(env, visited, queue, queued, target, hrefs);
    tr' := ExpandTrace(tr, |visited| - 1, |queue'| - |queue|, capped);
    ExpandStep(env, startHref, visited, queued, queue, tr, target.url, target.depth, hrefs, queued', queue', capped);
  }

  /** `Expansion` is the walk started from the visited and queued URLs. */
  lemma ExpansionOf(env: Env, visited: seq<string>, queue: seq<Target>, queued: set<string>, t: Target, hrefs: seq<string>)
    requires queued == Elems(UrlsOf(queue))
    ensures Expansion(env, visited, queue, t, hrefs)
              == Targets(LinkWalk(env.parse, env.scope, t.url, hrefs, Elems(visited) + queued,
                                  env.maxPages - |visited| - |queue|).links, t.depth + 1)
  {
  }

  /** One turn of `Run` that visits the front target without expanding it. */
  lemma RunSkip(env: Env, visited: seq<string>, queue: seq<Target>)
    requires queue != [] && |visited| < env.maxPages && queue[0].url !in visited
    requires queue[0].depth >= env.maxDepth || env.browse(queue[0].url).NavigationFailed?
    ensures Run(env, visited, queue) == Run(env, visited + [queue[0].url], queue[1..])
  {
  }

  /** One turn of `Run` whose link extraction throws. */
  lemma RunAbort(env: Env, visited: seq<string>, queue: seq<Target>)
    requires queue != [] && |visited| < env.maxPages && queue[0].url !in visited
    requires queue[0].depth < env.maxDepth && env.browse(queue[0].url).EvaluationFailed?
    ensures Run(env, visited, queue) == Failure(EvaluationThrew(queue[0].url))
  {
  }

  /** One turn of `Run` that visits and expands the front target. */
  lemma RunExpand(env: Env, visited: seq<string>, queue: seq<Target>, hrefs: seq<string>)
    requires queue != [] && |visited| < env.maxPages && queue[0].url !in visited
    requires queue[0].depth < env.maxDepth && env.browse(queue[0].url) == Loaded(hrefs)
    ensures var visited', rest := visited + [queue[0].url], queue[1..];
            Run(env, visited, queue) == Run(env, visited', rest + Expansion(env, visited', rest, queue[0], hrefs))
  {
  }

  /** When `page.evaluate` throws on the page just visited, the visited
      pages are those `Aborted` describes. */
  lemma AbortExit(env: Env, startHref: string, visited: seq<string>, queued: set<string>, queue: seq<Target>, tr: Trace)
    requires Frontier(env, startHref, visited, queued, queue, tr)
    requires visited != [] && Settled(env, visited, queue, tr, |visited| - 1)
    requires Levelled(env, visited, tr.depths, queue, |visited|)
    requires env.browse(visited[|visited| - 1]) == EvaluationFailed && tr.depths[|visited| - 1] < env.maxDepth
    ensures Aborted(env, startHref, visited, tr.depths, tr.parents)
  {
  }

  /** The trace after the front of the queue is visited. */
  ghost function VisitTrace(tr: Trace, visited: seq<string>, queue: seq<Target>): Trace
    requires queue != [] && |tr.queueParents| == |queue|
  {
    Trace(tr.depths + [queue[0].depth],
          tr.parents + [if visited == [] then 0 else tr.queueParents[0]],
          tr.queueParents[1..],
          tr.capped)
  }

  /** The trace after `added` links of the last visited page are queued. */
  ghost function ExpandTrace(tr: Trace, page: nat, added: int, capped: bool): Trace
  {
    Trace(tr.depths, tr.parents,
          tr.queueParents + seq(if added < 0 then 0 else added, _ => page),
          tr.capped || capped)
  }

  /** Dequeuing and visiting the front target (crawler.js:31-35) keeps the
      frontier invariant; the new page is settled at once when it will not
      be expanded. */
  lemma VisitStep(env: Env, startHref: string, visited: seq<string>, queued: set<string>, queue: seq<Target>, tr: Trace)
    requires Frontier(env, startHref, visited, queued, queue, tr)
    requires Settled(env, visited, queue, tr, |visited|)
    requires queue != [] && |visited| < env.maxPages
    ensures queue[0].url !in visited
    ensures queued - {queue[0].url} == Elems(UrlsOf(queue[1..]))
    ensures VisitTrace(tr, visited, queue).depths == tr.depths + [queue[0].depth] && |tr.depths| == |visited|
    ensures var t, tr' := queue[0], VisitTrace(tr, visited, queue);
            && Frontier(env, startHref, visited + [t.url], queued - {t.url}, queue[1..], tr')
            && Settled(env, visited + [t.url], queue[1..], tr', |visited|)
            && (t.depth >= env.maxDepth || env.browse(t.url).NavigationFailed? ==>
                  Settled(env, visited + [t.url], queue[1..], tr', |visited| + 1))
            && (env.browse(t.url).EvaluationFailed? ==>
                  Levelled(env, visited + [t.url], tr'.depths, queue[1..], |visited| + 1))
  {
    ShiftQueue(queue, queued);
    VisitFrontier(env, startHref, visited, queued, queue, tr);
    VisitSettled(env, visited, queue, tr);
  }

  lemma VisitFrontier(env: Env, startHref: string, visited: seq<string>, queued: set<string>, queue: seq<Target>, tr: Trace)
    requires Frontier(env, startHref, visited, queued, queue, tr)
    requires queue != [] && |visited| < env.maxPages
    ensures queue[0].url !in visited
    ensures Known(visited + [queue[0].url], queue[1..]) == Known(visited, queue)
    ensures Frontier(env, startHref, visited + [queue[0].url], queued - {queue[0].url}, queue[1..], VisitTrace(tr, visited, queue))
  {
    var t, tr' := queue[0], VisitTrace(tr, visited, queue);
    var visited', queue' := visited + [t.url], queue[1..];
    ShiftQueue(queue, queued);
    assert Known(visited', queue') == Known(visited, queue);
    if visited != [] {
      VisitQueueDiscovered(env, visited, tr.depths, queue, tr.queueParents);
      assert DiscoveredFrom(env, visited[tr.queueParents[0]], tr.depths[tr.queueParents[0]], t.url, t.depth);
      assert QueueLevels(queue, tr.depths[|visited| - 1]);
    }
    VisitQueueLevels(queue);
    assert DiscoveryTree(env, visited', tr'.depths, tr'.parents);
  }

  lemma VisitSettled(env: Env, visited: seq<string>, queue: seq<Target>, tr: Trace)
    requires queue != [] && |tr.queueParents| == |queue|
    requires Settled(env, visited, queue, tr, |visited|)
    requires Known(visited + [queue[0].url], queue[1..]) == Known(visited, queue)
    ensures var t, tr' := queue[0], VisitTrace(tr, visited, queue);
            && Settled(env, visited + [t.url], queue[1..], tr', |visited|)
            && (t.depth >= env.maxDepth || env.browse(t.url).NavigationFailed? ==>
                  Settled(env, visited + [t.url], queue[1..], tr', |visited| + 1))
            && (env.browse(t.url).EvaluationFailed? ==>
                  Levelled(env, visited + [t.url], tr'.depths, queue[1..], |visited| + 1))
  {
    VisitLevels(env, visited, tr.depths, queue, |visited|);
    var t, tr' := queue[0], VisitTrace(tr, visited, queue);
    var visited' := visited + [t.url];
    forall i | 0 <= i < |visited| ensures visited'[i] == visited[i] && tr'.depths[i] == tr.depths[i] {
    }
  }

  lemma VisitQueueDiscovered(env: Env, visited: seq<string>, depths: seq<nat>, queue: seq<Target>, queueParents: seq<nat>)
    requires queue != [] && |depths| == |visited| && |queueParents| == |queue|
    requires QueueDiscovered(env, visited, depths, queue, queueParents)
    ensures QueueDiscovered(env, visited + [queue[0].url], depths + [queue[0].depth], queue[1..], queueParents[1..])
  {
    var visited', depths', queue' := visited + [queue[0].url], depths + [queue[0].depth], queue[1..];
    forall j | 0 <= j < |queue'|
      ensures queueParents[1..][j] < |visited'|
      ensures DiscoveredFrom(env, visited'[queueParents[1..][j]], depths'[queueParents[1..][j]], queue'[j].url, queue'[j].depth)
    {
      assert queue'[j] == queue[j + 1];
      assert queueParents[1..][j] == queueParents[j + 1];
    }
  }

  lemma VisitLevels(env: Env, visited: seq<string>, depths: seq<nat>, queue: seq<Target>, n: nat)
    requires n <= |visited| == |depths| && queue != []
    requires Levelled(env, visited, depths, queue, n)
    ensures var visited', depths' := visited + [queue[0].url], depths + [queue[0].depth];
            && Levelled(env, visited', depths', queue[1..], n)
            && (n == |visited| && Outlinks(env, queue[0].url, queue[0].depth) == {} ==>
                  Levelled(env, visited', depths', queue[1..], n + 1))
  {
    var visited', depths', queue' := visited + [queue[0].url], depths + [queue[0].depth], queue[1..];
    var m := if n == |visited| && Outlinks(env, queue[0].url, queue[0].depth) == {} then n + 1 else n;
    forall i, j | 0 <= i < m && 0 <= j < |visited'| && visited'[j] in Outlinks(env, visited'[i], depths'[i])
      ensures depths'[j] <= depths'[i] + 1
    {
      assert i < n;
      assert visited'[i] == visited[i] && depths'[i] == depths[i];
      if j < |visited| {
        assert visited'[j] == visited[j] && depths'[j] == depths[j];
      } else {
        assert visited'[j] == queue[0].url;
      }
    }
    forall i, j | 0 <= i < m && 0 <= j < |queue'| && queue'[j].url in Outlinks(env, visited'[i], depths'[i])
      ensures queue'[j].depth <= depths'[i] + 1
    {
      assert i < n;
      assert visited'[i] == visited[i] && depths'[i] == depths[i];
      assert queue'[j] == queue[j + 1];
    }
  }

  lemma VisitQueueLevels(queue: seq<Target>)
    requires queue != []
    requires forall i, j :: 0 <= i < j < |queue| ==> queue[i].depth <= queue[j].depth
    requires forall j :: 0 <= j < |queue| ==> queue[j].depth <= queue[0].depth + 1
    ensures QueueLevels(queue[1..], queue[0].depth)
  {
    forall i, j | 0 <= i < j < |queue| - 1 ensures queue[1..][i].depth <= queue[1..][j].depth {
      assert queue[1..][i] == queue[i + 1] && queue[1..][j] == queue[j + 1];
    }
  }

  /** Queueing the links of the last visited page (crawler.js:50-69) keeps
      the frontier invariant and settles that page. */
  lemma ExpandStep(env: Env, startHref: string, visited: seq<string>, queued: set<string>, queue: seq<Target>,
                   tr: Trace, page: string, depth: nat, hrefs: seq<string>,
                   queued': set<string>, queue': seq<Target>, capped: bool)
    requires Frontier(env, startHref, visited, queued, queue, tr)
    requires visited != [] && Settled(env, visited, queue, tr, |visited| - 1)
    requires visited[|visited| - 1] == page && tr.depths[|visited| - 1] == depth
    requires depth < env.maxDepth && env.browse(page) == Loaded(hrefs)
    requires var w := LinkWalk(env.parse, env.scope, page, hrefs, Elems(visited) + queued,
                               env.maxPages - |visited| - |queue|);
             queue' == queue + Targets(w.links, depth + 1) && capped == w.capped
    requires queued' == Elems(UrlsOf(queue'))
    ensures var tr' := ExpandTrace(tr, |visited| - 1, |queue'| - |queue|, capped);
            Frontier(env, startHref, visited, queued', queue', tr') && Settled(env, visited, queue', tr', |visited|)
  {
    WalkExpands(env, startHref, visited, queued, queue, tr, page, depth, hrefs, queued', queue', capped);
    ExpandFrontier(env, startHref, visited, queued, queue, tr, queued', queue', capped);
    ExpandSettled(env, startHref, visited, queued, queue, tr, queued', queue', capped);
  }

  /** The facts `EnqueueResult` gives about the queue after the link loop
      of the last visited page. */
  ghost predicate Expanded(env: Env, visited: seq<string>, queue: seq<Target>, tr: Trace,
                           queued': set<string>, queue': seq<Target>, capped: bool)
    requires visited != [] && |tr.depths| == |visited| && env.browse(visited[|visited| - 1]).Loaded?
  {
    var last := |visited| - 1; var hrefs := env.browse(visited[last]).hrefs;
    && |queue| <= |queue'| && queue'[..|queue|] == queue
    && (forall j :: |queue| <= j < |queue'| ==>
          queue'[j].depth == tr.depths[last] + 1 && queue'[j].url in Links(env.parse, hrefs, visited[last], env.scope))
    && Distinct(UrlsOf(queue')) && queued' == Elems(UrlsOf(queue'))
    && (forall j :: 0 <= j < |queue'| ==> queue'[j].url !in visited)
    && |visited| + |queue'| <= env.maxPages
    && (capped ==> |visited| + |queue'| >= env.maxPages)
    && (!capped ==> Links(env.parse, hrefs, visited[last], env.scope) <= Known(visited, queue'))
  }

  lemma WalkExpands(env: Env, startHref: string, visited: seq<string>, queued: set<string>, queue: seq<Target>,
                    tr: Trace, page: string, depth: nat, hrefs: seq<string>,
                    queued': set<string>, queue': seq<Target>, capped: bool)
    requires Frontier(env, startHref, visited, queued, queue, tr)
    requires visited != [] && visited[|visited| - 1] == page && tr.depths[|visited| - 1] == depth
    requires env.browse(page) == Loaded(hrefs)
    requires var w := LinkWalk(env.parse, env.scope, page, hrefs, Elems(visited) + queued,
                               env.maxPages - |visited| - |queue|);
             queue' == queue + Targets(w.links, depth + 1) && capped == w.capped
    requires queued' == Elems(UrlsOf(queue'))
    ensures Expanded(env, visited, queue, tr, queued', queue', capped)
  {
    assert queued == Elems(UrlsOf(queue)) && |visited| + |queue| <= env.maxPages;
    assert Distinct(UrlsOf(queue)) && forall j :: 0 <= j < |queue| ==> queue[j].url !in visited;
    WalkExpanded(env, visited, queue, tr, page, depth, hrefs, queued', queue', capped);
  }

  lemma WalkExpanded(env: Env, visited: seq<string>, queue: seq<Target>, tr: Trace,
                     page: string, depth: nat, hrefs: seq<string>,
                     queued': set<string>, queue': seq<Target>, capped: bool)
    requires visited != [] && |tr.depths| == |visited|
    requires visited[|visited| - 1] == page && tr.depths[|visited| - 1] == depth
    requires env.browse(page) == Loaded(hrefs)
    requires Distinct(UrlsOf(queue)) && forall j :: 0 <= j < |queue| ==> queue[j].url !in visited
    requires |visited| + |queue| <= env.maxPages
    requires var w := LinkWalk(env.parse, env.scope, page, hrefs, Elems(visited) + Elems(UrlsOf(queue)),
                               env.maxPages - |visited| - |queue|);
             queue' == queue + Targets(w.links, depth + 1) && capped == w.capped
    requires queued' == Elems(UrlsOf(queue'))
    ensures Expanded(env, visited, queue, tr, queued', queue', capped)
  {
    EnqueueResult(env.parse, env.scope, page, depth, hrefs, visited, env.maxPages, queue, queue', capped);
  }

  lemma ExpandFrontier(env: Env, startHref: string, visited: seq<string>, queued: set<string>, queue: seq<Target>,
                       tr: Trace, queued': set<string>, queue': seq<Target>, capped: bool)
    requires Frontier(env, startHref, visited, queued, queue, tr)
    requires visited != [] && |tr.depths| == |visited|
    requires var last := |visited| - 1;
             tr.depths[last] < env.maxDepth && env.browse(visited[last]).Loaded?
    requires Expanded(env, visited, queue, tr, queued', queue', capped)
    ensures Frontier(env, startHref, visited, queued', queue', ExpandTrace(tr, |visited| - 1, |queue'| - |queue|, capped))
  {
    var last := |visited| - 1;
    var tr' := ExpandTrace(tr, last, |queue'| - |queue|, capped);
    ExpandQueueDiscovered(env, visited, tr.depths, queue, tr.queueParents, queue', tr'.queueParents);
    ExpandQueueLevels(queue, queue', tr.depths[last]);
  }

  lemma ExpandSettled(env: Env, startHref: string, visited: seq<string>, queued: set<string>, queue: seq<Target>,
                      tr: Trace, queued': set<string>, queue': seq<Target>, capped: bool)
    requires Frontier(env, startHref, visited, queued, queue, tr)
    requires visited != [] && Settled(env, visited, queue, tr, |visited| - 1)
    requires var last := |visited| - 1;
             tr.depths[last] < env.maxDepth && env.browse(visited[last]).Loaded?
    requires Expanded(env, visited, queue, tr, queued', queue', capped)
    ensures Settled(env, visited, queue', ExpandTrace(tr, |visited| - 1, |queue'| - |queue|, capped), |visited|)
  {
    var last := |visited| - 1;
    ExtendKnown(visited, queue, queue');
    ExpandQueueLevels(queue, queue', tr.depths[last]);
    ExpandLevels(env, visited, tr.depths, queue, queue');
  }

  lemma ExpandQueueDiscovered(env: Env, visited: seq<string>, depths: seq<nat>, queue: seq<Target>, queueParents: seq<nat>,
                              queue': seq<Target>, queueParents': seq<nat>)
    requires visited != [] && |depths| == |visited| && |queueParents| == |queue|
    requires QueueDiscovered(env, visited, depths, queue, queueParents)
    requires var last := |visited| - 1;
             depths[last] < env.maxDepth && env.browse(visited[last]).Loaded?
    requires |queue| <= |queue'| && queue'[..|queue|] == queue
    requires queueParents' == queueParents + seq(|queue'| - |queue|, _ => |visited| - 1)
    requires var last := |visited| - 1;
             forall j :: |queue| <= j < |queue'| ==>
               queue'[j].depth == depths[last] + 1 &&
               queue'[j].url in Links(env.parse, env.browse(visited[last]).hrefs, visited[last], env.scope)
    ensures |queueParents'| == |queue'| && QueueDiscovered(env, visited, depths, queue', queueParents')
  {
    forall j | 0 <= j < |queue'|
      ensures queueParents'[j] < |visited|
      ensures DiscoveredFrom(env, visited[queueParents'[j]], depths[queueParents'[j]], queue'[j].url, queue'[j].depth)
    {
      if j < |queue| {
        assert queue'[j] == queue[j];
      }
    }
  }

  lemma ExpandQueueLevels(queue: seq<Target>, queue': seq<Target>, d: nat)
    requires QueueLevels(queue, d)
    requires |queue| <= |queue'| && queue'[..|queue|] == queue
    requires forall j :: |queue| <= j < |queue'| ==> queue'[j].depth == d + 1
    ensures QueueLevels(queue', d)
  {
    forall i, j | 0 <= i < j < |queue'| ensures queue'[i].depth <= queue'[j].depth {
      if j < |queue| {
        assert queue'[i] == queue[i] && queue'[j] == queue[j];
      } else if i < |queue| {
        assert queue'[i] == queue[i];
      }
    }
    forall j | 0 <= j < |queue'| ensures d <= queue'[j].depth <= d + 1 {
      if j < |queue| {
        assert queue'[j] == queue[j];
      }
    }
  }

  lemma ExpandLevels(env: Env, visited: seq<string>, depths: seq<nat>, queue: seq<Target>, queue': seq<Target>)
    requires visited != [] && |visited| == |depths|
    requires Levelled(env, visited, depths, queue, |visited| - 1)
    requires NonDecreasing(depths) && QueueLevels(queue', depths[|visited| - 1])
    requires |queue| <= |queue'| && queue'[..|queue|] == queue
    requires Distinct(UrlsOf(queue')) && forall j :: 0 <= j < |queue'| ==> queue'[j].url !in visited
    requires |queue| < |queue'| ==>
               forall i :: 0 <= i < |visited| - 1 ==> Outlinks(env, visited[i], depths[i]) <= Known(visited, queue)
    ensures Levelled(env, visited, depths, queue', |visited|)
  {
    var last := |visited| - 1;
    forall i, j | 0 <= i < |visited| && 0 <= j < |queue'| && queue'[j].url in Outlinks(env, visited[i], depths[i])
      ensures queue'[j].depth <= depths[i] + 1
    {
      if i < last && j < |queue| {
        assert queue'[j] == queue[j];
      } else if i < last {
        forall k | 0 <= k < |queue| ensures UrlsOf(queue)[k] != queue'[j].url {
          assert UrlsOf(queue')[k] == queue[k].url;
        }
      }
    }
  }

  /** When the loop stops, the crawl yields the visited list, and the
      loop invariant gives the properties `Crawled` names. */
  lemma CrawlExit(env: Env, startHref: string, visited: seq<string>, queued: set<string>, queue: seq<Target>,
                  tr: Trace, result: Result<seq<string>, CrawlError>)
    requires Crawling(env, startHref, visited, queued, queue, tr, result)
    requires queue == [] || |visited| >= env.maxPages
    ensures result == Success(visited)
    ensures Crawled(env, startHref, visited, tr.depths, tr.parents)
  {
    TreeDepthBound(env, visited, tr.depths, tr.parents);
    DiscoveredInScope(env, visited, tr.depths, tr.parents);
    if |visited| < env.maxPages {
      assert Known(visited, queue) == Elems(visited);
    }
  }

  /** The outcome of the link loop for one page: the URLs it appends, in
      href order, and whether it stopped at the page cap (the `break`). */
  datatype Walk = Walk(links: seq<string>, capped: bool)

  /** The link loop of crawler.js:50-69 as a walk over the hrefs in order:
      an href that normalises to a URL not yet `known` (visited or queued)
      is kept and becomes known, unless no `room` is left under the page
      cap, in which case the walk stops there.  The walk's outcome is the
      loop's state after the last href. */
  function LinkWalk(parse: Parser, scope: Scope, page: string, hrefs: seq<string>, known: set<string>, room: int): Walk
  {
    var s := LastState(Normalized(parse, scope, page, hrefs), LinkState([], known, room, false));
    Walk(s.links, s.capped)
  }

  /** What `normalizeUrl` makes of each href of the page, in order. */
  function Normalized(parse: Parser, scope: Scope, page: string, hrefs: seq<string>): (ns: seq<Option<string>>)
    ensures |ns| == |hrefs|
    ensures forall k :: 0 <= k < |hrefs| ==> ns[k] == Normalize(parse, hrefs[k], page, scope)
  {
    seq(|hrefs|, k requires 0 <= k < |hrefs| => Normalize(parse, hrefs[k], page, scope))
  }

  /** The state of the link loop: the URLs queued so far, the URLs known
      (visited or queued), the room left under the page cap, and whether
      the loop has stopped at the cap. */
  datatype LinkState = LinkState(links: seq<string>, known: set<string>, room: int, capped: bool)

  /** One turn of the link loop on a normalised href: a stopped loop, an
      href that does not normalise and a known URL change nothing; a new
      URL with no room left stops the loop; otherwise the URL is queued. */
  function NextLink(s: LinkState, n: Option<string>): LinkState
  {
    if s.capped || n.None? || n.value in s.known then s
    else if s.room <= 0 then s.(capped := true)
    else LinkState(s.links + [n.value], s.known + {n.value}, s.room - 1, false)
  }

  /** The states of the link loop over the normalised hrefs `ns`, from `s`:
      each the previous one advanced by the next href. */
  function LinkStates(ns: seq<Option<string>>, s: LinkState): (states: seq<LinkState>)
    ensures |states| == |ns| + 1 && states[0] == s
    ensures forall k :: 0 <= k < |ns| ==> states[k + 1] == NextLink(states[k], ns[k])
    decreases |ns|
  {
    if ns == [] then [s]
    else
      var rest := LinkStates(ns[1..], NextLink(s, ns[0]));
      assert forall k :: 1 <= k < |ns| ==> ns[1..][k - 1] == ns[k];
      [s] + rest
  }

  /** The state of the link loop after the normalised hrefs `ns`, from `s`. */
  function LastState(ns: seq<Option<string>>, s: LinkState): LinkState
    decreases |ns|
  {
    if ns == [] then s else LastState(ns[1..], NextLink(s, ns[0]))
  }

  lemma {:induction false} LastStateIsLast(ns: seq<Option<string>>, s: LinkState)
    ensures LastState(ns, s) == LinkStates(ns, s)[|ns|]
    decreases |ns|
  {
    if ns != [] {
      LastStateIsLast(ns[1..], NextLink(s, ns[0]));
    }
  }

  /** What holds of the link loop's state after `k` hrefs, started with
      nothing queued, `known` URLs and `room` left. */
  ghost predicate LinkStateMeaning(ns: seq<Option<string>>, k: nat, known: set<string>, room: int, s: LinkState)
    requires k <= |ns|
  {
    && Distinct(s.links)
    && s.known == known + Elems(s.links)
    && s.room == room - |s.links|
    && (forall i :: 0 <= i < |s.links| ==> s.links[i] !in known && Some(s.links[i]) in ns)
    && |s.links| <= (if room < 0 then 0 else room)
    && (s.capped ==> room <= |s.links|)
    && (!s.capped ==> forall j :: 0 <= j < k && ns[j].Some? ==> ns[j].value in s.known)
  }

  lemma {:induction false} LinkStatesMeaning(ns: seq<Option<string>>, known: set<string>, room: int, k: nat)
    requires k <= |ns|
    ensures LinkStateMeaning(ns, k, known, room, LinkStates(ns, LinkState([], known, room, false))[k])
  {
    var states := LinkStates(ns, LinkState([], known, room, false));
    if k > 0 {
      LinkStatesMeaning(ns, known, room, k - 1);
      LinkStepMeaning(ns, k - 1, known, room, states[k - 1]);
    }
  }

  /** One turn of the link loop keeps `LinkStateMeaning`. */
  lemma LinkStepMeaning(ns: seq<Option<string>>, k: nat, known: set<string>, room: int, s: LinkState)
    requires k < |ns| && LinkStateMeaning(ns, k, known, room, s)
    ensures LinkStateMeaning(ns, k + 1, known, room, NextLink(s, ns[k]))
  {
    var n := ns[k];
    if !s.capped && n.Some? && n.value !in s.known && s.room > 0 {
      var links := s.links + [n.value];
      assert Elems(links) == Elems(s.links) + {n.value};
      forall i | 0 <= i < |links| ensures links[i] !in known && Some(links[i]) in ns {
        if i == |s.links| {
          assert Some(links[i]) == ns[k];
        } else {
          assert links[i] == s.links[i];
        }
      }
    }
  }

  /** The walk keeps only links of the page, each once and none already
      known, and at most `room` of them; it stops early only once that
      room is used up, and otherwise leaves every link of the page known. */
  lemma LinkWalkMeaning(parse: Parser, scope: Scope, page: string, hrefs: seq<string>, known: set<string>, room: int)
    ensures var w := LinkWalk(parse, scope, page, hrefs, known, room);
            && Distinct(w.links)
            && (forall i :: 0 <= i < |w.links| ==> w.links[i] !in known && w.links[i] in Links(parse, hrefs, page, scope))
            && |w.links| <= (if room < 0 then 0 else room)
            && (w.capped ==> room <= |w.links|)
            && (!w.capped ==> Links(parse, hrefs, page, scope) <= known + Elems(w.links))
  {
    var ns := Normalized(parse, scope, page, hrefs);
    var s := LinkStates(ns, LinkState([], known, room, false))[|hrefs|];
    LastStateIsLast(ns, LinkState([], known, room, false));
    LinkStatesMeaning(ns, known, room, |hrefs|);
    forall i | 0 <= i < |s.links| ensures s.links[i] in Links(parse, hrefs, page, scope) {
      var k :| 0 <= k < |ns| && ns[k] == Some(s.links[i]);
      LinksMember(parse, hrefs, page, scope, s.links[i]);
    }
    if !s.capped {
      forall x | x in Links(parse, hrefs, page, scope) ensures x in known + Elems(s.links) {
        LinksMember(parse, hrefs, page, scope, x);
        var k :| 0 <= k < |hrefs| && Normalize(parse, hrefs[k], page, scope) == Some(x);
        assert ns[k] == Some(x);
      }
    }
  }

  /** A stopped link loop stays stopped. */
  lemma {:induction false} CappedStays(ns: seq<Option<string>>, s: LinkState, k: nat)
    requires k <= |ns| && LinkStates(ns, s)[k].capped
    ensures LinkStates(ns, s)[|ns|] == LinkStates(ns, s)[k]
    decreases |ns| - k
  {
    if k < |ns| {
      CappedStays(ns, s, k + 1);
    }
  }

  /** The queue entries for `urls`, all at depth `d`. */
  function Targets(urls: seq<string>, d: nat): (q: seq<Target>)
    ensures |q| == |urls| && UrlsOf(q) == urls
    ensures forall j :: 0 <= j < |q| ==> q[j].depth == d
  {
    seq(|urls|, j requires 0 <= j < |urls| => Target(urls[j], d))
  }

  /** The link loop of crawler.js:50-69 for one loaded page at `depth`:
      it appends to the queue, at `depth + 1` and in href order, the URLs
      of `LinkWalk` started from the visited and queued URLs with the room
      left under `maxPages`, and reports whether it stopped at the cap. */
  method EnqueueLinks(parse: Parser, scope: Scope, page: string, depth: nat, hrefs: seq<string>,
                      visited: seq<string>, maxPages: int, queue: seq<Target>, queued: set<string>)
    returns (queue': seq<Target>, queued': set<string>, capped: bool)
    requires queued == Elems(UrlsOf(queue))
    ensures var w := LinkWalk(parse, scope, page, hrefs, Elems(visited) + queued, maxPages - |visited| - |queue|);
            queue' == queue + Targets(w.links, depth + 1) && capped == w.capped
    ensures queued' == Elems(UrlsOf(queue'))
  {
    ghost var ns := Normalized(parse, scope, page, hrefs);
    ghost var states := LinkStates(ns, LinkState([], Elems(visited) + queued, maxPages - |visited| - |queue|, false));
    ghost var added: seq<string> := [];
    queue', queued', capped := queue, queued, false;
    for k := 0 to |hrefs|
      invariant queue' == queue + Targets(added, depth + 1)
      invariant queued' == queued + Elems(added)
      invariant !capped
      invariant states[k] == LinkState(added, Elems(visited) + queued', maxPages - |visited| - |queue'|, false)
    {
      var next := Normalize(parse, hrefs[k], page, scope);
      assert next == ns[k] && states[k + 1] == NextLink(states[k], ns[k]);
      if next.None? {
        continue;
      }
      var nextUrl := next.value;
      if nextUrl in visited || nextUrl in queued' {
        assert nextUrl in Elems(visited) + queued';
        continue;
      }
      if |visited| + |queue'| >= maxPages {
        capped := true;
        CappedStays(ns, states[0], k + 1);
        break;
      }
      queue' := queue' + [Target(nextUrl, depth + 1)];
      queued' := queued' + {nextUrl};
      assert Targets(added + [nextUrl], depth + 1) == Targets(added, depth + 1) + [Target(nextUrl, depth + 1)];
      added := added + [nextUrl];
    }
    LastStateIsLast(ns, states[0]);
    UrlsOfAppend(queue, added, depth + 1);
  }

  /** Appending targets appends their URLs. */
  lemma UrlsOfAppend(queue: seq<Target>, urls: seq<string>, d: nat)
    ensures UrlsOf(queue + Targets(urls, d)) == UrlsOf(queue) + urls
  {
    assert forall j :: 0 <= j < |queue| + |urls| ==> UrlsOf(queue + Targets(urls, d))[j] == (UrlsOf(queue) + urls)[j];
  }

  /** What the queue holds after `EnqueueLinks`: it only grew, by links
      of the page at `depth + 1`; it stays duplicate-free, disjoint from
      the visited URLs and within the page cap; the loop stopped early
      only with the cap reached, and otherwise every link of the page is
      visited or queued. */
  lemma EnqueueResult(parse: Parser, scope: Scope, page: string, depth: nat, hrefs: seq<string>,
                      visited: seq<string>, maxPages: int, queue: seq<Target>, queue': seq<Target>, capped: bool)
    requires Distinct(UrlsOf(queue))
    requires forall j :: 0 <= j < |queue| ==> queue[j].url !in visited
    requires |visited| + |queue| <= maxPages
    requires var w := LinkWalk(parse, scope, page, hrefs, Elems(visited) + Elems(UrlsOf(queue)), maxPages - |visited| - |queue|);
             queue' == queue + Targets(w.links, depth + 1) && capped == w.capped
    ensures |queue| <= |queue'| && queue'[..|queue|] == queue
    ensures forall j :: |queue| <= j < |queue'| ==>
              queue'[j].depth == depth + 1 && queue'[j].url in Links(parse, hrefs, page, scope)
    ensures Distinct(UrlsOf(queue'))
    ensures forall j :: 0 <= j < |queue'| ==> queue'[j].url !in visited
    ensures |visited| + |queue'| <= maxPages
    ensures capped ==> |visited| + |queue'| >= maxPages
    ensures !capped ==> Links(parse, hrefs, page, scope) <= Elems(visited) + Elems(UrlsOf(queue'))
  {
    var known, room := Elems(visited) + Elems(UrlsOf(queue)), maxPages - |visited| - |queue|;
    var added := LinkWalk(parse, scope, page, hrefs, known, room).links;
    LinkWalkMeaning(parse, scope, page, hrefs, known, room);
    AppendTargets(visited, queue, added, depth + 1, Links(parse, hrefs, page, scope), queue');
    assert |queue'| == |queue| + |added|;
    assert Elems(UrlsOf(queue')) == Elems(UrlsOf(queue)) + Elems(added) by {
      assert UrlsOf(queue') == UrlsOf(queue) + added;
    }
  }

  /** Appending fresh, distinct URLs of `links` at depth `d` keeps the
      queue duplicate-free and disjoint from the visited URLs. */
  lemma AppendTargets(visited: seq<string>, queue: seq<Target>, added: seq<string>, d: nat, links: set<string>, queue': seq<Target>)
    requires queue' == queue + Targets(added, d)
    requires Distinct(UrlsOf(queue)) && forall j :: 0 <= j < |queue| ==> queue[j].url !in visited
    requires Distinct(added)
    requires forall i :: 0 <= i < |added| ==> added[i] !in Elems(visited) + Elems(UrlsOf(queue)) && added[i] in links
    ensures UrlsOf(queue') == UrlsOf(queue) + added
    ensures |queue| <= |queue'| && queue'[..|queue|] == queue
    ensures forall j :: |queue| <= j < |queue'| ==> queue'[j].depth == d && queue'[j].url in links
    ensures Distinct(UrlsOf(queue'))
    ensures forall j :: 0 <= j < |queue'| ==> queue'[j].url !in visited
  {
    var urls := UrlsOf(queue);
    UrlsOfAppend(queue, added, d);
    forall j | |queue| <= j < |queue'| ensures queue'[j].depth == d && queue'[j].url in links {
      assert queue'[j] == Targets(added, d)[j - |queue|];
    }
    forall i, j | 0 <= i < j < |urls + added| ensures (urls + added)[i] != (urls + added)[j] {
      if j >= |urls| && i < |urls| {
        assert (urls + added)[i] in Elems(urls);
      }
    }
    forall j | 0 <= j < |queue'| ensures queue'[j].url !in visited {
      if j >= |queue| {
        assert queue'[j].url == added[j - |queue|];
      }
    }
  }

  lemma TreeDepthBound(env: Env, urls: seq<string>, depths: seq<nat>, parents: seq<nat>)
    requires DiscoveryTree(env, urls, depths, parents)
    ensures forall i :: 1 <= i < |urls| ==> depths[i] <= env.maxDepth
  {
    forall i | 1 <= i < |urls| ensures depths[i] <= env.maxDepth {
      assert DiscoveredFrom(env, urls[parents[i]], depths[parents[i]], urls[i], depths[i]);
    }
  }

  /** Every crawled URL but the start is what the parser makes of one of
      the hrefs on the page it was discovered on: that href resolved
      against the page, http(s) and in scope, serialised with its fragment
      cleared.  The start URL alone keeps its fragment. */
  lemma DiscoveredInScope(env: Env, urls: seq<string>, depths: seq<nat>, parents: seq<nat>)
    requires DiscoveryTree(env, urls, depths, parents)
    ensures forall i :: 1 <= i < |urls| ==>
              env.browse(urls[parents[i]]).Loaded? &&
              ResolvedFrom(env.parse, env.scope, urls[i], urls[parents[i]], env.browse(urls[parents[i]]).hrefs)
  {
    forall i | 1 <= i < |urls|
      ensures env.browse(urls[parents[i]]).Loaded?
      ensures ResolvedFrom(env.parse, env.scope, urls[i], urls[parents[i]], env.browse(urls[parents[i]]).hrefs)
    {
      var from := urls[parents[i]];
      assert DiscoveredFrom(env, from, depths[parents[i]], urls[i], depths[i]);
      var hrefs := env.browse(from).hrefs;
      LinksMember(env.parse, hrefs, from, env.scope, urls[i]);
      var k :| 0 <= k < |hrefs| && Normalize(env.parse, hrefs[k], from, env.scope) == Some(urls[i]);
      assert ResolvedAt(env.parse, env.scope, urls[i], from, hrefs, k);
    }
  }

  /** `s` is the `k`-th href of the page `base`, resolved against it by
      the parser, http(s) and in `scope`, serialised without its fragment;
      it holds no '#' when the parser's serialisation is well formed. */
  ghost predicate ResolvedAt(parse: Parser, scope: Scope, s: string, base: string, hrefs: seq<string>, k: int)
  {
    && 0 <= k < |hrefs|
    && parse(hrefs[k], Some(base)).Some?
    && InScope(parse(hrefs[k], Some(base)).value, scope)
    && s == Serialize(parse(hrefs[k], Some(base)).value.(fragment := None))
    && (WellFormed(parse(hrefs[k], Some(base)).value) ==> '#' !in s)
  }

  /** `s` is one of the hrefs of the page `base` as the link loop keeps it. */
  ghost predicate ResolvedFrom(parse: Parser, scope: Scope, s: string, base: string, hrefs: seq<string>)
  {
    exists k :: ResolvedAt(parse, scope, s, base, hrefs, k)
  }

  /** Appending to the queue only adds to the set of known URLs. */
  lemma ExtendKnown(visited: seq<string>, queue: seq<Target>, queue': seq<Target>)
    requires |queue| <= |queue'| && queue'[..|queue|] == queue
    ensures Elems(visited) + Elems(UrlsOf(queue)) <= Elems(visited) + Elems(UrlsOf(queue'))
  {
    forall x | x in Elems(UrlsOf(queue)) ensures x in Elems(UrlsOf(queue')) {
      var j :| 0 <= j < |queue| && UrlsOf(queue)[j] == x;
      assert queue'[j] == queue[j];
    }
  }

  /** Dequeuing the front target removes exactly its URL from the queued
      set, because queued URLs are distinct. */
  lemma ShiftQueue(queue: seq<Target>, queued: set<string>)
    requires queue != [] && Distinct(UrlsOf(queue)) && queued == Elems(UrlsOf(queue))
    ensures queued - {queue[0].url} == Elems(UrlsOf(queue[1..]))
    ensures Distinct(UrlsOf(queue[1..]))
    ensures Elems(UrlsOf(queue)) == Elems(UrlsOf(queue[1..])) + {queue[0].url}
  {
    var all := UrlsOf(queue);
    assert UrlsOf(queue[1..]) == all[1..];
    assert all == [queue[0].url] + all[1..];
    forall x | x in Elems(UrlsOf(queue[1..])) ensures x in queued - {queue[0].url} {
      var j :| 0 <= j < |queue| - 1 && UrlsOf(queue[1..])[j] == x;
      assert all[j + 1] == x && all[0] == queue[0].url;
    }
  }
}
