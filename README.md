# Accessibility checker: crawl frontier and site summary

This project is a Dafny model of two parts of a site-wide accessibility
checker.

- **The crawler** (`crawlSite`). Starting from one URL, it visits at most
  `maxPages` pages breadth-first. It goes no deeper than `maxDepth` and, by
  default, stays on the start URL's origin. Its state is a FIFO queue of
  `{url, depth}` targets, a `visited` set whose insertion order is the
  result, and a `queued` membership set.
- **The site summary** (`summarizeSite`). It reduces the per-page audit
  results to:
  - per-page counts;
  - the total numbers of violations and of items needing review;
  - the ten rules with the most affected nodes, each with the metadata of
    its first finding.
- **Two helpers used to render the report**: `escapeHtml` and
  `impactBadge`.

The crawler is imperative, and so is its model. `Crawler.CrawlSite` keeps
the queue, the visited sequence and the queued set, and loops over them.
Its link loop is `Crawler.EnqueueLinks`. Both are proved against a
functional reference: `Crawler.Run` is the crawl loop as a recursion, one
clause per branch, and `Crawler.LinkWalk` is the link loop as a fold of
its one-href step. The loop invariant (`Crawler.Crawling`) has three
parts. Running `Run` from the current state yields the final result. Every
visited page is settled: it did not throw, its links are known unless the
cap was hit, and no visited or queued URL it links to lies more than one
level deeper. The last part is
the frontier predicate `Crawler.Frontier`:

- the queue and the visited list are duplicate-free and disjoint;
- `queued` is exactly the set of URLs in the queue;
- `|visited| + |queue|` never exceeds the page cap;
- every URL except the start was found on an earlier visited page that
  loaded;
- depths form breadth-first levels.

The browser and the URL parser are parameters:

- `Browser` maps a URL to one of three outcomes: navigation failed, which
  the crawl skips; `page.evaluate` threw, which aborts the crawl; or the
  page loaded, giving its non-empty `href`s.
- `Parser` stands for `new URL(href, base)`. It returns a URL record with
  protocol, origin, the serialisation without fragment, and the fragment.

The summary is mixed:

- Its two rule maps are filled by nested loops in `Reporter.AggregateRules`
  and `Reporter.AggregatePage`. A JavaScript `Map` is modelled as `JsMap`,
  which holds the entries and the key-insertion order.
- The per-page summaries, the totals and `topRules` are functions.
- The comparator sort is `Ranking.SortByCount`, a stable insertion sort.
  The ECMAScript specification has required `Array.prototype.sort` to be
  stable since 2019, so ties keep the map's insertion order, which is the
  order in which the rules were first seen.

## Model

| member | source | states |
|---|---|---|
| Crawler.EffectiveMaxPages | crawler.js:12 | The page cap is `min(maxPages, 200)`: 25 when the option is absent, the caller's value when that is at most 200, and exactly 200 otherwise. |
| Crawler.EffectiveMaxDepth | crawler.js:13 | The depth cap is `min(maxDepth, 10)`: 2 when the option is absent, the caller's value when that is at most 10, and exactly 10 otherwise. |
| Crawler.SameOriginOnly | crawler.js:14 | Same-origin crawling is on unless the caller sets it. |
| Crawler.CrawlSite | crawler.js:11-78 | The method returns exactly what `Crawl` computes. `Crawl` is the loop of crawler.js:30-69 written as the recursion `Run`, one clause per branch; its link loop is `LinkWalk`. So the visiting order, the pages kept at the page cap and the page an abort names are the source's. The crawl rejects exactly when the start URL does not parse. On success, `pages` is the result and `Crawled` holds of it with the ghost depths and parents: (1) no duplicates; (2) at most `maxPages` entries; (3) when `maxPages >= 1`, the start URL first, serialised with its fragment kept; (4) a discovery tree whose depths are non-decreasing, within `maxDepth`, and breadth-first: no listed page links to a listed URL more than one level below it; (5) every later URL is an href of its discovering page, which loaded, resolved by the parser against that page, http(s), in scope and serialised without fragment; (6) no page below the depth cap whose link extraction threw; (7) if the page cap was not reached, every link of every expanded page is in the result. On an abort, the pages visited up to it satisfy `Aborted`: they end with the named page, which lay below the depth cap and threw; they start with the start URL, have no duplicates, respect the page cap and form a breadth-first discovery tree; and no earlier page below the cap threw. |
| Crawler.EnqueueLinks | crawler.js:50-69 | The link loop appends to the queue exactly `Targets(w.links, depth + 1)`, where `w` is `LinkWalk` started from the visited and queued URLs with `maxPages - |visited| - |queue|` room left. These are the page's hrefs that normalise to a URL not yet visited or queued, in href order, each once, and the loop stops at the first such URL once that room is used up. It reports that stop as `capped`, and `queued` stays the set of queued URLs. |
| Crawler.LinkStatesMeaning | crawler.js:50-69 | After the first `k` hrefs, the link loop's state (`LinkStates`, the fold of the one-href step `NextLink`) has queued distinct URLs, none known at the start and each a normalised href of the page. It has queued no more than the room allowed, and the known set and the room have grown and shrunk by exactly those URLs. It has stopped only with the room used up; while it has not stopped, every href so far that normalises is known. |
| Crawler.LinkStepMeaning | crawler.js:50-69 | One turn of the link loop (`NextLink`) keeps what `LinkStatesMeaning` states. |
| Crawler.LinkWalkMeaning | crawler.js:50-69 | The walk's URLs are distinct, none known before, each among the page's links (`Links`), and at most `room` of them. The walk stops early only when `room` is used up; otherwise every link of the page is known afterwards. |
| Crawler.CappedStays | crawler.js:65 | Once the link loop has hit the `break`, the later hrefs change nothing. |
| Crawler.EnqueueResult | crawler.js:50-69 | After the link loop the queue has only grown, by links of the page at `depth + 1`. It stays duplicate-free, disjoint from the visited URLs and within the page cap. The loop stopped early only with the cap reached, and otherwise every link of the page is visited or queued. |
| Crawler.AppendTargets | crawler.js:67-68 | Pushing fresh, distinct URLs keeps the queue duplicate-free and disjoint from the visited URLs; the old queue is a prefix of the new one. |
| Crawler.ExpandPage | crawler.js:50-69 | For a loaded page below the depth cap, the link loop appends exactly `Expansion` of the page, the turn of `Run` that expands it, and restores the crawl loop's invariant (`Crawling`). |
| Crawler.VisitTurn | crawler.js:30-48 | One turn up to the link loop. The front target was never visited, and visiting it keeps the frontier invariant. A page at the depth cap or whose navigation fails ends the turn with the loop invariant restored. A page below the cap whose link extraction throws makes the crawl's result that error, and the pages so far satisfy `Aborted`. A loaded page leaves the rest of the crawl to `Run` after its expansion. |
| Crawler.VisitStep | crawler.js:30-35 | The front of the queue was never visited. Visiting it keeps the frontier invariant and the record of settled pages. |
| Crawler.ExpandStep | crawler.js:37-69 | Enqueuing a loaded page's links keeps the frontier invariant, including the breadth-first levels. It also settles that page: its links are known unless the page cap was hit. |
| Crawler.VisitLevels | crawler.js:31-37 | Dequeuing keeps the breadth-first levels of the pages settled so far; a page that will not be expanded is settled at once. |
| Crawler.ExpandLevels | crawler.js:50-69 | After the link loop of the last visited page, no visited page links to a visited or queued URL more than one level below its own depth. |
| Crawler.CrawlExit | crawler.js:30-72 | When the loop stops, the crawl's result is the visited list, and the loop invariant gives every property `Crawled` names: the cap, the start URL first, the depth bound, breadth-first depths, the resolved in-scope hrefs and, if the cap was not reached, closure under the links of its pages. |
| Crawler.TreeDepthBound | crawler.js:37-67 | In a discovery tree no URL is deeper than `maxDepth`, because only pages below the cap are expanded. |
| Crawler.DiscoveredInScope | crawler.js:50-62 | Every URL of a discovery tree but the first is what the parser makes of one of the hrefs (`ResolvedFrom`) of the page it was discovered on, which loaded. That href resolves against the page, is http(s), is in scope, and is serialised with its fragment cleared. It holds no `#` when the parser's serialisation is well formed. |
| Crawler.ShiftQueue | crawler.js:31-32 | Taking the front of the queue removes exactly its URL from `queued`, and the rest of the queue stays duplicate-free. |
| Crawler.ExtendKnown | crawler.js:67-68 | Appending to the queue never loses a known URL. |
| Urls.Normalize | crawler.js:52-62 | An href is kept exactly when it resolves against the page, is http(s) and is in scope (`InScope`, crawler.js:58-59). The kept string is the resolved URL serialised (`Serialize`) with its fragment cleared. When the parser's serialisation without fragment contains no `#` (`WellFormed`), neither does the kept string. |
| Urls.LinksMember | crawler.js:50-63 | A URL is among a page's links (`Links`, the set the link loop can enqueue) exactly when some href of the page normalises to it. |
| Html.ReplaceAll | reporter.js:3-7 | `replaceAll` with a one-character pattern leaves a string without that character unchanged. |
| Html.EscapeHtml | reporter.js:1-8 | The five chained replacements (`Passes`, each a `ReplaceAll`) equal escaping each character to its character reference. The output contains no `<`, `>`, `"` or `'`. |
| Html.PassesEscapeEach | reporter.js:2-7 | Because `&` is replaced first, the chain of `replaceAll` calls never re-escapes an ampersand it introduced. The chain equals per-character escaping. |
| Html.UnescapeEscapeHtml | reporter.js:1-8 | Decoding the five references gives back the input exactly. |
| Html.EscapeHtmlInjective | reporter.js:1-8 | Distinct strings escape to distinct strings. |
| Html.EscapeEachHasNoMarkup | reporter.js:4-7 | Per-character escaping leaves no `<`, `>`, `"` or `'`. |
| Html.ReplaceAllAppend | reporter.js:3-7 | `replaceAll` with a one-character pattern distributes over concatenation. |
| Html.Lower | reporter.js:56 | Lower-casing keeps the length, lower-cases each character (ASCII) and leaves no upper-case letter. |
| Html.LowerIdempotent | reporter.js:56 | Lower-casing a lower-cased string changes nothing. |
| Html.ImpactLevel | reporter.js:56 | A missing or empty impact reads as "unknown". Any other impact is lower-cased, and the result has no upper-case letters. |
| Html.BadgeClass | reporter.js:60-69 | The class is `badge badge-<v>` exactly for critical, serious, moderate and minor, and `badge` otherwise. |
| Html.ImpactBadge | reporter.js:55-72 | The badge is the span (`Span`, reporter.js:71) whose class is `BadgeClass` of the impact level and whose text is `EscapeHtml` of that level, so the label has no markup and decodes back to the level. |
| Html.ImpactBadgeIgnoresCase | reporter.js:56 | Any spelling of an impact, the empty one included, gives the same badge as its lower-case form. |
| Ranking.Insert | reporter.js:42 | Inserting an entry into a ranking adds exactly that entry. |
| Ranking.InsertSorted | reporter.js:42 | Inserting into a list in descending order of count keeps it in descending order. |
| Ranking.InsertStable | reporter.js:42 | Insertion places the new entry before the entries with the same count: the sort is stable. |
| Ranking.InsertDistinct | reporter.js:42 | Inserting an entry with a new id keeps ids distinct. |
| Ranking.SortByCount | reporter.js:41-42 | The sorted entries are a permutation of the input, in non-increasing order of count. Distinct ids stay distinct. For every count, the entries with that count keep their input order. |
| Ranking.WithCountAppend | reporter.js:42 | The entries with a given count, taken from a concatenation, are those of each part in turn. |
| Ranking.WithCountPrefix | reporter.js:43 | A prefix of a list keeps a prefix of its entries with each count. |
| Ranking.Take | reporter.js:43 | `slice(0, n)` keeps the first `min(n, length)` entries. |
| Ranking.SortedMember | reporter.js:42 | Sorting keeps every entry. |
| Ranking.TakeSorted | reporter.js:41-43 | The first `n` sorted entries are entries of the input, in non-increasing order of count, with distinct ids when the input's are. |
| Ranking.TakeCutoff | reporter.js:41-43 | An entry of a descending list that its first `n` leave out lies past a full prefix of `n`, and counts no more than the `n`-th. |
| Reporter.PageSummaries | reporter.js:11-15 | There is one summary per report, in order, carrying the report's URL and the lengths of its violation and incomplete lists. A missing list counts as 0 (`FindingsOf`). |
| Reporter.TotalCountsFindings | reporter.js:17-19 | Each total (`Total`, the `reduce` of reporter.js:18-19) is the number of findings of its kind over all pages. A page without results counts as 0. |
| Reporter.TotalMatchesPageSummaries | reporter.js:11-19 | Each total equals the sum of the matching column of the page summaries. |
| Reporter.RuleIds | reporter.js:25-28 | The rule ids in order of first appearance are distinct, and they are exactly the ids of the findings. |
| Reporter.RuleCountAbsent | reporter.js:27-28 | A rule that has no finding has count 0. |
| Reporter.FirstMeta | reporter.js:29-37 | A rule has metadata exactly when it has a finding. That metadata is the defaulted metadata of its first finding (`MetaOf`: `help`, `helpUrl` and `description` default to "", `impact` to "unknown"). |
| Reporter.FirstMetaSnoc | reporter.js:29-37 | A later finding never overwrites the metadata of a rule already seen. |
| Reporter.CountsAfterMeaning | reporter.js:22-28 | `CountsAfter`, the fold of the loop body's update `AddCount` (reporter.js:27-28, node count `NodeCount`) over the findings, iterates the rule ids in first-seen order. It maps each id to the total node count of that rule's findings. |
| Reporter.MetaAfterMeaning | reporter.js:23-37 | `MetaAfter`, the fold of the guarded update `AddMeta` (reporter.js:29-37) over the findings, has the same keys, each mapped to the metadata of its rule's first finding. |
| Reporter.SetSemantics | reporter.js:28-30 | `Map.prototype.set` (`JsMap.Set`) replaces the entry for its key and keeps the others; the iteration order is unchanged for a known key and gains the key at the end for a new one. |
| Reporter.AggregatePage | reporter.js:26-38 | The inner loop over one page's violations updates the two maps as the specification functions say, for the findings seen so far followed by that page's. |
| Reporter.AggregateRules | reporter.js:22-39 | The nested loops leave `ruleCounts` and `ruleMeta` as the specification functions give them for the flattened violations of all pages. |
| Reporter.Entries | reporter.js:41 | `Array.from(map.entries())` gives one `[key, value]` pair per key, in iteration order. |
| Reporter.RuleEntries | reporter.js:41 | The map's entries are one `[id, count]` pair per rule, in first-seen order, with distinct ids. |
| Reporter.TopRuleAt | reporter.js:41-44 | The `i`-th entry of `topRules` has the id and count of the `i`-th sorted entry and the metadata of its rule's first finding. |
| Reporter.TopRulesCounted | reporter.js:41-43 | The `[id, count]` pairs of `topRules` are the first ten sorted entries. |
| Reporter.TopRulesRanked | reporter.js:41-44 | `topRules` (`TopRules` on the two maps, `TopRulesOf` on the findings) is the first ten sorted entries, each carrying its rule's first-seen metadata. |
| Reporter.TopRulesShape | reporter.js:41-44 | `topRules` has `min(10, number of rules)` entries with distinct ids. Each entry has its rule's total node count and first-seen metadata, and counts do not increase along the list. |
| Reporter.EntriesShape | reporter.js:41-43 | The first ten sorted entries number `min(10, number of rules)`, with distinct ids, each with its rule's node count, in descending order of count. |
| Reporter.TopRulesCutoff | reporter.js:41-43 | A rule is left out only when ten rules were kept. A left-out rule has no more nodes than the tenth. |
| Reporter.EntriesCutoff | reporter.js:41-43 | A rule missing from the first ten sorted entries comes after ten of them, and has no more nodes than the tenth. |
| Reporter.TopRulesTies | reporter.js:41-43 | Among rules with equal counts, those kept are the first seen, in first-seen order. |
| Reporter.SummarizeSite | reporter.js:10-53 | `totalPages` is the number of reports, and `pageSummaries` are the per-page summaries. Each total counts all findings of its kind. `topRules` is the ranking of the aggregated rule counts. |

## Left out

- The browser (Playwright launch, `page.goto`, `page.evaluate`, timeouts, closing in `finally`) is the `Browser` parameter. The `filter(Boolean)` that drops empty hrefs is part of what it returns.
- URL parsing and serialisation (`new URL`, `.origin`, `.protocol`, `.toString()`) are the `Parser` parameter and the `Url` record. The WHATWG URL parser is not modelled.
- Urls.Normalize: the parser is not assumed to produce well-formed serialisations (no `#` before the fragment), so "a kept URL has no `#`" is stated only under `WellFormed`.
- `Number(options.maxPages)` and `Number(options.maxDepth)` can yield NaN or a fraction. The model takes the options as integers or absent.
- `toLowerCase` is modelled for ASCII letters only.
- `escapeHtml`'s `String(str)` coercion is not modelled: its argument is a string here.
- Rule ids are strings. An `undefined` id used as a Map key is not modelled.
- Reporter.TopRules: requires every counted rule to have metadata. In the source both maps are filled for every violation, so the `?? { id }` fallback at reporter.js:44 can never be taken.
- Crawler.CrawlSite: the `visited.has(url)` test at crawler.js:34 is dead in the model. A queued URL is never already visited, as the frontier invariant proves.
- The HTML template of `generateHtmlReport` (reporter.js:74-490) is presentation only. Its empty-`topRules` fallback (reporter.js:91,108) is not modelled.
- scanner.js (the browser and axe-core calls) is not part of this model.
- server.js (HTTP routing, files, random report ids) is not part of this model.
- Asynchrony is not modelled: every `await` is a plain call.
