/** `summarizeSite` (reporter.js:10-53): the site-level reduction of the
    per-page audit results that the HTML report is rendered from. */
module Reporter {
  import opened Wrappers
  import opened Seqs
  import opened Ranking

  // ---- Audit results, as the audit engine returns them ----

  /** One affected element of a finding. */
  datatype Node = Node(target: seq<string>, failureSummary: Option<string>)

  /** One rule violation or needs-review item; absent fields are `undefined`. */
  datatype Finding = Finding(id: string, impact: Option<string>, description: Option<string>,
                             help: Option<string>, helpUrl: Option<string>, nodes: Option<seq<Node>>)

  datatype AuditResults = AuditResults(violations: Option<seq<Finding>>, incomplete: Option<seq<Finding>>)

  /** One scanned page; `results` is absent when the scan produced none. */
  datatype PageReport = PageReport(url: string, results: Option<AuditResults>)

  /** Which list of a page's results is read. */
  datatype Kind = Violations | Incomplete

  /** `r.results?.violations ?? []`, or the same for `incomplete`. */
  function FindingsOf(r: PageReport, kind: Kind): seq<Finding>
  {
    match r.results
    case None => []
    case Some(res) => (if kind == Violations then res.violations else res.incomplete).GetOr([])
  }

  /** `v.nodes?.length ?? 0`. */
  function NodeCount(f: Finding): nat
  {
    if f.nodes.Some? then |f.nodes.value| else 0
  }

  // ---- Per-page summaries and totals ----

  datatype PageSummary = PageSummary(url: string, violations: nat, incomplete: nat)

  function SummaryOf(r: PageReport): PageSummary
  {
    PageSummary(r.url, |FindingsOf(r, Violations)|, |FindingsOf(r, Incomplete)|)
  }

  function Field(p: PageSummary, kind: Kind): nat
  {
    if kind == Violations then p.violations else p.incomplete
  }

  /** `reports.map(...)`: one summary per report, in order, carrying its
      URL and the lengths of its two lists (0 when missing). */
  function PageSummaries(reports: seq<PageReport>): (ps: seq<PageSummary>)
    ensures |ps| == |reports|
    ensures forall i :: 0 <= i < |reports| ==>
              ps[i].url == reports[i].url &&
              ps[i].violations == |FindingsOf(reports[i], Violations)| &&
              ps[i].incomplete == |FindingsOf(reports[i], Incomplete)|
  {
    if reports == [] then [] else [SummaryOf(reports[0])] + PageSummaries(reports[1..])
  }

  /** `reports.reduce((acc, r) => acc + (r.results?.violations?.length ?? 0), 0)`,
      or the same for `incomplete`. */
  function Total(reports: seq<PageReport>, kind: Kind): nat
  {
    if reports == [] then 0
    else Total(reports[..|reports| - 1], kind) + |FindingsOf(reports[|reports| - 1], kind)|
  }

  /** Every finding of one kind on every page, page after page: the order
      in which the aggregation loop meets them. */
  function AllFindings(reports: seq<PageReport>, kind: Kind): seq<Finding>
  {
    if reports == [] then []
    else AllFindings(reports[..|reports| - 1], kind) + FindingsOf(reports[|reports| - 1], kind)
  }

  /** A total counts every finding of its kind exactly once. */
  lemma {:induction false} TotalCountsFindings(reports: seq<PageReport>, kind: Kind)
    ensures Total(reports, kind) == |AllFindings(reports, kind)|
  {
    if reports != [] {
      TotalCountsFindings(reports[..|reports| - 1], kind);
    }
  }

  /** The sum of one column of the page summaries. */
  function SumOf(ps: seq<PageSummary>, kind: Kind): nat
  {
    if ps == [] then 0 else Field(ps[0], kind) + SumOf(ps[1..], kind)
  }

  lemma {:induction false} SumOfSnoc(ps: seq<PageSummary>, p: PageSummary, kind: Kind)
    ensures SumOf(ps + [p], kind) == SumOf(ps, kind) + Field(p, kind)
  {
    if ps == [] {
      assert ps + [p] == [p];
    } else {
      assert (ps + [p])[1..] == ps[1..] + [p];
      SumOfSnoc(ps[1..], p, kind);
    }
  }

  /** Each total equals the sum of the matching column of the page
      summaries shown beside it. */
  lemma {:induction false} TotalMatchesPageSummaries(reports: seq<PageReport>, kind: Kind)
    ensures Total(reports, kind) == SumOf(PageSummaries(reports), kind)
  {
    if reports != [] {
      var init, last := reports[..|reports| - 1], reports[|reports| - 1];
      TotalMatchesPageSummaries(init, kind);
      var ps := PageSummaries(reports);
      assert ps == PageSummaries(init) + [ps[|ps| - 1]];
      SumOfSnoc(PageSummaries(init), ps[|ps| - 1], kind);
    }
  }

  // ---- Per-rule aggregation ----

  /** The first-seen description of a rule: `help`, `helpUrl` and
      `description` default to "", `impact` to "unknown". */
  datatype RuleMeta = RuleMeta(id: string, help: string, helpUrl: string, impact: string, description: string)

  function MetaOf(f: Finding): RuleMeta
  {
    RuleMeta(f.id, f.help.GetOr(""), f.helpUrl.GetOr(""), f.impact.GetOr("unknown"), f.description.GetOr(""))
  }

  ghost predicate HasRule(fs: seq<Finding>, id: string)
  {
    exists k :: 0 <= k < |fs| && fs[k].id == id
  }

  /** The distinct rule ids of `fs` in order of first appearance. */
  function RuleIds(fs: seq<Finding>): (ids: seq<string>)
    ensures Distinct(ids)
    ensures forall id :: id in ids <==> HasRule(fs, id)
  {
    if fs == [] then []
    else
      var init, last := fs[..|fs| - 1], fs[|fs| - 1];
      var ids := RuleIds(init);
      assert forall id :: HasRule(fs, id) <==> HasRule(init, id) || last.id == id by {
        forall id ensures HasRule(fs, id) <==> HasRule(init, id) || last.id == id {
          if HasRule(init, id) {
            var k :| 0 <= k < |init| && init[k].id == id;
            assert fs[k] == init[k];
          }
          if HasRule(fs, id) {
            var k :| 0 <= k < |fs| && fs[k].id == id;
            if k < |init| {
              assert init[k] == fs[k];
            }
          }
        }
      }
      if last.id in ids then ids else ids + [last.id]
  }

  /** The number of affected nodes summed over the findings with this id. */
  function RuleCount(fs: seq<Finding>, id: string): nat
  {
    if fs == [] then 0
    else RuleCount(fs[..|fs| - 1], id) + (if fs[|fs| - 1].id == id then NodeCount(fs[|fs| - 1]) else 0)
  }

  /** A rule that never occurs has no nodes. */
  lemma {:induction false} RuleCountAbsent(fs: seq<Finding>, id: string)
    requires !HasRule(fs, id)
    ensures RuleCount(fs, id) == 0
  {
    if fs != [] {
      RuleCountAbsent(fs[..|fs| - 1], id);
    }
  }

  /** The metadata of the first finding with this id, if any. */
  function FirstMeta(fs: seq<Finding>, id: string): (m: Option<RuleMeta>)
    ensures m.Some? <==> HasRule(fs, id)
    ensures m.Some? ==> exists k :: 0 <= k < |fs| && fs[k].id == id && m.value == MetaOf(fs[k]) &&
                                  forall k' :: 0 <= k' < k ==> fs[k'].id != id
  {
    if fs == [] then None
    else if fs[0].id == id then Some(MetaOf(fs[0]))
    else
      var m := FirstMeta(fs[1..], id);
      assert HasRule(fs, id) ==> HasRule(fs[1..], id) by {
        if HasRule(fs, id) {
          var k :| 0 <= k < |fs| && fs[k].id == id;
          assert fs[1..][k - 1] == fs[k];
        }
      }
      assert HasRule(fs[1..], id) ==> HasRule(fs, id) by {
        if HasRule(fs[1..], id) {
          var k :| 0 <= k < |fs[1..]| && fs[1..][k].id == id;
          assert fs[k + 1] == fs[1..][k];
        }
      }
      assert m.Some? ==> exists k :: 0 <= k < |fs| && fs[k].id == id && m.value == MetaOf(fs[k]) &&
                                   forall k' :: 0 <= k' < k ==> fs[k'].id != id by {
        if m.Some? {
          var k :| 0 <= k < |fs[1..]| && fs[1..][k].id == id && m.value == MetaOf(fs[1..][k]) &&
                   forall k' :: 0 <= k' < k ==> fs[1..][k'].id != id;
          assert fs[k + 1] == fs[1..][k];
          forall k' | 0 <= k' < k + 1 ensures fs[k'].id != id {
            if k' > 0 {
              assert fs[k'] == fs[1..][k' - 1];
            }
          }
        }
      }
      m
  }

  /** Appending a finding never changes the metadata of a rule already
      seen: metadata is taken from the first occurrence only. */
  lemma {:induction false} FirstMetaSnoc(fs: seq<Finding>, f: Finding, id: string)
    ensures FirstMeta(fs + [f], id) ==
              if FirstMeta(fs, id).Some? then FirstMeta(fs, id)
              else if f.id == id then Some(MetaOf(f))
              else None
  {
    if fs == [] {
      assert fs + [f] == [f];
    } else {
      assert (fs + [f])[0] == fs[0];
      assert (fs + [f])[1..] == fs[1..] + [f];
      FirstMetaSnoc(fs[1..], f, id);
    }
  }

  /** A JavaScript `Map` with string keys: its entries, and its keys in
      the order they were first set, which is the order it iterates in. */
  datatype JsMap<V> = JsMap(keys: seq<string>, values: map<string, V>)
  {
    ghost predicate Valid()
    {
      Distinct(keys) && Elems(keys) == values.Keys
    }

    /** `m.set(k, v)`: a new key goes to the end of the iteration order. */
    function Set(k: string, v: V): JsMap<V>
    {
      if k in values then JsMap(keys, values[k := v]) else JsMap(keys + [k], values[k := v])
    }
  }

  /** The rule ids after one more finding: a new id goes last. */
  lemma RuleIdsSnoc(fs: seq<Finding>, v: Finding)
    ensures RuleIds(fs + [v]) == if v.id in RuleIds(fs) then RuleIds(fs) else RuleIds(fs) + [v.id]
  {
    var fs' := fs + [v];
    assert fs'[..|fs'| - 1] == fs;
  }

  lemma RuleCountSnoc(fs: seq<Finding>, v: Finding, id: string)
    ensures RuleCount(fs + [v], id) == RuleCount(fs, id) + (if v.id == id then NodeCount(v) else 0)
  {
    var fs' := fs + [v];
    assert fs'[..|fs'| - 1] == fs;
  }

  /** `Map.prototype.set`: the entry for `k` becomes `v`, every other entry
      is kept, and the iteration order only grows, by `k` at the end when
      `k` is new. */
  lemma SetSemantics<V>(m: JsMap<V>, k: string, v: V)
    requires m.Valid()
    ensures m.Set(k, v).Valid()
    ensures m.Set(k, v).values == m.values[k := v]
    ensures k in m.values ==> m.Set(k, v).keys == m.keys
    ensures k !in m.values ==> m.Set(k, v).keys == m.keys + [k]
    ensures Elems(m.Set(k, v).keys) == Elems(m.keys) + {k}
  {
  }

  /** The `ruleCounts` update for one violation: add its node count to
      its rule's total, starting from 0 for a new rule. */
  function AddCount(counts: JsMap<nat>, f: Finding): JsMap<nat>
  {
    counts.Set(f.id, (if f.id in counts.values then counts.values[f.id] else 0) + NodeCount(f))
  }

  /** The `ruleMeta` update for one violation: only a new rule records it. */
  function AddMeta(meta: JsMap<RuleMeta>, f: Finding): JsMap<RuleMeta>
  {
    if f.id in meta.values then meta else meta.Set(f.id, MetaOf(f))
  }

  /** `ruleCounts` after the findings `fs`, met in order. */
  function CountsAfter(fs: seq<Finding>): JsMap<nat>
  {
    if fs == [] then JsMap([], map[]) else AddCount(CountsAfter(fs[..|fs| - 1]), fs[|fs| - 1])
  }

  /** `ruleMeta` after the findings `fs`, met in order. */
  function MetaAfter(fs: seq<Finding>): JsMap<RuleMeta>
  {
    if fs == [] then JsMap([], map[]) else AddMeta(MetaAfter(fs[..|fs| - 1]), fs[|fs| - 1])
  }

  lemma AfterSnoc(fs: seq<Finding>, v: Finding)
    ensures CountsAfter(fs + [v]) == AddCount(CountsAfter(fs), v)
    ensures MetaAfter(fs + [v]) == AddMeta(MetaAfter(fs), v)
  {
    var fs' := fs + [v];
    assert fs'[..|fs'| - 1] == fs;
  }

  /** `ruleCounts` iterates the rule ids in order of first appearance and
      maps each to the node count summed over all its findings. */
  lemma {:induction false} CountsAfterMeaning(fs: seq<Finding>)
    ensures CountsAfter(fs).Valid()
    ensures CountsAfter(fs).keys == RuleIds(fs)
    ensures forall id :: id in CountsAfter(fs).values ==> CountsAfter(fs).values[id] == RuleCount(fs, id)
  {
    if fs != [] {
      var init, v := fs[..|fs| - 1], fs[|fs| - 1];
      assert fs == init + [v];
      CountsAfterMeaning(init);
      RuleIdsSnoc(init, v);
      var c := CountsAfter(init);
      SetSemantics(c, v.id, (if v.id in c.values then c.values[v.id] else 0) + NodeCount(v));
      if v.id !in c.values {
        RuleCountAbsent(init, v.id);
      }
      forall id | id in CountsAfter(fs).values ensures CountsAfter(fs).values[id] == RuleCount(fs, id) {
        RuleCountSnoc(init, v, id);
      }
    }
  }

  /** `ruleMeta` has the same keys, and maps each rule to the metadata of
      its first finding. */
  lemma {:induction false} MetaAfterMeaning(fs: seq<Finding>)
    ensures MetaAfter(fs).Valid()
    ensures MetaAfter(fs).keys == RuleIds(fs)
    ensures forall id :: id in MetaAfter(fs).values ==> Some(MetaAfter(fs).values[id]) == FirstMeta(fs, id)
  {
    if fs != [] {
      var init, v := fs[..|fs| - 1], fs[|fs| - 1];
      assert fs == init + [v];
      MetaAfterMeaning(init);
      RuleIdsSnoc(init, v);
      if v.id !in MetaAfter(init).values {
        SetSemantics(MetaAfter(init), v.id, MetaOf(v));
      }
      forall id | id in MetaAfter(fs).values ensures Some(MetaAfter(fs).values[id]) == FirstMeta(fs, id) {
        FirstMetaSnoc(init, v, id);
      }
    }
  }

  lemma PrefixSnoc<T>(seen: seq<T>, s: seq<T>, j: nat)
    requires j < |s|
    ensures seen + s[..j + 1] == (seen + s[..j]) + [s[j]]
  {
    assert s[..j + 1] == s[..j] + [s[j]];
  }

  /** The loop body of reporter.js:30-37 computes `AddCount` and `AddMeta`. */
  lemma AddStep(counts: JsMap<nat>, meta: JsMap<RuleMeta>, v: Finding, total: nat)
    requires total == (if v.id in counts.values then counts.values[v.id] else 0) + NodeCount(v)
    ensures counts.Set(v.id, total) == AddCount(counts, v)
    ensures (if v.id in meta.values then meta else meta.Set(v.id, MetaOf(v))) == AddMeta(meta, v)
  {
  }

  /** The inner loop of reporter.js:26-38, over the violations of one
      page, continuing from the maps built for the findings `seen`. */
  method AggregatePage(ghost seen: seq<Finding>, violations: seq<Finding>,
                       counts: JsMap<nat>, meta: JsMap<RuleMeta>)
    returns (ruleCounts: JsMap<nat>, ruleMeta: JsMap<RuleMeta>)
    requires counts == CountsAfter(seen) && meta == MetaAfter(seen)
    ensures ruleCounts == CountsAfter(seen + violations)
    ensures ruleMeta == MetaAfter(seen + violations)
  {
    ruleCounts, ruleMeta := counts, meta;
    assert seen + violations[..0] == seen;
    for j := 0 to |violations|
      invariant ruleCounts == CountsAfter(seen + violations[..j])
      invariant ruleMeta == MetaAfter(seen + violations[..j])
    {
      var v := violations[j];
      ghost var done := seen + violations[..j];
      var count := NodeCount(v);
      var previous := if v.id in ruleCounts.values then ruleCounts.values[v.id] else 0;
      AddStep(ruleCounts, ruleMeta, v, previous + count);
      ruleCounts := ruleCounts.Set(v.id, previous + count);
      if v.id !in ruleMeta.values {
        ruleMeta := ruleMeta.Set(v.id, MetaOf(v));
      }
      AfterSnoc(done, v);
      PrefixSnoc(seen, violations, j);
    }
    assert violations[..|violations|] == violations;
  }

  /** The aggregation loop of reporter.js:25-39: for every violation of
      every page, add its node count to its rule's total and record its
      metadata if the rule is new. */
  method AggregateRules(reports: seq<PageReport>) returns (ruleCounts: JsMap<nat>, ruleMeta: JsMap<RuleMeta>)
    ensures ruleCounts == CountsAfter(AllFindings(reports, Violations))
    ensures ruleMeta == MetaAfter(AllFindings(reports, Violations))
  {
    ruleCounts, ruleMeta := JsMap([], map[]), JsMap([], map[]);
    for i := 0 to |reports|
      invariant ruleCounts == CountsAfter(AllFindings(reports[..i], Violations))
      invariant ruleMeta == MetaAfter(AllFindings(reports[..i], Violations))
    {
      ruleCounts, ruleMeta := AggregatePage(AllFindings(reports[..i], Violations), FindingsOf(reports[i], Violations),
                                            ruleCounts, ruleMeta);
      assert reports[..i + 1][..i] == reports[..i];
    }
    assert reports[..|reports|] == reports;
  }

  // ---- Ranking ----

  /** One entry of `topRules`: the rule's metadata spread, plus its count. */
  datatype TopRule = TopRule(id: string, help: string, helpUrl: string, impact: string, description: string, count: nat)

  const TopRuleLimit: nat := 10

  /** `Array.from(ruleCounts.entries())`. */
  function Entries(counts: JsMap<nat>): (es: seq<Entry>)
    requires counts.Valid()
    ensures |es| == |counts.keys|
    ensures forall i :: 0 <= i < |es| ==> es[i] == Entry(counts.keys[i], counts.values[counts.keys[i]])
  {
    seq(|counts.keys|, i requires 0 <= i < |counts.keys| => Entry(counts.keys[i], counts.values[counts.keys[i]]))
  }

  /** reporter.js:41-44: sort the entries by descending count, keep the
      first ten and attach each rule's metadata. */
  function TopRules(counts: JsMap<nat>, meta: JsMap<RuleMeta>): (top: seq<TopRule>)
    requires counts.Valid() && counts.values.Keys <= meta.values.Keys
  {
    var ranked := Take(SortByCount(Entries(counts)), TopRuleLimit);
    RankedKnown(counts, meta, ranked);
    seq(|ranked|, i requires 0 <= i < |ranked| =>
      var m := meta.values[ranked[i].id];
      TopRule(m.id, m.help, m.helpUrl, m.impact, m.description, ranked[i].count))
  }

  /** Every ranked entry names a rule with metadata. */
  lemma RankedKnown(counts: JsMap<nat>, meta: JsMap<RuleMeta>, ranked: seq<Entry>)
    requires counts.Valid() && counts.values.Keys <= meta.values.Keys
    requires ranked == Take(SortByCount(Entries(counts)), TopRuleLimit)
    ensures forall i :: 0 <= i < |ranked| ==> ranked[i].id in meta.values
  {
    var sorted := SortByCount(Entries(counts));
    forall i | 0 <= i < |ranked| ensures ranked[i].id in meta.values {
      assert ranked[i] == sorted[i];
      assert sorted[i] in multiset(sorted);
      assert sorted[i] in multiset(Entries(counts));
      var k :| 0 <= k < |counts.keys| && Entries(counts)[k] == sorted[i];
      assert counts.keys[k] in Elems(counts.keys);
    }
  }

  /** The `topRules` that `summarizeSite` returns for the violations `fs`. */
  function TopRulesOf(fs: seq<Finding>): seq<TopRule>
  {
    CountsAfterMeaning(fs);
    MetaAfterMeaning(fs);
    TopRules(CountsAfter(fs), MetaAfter(fs))
  }

  /** `Array.from(ruleCounts.entries())` for the violations `fs`: one
      entry per rule, in order of first appearance, with its node count. */
  function RuleEntries(fs: seq<Finding>): (es: seq<Entry>)
    ensures |es| == |RuleIds(fs)|
    ensures forall i :: 0 <= i < |es| ==> es[i] == Entry(RuleIds(fs)[i], RuleCount(fs, RuleIds(fs)[i]))
    ensures DistinctIds(es)
  {
    CountsAfterMeaning(fs);
    Entries(CountsAfter(fs))
  }

  /** The `[id, count]` pairs of a `topRules` list. */
  function Counted(top: seq<TopRule>): (es: seq<Entry>)
    ensures |es| == |top|
    ensures forall i :: 0 <= i < |top| ==> es[i].id == top[i].id && es[i].count == top[i].count
  {
    seq(|top|, i requires 0 <= i < |top| => Entry(top[i].id, top[i].count))
  }

  /** The `i`-th entry of `topRules` is the `i`-th sorted entry with the
      metadata of its rule's first finding. */
  lemma TopRuleAt(fs: seq<Finding>, i: nat)
    requires i < |TopRulesOf(fs)|
    ensures var top, sorted := TopRulesOf(fs), SortByCount(RuleEntries(fs));
            && i < |sorted| && top[i].id == sorted[i].id && top[i].count == sorted[i].count
            && FirstMeta(fs, top[i].id) == Some(RuleMeta(top[i].id, top[i].help, top[i].helpUrl, top[i].impact, top[i].description))
  {
    CountsAfterMeaning(fs);
    MetaAfterMeaning(fs);
    var top := TopRulesOf(fs);
    var sorted := SortByCount(RuleEntries(fs));
    var ranked := Take(sorted, TopRuleLimit);
    var id := ranked[i].id;
    assert ranked[i] == sorted[i];
    assert sorted[i] in multiset(RuleEntries(fs));
    assert id in RuleIds(fs);
    var m := MetaAfter(fs).values[id];
    assert Some(m) == FirstMeta(fs, id);
    var k :| 0 <= k < |fs| && fs[k].id == id && m == MetaOf(fs[k]) && forall k' :: 0 <= k' < k ==> fs[k'].id != id;
    assert top[i] == TopRule(m.id, m.help, m.helpUrl, m.impact, m.description, ranked[i].count);
  }

  /** The `[id, count]` pairs of `topRules` are the first ten sorted entries. */
  lemma TopRulesCounted(fs: seq<Finding>)
    ensures Counted(TopRulesOf(fs)) == Take(SortByCount(RuleEntries(fs)), TopRuleLimit)
  {
    CountsAfterMeaning(fs);
    MetaAfterMeaning(fs);
    var top := TopRulesOf(fs);
    var ranked := Take(SortByCount(RuleEntries(fs)), TopRuleLimit);
    assert |top| == |ranked|;
    forall i | 0 <= i < |top| ensures Counted(top)[i] == ranked[i] {
      TopRuleAt(fs, i);
    }
  }

  /** `topRules` is the first ten of the sorted entries, each carrying the
      metadata of the first finding of its rule. */
  lemma TopRulesRanked(fs: seq<Finding>)
    ensures var top := TopRulesOf(fs);
            && Counted(top) == Take(SortByCount(RuleEntries(fs)), TopRuleLimit)
            && forall i :: 0 <= i < |top| ==>
                 FirstMeta(fs, top[i].id) == Some(RuleMeta(top[i].id, top[i].help, top[i].helpUrl, top[i].impact, top[i].description))
  {
    TopRulesCounted(fs);
    var top := TopRulesOf(fs);
    forall i | 0 <= i < |top|
      ensures FirstMeta(fs, top[i].id) == Some(RuleMeta(top[i].id, top[i].help, top[i].helpUrl, top[i].impact, top[i].description))
    {
      TopRuleAt(fs, i);
    }
  }

  /** `topRules` holds min(10, number of rules) distinct rules, each with
      its total node count and its first finding's metadata, in
      descending order of count. */
  lemma TopRulesShape(fs: seq<Finding>)
    ensures var top := TopRulesOf(fs);
            && |top| == Min(TopRuleLimit, |RuleIds(fs)|)
            && (forall i :: 0 <= i < |top| ==> top[i].id in RuleIds(fs) && top[i].count == RuleCount(fs, top[i].id))
            && (forall i :: 0 <= i < |top| ==>
                  FirstMeta(fs, top[i].id) == Some(RuleMeta(top[i].id, top[i].help, top[i].helpUrl, top[i].impact, top[i].description)))
            && (forall i, j :: 0 <= i < j < |top| ==> top[i].id != top[j].id)
            && (forall i, j :: 0 <= i < j < |top| ==> top[i].count >= top[j].count)
  {
    TopRulesRanked(fs);
    var top := TopRulesOf(fs);
    var kept := Counted(top);
    EntriesShape(fs, kept);
    assert forall i :: 0 <= i < |top| ==> kept[i].id == top[i].id && kept[i].count == top[i].count;
  }

  /** The first ten sorted entries are at most ten distinct rules, as many
      as there are when fewer, each with its node count, in descending
      order of count. */
  lemma EntriesShape(fs: seq<Finding>, kept: seq<Entry>)
    requires kept == Take(SortByCount(RuleEntries(fs)), TopRuleLimit)
    ensures |kept| == Min(TopRuleLimit, |RuleIds(fs)|)
    ensures forall i :: 0 <= i < |kept| ==> kept[i].id in RuleIds(fs) && kept[i].count == RuleCount(fs, kept[i].id)
    ensures DistinctIds(kept) && NonIncreasing(kept)
  {
    var es := RuleEntries(fs);
    TakeSorted(es, TopRuleLimit);
    forall i | 0 <= i < |kept| ensures kept[i].id in RuleIds(fs) && kept[i].count == RuleCount(fs, kept[i].id) {
      var p :| 0 <= p < |es| && es[p] == kept[i];
    }
  }

  /** A rule left out of `topRules` only when ten rules were kept, and it
      has no more nodes than the last of them. */
  lemma TopRulesCutoff(fs: seq<Finding>, id: string)
    requires id in RuleIds(fs)
    requires forall i :: 0 <= i < |TopRulesOf(fs)| ==> TopRulesOf(fs)[i].id != id
    ensures |TopRulesOf(fs)| == TopRuleLimit
    ensures RuleCount(fs, id) <= TopRulesOf(fs)[TopRuleLimit - 1].count
  {
    TopRulesCounted(fs);
    var top := TopRulesOf(fs);
    var kept := Counted(top);
    assert forall i :: 0 <= i < |kept| ==> kept[i].id == top[i].id;
    EntriesCutoff(fs, id, kept);
  }

  /** A rule missing from the first ten sorted entries comes after ten of
      them, and has no more nodes than the tenth. */
  lemma EntriesCutoff(fs: seq<Finding>, id: string, kept: seq<Entry>)
    requires id in RuleIds(fs) && kept == Take(SortByCount(RuleEntries(fs)), TopRuleLimit)
    requires forall i :: 0 <= i < |kept| ==> kept[i].id != id
    ensures |kept| == TopRuleLimit && RuleCount(fs, id) <= kept[TopRuleLimit - 1].count
  {
    var es := RuleEntries(fs);
    var q :| 0 <= q < |RuleIds(fs)| && RuleIds(fs)[q] == id;
    SortedMember(es, es[q]);
    TakeCutoff(SortByCount(es), TopRuleLimit, es[q]);
  }

  /** Among rules with equal counts, `topRules` keeps the first-seen ones,
      in the order they were first seen. */
  lemma TopRulesTies(fs: seq<Finding>, c: nat)
    ensures WithCount(Counted(TopRulesOf(fs)), c) <= WithCount(RuleEntries(fs), c)
  {
    TopRulesCounted(fs);
    var sorted := SortByCount(RuleEntries(fs));
    WithCountPrefix(sorted, |TopRulesOf(fs)|, c);
  }

  datatype SiteSummary = SiteSummary(totalPages: nat, totalViolations: nat, totalIncomplete: nat,
                                     topRules: seq<TopRule>, pageSummaries: seq<PageSummary>)

  /** `summarizeSite(reports)`. */
  method SummarizeSite(reports: seq<PageReport>) returns (summary: SiteSummary)
    ensures summary.totalPages == |reports|
    ensures summary.pageSummaries == PageSummaries(reports)
    ensures summary.totalViolations == |AllFindings(reports, Violations)|
    ensures summary.totalIncomplete == |AllFindings(reports, Incomplete)|
    ensures summary.topRules == TopRulesOf(AllFindings(reports, Violations))
  {
    var pageSummaries := PageSummaries(reports);
    var totalPages := |reports|;
    var totalViolations := Total(reports, Violations);
    var totalIncomplete := Total(reports, Incomplete);
    TotalCountsFindings(reports, Violations);
    TotalCountsFindings(reports, Incomplete);

    var ruleCounts, ruleMeta := AggregateRules(reports);
    CountsAfterMeaning(AllFindings(reports, Violations));
    MetaAfterMeaning(AllFindings(reports, Violations));
    var topRules := TopRules(ruleCounts, ruleMeta);

    summary := SiteSummary(totalPages, totalViolations, totalIncomplete, topRules, pageSummaries);
  }
}
