/** The ordering of `topRules` (reporter.js:41-43): the `[id, count]`
    entries of the rule-count map, sorted by `(a, b) => b[1] - a[1]`.
    `Array.prototype.sort` is stable (ECMAScript 2019 and later), so ties
    keep the map's insertion order; the sort is modelled as a stable
    insertion sort and proved to be a stable, descending permutation. */
module Ranking {
  import opened Seqs

  /** One `[id, count]` entry of `ruleCounts.entries()`. */
  datatype Entry = Entry(id: string, count: nat)

  predicate NonIncreasing(s: seq<Entry>)
  {
    forall i, j :: 0 <= i < j < |s| ==> s[i].count >= s[j].count
  }

  predicate DistinctIds(s: seq<Entry>)
  {
    forall i, j :: 0 <= i < j < |s| ==> s[i].id != s[j].id
  }

  /** The entries of `s` whose count is `c`, in their order in `s`. */
  function WithCount(s: seq<Entry>, c: nat): seq<Entry>
  {
    if s == [] then [] else (if s[0].count == c then [s[0]] else []) + WithCount(s[1..], c)
  }

  lemma {:induction false} WithCountAppend(a: seq<Entry>, b: seq<Entry>, c: nat)
    ensures WithCount(a + b, c) == WithCount(a, c) + WithCount(b, c)
  {
    if a == [] {
      assert a + b == b;
    } else {
      assert (a + b)[0] == a[0];
      assert (a + b)[1..] == a[1..] + b;
      WithCountAppend(a[1..], b, c);
    }
  }

  /** The entries with a given count in a prefix of `s` are a prefix of
      the entries with that count in `s`. */
  lemma WithCountPrefix(s: seq<Entry>, n: nat, c: nat)
    requires n <= |s|
    ensures WithCount(s[..n], c) <= WithCount(s, c)
  {
    assert s == s[..n] + s[n..];
    WithCountAppend(s[..n], s[n..], c);
  }

  /** Puts `e` in front of the first entry whose count is not above its
      own, so that `e` precedes the entries it ties with. */
  function Insert(e: Entry, s: seq<Entry>): (r: seq<Entry>)
    ensures multiset(r) == multiset(s) + multiset{e}
  {
    if s == [] || e.count >= s[0].count then [e] + s
    else
      assert s == [s[0]] + s[1..];
      [s[0]] + Insert(e, s[1..])
  }

  lemma {:induction false} InsertDistinct(e: Entry, s: seq<Entry>)
    requires DistinctIds(s) && forall x :: x in s ==> x.id != e.id
    ensures DistinctIds(Insert(e, s))
  {
    if !(s == [] || e.count >= s[0].count) {
      assert s == [s[0]] + s[1..];
      InsertDistinct(e, s[1..]);
      var t := Insert(e, s[1..]);
      forall x | x in t ensures x.id != s[0].id {
        assert x in multiset(t);
        if x != e {
          assert x in s[1..];
        }
      }
    }
  }

  lemma {:induction false} InsertSorted(e: Entry, s: seq<Entry>)
    requires NonIncreasing(s)
    ensures NonIncreasing(Insert(e, s))
  {
    if !(s == [] || e.count >= s[0].count) {
      InsertSorted(e, s[1..]);
      var t := Insert(e, s[1..]);
      assert multiset(t) == multiset(s[1..]) + multiset{e};
      forall x | x in t ensures x.count <= s[0].count {
        assert x in multiset(t);
        if x != e {
          assert x in s[1..];
        }
      }
    }
  }

  lemma {:induction false} InsertStable(e: Entry, s: seq<Entry>, c: nat)
    ensures WithCount(Insert(e, s), c) == (if e.count == c then [e] else []) + WithCount(s, c)
  {
    if s == [] || e.count >= s[0].count {
      assert ([e] + s)[1..] == s;
    } else {
      InsertStable(e, s[1..], c);
      var t := Insert(e, s[1..]);
      assert ([s[0]] + t)[1..] == t;
      var head, mine, tail := if s[0].count == c then [s[0]] else [], if e.count == c then [e] else [], WithCount(s[1..], c);
      assert WithCount([s[0]] + t, c) == head + (mine + tail);
      assert WithCount(s, c) == head + tail;
      assert head == [] || mine == [];
      assert head + (mine + tail) == mine + (head + tail);
    }
  }

  /** `entries.sort((a, b) => b[1] - a[1])`: descending by count, a
      permutation of its input, and stable: for every count, the entries
      with that count keep their relative order. */
  function SortByCount(s: seq<Entry>): (r: seq<Entry>)
    ensures multiset(r) == multiset(s) && |r| == |s|
    ensures DistinctIds(s) ==> DistinctIds(r)
    ensures NonIncreasing(r)
    ensures forall c :: WithCount(r, c) == WithCount(s, c)
  {
    if s == [] then []
    else
      var rest := SortByCount(s[1..]);
      SortStep(s, rest);
      Insert(s[0], rest)
  }

  /** Inserting the head into the sorted tail gives a sorted, stable
      permutation of the whole sequence. */
  lemma SortStep(s: seq<Entry>, rest: seq<Entry>)
    requires s != []
    requires multiset(rest) == multiset(s[1..]) && NonIncreasing(rest)
    requires DistinctIds(s[1..]) ==> DistinctIds(rest)
    requires forall c :: WithCount(rest, c) == WithCount(s[1..], c)
    ensures multiset(Insert(s[0], rest)) == multiset(s) && |Insert(s[0], rest)| == |s|
    ensures DistinctIds(s) ==> DistinctIds(Insert(s[0], rest))
    ensures NonIncreasing(Insert(s[0], rest))
    ensures forall c :: WithCount(Insert(s[0], rest), c) == WithCount(s, c)
  {
    InsertSorted(s[0], rest);
    assert s == [s[0]] + s[1..];
    assert |multiset(Insert(s[0], rest))| == |Insert(s[0], rest)|;
    if DistinctIds(s) {
      SortStepDistinct(s, rest);
    }
    forall c ensures WithCount(Insert(s[0], rest), c) == WithCount(s, c) {
      InsertStable(s[0], rest, c);
    }
  }

  lemma SortStepDistinct(s: seq<Entry>, rest: seq<Entry>)
    requires s != [] && DistinctIds(s)
    requires multiset(rest) == multiset(s[1..]) && DistinctIds(rest)
    ensures DistinctIds(Insert(s[0], rest))
  {
    forall x | x in rest ensures x.id != s[0].id {
      assert x in multiset(s[1..]);
      var k :| 0 <= k < |s[1..]| && s[1..][k] == x;
      assert s[k + 1] == x;
    }
    InsertDistinct(s[0], rest);
  }

  /** `.slice(0, n)`. */
  function Take(s: seq<Entry>, n: nat): (r: seq<Entry>)
    ensures |r| == Min(n, |s|) && r == s[..|r|]
  {
    if |s| <= n then s else s[..n]
  }

  /** Sorting keeps every entry. */
  lemma SortedMember(es: seq<Entry>, e: Entry)
    requires e in es
    ensures e in SortByCount(es)
  {
    assert e in multiset(es);
  }

  /** An entry of a descending list that its first `n` leave out lies past
      a full prefix of `n`, and counts no more than the last kept. */
  lemma TakeCutoff(sorted: seq<Entry>, n: nat, e: Entry)
    requires n > 0 && e in sorted && NonIncreasing(sorted)
    requires forall i :: 0 <= i < |Take(sorted, n)| ==> Take(sorted, n)[i].id != e.id
    ensures |Take(sorted, n)| == n && e.count <= sorted[n - 1].count
  {
    var p :| 0 <= p < |sorted| && sorted[p] == e;
    if p < |Take(sorted, n)| {
      assert false;
    }
  }

  /** The first `n` of the sorted entries are entries of `es`, in
      descending order, with distinct ids when those of `es` are. */
  lemma TakeSorted(es: seq<Entry>, n: nat)
    ensures forall i :: 0 <= i < |Take(SortByCount(es), n)| ==> Take(SortByCount(es), n)[i] in es
    ensures NonIncreasing(Take(SortByCount(es), n))
    ensures DistinctIds(es) ==> DistinctIds(Take(SortByCount(es), n))
  {
    var sorted := SortByCount(es);
    forall i | 0 <= i < |Take(sorted, n)| ensures Take(sorted, n)[i] in es {
      assert sorted[i] in multiset(es);
    }
  }
}
