/** Small facts about sequences shared by the crawler and the reporter. */
module Seqs {

  /** No element occurs twice: a JavaScript `Set` or the key order of a `Map`. */
  predicate Distinct<T(==)>(s: seq<T>)
  {
    forall i, j :: 0 <= i < j < |s| ==> s[i] != s[j]
  }

  function Elems<T>(s: seq<T>): set<T>
  {
    set x | x in s
  }

  function Min(a: int, b: int): int
  {
    if a <= b then a else b
  }
}
