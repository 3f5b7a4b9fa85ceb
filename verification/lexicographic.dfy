/**
  The order Python's `<` puts on `str` values: code points compared left to
  right, and a proper prefix sorts before the longer string. The model uses it
  to give every unordered pair of items one canonical key, as `sorted` does on
  a pair of strings.
 */
module Lexicographic {

  predicate Less(a: string, b: string)
    decreases |a|
  {
    if |a| == 0 then |b| > 0
    else if |b| == 0 then false
    else if a[0] != b[0] then a[0] < b[0]
    else Less(a[1..], b[1..])
  }

  lemma {:induction false} LessIrreflexive(a: string)
    ensures !Less(a, a)
    decreases |a|
  {
    if |a| > 0 {
      LessIrreflexive(a[1..]);
    }
  }

  lemma {:induction false} LessAsymmetric(a: string, b: string)
    requires Less(a, b)
    ensures !Less(b, a)
    decreases |a|
  {
    if |a| > 0 && |b| > 0 && a[0] == b[0] {
      LessAsymmetric(a[1..], b[1..]);
    }
  }

  /** Any two different strings are ordered one way or the other. */
  lemma {:induction false} LessTotal(a: string, b: string)
    ensures a != b ==> Less(a, b) || Less(b, a)
    decreases |a|
  {
    if |a| > 0 && |b| > 0 && a[0] == b[0] {
      assert a == [a[0]] + a[1..] && b == [b[0]] + b[1..];
      LessTotal(a[1..], b[1..]);
    }
  }

  /** `tuple(sorted((a, b)))`: the pair with its smaller member first. */
  function SortedPair(a: string, b: string): (p: (string, string))
    ensures {p.0, p.1} == {a, b}
    ensures a != b ==> Less(p.0, p.1)
  {
    if Less(a, b) then (a, b)
    else
      LessTotal(a, b);
      (b, a)
  }

  /** Sorting a pair does not depend on the order it was given in. */
  lemma SortedPairSymmetric(a: string, b: string)
    ensures SortedPair(a, b) == SortedPair(b, a)
  {
    if a != b {
      LessTotal(a, b);
      if Less(a, b) { LessAsymmetric(a, b); } else { LessAsymmetric(b, a); }
    }
  }
}
