/**
  `Counter.most_common(n)`: the `n` keys of a score table with the highest
  scores, best first. The order among equal scores is left open, so the
  operation is specified by the predicate `IsMostCommon` and any selection
  that meets it is a faithful model.
 */
module Ranking {
  import opened Collections

  /** The number of keys `most_common(n)` returns: `n` but at most all of
      them, and none for `n <= 0`. */
  function RankedLength<T(==)>(scores: map<T, int>, n: int): nat
  {
    if n <= 0 then 0 else Min(n, |scores|)
  }

  /** `r` is a possible value of `most_common(n)` on the table `scores`:
      the right number of different keys, scores non-increasing, and no key
      left out scores more than a key taken. */
  predicate IsMostCommon<T(==)>(scores: map<T, int>, n: int, r: seq<T>)
  {
    && |r| == RankedLength(scores, n)
    && NoDuplicates(r)
    && (forall k :: 0 <= k < |r| ==> r[k] in scores)
    && (forall i, j :: 0 <= i < j < |r| && r[i] in scores && r[j] in scores ==>
          scores[r[j]] <= scores[r[i]])
    && (forall x, k :: x in scores && x !in r && 0 <= k < |r| && r[k] in scores ==>
          scores[x] <= scores[r[k]])
  }

  /** A key of highest score among `among`. */
  method Best<T(==)>(scores: map<T, int>, among: set<T>) returns (best: T)
    requires among != {} && among <= scores.Keys
    ensures best in among
    ensures forall x :: x in among ==> scores[x] <= scores[best]
  {
    best :| best in among;
    var todo := among - {best};
    while todo != {}
      invariant todo <= among && best in among
      invariant forall x :: x in among - todo ==> scores[x] <= scores[best]
      decreases todo
    {
      var x :| x in todo;
      if scores[x] > scores[best] {
        best := x;
      }
      todo := todo - {x};
    }
  }

  /** The state of a selection: `taken` holds different keys, best first,
      and none of the keys still `left` scores more than a key taken. */
  predicate Selection<T(==)>(scores: map<T, int>, taken: seq<T>, left: set<T>)
  {
    && left == scores.Keys - Elems(taken)
    && |left| == |scores| - |taken|
    && NoDuplicates(taken)
    && (forall k :: 0 <= k < |taken| ==> taken[k] in scores)
    && (forall i, j :: 0 <= i < j < |taken| ==> scores[taken[j]] <= scores[taken[i]])
    && (forall x, k :: x in left && 0 <= k < |taken| ==> scores[x] <= scores[taken[k]])
  }

  /** Taking a best key that is left keeps a selection. */
  lemma SelectionStep<T>(scores: map<T, int>, taken: seq<T>, left: set<T>, best: T)
    requires Selection(scores, taken, left)
    requires best in left && forall x :: x in left ==> scores[x] <= scores[best]
    ensures Selection(scores, taken + [best], left - {best})
  {
    AppendFresh(taken, best);
    assert |left - {best}| == |left| - 1;
    AppendKeepsOrder(scores, taken, best);
    AppendKeepsLead(scores, taken, left, best);
  }

  /** A key that no taken key is beaten by may follow them. */
  lemma AppendKeepsOrder<T>(scores: map<T, int>, taken: seq<T>, best: T)
    requires best in scores
    requires forall k :: 0 <= k < |taken| ==> taken[k] in scores && scores[best] <= scores[taken[k]]
    requires forall i, j :: 0 <= i < j < |taken| ==> taken[i] in scores && taken[j] in scores && scores[taken[j]] <= scores[taken[i]]
    ensures forall k :: 0 <= k < |taken + [best]| ==> (taken + [best])[k] in scores
    ensures forall i, j :: 0 <= i < j < |taken + [best]| ==> scores[(taken + [best])[j]] <= scores[(taken + [best])[i]]
  {
    var t := taken + [best];
    forall i, j | 0 <= i < j < |t|
      ensures scores[t[j]] <= scores[t[i]]
    {
      assert t[i] == taken[i];
    }
  }

  /** The keys still left after taking a best one score no more than any
      key taken. */
  lemma AppendKeepsLead<T>(scores: map<T, int>, taken: seq<T>, left: set<T>, best: T)
    requires left <= scores.Keys && best in left
    requires forall k :: 0 <= k < |taken| ==> taken[k] in scores
    requires forall x, k :: x in left && 0 <= k < |taken| ==> scores[x] <= scores[taken[k]]
    requires forall x :: x in left ==> scores[x] <= scores[best]
    ensures forall x, k :: x in left - {best} && 0 <= k < |taken + [best]| ==>
      scores[x] <= scores[(taken + [best])[k]]
  {
    var t := taken + [best];
    forall x, k | x in left - {best} && 0 <= k < |t|
      ensures scores[x] <= scores[t[k]]
    {
      if k < |taken| {
        assert t[k] == taken[k];
      }
    }
  }

  /** `most_common(n)` by repeated selection of a best remaining key. */
  method MostCommon<T(==)>(scores: map<T, int>, n: int) returns (r: seq<T>)
    ensures IsMostCommon(scores, n, r)
  {
    var want := RankedLength(scores, n);
    r := [];
    var rest := scores.Keys;
    while |r| < want
      invariant |r| <= want
      invariant Selection(scores, r, rest)
    {
      var best := Best(scores, rest);
      SelectionStep(scores, r, rest, best);
      r := r + [best];
      rest := rest - {best};
    }
    SelectionComplete(scores, n, r, rest);
  }

  /** A selection of the wanted length is a possible value of `most_common(n)`. */
  lemma SelectionComplete<T>(scores: map<T, int>, n: int, taken: seq<T>, left: set<T>)
    requires Selection(scores, taken, left) && |taken| == RankedLength(scores, n)
    ensures IsMostCommon(scores, n, taken)
  {
    forall x, k | x in scores && x !in taken && 0 <= k < |taken|
      ensures scores[x] <= scores[taken[k]]
    {
      assert x in left;
    }
  }

  /** Any two possible values of `most_common(n)` carry the same scores,
      position by position: only the order of equal scores is open. */
  lemma RankedScoresAgree<T>(scores: map<T, int>, n: int, r1: seq<T>, r2: seq<T>)
    requires IsMostCommon(scores, n, r1) && IsMostCommon(scores, n, r2)
    ensures forall k :: 0 <= k < |r1| ==> scores[r1[k]] == scores[r2[k]]
  {
    forall k | 0 <= k < |r1|
      ensures scores[r1[k]] == scores[r2[k]]
    {
      NotOutranked(scores, n, r1, r2, k);
      NotOutranked(scores, n, r2, r1, k);
    }
  }

  /** When the scores of different keys differ, `most_common(n)` has exactly
      one possible value. */
  lemma RankedUniqueWithoutTies<T>(scores: map<T, int>, n: int, r1: seq<T>, r2: seq<T>)
    requires forall x, y :: x in scores && y in scores && x != y ==> scores[x] != scores[y]
    requires IsMostCommon(scores, n, r1) && IsMostCommon(scores, n, r2)
    ensures r1 == r2
  {
    RankedScoresAgree(scores, n, r1, r2);
  }

  /** The k-th key of one ranking never scores more than the k-th key of
      another: otherwise the k+1 keys up to it would all have to sit in front
      of position k in the other ranking. */
  lemma NotOutranked<T>(scores: map<T, int>, n: int, r1: seq<T>, r2: seq<T>, k: int)
    requires IsMostCommon(scores, n, r1) && IsMostCommon(scores, n, r2)
    requires 0 <= k < |r1|
    ensures scores[r1[k]] <= scores[r2[k]]
  {
    var front := r1[..k + 1];
    var ahead := r2[..k];
    assert NoDuplicates(front);
    ElemsCardinality(front);
    ElemsCardinality(ahead);
    KeysUpToOutscore(scores, n, r1, k);
    OutscoringKeysAreAhead(scores, n, r2, k);
    assert scores[r1[k]] > scores[r2[k]] ==> Elems(front) <= Elems(ahead);
    SubsetCardinality(Elems(front), Elems(ahead));
  }

  /** The keys of a ranking up to position k score at least as much as the
      k-th. */
  lemma KeysUpToOutscore<T>(scores: map<T, int>, n: int, r: seq<T>, k: int)
    requires IsMostCommon(scores, n, r) && 0 <= k < |r|
    ensures forall x :: x in Elems(r[..k + 1]) ==> x in scores && scores[x] >= scores[r[k]]
  {
    forall x | x in Elems(r[..k + 1])
      ensures x in scores && scores[x] >= scores[r[k]]
    {
      var i :| 0 <= i <= k && r[i] == x;
    }
  }

  /** A key that scores more than the k-th key of a ranking sits in front of it. */
  lemma OutscoringKeysAreAhead<T>(scores: map<T, int>, n: int, r: seq<T>, k: int)
    requires IsMostCommon(scores, n, r) && 0 <= k < |r|
    ensures forall x :: x in scores && scores[x] > scores[r[k]] ==> x in Elems(r[..k])
  {
    forall x | x in scores && scores[x] > scores[r[k]]
      ensures x in Elems(r[..k])
    {
      assert x in r;
      var j :| 0 <= j < |r| && r[j] == x;
      assert j < k;
      assert r[..k][j] == x;
    }
  }
}
