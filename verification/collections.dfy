/** Small facts about sequences, sets and counting tables shared by the model. */
module Collections {

  function Min(a: int, b: int): int { if a <= b then a else b }

  /** The set of elements of a sequence. */
  function Elems<T(==)>(xs: seq<T>): set<T> { set x | x in xs }

  predicate NoDuplicates<T(==)>(xs: seq<T>)
  {
    forall i, j :: 0 <= i < j < |xs| ==> xs[i] != xs[j]
  }

  /** A sequence has at most as many different elements as positions, and
      exactly as many when no element repeats. */
  lemma {:induction false} ElemsCardinality<T>(xs: seq<T>)
    ensures |Elems(xs)| <= |xs|
    ensures NoDuplicates(xs) ==> |Elems(xs)| == |xs|
    decreases |xs|
  {
    if |xs| > 0 {
      var init := xs[..|xs| - 1];
      var last := xs[|xs| - 1];
      assert xs == init + [last];
      assert Elems(xs) == Elems(init) + {last};
      ElemsCardinality(init);
      if NoDuplicates(xs) {
        assert forall j :: 0 <= j < |init| ==> init[j] == xs[j] && xs[j] != last;
        assert NoDuplicates(init);
      }
    }
  }

  /** Appending an element that is not there yet keeps a sequence free of
      repeats and adds it to the elements. */
  lemma AppendFresh<T>(xs: seq<T>, x: T)
    requires NoDuplicates(xs) && x !in xs
    ensures NoDuplicates(xs + [x])
    ensures Elems(xs + [x]) == Elems(xs) + {x}
  {
    var ys := xs + [x];
    forall i, j | 0 <= i < j < |ys|
      ensures ys[i] != ys[j]
    {
      assert ys[i] == xs[i];
    }
  }

  /** Dropping the first element of a sequence without repeats leaves one
      without repeats that does not hold that element. */
  lemma TailDistinct<T>(xs: seq<T>)
    requires |xs| > 0 && NoDuplicates(xs)
    ensures NoDuplicates(xs[1..]) && xs[0] !in xs[1..]
  {
    forall i, j | 0 <= i < j < |xs| - 1
      ensures xs[1..][i] != xs[1..][j]
    {
      assert xs[1..][i] == xs[i + 1] && xs[1..][j] == xs[j + 1];
    }
  }

  /** In a sequence without repeats every element occurs exactly once. */
  lemma {:induction false} DistinctOccursOnce<T>(xs: seq<T>)
    requires NoDuplicates(xs)
    ensures forall x :: multiset(xs)[x] == if x in xs then 1 else 0
    decreases |xs|
  {
    if |xs| > 0 {
      TailDistinct(xs);
      DistinctOccursOnce(xs[1..]);
      assert xs == [xs[0]] + xs[1..];
    }
  }

  /** Two sequences without repeats and without common elements concatenate
      to one without repeats. */
  lemma ConcatDistinct<T>(a: seq<T>, b: seq<T>)
    requires NoDuplicates(a) && NoDuplicates(b)
    requires forall x :: x in a ==> x !in b
    ensures NoDuplicates(a + b)
  {
    var ab := a + b;
    forall i, j | 0 <= i < j < |ab|
      ensures ab[i] != ab[j]
    {
      if j < |a| {
        assert ab[i] == a[i] && ab[j] == a[j];
      } else if i < |a| {
        assert ab[i] == a[i] && ab[j] == b[j - |a|];
        assert a[i] in a;
      } else {
        assert ab[i] == b[i - |a|] && ab[j] == b[j - |a|];
      }
    }
  }

  lemma SubsetCardinality<T>(a: set<T>, b: set<T>)
    ensures a <= b ==> |a| <= |b|
  {
    if a <= b {
      assert b == a + (b - a);
    }
  }

  /** A `Counter` lookup: a key that is not in the table counts 0. */
  function Count<K>(counts: map<K, nat>, k: K): nat
  {
    if k in counts then counts[k] else 0
  }
}
