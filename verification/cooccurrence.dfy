/**
  The co-occurrence model built in one pass over the historical orders:
  how many orders hold each item (popularity), how many hold each unordered
  pair of different items (keyed by the sorted pair), and the symmetric
  adjacency table read by the recommender.
 */
module CoOccurrence {
  import opened Lexicographic
  import opened Collections

  type Item = string
  type Pair = (Item, Item)

  /** The three tables of the model: `item_counts`, `pair_counts` and
      `co_occurrence`. */
  datatype Model = Model(
    itemCounts: map<Item, nat>,
    pairCounts: map<Pair, nat>,
    coOccurrence: map<Item, map<Item, nat>>)

  /** Positions of the orders whose items include every item of `group`. */
  function OrdersWith(orders: seq<seq<Item>>, group: set<Item>): set<nat>
  {
    set k: nat | k < |orders| && group <= Elems(orders[k])
  }

  /** The number of orders that hold every item of `group`. */
  function Support(orders: seq<seq<Item>>, group: set<Item>): nat
  {
    |OrdersWith(orders, group)|
  }

  /** One more order adds one to the support of exactly the groups it holds. */
  lemma SupportOfLastOrder(orders: seq<seq<Item>>, group: set<Item>)
    requires |orders| > 0
    ensures Support(orders, group)
         == Support(orders[..|orders| - 1], group) + (if group <= Elems(orders[|orders| - 1]) then 1 else 0)
  {
    var n := |orders| - 1;
    var before := OrdersWith(orders[..n], group);
    assert n !in before;
    if group <= Elems(orders[n]) {
      assert OrdersWith(orders, group) == before + {n};
    } else {
      assert OrdersWith(orders, group) == before;
    }
  }

  /** `Counter.update(keys)` and `counter[key] += 1` over a set of keys:
      one more for each key of the set. */
  function Bump<K(!new)>(counts: map<K, nat>, keys: set<K>): (r: map<K, nat>)
    ensures r.Keys == counts.Keys + keys
    ensures forall k :: Count(r, k) == Count(counts, k) + (if k in keys then 1 else 0)
  {
    map k | k in counts.Keys + keys :: Count(counts, k) + (if k in keys then 1 else 0)
  }

  /** The set of keys `tuple(sorted(comb))` for the combinations of one
      order's different items; `PairsOf` lists them as the loop meets them. */
  function PairKeys(unique: set<Item>): (keys: set<Pair>)
    ensures forall a, b :: (a, b) in keys <==> a in unique && b in unique && Less(a, b)
  {
    var keys := set a, b | a in unique && b in unique && a != b :: SortedPair(a, b);
    assert forall a, b :: a in unique && b in unique && Less(a, b) ==> (a, b) in keys by {
      forall a, b | a in unique && b in unique && Less(a, b)
        ensures (a, b) in keys
      {
        LessIrreflexive(a);
        assert SortedPair(a, b) == (a, b);
      }
    }
    keys
  }

  /** `counter[k] += 1` for every `k` of `keys` in turn, which is also what
      `Counter.update` does with a list. */
  function BumpEach<K(==)>(counts: map<K, nat>, keys: seq<K>): map<K, nat>
    decreases |keys|
  {
    if |keys| == 0 then counts
    else BumpEach(counts[keys[0] := Count(counts, keys[0]) + 1], keys[1..])
  }

  /** Counting key by key adds, to every key, the number of times the
      sequence lists it, and creates exactly the keys it lists. */
  lemma {:induction false} BumpEachCounts<K>(counts: map<K, nat>, keys: seq<K>)
    ensures BumpEach(counts, keys).Keys == counts.Keys + Elems(keys)
    ensures forall k :: Count(BumpEach(counts, keys), k) == Count(counts, k) + multiset(keys)[k]
    decreases |keys|
  {
    if |keys| > 0 {
      var next := counts[keys[0] := Count(counts, keys[0]) + 1];
      BumpEachCounts(next, keys[1..]);
      assert keys == [keys[0]] + keys[1..];
      assert Elems(keys) == {keys[0]} + Elems(keys[1..]);
    }
  }

  /** Counting the keys of a sequence without repeats one by one adds one to
      each of its elements: the same table as `Bump` of its element set. */
  lemma BumpEachIsBump<K(!new)>(counts: map<K, nat>, keys: seq<K>)
    requires NoDuplicates(keys)
    ensures BumpEach(counts, keys) == Bump(counts, Elems(keys))
  {
    BumpEachCounts(counts, keys);
    DistinctOccursOnce(keys);
    var bumped, once := BumpEach(counts, keys), Bump(counts, Elems(keys));
    forall k | k in bumped.Keys
      ensures bumped[k] == once[k]
    {
      assert Count(bumped, k) == Count(once, k);
    }
  }

  /** The sorted keys of `(x, y)` for every `y` of `rest`, in order. */
  function FirstPairs(x: Item, rest: seq<Item>): seq<Pair>
  {
    seq(|rest|, j requires 0 <= j < |rest| => SortedPair(x, rest[j]))
  }

  /** `tuple(sorted(comb))` for every `comb` of
      `itertools.combinations(xs, 2)`, in the order the loop meets them: the
      first item with each later one, then the combinations of the rest. */
  function PairsOf(xs: seq<Item>): seq<Pair>
    decreases |xs|
  {
    if |xs| == 0 then [] else FirstPairs(xs[0], xs[1..]) + PairsOf(xs[1..])
  }

  /** Pairing an item with items different from it and from each other gives
      different keys: the sorted pairs of that item with one of them. */
  lemma FirstPairsKeys(x: Item, rest: seq<Item>)
    requires x !in rest && NoDuplicates(rest)
    ensures NoDuplicates(FirstPairs(x, rest))
    ensures forall a, b :: (a, b) in FirstPairs(x, rest)
              <==> Less(a, b) && ((a == x && b in rest) || (b == x && a in rest))
  {
    var keys := FirstPairs(x, rest);
    forall i, j | 0 <= i < j < |rest|
      ensures keys[i] != keys[j]
    {
      assert rest[j] in {keys[j].0, keys[j].1};
      assert rest[j] !in {keys[i].0, keys[i].1};
    }
    forall a, b | (a, b) in keys
      ensures Less(a, b) && ((a == x && b in rest) || (b == x && a in rest))
    {
      var j :| 0 <= j < |rest| && keys[j] == (a, b);
      assert {a, b} == {x, rest[j]};
    }
    forall a, b | Less(a, b) && ((a == x && b in rest) || (b == x && a in rest))
      ensures (a, b) in keys
    {
      LessAsymmetric(a, b);
      var y := if a == x then b else a;
      var j :| 0 <= j < |rest| && rest[j] == y;
      assert keys[j] == (a, b);
    }
  }

  /** The combinations of a sequence without repeats give every sorted pair of
      its different elements, each exactly once. */
  lemma {:induction false} PairsOfKeys(xs: seq<Item>)
    requires NoDuplicates(xs)
    ensures NoDuplicates(PairsOf(xs))
    ensures forall a, b :: (a, b) in PairsOf(xs) <==> a in xs && b in xs && Less(a, b)
    decreases |xs|
  {
    if |xs| > 0 {
      var x, rest := xs[0], xs[1..];
      TailDistinct(xs);
      PairsOfKeys(rest);
      FirstPairsKeys(x, rest);
      assert PairsOf(xs) == FirstPairs(x, rest) + PairsOf(rest);
      forall p | p in FirstPairs(x, rest)
        ensures p !in PairsOf(rest)
      {
        assert (p.0, p.1) == p;
      }
      ConcatDistinct(FirstPairs(x, rest), PairsOf(rest));
      assert forall a :: a in xs <==> a == x || a in rest;
      forall a, b | a in xs && b in xs && Less(a, b)
        ensures (a, b) in PairsOf(xs)
      {
        LessIrreflexive(a);
      }
    }
  }

  /** One pass of the order loop, for any listing `unique` of the order's
      different items: updating the popularity counter with it, and adding
      one for the sorted key of each of its combinations, is one more step of
      `ItemCounts` and `PairCounts`; no key is bumped twice for one order. */
  lemma OrderPass(itemCounts: map<Item, nat>, pairCounts: map<Pair, nat>, items: seq<Item>, unique: seq<Item>)
    requires NoDuplicates(unique) && Elems(unique) == Elems(items)
    ensures NoDuplicates(PairsOf(unique))
    ensures BumpEach(itemCounts, unique) == Bump(itemCounts, Elems(items))
    ensures BumpEach(pairCounts, PairsOf(unique)) == Bump(pairCounts, PairKeys(Elems(items)))
  {
    BumpEachIsBump(itemCounts, unique);
    PairsOfKeys(unique);
    BumpEachIsBump(pairCounts, PairsOf(unique));
    forall p | p in Elems(PairsOf(unique))
      ensures p in PairKeys(Elems(items))
    {
      assert (p.0, p.1) in PairsOf(unique);
    }
    forall p | p in PairKeys(Elems(items))
      ensures p in Elems(PairsOf(unique))
    {
      assert (p.0, p.1) in PairKeys(Elems(items));
    }
    assert Elems(PairsOf(unique)) == PairKeys(Elems(items));
  }

  /** `item_counts` after the orders have been counted. */
  function ItemCounts(orders: seq<seq<Item>>): map<Item, nat>
    decreases |orders|
  {
    if |orders| == 0 then map[]
    else Bump(ItemCounts(orders[..|orders| - 1]), Elems(orders[|orders| - 1]))
  }

  /** `pair_counts` after the orders have been counted. */
  function PairCounts(orders: seq<seq<Item>>): map<Pair, nat>
    decreases |orders|
  {
    if |orders| == 0 then map[]
    else Bump(PairCounts(orders[..|orders| - 1]), PairKeys(Elems(orders[|orders| - 1])))
  }

  /** Popularity is order-level presence: an item is counted once for every
      order that holds it, however often it is listed there. */
  lemma {:induction false} ItemCountsArePresence(orders: seq<seq<Item>>)
    ensures forall i :: Count(ItemCounts(orders), i) == Support(orders, {i})
    ensures forall i :: i in ItemCounts(orders) <==> Support(orders, {i}) > 0
    decreases |orders|
  {
    if |orders| > 0 {
      var n := |orders| - 1;
      ItemCountsArePresence(orders[..n]);
      forall i
        ensures Count(ItemCounts(orders), i) == Support(orders, {i})
      {
        SupportOfLastOrder(orders, {i});
      }
    }
  }

  /** Every pair key is sorted, and counts the orders that hold both items. */
  lemma {:induction false} PairCountsAreCoPresence(orders: seq<seq<Item>>)
    ensures forall a, b :: Count(PairCounts(orders), (a, b)) == (if Less(a, b) then Support(orders, {a, b}) else 0)
    ensures forall a, b :: (a, b) in PairCounts(orders) <==> Less(a, b) && Support(orders, {a, b}) > 0
    decreases |orders|
  {
    if |orders| > 0 {
      var n := |orders| - 1;
      PairCountsAreCoPresence(orders[..n]);
      forall a, b
        ensures Count(PairCounts(orders), (a, b)) == (if Less(a, b) then Support(orders, {a, b}) else 0)
      {
        SupportOfLastOrder(orders, {a, b});
      }
    }
  }

  /** `co_occurrence.get(a, {})`. */
  function Partners(co: map<Item, map<Item, nat>>, a: Item): map<Item, nat>
  {
    if a in co then co[a] else map[]
  }

  /** `co_occurrence.get(a, {}).get(b, 0)`. */
  function Weight(co: map<Item, map<Item, nat>>, a: Item, b: Item): nat
  {
    Count(Partners(co, a), b)
  }

  /** Every item named in some key of `pairs`. */
  function Endpoints(pairs: map<Pair, nat>): set<Item>
  {
    (set p | p in pairs :: p.0) + (set p | p in pairs :: p.1)
  }

  /** The loop that files every pair count under both of its items. */
  function Adjacency(pairs: map<Pair, nat>): map<Item, map<Item, nat>>
  {
    var ends := Endpoints(pairs);
    map a | a in ends ::
      map b | b in ends && ((a, b) in pairs || (b, a) in pairs) ::
        if (a, b) in pairs then pairs[(a, b)] else pairs[(b, a)]
  }

  /** One entry of the adjacency table: with sorted keys, no two keys name the
      same unordered pair, so the entry under `a` for `b` is the count of the
      sorted pair, and there is one exactly when that pair was counted. */
  lemma AdjacencyEntry(pairs: map<Pair, nat>, a: Item, b: Item)
    requires forall p :: p in pairs ==> Less(p.0, p.1)
    ensures b in Partners(Adjacency(pairs), a) <==> SortedPair(a, b) in pairs
    ensures Weight(Adjacency(pairs), a, b) == Count(pairs, SortedPair(a, b))
  {
    var ends := Endpoints(pairs);
    LessIrreflexive(a);
    if (a, b) in pairs {
      assert a in ends && b in ends;
      LessAsymmetric(a, b);
    } else if (b, a) in pairs {
      assert a in ends && b in ends;
      LessAsymmetric(b, a);
    }
  }

  /** The adjacency table mirrors the pair counts in both directions and has
      no empty rows. */
  lemma AdjacencyMirrorsPairs(pairs: map<Pair, nat>)
    requires forall p :: p in pairs ==> Less(p.0, p.1)
    ensures forall a, b :: b in Partners(Adjacency(pairs), a) <==> SortedPair(a, b) in pairs
    ensures forall a, b :: Weight(Adjacency(pairs), a, b) == Count(pairs, SortedPair(a, b))
    ensures forall a :: a in Adjacency(pairs) ==> |Adjacency(pairs)[a]| > 0
  {
    var co := Adjacency(pairs);
    forall a, b
      ensures b in Partners(co, a) <==> SortedPair(a, b) in pairs
      ensures Weight(co, a, b) == Count(pairs, SortedPair(a, b))
    {
      AdjacencyEntry(pairs, a, b);
    }
    forall a | a in co
      ensures |co[a]| > 0
    {
      var p :| p in pairs && (p.0 == a || p.1 == a);
      var b := if p.0 == a then p.1 else p.0;
      AdjacencyEntry(pairs, a, b);
      assert b in co[a];
    }
  }

  /** The build pass over all historical orders. */
  function BuildModel(orders: seq<seq<Item>>): (m: Model)
    ensures forall i :: Count(m.itemCounts, i) == Support(orders, {i})
    ensures forall i :: i in m.itemCounts <==> Support(orders, {i}) > 0
    ensures forall a, b :: (a, b) in m.pairCounts <==> Less(a, b) && Support(orders, {a, b}) > 0
    ensures forall a, b :: Less(a, b) ==> Count(m.pairCounts, (a, b)) == Support(orders, {a, b})
    ensures forall a, b :: b in Partners(m.coOccurrence, a) <==> a != b && Support(orders, {a, b}) > 0
    ensures forall a, b :: a != b ==> Weight(m.coOccurrence, a, b) == Support(orders, {a, b})
    ensures forall a, b :: Weight(m.coOccurrence, a, b) == Weight(m.coOccurrence, b, a)
    ensures forall a, b :: b in Partners(m.coOccurrence, a) ==> Partners(m.coOccurrence, a)[b] > 0
  {
    var pairs := PairCounts(orders);
    ItemCountsArePresence(orders);
    PairCountsAreCoPresence(orders);
    var co := Adjacency(pairs);
    forall a, b
      ensures b in Partners(co, a) <==> a != b && Support(orders, {a, b}) > 0
      ensures a != b ==> Weight(co, a, b) == Support(orders, {a, b})
      ensures Weight(co, a, b) == Weight(co, b, a)
    {
      AdjacencyOfOrders(orders, a, b);
    }
    Model(ItemCounts(orders), pairs, co)
  }

  /** One entry of the adjacency table built from the orders: present exactly
      when the two items are different and some order holds both, equal to the
      number of such orders, and the same read in either direction. */
  lemma AdjacencyOfOrders(orders: seq<seq<Item>>, a: Item, b: Item)
    ensures var co := Adjacency(PairCounts(orders));
      && (b in Partners(co, a) <==> a != b && Support(orders, {a, b}) > 0)
      && (a != b ==> Weight(co, a, b) == Support(orders, {a, b}))
      && Weight(co, a, b) == Weight(co, b, a)
  {
    var pairs := PairCounts(orders);
    PairCountsAreCoPresence(orders);
    AdjacencyEntry(pairs, a, b);
    AdjacencyEntry(pairs, b, a);
    SortedPairSymmetric(a, b);
    var p := SortedPair(a, b);
    assert {p.0, p.1} == {a, b};
    LessIrreflexive(a);
  }

  /** Counting one more order adds exactly one to the popularity of each
      item it lists, however often it lists it, and nothing to any other. */
  lemma PopularityOfOneMoreOrder(orders: seq<seq<Item>>, o: seq<Item>, i: Item)
    ensures Count(BuildModel(orders + [o]).itemCounts, i)
         == Count(BuildModel(orders).itemCounts, i) + (if i in o then 1 else 0)
  {
    assert (orders + [o])[..|orders|] == orders;
    SupportOfLastOrder(orders + [o], {i});
  }
}
