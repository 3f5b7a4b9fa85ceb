/**
  Recommendations for one cart: every co-occurrence partner of a cart entry
  that is not itself in the cart scores the pair count, summed over the cart
  entries; items that scored get a popularity bias of a tenth of their order
  count; the best `top_n` are returned, and the caller pads a short list to
  three with the most popular item.

  Scores are kept as integers scaled by ten: `10 * coScore + popularity`
  orders the candidates as `coScore + 0.1 * popularity` does.
 */
module Recommend {
  import opened Cells
  import opened Collections
  import opened Ranking
  import opened CoOccurrence

  /** The number of recommendations per cart: `top_n=3` and the fill target. */
  const Slots := 3

  /** `[x for x in row if pd.notna(x)]`: the cart slots that hold an item. */
  function CartOf(row: seq<Cell<Item>>): (cart: seq<Item>)
    ensures forall x :: x in cart <==> Present(x) in row
    decreases |row|
  {
    if |row| == 0 then []
    else
      assert forall c :: c in row <==> c == row[0] || c in row[1..];
      match row[0]
      case Missing => CartOf(row[1..])
      case Present(x) => [x] + CartOf(row[1..])
  }

  /** Filtering keeps every present entry as often as it occurs and drops
      exactly the missing ones. */
  lemma {:induction false} CartOfCounts(row: seq<Cell<Item>>)
    ensures forall x :: multiset(CartOf(row))[x] == multiset(row)[Present(x)]
    ensures |CartOf(row)| == |row| - multiset(row)[Missing]
    decreases |row|
  {
    if |row| > 0 {
      assert row == [row[0]] + row[1..];
      CartOfCounts(row[1..]);
      FilterStep(row[0], row[1..], CartOf(row), CartOf(row[1..]));
    }
  }

  /** Filtering one more slot in front keeps the counts of `CartOfCounts`. */
  lemma FilterStep(head: Cell<Item>, tail: seq<Cell<Item>>, cart: seq<Item>, tailCart: seq<Item>)
    requires cart == if head.Present? then [head.value] + tailCart else tailCart
    requires forall x :: multiset(tailCart)[x] == multiset(tail)[Present(x)]
    requires |tailCart| == |tail| - multiset(tail)[Missing]
    ensures forall x :: multiset(cart)[x] == multiset([head] + tail)[Present(x)]
    ensures |cart| == |[head] + tail| - multiset([head] + tail)[Missing]
  {
    assert multiset([head] + tail) == multiset{head} + multiset(tail);
  }

  /** Filtering keeps the order of the entries: it distributes over
      concatenation. */
  lemma {:induction false} CartOfConcat(a: seq<Cell<Item>>, b: seq<Cell<Item>>)
    ensures CartOf(a + b) == CartOf(a) + CartOf(b)
    decreases |a|
  {
    if |a| == 0 {
      assert a + b == b;
    } else {
      var ab := a + b;
      assert ab[0] == a[0] && ab[1..] == a[1..] + b;
      CartOfConcat(a[1..], b);
      ConcatStep(a[0], CartOf(ab), CartOf(a), CartOf(a[1..]), CartOf(b));
    }
  }

  /** Filtering one more slot in front of `a + b` and of `a` alone keeps the
      equation of `CartOfConcat`. */
  lemma ConcatStep(head: Cell<Item>, joined: seq<Item>, front: seq<Item>, rest: seq<Item>, tail: seq<Item>)
    requires joined == if head.Present? then [head.value] + (rest + tail) else rest + tail
    requires front == if head.Present? then [head.value] + rest else rest
    ensures joined == front + tail
  {
  }

  /** `r` is scored for `cart`: it is not in the cart and is a partner of
      some cart entry. Popularity alone never makes an item a candidate. */
  ghost predicate IsCandidate(co: map<Item, map<Item, nat>>, cart: seq<Item>, r: Item)
  {
    r !in cart && exists c :: c in cart && r in Partners(co, c)
  }

  /** The sum of `co_occurrence[c][r]` over the entries `c` of `sources`,
      counting a repeated entry each time. */
  function PairScore(co: map<Item, map<Item, nat>>, sources: seq<Item>, r: Item): nat
    decreases |sources|
  {
    if |sources| == 0 then 0
    else PairScore(co, sources[..|sources| - 1], r) + Weight(co, sources[|sources| - 1], r)
  }

  /** One pass of the inner loop: the partners of one cart entry that are not
      in the cart add their pair count to the running scores. */
  function AddPartners(scores: map<Item, nat>, partners: map<Item, nat>, cart: seq<Item>): map<Item, nat>
  {
    map r | r in scores.Keys + (set x | x in partners && x !in cart) ::
      Count(scores, r) + (if r in partners && r !in cart then partners[r] else 0)
  }

  /** The scores once the outer loop has visited the cart entries `sources`. */
  function CoScores(co: map<Item, map<Item, nat>>, cart: seq<Item>, sources: seq<Item>): map<Item, nat>
    decreases |sources|
  {
    if |sources| == 0 then map[]
    else AddPartners(CoScores(co, cart, sources[..|sources| - 1]), Partners(co, sources[|sources| - 1]), cart)
  }

  /** The co-occurrence loop scores exactly the partners of visited entries
      that are not in the cart, each with the sum of its pair counts. */
  lemma {:induction false} CoScoresAreSums(co: map<Item, map<Item, nat>>, cart: seq<Item>, sources: seq<Item>)
    ensures forall r :: r in CoScores(co, cart, sources) <==>
      r !in cart && exists k :: 0 <= k < |sources| && r in Partners(co, sources[k])
    ensures forall r :: Count(CoScores(co, cart, sources), r) == if r in cart then 0 else PairScore(co, sources, r)
    decreases |sources|
  {
    if |sources| > 0 {
      var n := |sources| - 1;
      CoScoresAreSums(co, cart, sources[..n]);
      assert sources == sources[..n] + [sources[n]];
      AddPartnersSums(co, cart, sources[..n], sources[n], CoScores(co, cart, sources[..n]));
    }
  }

  /** One pass of the outer loop keeps the sums of `CoScoresAreSums`. */
  lemma AddPartnersSums(co: map<Item, map<Item, nat>>, cart: seq<Item>, init: seq<Item>, c: Item, before: map<Item, nat>)
    requires forall r :: r in before <==> r !in cart && exists k :: 0 <= k < |init| && r in Partners(co, init[k])
    requires forall r :: Count(before, r) == if r in cart then 0 else PairScore(co, init, r)
    ensures forall r :: r in AddPartners(before, Partners(co, c), cart) <==>
      r !in cart && exists k :: 0 <= k < |init + [c]| && r in Partners(co, (init + [c])[k])
    ensures forall r :: Count(AddPartners(before, Partners(co, c), cart), r) ==
                        if r in cart then 0 else PairScore(co, init + [c], r)
  {
    var sources := init + [c];
    assert sources[..|init|] == init;
    forall r
      ensures r in AddPartners(before, Partners(co, c), cart) <==>
        r !in cart && exists k :: 0 <= k < |sources| && r in Partners(co, sources[k])
    {
      if r !in cart && r in Partners(co, c) {
        assert sources[|init|] == c;
      }
      if exists k :: 0 <= k < |init| && r in Partners(co, init[k]) {
        var k :| 0 <= k < |init| && r in Partners(co, init[k]);
        assert sources[k] == init[k];
      }
      if exists k :: 0 <= k < |sources| && r in Partners(co, sources[k]) {
        var k :| 0 <= k < |sources| && r in Partners(co, sources[k]);
        if k < |init| {
          assert init[k] == sources[k];
        }
      }
    }
  }

  /** The scores of `recommend_items`, scaled by ten. */
  function Scores(m: Model, cart: seq<Item>): (s: map<Item, int>)
    ensures forall r :: r in s <==> IsCandidate(m.coOccurrence, cart, r)
    ensures forall r :: r in s ==>
      s[r] == 10 * PairScore(m.coOccurrence, cart, r) + Count(m.itemCounts, r)
  {
    var raw := CoScores(m.coOccurrence, cart, cart);
    CoScoresAreSums(m.coOccurrence, cart, cart);
    map r | r in raw :: 10 * raw[r] + Count(m.itemCounts, r)
  }

  /** `recommend_items(cart_items, top_n)`. */
  method RecommendItems(m: Model, cart: seq<Item>, topN: int) returns (recs: seq<Item>)
    ensures IsMostCommon(Scores(m, cart), topN, recs)
    ensures forall k :: 0 <= k < |recs| ==> recs[k] !in cart
    ensures forall k :: 0 <= k < |recs| ==> exists c :: c in cart && recs[k] in Partners(m.coOccurrence, c)
  {
    recs := MostCommon(Scores(m, cart), topN);
  }

  /** `item` is among the most popular items. */
  predicate MostPopular(itemCounts: map<Item, nat>, item: Item)
  {
    item in itemCounts && forall i :: i in itemCounts ==> itemCounts[i] <= itemCounts[item]
  }

  /** The outcome of the fill loop: the padded list, or the `IndexError` of
      `item_counts.most_common(1)[0]` on an empty popularity table. */
  datatype Fill = Filled(recs: seq<Item>) | NoPopularItem

  /** The fill loop: while fewer than three, append the most popular item.
      The popularity table does not change in the loop, so each
      `most_common(1)` lookup yields the same item. */
  method FillToSlots(recs: seq<Item>, itemCounts: map<Item, nat>) returns (fill: Fill)
    ensures fill.NoPopularItem? <==> |recs| < Slots && |itemCounts| == 0
    ensures fill.Filled? ==> |fill.recs| == if |recs| >= Slots then |recs| else Slots
    ensures fill.Filled? ==> fill.recs[..|recs|] == recs
    ensures fill.Filled? ==> forall k :: |recs| <= k < |fill.recs| ==> MostPopular(itemCounts, fill.recs[k])
    ensures fill.Filled? ==> forall k :: |recs| <= k < |fill.recs| ==> fill.recs[k] == fill.recs[|recs|]
  {
    var filled := recs;
    if |filled| < Slots {
      var top := MostCommon(itemCounts, 1);
      if |top| == 0 {
        return NoPopularItem;
      }
      var popular := top[0];
      assert MostPopular(itemCounts, popular) by {
        forall i | i in itemCounts
          ensures itemCounts[i] <= itemCounts[popular]
        {
          if i != popular {
            assert i !in top;
          }
        }
      }
      while |filled| < Slots
        invariant |recs| <= |filled| <= Slots
        invariant filled[..|recs|] == recs
        invariant forall k :: |recs| <= k < |filled| ==> filled[k] == popular
      {
        filled := filled + [popular];
      }
    }
    fill := Filled(filled);
  }

  /** The predictions for one row of the test set: filter the cart slots,
      recommend three, and fill up to three. The fill reads the popularity
      table only when fewer than three items were scored. */
  method RecommendRow(m: Model, row: seq<Cell<Item>>) returns (fill: Fill)
    ensures fill.NoPopularItem? <==> |Scores(m, CartOf(row))| < Slots && |m.itemCounts| == 0
    ensures fill.Filled? ==> |fill.recs| == Slots
    ensures fill.Filled? ==>
      IsMostCommon(Scores(m, CartOf(row)), Slots, fill.recs[..RankedLength(Scores(m, CartOf(row)), Slots)])
    ensures fill.Filled? ==> forall j :: RankedLength(Scores(m, CartOf(row)), Slots) <= j < |fill.recs| ==>
      MostPopular(m.itemCounts, fill.recs[j])
  {
    var cart := CartOf(row);
    var ranked := RecommendItems(m, cart, Slots);
    fill := FillToSlots(ranked, m.itemCounts);
    if fill.Filled? {
      assert fill.recs[..|ranked|] == ranked;
    }
  }

  /** The sum over the entries `c` of `sources` of the number of orders that
      hold both `c` and `r`, for `c` different from `r`. */
  function CoSupport(orders: seq<seq<Item>>, sources: seq<Item>, r: Item): nat
    decreases |sources|
  {
    if |sources| == 0 then 0
    else
      var c := sources[|sources| - 1];
      CoSupport(orders, sources[..|sources| - 1], r) + (if c == r then 0 else Support(orders, {c, r}))
  }

  /** When every entry of a co-occurrence table counts the orders that hold
      both of its items, and no item is its own partner, the pair score of an
      item is the number of orders it shares with each cart entry, summed over
      the cart. */
  lemma {:induction false} PairScoreIsCoSupport(orders: seq<seq<Item>>, co: map<Item, map<Item, nat>>, sources: seq<Item>, r: Item)
    requires forall a, b :: a != b ==> Weight(co, a, b) == Support(orders, {a, b})
    requires forall a :: a !in Partners(co, a)
    ensures PairScore(co, sources, r) == CoSupport(orders, sources, r)
    decreases |sources|
  {
    if |sources| > 0 {
      PairScoreIsCoSupport(orders, co, sources[..|sources| - 1], r);
      assert sources[|sources| - 1] == r ==> r !in Partners(co, r);
    }
  }

  /** Recommending from a model whose tables hold the counts of some orders:
      an item is scored exactly when it is not in the cart and shares an order
      with some cart entry, and its scaled score is ten times the orders it
      shares with the cart entries plus the orders that hold it. */
  lemma ScoresOfCounts(orders: seq<seq<Item>>, m: Model, cart: seq<Item>, r: Item)
    requires forall i :: Count(m.itemCounts, i) == Support(orders, {i})
    requires forall a, b :: b in Partners(m.coOccurrence, a) <==> a != b && Support(orders, {a, b}) > 0
    requires forall a, b :: a != b ==> Weight(m.coOccurrence, a, b) == Support(orders, {a, b})
    ensures r in Scores(m, cart) <==> r !in cart && exists c :: c in cart && Support(orders, {c, r}) > 0
    ensures r in Scores(m, cart) ==> Scores(m, cart)[r] == 10 * CoSupport(orders, cart, r) + Support(orders, {r})
  {
    PairScoreIsCoSupport(orders, m.coOccurrence, cart, r);
    if r !in cart && exists c :: c in cart && Support(orders, {c, r}) > 0 {
      var c :| c in cart && Support(orders, {c, r}) > 0;
      assert r in Partners(m.coOccurrence, c);
    }
  }

  /** The same for the model the build pass makes from the orders. */
  lemma ScoresOfBuiltModel(orders: seq<seq<Item>>, cart: seq<Item>, r: Item)
    ensures r in Scores(BuildModel(orders), cart) <==>
      r !in cart && exists c :: c in cart && Support(orders, {c, r}) > 0
    ensures r in Scores(BuildModel(orders), cart) ==>
      Scores(BuildModel(orders), cart)[r] == 10 * CoSupport(orders, cart, r) + Support(orders, {r})
  {
    ScoresOfCounts(orders, BuildModel(orders), cart, r);
  }
}
