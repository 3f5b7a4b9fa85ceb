/**
  Worked examples on a small order history: three orders {A, B}, {A, B} and
  {A, C}, and a raw order that lists an item twice.
 */
module Scenarios {
  import opened Collections
  import opened Ranking
  import opened CoOccurrence
  import opened Recommend

  /** The order history {A, B}, {A, B}, {A, C}, stated position by position. */
  predicate IsHistory(h: seq<seq<Item>>)
  {
    |h| == 3 && h[0] == ["A", "B"] && h[1] == ["A", "B"] && h[2] == ["A", "C"]
  }

  lemma HistorySupport(h: seq<seq<Item>>)
    requires IsHistory(h)
    ensures Support(h, {"A"}) == 3
    ensures Support(h, {"B"}) == 2
    ensures Support(h, {"C"}) == 1
    ensures Support(h, {"A", "B"}) == 2
    ensures Support(h, {"A", "C"}) == 1
  {
    assert Elems(h[0]) == {"A", "B"} && Elems(h[1]) == {"A", "B"} && Elems(h[2]) == {"A", "C"};
    assert OrdersWith(h, {"A"}) == {0, 1, 2};
    assert OrdersWith(h, {"B"}) == {0, 1};
    assert OrdersWith(h, {"C"}) == {2};
    assert OrdersWith(h, {"A", "B"}) == {0, 1};
    assert OrdersWith(h, {"A", "C"}) == {2};
  }

  /** Popularity A = 3, B = 2, C = 1; co-occurrence (A, B) = 2, (A, C) = 1,
      read the same way from either item. */
  lemma HistoryModel(h: seq<seq<Item>>)
    requires IsHistory(h)
    ensures var m := BuildModel(h);
      && Count(m.itemCounts, "A") == 3 && Count(m.itemCounts, "B") == 2 && Count(m.itemCounts, "C") == 1
      && Weight(m.coOccurrence, "A", "B") == 2 && Weight(m.coOccurrence, "B", "A") == 2
      && Weight(m.coOccurrence, "A", "C") == 1 && Weight(m.coOccurrence, "C", "A") == 1
      && Weight(m.coOccurrence, "B", "C") == 0
  {
    HistorySupport(h);
    assert {"B", "A"} == {"A", "B"} && {"C", "A"} == {"A", "C"};
    assert OrdersWith(h, {"B", "C"}) == {};
  }

  /** For the cart [A] only B and C are scored: B with 10 * 2 + 2 = 22 and
      C with 10 * 1 + 1 = 11. */
  lemma HistoryScores(h: seq<seq<Item>>, cart: seq<Item>)
    requires IsHistory(h) && cart == ["A"]
    ensures Scores(BuildModel(h), cart).Keys == {"B", "C"}
    ensures Scores(BuildModel(h), cart)["B"] == 22
    ensures Scores(BuildModel(h), cart)["C"] == 11
  {
    HistoryScoredKeys(h, cart);
    ScoreForOneEntryCart(h, cart, "B");
    ScoreForOneEntryCart(h, cart, "C");
    HistorySupport(h);
  }

  lemma HistoryScoredKeys(h: seq<seq<Item>>, cart: seq<Item>)
    requires IsHistory(h) && cart == ["A"]
    ensures Scores(BuildModel(h), cart).Keys == {"B", "C"}
  {
    var keys := Scores(BuildModel(h), cart).Keys;
    forall x | x in keys
      ensures x == "B" || x == "C"
    {
      ScoredInHistory(h, cart, x);
    }
    ScoredInHistory(h, cart, "B");
    ScoredInHistory(h, cart, "C");
    TwoElements(keys, "B", "C");
  }

  /** For a one-entry cart, a scored item scores ten times the orders it
      shares with the entry plus its own orders. */
  lemma ScoreForOneEntryCart(h: seq<seq<Item>>, cart: seq<Item>, x: Item)
    requires |cart| == 1
    ensures x in Scores(BuildModel(h), cart) ==>
      Scores(BuildModel(h), cart)[x] == 10 * Support(h, {cart[0], x}) + Support(h, {x})
  {
    ScoresOfBuiltModel(h, cart, x);
    if x != cart[0] {
      CoSupportOfOneEntry(h, cart, x);
    } else {
      assert cart[0] in cart;
    }
  }

  lemma CoSupportOfOneEntry(h: seq<seq<Item>>, cart: seq<Item>, x: Item)
    requires |cart| == 1 && cart[0] != x
    ensures CoSupport(h, cart, x) == Support(h, {cart[0], x})
  {
    assert |cart[..0]| == 0;
  }

  lemma ScoredInHistory(h: seq<seq<Item>>, cart: seq<Item>, x: Item)
    requires IsHistory(h) && cart == ["A"]
    ensures x in Scores(BuildModel(h), cart) <==> x == "B" || x == "C"
  {
    ScoresOfBuiltModel(h, cart, x);
    SharedWithA(h, x);
    SharedWithOneEntry(h, cart, x);
  }

  /** For a one-entry cart, sharing an order with some cart entry is sharing
      one with that entry. */
  lemma SharedWithOneEntry(h: seq<seq<Item>>, cart: seq<Item>, x: Item)
    requires |cart| == 1
    ensures (x !in cart && exists c :: c in cart && Support(h, {c, x}) > 0) <==>
            x != cart[0] && Support(h, {cart[0], x}) > 0
  {
    assert forall c :: c in cart <==> c == cart[0];
  }

  lemma SharedWithA(h: seq<seq<Item>>, x: Item)
    requires IsHistory(h)
    ensures Support(h, {"A", x}) > 0 <==> x == "A" || x == "B" || x == "C"
  {
    assert Elems(h[0]) == {"A", "B"} && Elems(h[1]) == {"A", "B"} && Elems(h[2]) == {"A", "C"};
    if x == "A" || x == "B" || x == "C" {
      var k := if x == "C" then 2 else 0;
      assert k in OrdersWith(h, {"A", x});
    } else {
      assert OrdersWith(h, {"A", x}) == {};
    }
  }

  /** The two best for the cart [A] are B then C, and no other ranking is
      possible. */
  lemma HistoryRecommendation(h: seq<seq<Item>>, cart: seq<Item>, r: seq<Item>)
    requires IsHistory(h) && cart == ["A"]
    ensures IsMostCommon(Scores(BuildModel(h), cart), 2, r) <==> r == ["B", "C"]
  {
    HistoryScores(h, cart);
    RankTwo(Scores(BuildModel(h), cart), r);
  }

  lemma RankTwo(s: map<Item, int>, r: seq<Item>)
    requires s.Keys == {"B", "C"} && s["B"] == 22 && s["C"] == 11
    ensures IsMostCommon(s, 2, r) <==> r == ["B", "C"]
  {
    assert |s| == 2 by {
      assert |s.Keys| == |{"B", "C"}| == 2;
    }
    assert IsMostCommon(s, 2, ["B", "C"]);
    if IsMostCommon(s, 2, r) {
      RankedUniqueWithoutTies(s, 2, r, ["B", "C"]);
    }
  }

  /** A raw order that lists A twice counts A once, and the pair (A, B) once. */
  lemma RepeatedItemCountsOnce()
    ensures var m := BuildModel([["A", "A", "B"]]);
      Count(m.itemCounts, "A") == 1 && Weight(m.coOccurrence, "A", "B") == 1
  {
    var h := [["A", "A", "B"]];
    assert Elems(h[0]) == {"A", "B"};
    assert OrdersWith(h, {"A"}) == {0};
    assert OrdersWith(h, {"A", "B"}) == {0};
  }

  lemma TwoElements(keys: set<Item>, a: Item, b: Item)
    requires a in keys && b in keys
    requires forall x :: x in keys ==> x == a || x == b
    ensures keys == {a, b}
  {
  }
}
