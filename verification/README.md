# Co-occurrence recommender, modelled in Dafny

This project models the recommender in `wwtprogram.py`, a small
market-basket program with three parts:

- **Extracting order items** (`extract_items`). A raw ORDERS field is split
  at commas and every field is stripped of surrounding whitespace. A missing
  field gives no items.
- **Building the model.** One pass over the historical orders counts:
  - the orders that hold each item (`item_counts`);
  - the orders that hold each unordered pair of different items
    (`pair_counts`, keyed by the sorted pair).

  The pair counts are then filed under both of their items, which gives the
  symmetric table `co_occurrence`.
- **Recommending** (`recommend_items`, and the loop over the test rows).
  - Missing cart slots are dropped.
  - Every co-occurrence partner of a cart entry that is not itself in the
    cart scores the pair count, summed over the cart entries.
  - Items that scored get a popularity bias of a tenth of their order count.
  - The best `top_n` are returned.
  - A list shorter than three is padded with the most popular item.

Modules, one per file:

| module | file | contents |
|---|---|---|
| `Cells` | `cells.dfy` | a dataframe cell: `Missing` (NaN) or `Present(value)` |
| `Collections` | `collections.dfy` | elements of a sequence, no-repeat sequences, `Counter` lookup with default 0 |
| `Lexicographic` | `lexicographic.dfy` | Python's `<` on strings and `tuple(sorted(pair))` |
| `Extract` | `extract.dfy` | `str.split(",")`, `str.strip()`, `extract_items` |
| `CoOccurrence` | `cooccurrence.dfy` | the build pass and its three tables |
| `Ranking` | `ranking.dfy` | `Counter.most_common(n)` |
| `Recommend` | `recommend.dfy` | cart filtering, scoring, ranking and the fill loop |
| `Scenarios` | `scenarios.dfy` | worked examples on a three-order history |

The reference definition throughout is `CoOccurrence.Support(orders, group)`.
It is the number of orders whose set of items includes `group`. The counting
tables and the scores are proved equal to expressions in `Support`, so the
proofs are independent of how the loops update their counters.

Scores are integers scaled by ten: `10 * coScore + popularity`. This orders
candidates exactly as `coScore + 0.1 * popularity` does in exact arithmetic.

`Counter.most_common(n)` is specified by `Ranking.IsMostCommon`:

- the result has the right length, `min(n, |keys|)`, or 0 when `n <= 0`;
- its keys are different and drawn from the table;
- their scores do not increase along the list;
- no key left out scores more than a key taken.

The order among equal scores is left open. `Ranking.MostCommon` is one
selection that meets the specification. `Ranking.RankedScoresAgree` shows
that any two rankings meeting it carry the same scores, position by
position.

Behaviour of the code worth knowing:

- `top_n <= 0` returns the empty list, because `most_common` of a
  non-positive count is empty. It is not rejected as an invalid argument.
- Cart filtering drops only missing values (`pd.notna`), not empty strings.
- A cart entry listed twice contributes its partners' pair counts twice.
- The fill appends one most popular item as often as needed. The padded list
  can therefore repeat that item, and can contain an item of the cart.
  `Recommend.FillToSlots` states that every appended item is the same one.

## Model

| member | source | states |
|---|---|---|
| Extract.ExtractItems | wwtprogram.py:23-25 | a missing field gives no items; a present one gives one item per comma-separated field (number of commas + 1), each without a comma and without whitespace at either end |
| Extract.ExtractItemsCutsFields | wwtprogram.py:25 | the k-th item is the k-th comma-separated field with whitespace-only runs cut from both ends and nothing else changed |
| Extract.ExtractItemsOfJoin | wwtprogram.py:23-25 | trimmed, comma-free items joined with commas are extracted back unchanged |
| Extract.IsSpace | wwtprogram.py:25 | the characters `str.strip()` removes; its meaning is carried by `Extract.Strip`, `Extract.StripTrimmed` and `Extract.StripIdempotent` |
| Extract.Strip | wwtprogram.py:25 | `str.strip()` leaves a string with no whitespace at either end, obtained by removing only whitespace from both ends |
| Extract.StripTrimmed | wwtprogram.py:25 | stripping a string without surrounding whitespace leaves it unchanged |
| Extract.StripIdempotent | wwtprogram.py:25 | stripping twice is the same as stripping once |
| Extract.Split | wwtprogram.py:25 | `str.split(",")` gives at least one field, and no field holds the separator |
| Extract.SplitLength | wwtprogram.py:25 | there is one field more than there are separators |
| Extract.Join | wwtprogram.py:25 | `sep.join(fields)`, the inverse `Extract.JoinSplit` and `Extract.SplitJoin` prove of `str.split(",")`, and through which `Extract.ExtractItemsOfJoin` states the extraction round trip |
| Extract.JoinSplit | wwtprogram.py:25 | joining the split fields with the separator restores the text |
| Extract.SplitJoin | wwtprogram.py:25 | splitting a join of separator-free fields gives back the fields |
| Lexicographic.Less | wwtprogram.py:40 | Python's `<` on strings, the order `sorted` puts a pair in; `Lexicographic.LessTotal` and `Lexicographic.SortedPair` state that it orders any two different items one way only |
| Lexicographic.SortedPair | wwtprogram.py:40 | `tuple(sorted(comb))` holds the same two items, the smaller first by Python string order |
| Lexicographic.SortedPairSymmetric | wwtprogram.py:39-40 | both orders of a pair get the same key |
| Lexicographic.LessTotal | wwtprogram.py:40 | Python string order is total on different strings, so sorting a pair of different items is determined |
| CoOccurrence.Bump | wwtprogram.py:38 | one order's contribution as a set update: one more for exactly the keys of the set, every other count kept; `CoOccurrence.BumpEachIsBump` proves the key-by-key loop over a list without repeats gives this same table |
| CoOccurrence.BumpEachCounts | wwtprogram.py:38-40 | adding one key by key (`Counter.update` of a list, or `counter[k] += 1` in a loop) adds to every key the number of times the list holds it, and creates exactly the keys it lists |
| CoOccurrence.BumpEachIsBump | wwtprogram.py:38-40 | over a list without repeats, the key-by-key loop gives the same table as adding one to each element of its set |
| CoOccurrence.PairsOf | wwtprogram.py:39-40 | the sorted keys of `itertools.combinations(xs, 2)` in the loop's order; `CoOccurrence.PairsOfKeys` carries its contract |
| CoOccurrence.PairsOfKeys | wwtprogram.py:37-40 | for a list without repeats, the combinations give every sorted pair of two different elements, and no key twice |
| CoOccurrence.PairKeys | wwtprogram.py:37-40 | the keys one order contributes are exactly the sorted pairs of different items it holds |
| CoOccurrence.OrderPass | wwtprogram.py:36-40 | for any listing of an order's different items, the body of the order loop bumps no pair key twice, and leaves both counters as one more step of `ItemCounts` and `PairCounts` |
| CoOccurrence.ItemCounts | wwtprogram.py:36-38 | `item_counts` after the order loop; `CoOccurrence.ItemCountsArePresence` proves it counts the orders holding each item |
| CoOccurrence.PairCounts | wwtprogram.py:36-40 | `pair_counts` after the order loop; `CoOccurrence.PairCountsAreCoPresence` proves it counts the orders holding each sorted pair |
| CoOccurrence.ItemCountsArePresence | wwtprogram.py:36-38 | `item_counts[i]` is the number of orders that hold `i`, and `i` is a key exactly when some order holds it |
| CoOccurrence.PopularityOfOneMoreOrder | wwtprogram.py:36-38 | counting one more order adds 1 to each item it lists, however often it lists it, and 0 to any other item |
| CoOccurrence.PairCountsAreCoPresence | wwtprogram.py:36-40 | every pair key is sorted, so never a self-pair; its count is the number of orders holding both items |
| CoOccurrence.Adjacency | wwtprogram.py:43-46 | `co_occurrence` filed from the pair counts; `CoOccurrence.AdjacencyMirrorsPairs` and `CoOccurrence.BuildModel` carry its contract |
| CoOccurrence.AdjacencyMirrorsPairs | wwtprogram.py:43-46 | with sorted keys, `co_occurrence[a][b]` is the count of the sorted pair of `a` and `b`, present exactly when that pair was counted, and no row is empty |
| CoOccurrence.BuildModel | wwtprogram.py:33-46 | item counts and pair counts equal order support; `b` is a partner of `a` exactly when they differ and share an order; the entry is that number of orders; the table is symmetric; every entry is positive |
| Recommend.CartOf | wwtprogram.py:71 | an item is in the cart exactly when some slot of the row holds it |
| Recommend.CartOfCounts | wwtprogram.py:71 | every present entry is kept as often as it occurs, and the cart is shorter than the row by the number of missing slots |
| Recommend.CartOfConcat | wwtprogram.py:71 | filtering keeps the order of the entries: it distributes over concatenation |
| Recommend.PairScore | wwtprogram.py:55-58 | the sum over the cart entries of an item's co-occurrence entries; `Recommend.PairScoreIsCoSupport` relates it to shared orders |
| Recommend.AddPartners | wwtprogram.py:56-58 | the inner loop over one entry's partners; `Recommend.CoScoresAreSums` carries its contract |
| Recommend.CoScores | wwtprogram.py:55-58 | the co-occurrence loop over the cart entries; `Recommend.CoScoresAreSums` proves it scores each non-cart partner its `PairScore` |
| Recommend.CoScoresAreSums | wwtprogram.py:52-58 | after the co-occurrence loop, the scored items are the partners of cart entries that are not in the cart, each scored the sum of its pair counts over the cart entries, counting repeated entries each time |
| Recommend.Scores | wwtprogram.py:52-62 | an item is scored exactly when it is outside the cart and a partner of some cart entry; its scaled score is ten times its pair-count sum plus its popularity |
| Recommend.RecommendItems | wwtprogram.py:51-64 | the result is a possible `most_common(top_n)` of the scores; no returned item is in the cart; every returned item co-occurs with some cart entry |
| Ranking.IsMostCommon | wwtprogram.py:64 | what `most_common(n)` promises: length `min(n, keys)` or 0, no repeats, keys of the table, non-increasing scores, no omitted key outscoring a taken one; `Ranking.MostCommon` shows it can be met |
| Ranking.MostCommon | wwtprogram.py:64 | the selection has length `min(n, keys)` (0 for `n <= 0`), no repeats, non-increasing scores, and no omitted key outscores a taken one |
| Ranking.RankedScoresAgree | wwtprogram.py:64 | any two possible values of `most_common(n)` carry the same scores position by position |
| Ranking.RankedUniqueWithoutTies | wwtprogram.py:64 | without ties among the scores, `most_common(n)` has exactly one possible value |
| Recommend.FillToSlots | wwtprogram.py:73-74 | with an empty popularity table and fewer than three items, the lookup fails; otherwise the list gets length `max(len, 3)`, keeps its prefix, and every appended item is one item of maximal popularity |
| Recommend.RecommendRow | wwtprogram.py:71-75 | a row fails only when fewer than three items scored and no item has a popularity count; otherwise it gets exactly three recommendations: its first `min(3, scored items)` are a possible `most_common(3)` of the scores of the filtered cart, and the rest are items of maximal popularity |
| Recommend.PairScoreIsCoSupport | wwtprogram.py:55-58 | when every table entry counts the orders holding both of its items and no item is its own partner, the pair-count sum of an item over the cart is the number of orders it shares with each cart entry, summed over the entries |
| Recommend.ScoresOfCounts | wwtprogram.py:52-62 | for any model whose tables hold the order counts, an item is scored exactly when it is outside the cart and shares an order with a cart entry; its scaled score is ten times the shared orders plus the orders that hold it |
| Recommend.ScoresOfBuiltModel | wwtprogram.py:33-62 | on a built model, an item is scored exactly when it is outside the cart and shares an order with a cart entry; its scaled score is ten times the shared orders plus the orders that hold it |
| Scenarios.HistoryModel | wwtprogram.py:33-46 | for orders {A, B}, {A, B}, {A, C}: popularity A 3, B 2, C 1; pair entries A–B 2 and A–C 1 in both directions; B–C 0 |
| Scenarios.RepeatedItemCountsOnce | wwtprogram.py:36-40 | an order listing A twice counts A once and the pair (A, B) once |
| Scenarios.HistoryScores | wwtprogram.py:51-62 | for that history and the cart [A], only B and C are scored, B with 22 and C with 11 (2.2 and 1.1 unscaled) |
| Scenarios.HistoryRecommendation | wwtprogram.py:51-64 | for that history and the cart [A], the two best are B then C, and no other ranking is possible |

## Left out

- Reading the four CSV files, the dataframe column plumbing, writing the
  output sheet and the final message (wwtprogram.py:14-17, 27-28, 70, 77,
  82-83). These are I/O. The model starts from the ORDERS cells as
  `Cells.Cell<string>` values and from a test row as a sequence of cells.
- The unused imports and the unused customer and store tables
  (wwtprogram.py:5-7, 15-16). Nothing reads them.
- Recommend.Scores: the score is the exact value `10 * coScore + popularity`,
  not the floating-point `coScore + 0.1 * popularity`. Rounding can split an
  exact tie. In double precision, `1 + 0.1 * 14` rounds to
  2.4000000000000004 but `2 + 0.1 * 4` rounds to 2.4. The program then ranks
  the first item strictly higher, which is one of the tie orders the model
  leaves open. Rounding cannot reverse a strict order: exact scores differ
  by at least 0.1, far more than the rounding error at realistic counts.
- Ranking.MostCommon: the order among equal scores is left open. The library
  keeps ties in insertion order, which depends on dictionary iteration order.
  The selection returns one admissible order, and `Ranking.IsMostCommon`
  admits all of them.
- Recommend.FillToSlots: `most_common(1)` is called once and its item is
  appended as often as needed. In the program the popularity table does not
  change inside the loop, so every call yields the same item. The
  `IndexError` on an empty table is modelled as the outcome
  `NoPopularItem`, not as an exception.
- `str(order_str)` on a non-string ORDERS value. The model takes the field as
  a string already; number formatting is Python's and is not modelled.
  Likewise, test cart slots are taken as strings when present.
- CoOccurrence.AdjacencyMirrorsPairs: the table is characterised only for
  pair tables whose keys are sorted, as every built table is. With a key
  and its reverse both present, the program's result would depend on
  dictionary iteration order.
- `defaultdict` and `Counter` side effects: reading a missing key is
  modelled as 0 or an empty row (`Count`, `Partners`). The program only
  reads with `.get` or reads keys that exist, so no entries are created.
