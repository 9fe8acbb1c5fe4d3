# Association rule mining: basket builder and interest filters

A Dafny model of the original logic in tablesaw's association-rule-mining
wrapper (`AssociationRuleMining.java`). The wrapper has two parts:

- **Basket builder** (`Baskets`, on top of `IntTreeSet`). It takes two
  parallel columns, transaction ids and item ids. It puts them into one
  table and splits the table on the transaction column. (It also asks for
  the table sorted on (transaction, item), but that call returns a new
  table and the result is not used.) For each slice it builds a red-black tree set of the
  items and copies it, in iteration order, into a fresh `int[]` of the
  set's size. Those arrays fill an `int[][]` that has one slot per slice.
  The result is what the frequent-itemset miner is built from.
  - `BuildItemsets` is the constructor body.
  - `FillItemsets` is the loop over the slices, driven by `basketIndex`.
  - `CopyInOrder` is the copy loop, driven by `itemIndex`.
  - These three are methods proved against the pure functions `SplitOn`
    and `Itemsets`. `Itemsets` gives, for the b-th distinct transaction id
    in ascending order, the ascending list of the items paired with it.
  - The tree set's iteration order is `IntTreeSet.InOrder`. It is proved
    strictly ascending, to hold exactly the set's elements, and to be the
    only sequence with both properties.
- **Interest filters** (`Interest`). The interest of a rule is its
  confidence minus the baseline confidence stored under its consequent.
  The consequent is used as a set of items. A consequent missing from the
  baseline map reads as 0.
  - `InterestTable` holds the rows that `interest` appends: rules whose
    abs(interest) is greater than the threshold, in the miner's order.
  - `InterestingRules` is the filter `interestingRules` evidently intends,
    with the baseline looked up under the consequent's item set: it drops
    the rules whose abs(interest) is less than the threshold and keeps the
    others in order. The code as written looks the baseline up under the
    consequent array instead; that version is `InterestingRulesAsWritten`
    (see "## Findings").
  - The two filters disagree exactly on rules whose abs(interest) equals the
    threshold. The model keeps both, and the lemmas state where they differ.

The mined rules are an input: a sequence of `Rule(antecedent, consequent,
confidence)`. The table library's split is modelled by `SplitOn`: one slice
per distinct transaction id, ids ascending, each slice keeping its rows in
table order. The tree set built from a slice removes any effect of item
order. The table library rejects two columns of different lengths.
`BuildItemsets` returns `Err(ColumnSizeMismatch)` in that case.

The two interest filters compare with the threshold in opposite ways. The
table reports rules with abs(interest) > threshold, and `interestingRules`
keeps rules with abs(interest) >= threshold. The model keeps both
comparisons as the code has them.

## Model

| member | source | states |
|---|---|---|
| `IntTreeSet.InOrder` | src/main/java/tech/tablesaw/api/ml/association/AssociationRuleMining.java:54-60 | iterating the tree set yields exactly its elements, strictly ascending, as many as the set's size |
| `IntTreeSet.AscendingUnique` | src/main/java/tech/tablesaw/api/ml/association/AssociationRuleMining.java:54-60 | two strictly ascending sequences with the same elements are equal, so the iteration order is determined by the set alone |
| `IntTreeSet.InOrderOfAscending` | src/main/java/tech/tablesaw/api/ml/association/AssociationRuleMining.java:54 | a tree set built from an ascending, duplicate-free array iterates as that array |
| `Baskets.Slice` | src/main/java/tech/tablesaw/api/ml/association/AssociationRuleMining.java:50 | the item column of transaction t's slice holds exactly the items paired with t |
| `Baskets.SplitOn` | src/main/java/tech/tablesaw/api/ml/association/AssociationRuleMining.java:47-50 | splitting on the transaction column gives one slice per distinct transaction id, ids ascending, each with exactly that id's items |
| `Baskets.Itemsets` | src/main/java/tech/tablesaw/api/ml/association/AssociationRuleMining.java:50-62 | one itemset per distinct transaction id; each is non-empty, strictly ascending, and has exactly the items paired with its id |
| `Baskets.ItemsetsUnique` | src/main/java/tech/tablesaw/api/ml/association/AssociationRuleMining.java:51-61 | any per-transaction sequence of ascending lists with exactly each transaction's items is the itemsets |
| `Baskets.TransactionOrder` | src/main/java/tech/tablesaw/api/ml/association/AssociationRuleMining.java:50 | the slices' transaction ids: each distinct id once, strictly ascending |
| `Baskets.ItemsetsIgnoreRowOrder` | src/main/java/tech/tablesaw/api/ml/association/AssociationRuleMining.java:46-50 | inputs with the same multiset of (transaction, item) rows give the same itemsets |
| `Baskets.TwoBasketExample` | src/main/java/tech/tablesaw/api/ml/association/AssociationRuleMining.java:45-62 | rows (1,1), (1,2), (1,1), (2,2), (2,3) give the itemsets [1,2] and [2,3] |
| `Baskets.CopyInOrder` | src/main/java/tech/tablesaw/api/ml/association/AssociationRuleMining.java:55-60 | the new array has exactly the set's size and index i holds the i-th element of the set's iteration order, so every slot is written |
| `Baskets.FillItemsets` | src/main/java/tech/tablesaw/api/ml/association/AssociationRuleMining.java:51-62 | a new array with one slot per slice; after the loop every slot holds a new array, no two slots share one, and slot b holds slice b's tree set in iteration order |
| `Baskets.BuildItemsets` | src/main/java/tech/tablesaw/api/ml/association/AssociationRuleMining.java:45-64 | fails exactly when the columns differ in length; otherwise a new array with one slot per distinct transaction id, each slot a new array of its own, and slot b equals `Itemsets(sets, items)[b]` |
| `Interest.GetDouble` | src/main/java/tech/tablesaw/api/ml/association/AssociationRuleMining.java:120 | the baseline map's lookup: the stored value for a present key, 0 for a missing one |
| `Interest.InterestOf` | src/main/java/tech/tablesaw/api/ml/association/AssociationRuleMining.java:120 | interest is confidence minus the baseline stored under the consequent's item set, and the confidence itself when that set has no baseline |
| `Interest.RowOf` | src/main/java/tech/tablesaw/api/ml/association/AssociationRuleMining.java:122-125 | the appended row carries the rule's antecedent, consequent and confidence unchanged, plus the rule's interest |
| `Interest.InterestTable` | src/main/java/tech/tablesaw/api/ml/association/AssociationRuleMining.java:117-126 | no more rows than rules; every row has abs(interest) > threshold and interest = confidence − baseline of its consequent's set |
| `Interest.InterestTableRows` | src/main/java/tech/tablesaw/api/ml/association/AssociationRuleMining.java:119-126 | a row is in the table if and only if it records a mined rule whose abs(interest) exceeds the threshold, with that rule's antecedent, consequent, confidence and interest |
| `Interest.InterestTableAppend` | src/main/java/tech/tablesaw/api/ml/association/AssociationRuleMining.java:119-127 | the table of a + b is the table of a followed by that of b, so rows keep the miner's order |
| `Interest.InterestingRules` | src/main/java/tech/tablesaw/api/ml/association/AssociationRuleMining.java:93-104 | no more rules than mined; every kept rule has abs(interest) >= threshold |
| `Interest.InterestingRulesMembers` | src/main/java/tech/tablesaw/api/ml/association/AssociationRuleMining.java:97-101 | a rule is kept if and only if it was mined and its abs(interest) is not below the threshold |
| `Interest.InterestingRulesAppend` | src/main/java/tech/tablesaw/api/ml/association/AssociationRuleMining.java:97-103 | the kept rules of a + b are those of a followed by those of b, so the kept rules stay in order |
| `Interest.Ties` | src/main/java/tech/tablesaw/api/ml/association/AssociationRuleMining.java:99-121 | the rules whose abs(interest) equals the threshold exactly |
| `Interest.TiesMembers` | src/main/java/tech/tablesaw/api/ml/association/AssociationRuleMining.java:99-121 | a rule is a tie if and only if it was mined and its abs(interest) equals the threshold |
| `Interest.KeptIsReportedPlusTies` | src/main/java/tech/tablesaw/api/ml/association/AssociationRuleMining.java:97-126 | the number of kept rules is the number of table rows plus the number of rules on the threshold |
| `Interest.NoTiesFiltersAgree` | src/main/java/tech/tablesaw/api/ml/association/AssociationRuleMining.java:97-126 | when no rule sits on the threshold, the table reports exactly the kept rules, in the same order |
| `Interest.BoundaryRule` | src/main/java/tech/tablesaw/api/ml/association/AssociationRuleMining.java:99-121 | a rule whose abs(interest) equals the threshold is kept by `interestingRules` and absent from the table |
| `Interest.ArrayKeyLookup` | src/main/java/tech/tablesaw/api/ml/association/AssociationRuleMining.java:98 | the lookup keyed by the consequent array yields what an empty map yields, 0, whatever the map holds |
| `Interest.InterestingRulesAsWritten` | src/main/java/tech/tablesaw/api/ml/association/AssociationRuleMining.java:96-103 | the filter with the array-keyed lookup: keeps only rules with abs(confidence) >= threshold |
| `Interest.AsWrittenIgnoresBaseline` | src/main/java/tech/tablesaw/api/ml/association/AssociationRuleMining.java:98 | as written, the result is the same as with an empty baseline map, whatever map is passed |
| `Interest.AsWrittenKeepsUninterestingRule` | src/main/java/tech/tablesaw/api/ml/association/AssociationRuleMining.java:98 | a rule with interest 0.1 against a threshold of 0.2 is kept as written and dropped by the set-keyed lookup |

## Findings

| source | as written | input that shows it | evidently intended | confidence | as-written member | corrected member |
|---|---|---|---|---|---|---|
| src/main/java/tech/tablesaw/api/ml/association/AssociationRuleMining.java:98 | the baseline is looked up with the `int[]` consequent as the key. The map's keys are `IntRBTreeSet`s, and an array equals only itself, so the lookup always misses and the baseline is always the default 0 | rule [1] ⇒ [2] with confidence 0.6, baseline {2} ↦ 0.5, threshold 0.2: the interest is 0.1 < 0.2, yet the rule is kept | look up the consequent as a set, as line 120 does | high, by reading the key types; not executed | `Interest.InterestingRulesAsWritten`, `Interest.AsWrittenKeepsUninterestingRule` | `Interest.InterestingRules` |

## Left out

- The string-item constructor (AssociationRuleMining.java:67-87) first codes the strings as integers through the column's dictionary. After that it runs the same builder. The model takes integer item codes; the coding is table-library code.
- The miner is not modelled. That covers `new ARM(itemsets, support)` (line 64), `learn` (a pass-through to the miner) and the `model.learn` calls at lines 96 and 117. Frequent-itemset mining and confidence computation happen in that library. Its rules are an input to the filters.
- `interestingRules` removes rules from the list it is iterating over (lines 97-100). With a Java list iterator, that raises a concurrent-modification failure or skips the last rule. The model gives the filter's intended result, a new sequence.
- `Baskets.SplitOn`: the constructors call `sortAscendingOn` (lines 48 and 70), which returns a new sorted table; that result is discarded, so `splitOn` receives the rows in their original order. The table library's `splitOn` is not part of this model. The model assumes it groups the rows by transaction id, one slice per distinct id, with the ids ascending and each slice's rows in table order. The miner does not depend on the slice order, and the tree set removes any effect of the item order.
- Confidence and interest are `real`. IEEE-754 rounding, NaN and infinities are not modelled.
- Item and transaction ids are unbounded integers. The truncation of numeric column values to `int` by `asIntArray` is not modelled.
- The baseline map's default return value is fixed at 0. A caller could change it on the hash map; the model does not cover that.
- Column formatting (`Arrays.toString` of antecedent and consequent) and the table object are left out. A table row is an `InterestRow` that keeps the arrays as sequences.
- Confusion matrices, k-nearest-neighbours, decision trees, K-means and X-means are not part of this model. They wrap an external learning library. ConfusionMatrix and StandardConfusionMatrix are not part of this model.
