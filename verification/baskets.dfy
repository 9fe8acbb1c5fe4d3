/**
 * The basket builder of association rule mining: parallel columns of
 * transaction ids and item ids become one itemset per distinct transaction,
 * each the ascending, duplicate-free list of the items bought in it. The
 * itemsets are what the frequent-itemset miner is constructed from.
 */
module Baskets {
  import opened IntTreeSet

  datatype BuildError = ColumnSizeMismatch

  datatype Result<T> = Ok(value: T) | Err(error: BuildError)

  /** The item ids paired with transaction t in some row. */
  function ItemsOf(sets: seq<int>, items: seq<int>, t: int): set<int>
    requires |sets| == |items|
  {
    set i | 0 <= i < |sets| && sets[i] == t :: items[i]
  }

  /**
   * The distinct transaction ids, in the order the table's slices come in:
   * each id once, ascending.
   */
  function TransactionOrder(sets: seq<int>): (ids: seq<int>)
    ensures |ids| == |Elements(sets)|
    ensures Elements(ids) == Elements(sets)
    ensures StrictlyAscending(ids)
  {
    InOrder(Elements(sets))
  }

  lemma ItemsOfLastRow(sets: seq<int>, items: seq<int>, t: int)
    requires |sets| == |items| && sets != []
    ensures var n := |sets| - 1;
      ItemsOf(sets, items, t)
      == ItemsOf(sets[..n], items[..n], t) + (if sets[n] == t then {items[n]} else {})
  {
    var n := |sets| - 1;
    forall x
      ensures x in ItemsOf(sets, items, t)
              <==> x in ItemsOf(sets[..n], items[..n], t) || (sets[n] == t && x == items[n])
    {
      if x in ItemsOf(sets, items, t) {
        var i :| 0 <= i < |sets| && sets[i] == t && items[i] == x;
        if i < n {
          assert sets[..n][i] == t && items[..n][i] == x;
        }
      }
      if x in ItemsOf(sets[..n], items[..n], t) {
        var i :| 0 <= i < n && sets[..n][i] == t && items[..n][i] == x;
        assert sets[i] == t && items[i] == x;
      }
    }
  }

  /**
   * The item column of the slice for transaction t, once the table is split
   * on the transaction column: the items of t's rows, duplicates included.
   */
  function Slice(sets: seq<int>, items: seq<int>, t: int): (r: seq<int>)
    requires |sets| == |items|
    ensures Elements(r) == ItemsOf(sets, items, t)
    decreases |sets|
  {
    if sets == [] then []
    else
      var n := |sets| - 1;
      ItemsOfLastRow(sets, items, t);
      var r := Slice(sets[..n], items[..n], t) + (if sets[n] == t then [items[n]] else []);
      assert forall x :: x in r <==> x in Slice(sets[..n], items[..n], t) || (sets[n] == t && x == items[n]);
      r
  }

  /**
   * Splitting the table on the transaction column: one slice per distinct
   * transaction id, ids ascending, each slice keeping its rows in table order.
   */
  function SplitOn(sets: seq<int>, items: seq<int>): (baskets: seq<seq<int>>)
    requires |sets| == |items|
    ensures |baskets| == |Elements(sets)|
    ensures forall b :: 0 <= b < |baskets| ==>
              Elements(baskets[b]) == ItemsOf(sets, items, TransactionOrder(sets)[b])
  {
    var ids := TransactionOrder(sets);
    seq(|ids|, b requires 0 <= b < |ids| => Slice(sets, items, ids[b]))
  }

  lemma OccurringIdHasItems(sets: seq<int>, items: seq<int>, t: int)
    requires |sets| == |items|
    requires t in Elements(sets)
    ensures ItemsOf(sets, items, t) != {}
  {
    var i :| 0 <= i < |sets| && sets[i] == t;
    assert items[i] in ItemsOf(sets, items, t);
  }

  /**
   * The itemsets the miner is given: for the b-th distinct transaction id
   * in ascending order, the ascending list of the items paired with it.
   */
  function Itemsets(sets: seq<int>, items: seq<int>): (r: seq<seq<int>>)
    requires |sets| == |items|
    ensures |r| == |Elements(sets)|
    ensures forall b :: 0 <= b < |r| ==>
              && r[b] != []
              && StrictlyAscending(r[b])
              && Elements(r[b]) == ItemsOf(sets, items, TransactionOrder(sets)[b])
  {
    var ids := TransactionOrder(sets);
    forall b | 0 <= b < |ids| ensures ItemsOf(sets, items, ids[b]) != {} {
      assert ids[b] in Elements(ids);
      OccurringIdHasItems(sets, items, ids[b]);
    }
    seq(|ids|, b requires 0 <= b < |ids| => InOrder(ItemsOf(sets, items, ids[b])))
  }

  /**
   * The itemsets are the only sequence of ascending, duplicate-free lists
   * with one entry per transaction holding exactly its items.
   */
  lemma {:induction false} ItemsetsUnique(sets: seq<int>, items: seq<int>, out: seq<seq<int>>)
    requires |sets| == |items|
    requires |out| == |Elements(sets)|
    requires forall b :: 0 <= b < |out| ==>
               StrictlyAscending(out[b]) && Elements(out[b]) == ItemsOf(sets, items, TransactionOrder(sets)[b])
    ensures out == Itemsets(sets, items)
  {
    var expected := Itemsets(sets, items);
    forall b | 0 <= b < |out| ensures out[b] == expected[b] {
      AscendingUnique(out[b], expected[b]);
    }
  }

  /** The rows as (transaction, item) pairs. */
  function Pairs(sets: seq<int>, items: seq<int>): (ps: seq<(int, int)>)
    requires |sets| == |items|
  {
    seq(|sets|, i requires 0 <= i < |sets| => (sets[i], items[i]))
  }

  lemma IdsFromPairs(sets: seq<int>, items: seq<int>)
    requires |sets| == |items|
    ensures Elements(sets) == set p | p in Pairs(sets, items) :: p.0
  {
    var ps := Pairs(sets, items);
    forall t | t in Elements(sets) ensures t in set p | p in ps :: p.0 {
      var i :| 0 <= i < |sets| && sets[i] == t;
      assert ps[i] in ps;
    }
  }

  lemma ItemsFromPairs(sets: seq<int>, items: seq<int>, t: int)
    requires |sets| == |items|
    ensures ItemsOf(sets, items, t) == set p | p in Pairs(sets, items) && p.0 == t :: p.1
  {
    var ps := Pairs(sets, items);
    forall x | x in ItemsOf(sets, items, t) ensures x in set p | p in ps && p.0 == t :: p.1 {
      var i :| 0 <= i < |sets| && sets[i] == t && items[i] == x;
      assert ps[i] in ps;
    }
    forall x | x in (set p | p in ps && p.0 == t :: p.1) ensures x in ItemsOf(sets, items, t) {
      var p :| p in ps && p.0 == t && p.1 == x;
      var i :| 0 <= i < |ps| && ps[i] == p;
      assert sets[i] == t && items[i] == x;
    }
  }

  /**
   * The itemsets depend only on the multiset of (transaction, item) rows,
   * not on the order the rows come in: the split groups rows by value and
   * the tree set forgets the order of the items.
   */
  lemma {:induction false} ItemsetsIgnoreRowOrder(sets: seq<int>, items: seq<int>, sets': seq<int>, items': seq<int>)
    requires |sets| == |items| && |sets'| == |items'|
    requires multiset(Pairs(sets, items)) == multiset(Pairs(sets', items'))
    ensures Itemsets(sets, items) == Itemsets(sets', items')
  {
    var ps, ps' := Pairs(sets, items), Pairs(sets', items');
    assert forall p :: p in ps <==> p in ps' by {
      forall p ensures p in ps <==> p in ps' {
        assert p in ps <==> p in multiset(ps);
        assert p in ps' <==> p in multiset(ps');
      }
    }
    IdsFromPairs(sets, items);
    IdsFromPairs(sets', items');
    assert Elements(sets) == Elements(sets');
    forall t ensures ItemsOf(sets, items, t) == ItemsOf(sets', items', t) {
      ItemsFromPairs(sets, items, t);
      ItemsFromPairs(sets', items', t);
    }
  }

  /** Rows (1,1), (1,2), (1,1), (2,2), (2,3) give the itemsets [1,2] and [2,3]. */
  lemma {:induction false} TwoBasketExample()
    ensures Itemsets([1, 1, 1, 2, 2], [1, 2, 1, 2, 3]) == [[1, 2], [2, 3]]
  {
    var sets, items := [1, 1, 1, 2, 2], [1, 2, 1, 2, 3];
    assert Elements(sets) == Elements([1, 2]) == {1, 2};
    InOrderOfAscending([1, 2]);
    assert ItemsOf(sets, items, 1) == Elements([1, 2]) by {
      assert sets[0] == 1 && items[0] == 1;
      assert sets[1] == 1 && items[1] == 2;
    }
    assert ItemsOf(sets, items, 2) == Elements([2, 3]) by {
      assert sets[3] == 2 && items[3] == 2;
      assert sets[4] == 2 && items[4] == 3;
    }
    ItemsetsUnique(sets, items, [[1, 2], [2, 3]]);
  }

  /**
   * Copies a basket's tree set into a new array of the set's size, visiting
   * the set in iteration order and writing each index once.
   */
  method CopyInOrder(treeSet: set<int>) returns (row: array<int>)
    ensures fresh(row)
    ensures row.Length == |treeSet|
    ensures row[..] == InOrder(treeSet)
  {
    var order := InOrder(treeSet);
    row := new int[|treeSet|];
    var itemIndex := 0;
    while itemIndex < |order|
      invariant 0 <= itemIndex <= |order| == row.Length
      invariant forall k :: 0 <= k < itemIndex ==> row[k] == order[k]
    {
      row[itemIndex] := order[itemIndex];
      itemIndex := itemIndex + 1;
    }
    assert itemIndex == |treeSet|;
  }

  /**
   * The loop over the slices: one slot per basket, each filled with the
   * basket's tree set in iteration order; no slot is left null.
   */
  method FillItemsets(baskets: seq<seq<int>>) returns (itemsets: array<array?<int>>)
    ensures fresh(itemsets)
    ensures itemsets.Length == |baskets|
    ensures forall b :: 0 <= b < |baskets| ==>
              itemsets[b] != null && fresh(itemsets[b]) && itemsets[b][..] == InOrder(Elements(baskets[b]))
    ensures forall i, j :: 0 <= i < j < |baskets| ==> itemsets[i] != itemsets[j]
  {
    ghost var orders := seq(|baskets|, b requires 0 <= b < |baskets| => InOrder(Elements(baskets[b])));
    itemsets := new array?<int>[|baskets|];
    var basketIndex := 0;
    while basketIndex < |baskets|
      invariant 0 <= basketIndex <= |baskets|
      invariant forall k :: 0 <= k < basketIndex ==> itemsets[k] != null && fresh(itemsets[k]) && itemsets[k][..] == orders[k]
      invariant forall i, j :: 0 <= i < j < basketIndex ==> itemsets[i] != itemsets[j]
    {
      var treeSet := Elements(baskets[basketIndex]);
      itemsets[basketIndex] := CopyInOrder(treeSet);
      basketIndex := basketIndex + 1;
    }
  }

  /**
   * Builds the itemsets array the miner is constructed from: the two columns
   * become one table, which is split on the transaction column (the sort the
   * constructor asks for returns a new table that is not used); the slices
   * are then turned into itemsets.
   */
  method BuildItemsets(sets: seq<int>, items: seq<int>) returns (r: Result<array<array?<int>>>)
    ensures r.Err? <==> |sets| != |items|
    ensures r.Ok? ==> |sets| == |items| && fresh(r.value) && r.value.Length == |Elements(sets)|
    ensures r.Ok? ==> forall b :: 0 <= b < r.value.Length ==>
              r.value[b] != null && fresh(r.value[b]) && r.value[b][..] == Itemsets(sets, items)[b]
    ensures r.Ok? ==> forall i, j :: 0 <= i < j < r.value.Length ==> r.value[i] != r.value[j]
  {
    if |sets| != |items| {
      return Err(ColumnSizeMismatch);
    }
    var baskets := SplitOn(sets, items);
    var itemsets := FillItemsets(baskets);
    return Ok(itemsets);
  }
}
