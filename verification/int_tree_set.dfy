/**
 * The part of a red-black tree set of ints that the itemset builder relies on:
 * building it from an int array collapses duplicates, and iterating it visits
 * the elements in ascending order, each once.
 */
module IntTreeSet {

  /** The elements of a sequence, duplicates collapsed. */
  function Elements(s: seq<int>): set<int> {
    set x | x in s
  }

  /** Sorted ascending with no duplicates. */
  predicate StrictlyAscending(s: seq<int>) {
    forall i, j :: 0 <= i < j < |s| ==> s[i] < s[j]
  }

  predicate IsMin(m: int, s: set<int>) {
    m in s && forall y :: y in s ==> m <= y
  }

  lemma {:induction false} MinExists(s: set<int>)
    requires s != {}
    ensures exists m :: IsMin(m, s)
  {
    assert (forall y :: y !in s) ==> s == {};
    var x :| x in s;
    if s != {x} {
      MinExists(s - {x});
      var m :| IsMin(m, s - {x});
      assert forall y :: y in s ==> y == x || y in s - {x};
      if x < m {
        assert IsMin(x, s);
      } else {
        assert IsMin(m, s);
      }
    } else {
      assert IsMin(x, s);
    }
  }

  lemma HeadIsElement(s: seq<int>)
    ensures |s| > 0 ==> s[0] in Elements(s)
  {
  }

  /** The first element an in-order walk of the tree visits. */
  function Min(s: set<int>): (m: int)
    requires s != {}
    ensures m in s
    ensures forall y :: y in s ==> m <= y
  {
    MinExists(s);
    var m :| IsMin(m, s);
    m
  }

  /** The elements of the set in the order the tree's iterator yields them. */
  function InOrder(s: set<int>): (r: seq<int>)
    ensures |r| == |s|
    ensures Elements(r) == s
    ensures StrictlyAscending(r)
    decreases |s|
  {
    if s == {} then []
    else
      var m := Min(s);
      var rest := InOrder(s - {m});
      assert forall x :: x in [m] + rest <==> x == m || x in rest;
      assert forall x :: x in s <==> x == m || x in s - {m};
      [m] + rest
  }

  /** Two strictly ascending sequences with the same elements are equal. */
  lemma {:induction false} AscendingUnique(a: seq<int>, b: seq<int>)
    requires StrictlyAscending(a) && StrictlyAscending(b)
    requires Elements(a) == Elements(b)
    ensures a == b
    decreases |a|
  {
    if a == [] {
      HeadIsElement(b);
    } else {
      assert b != [] by { assert a[0] in Elements(a); }
      assert a[0] == b[0] by {
        assert a[0] in Elements(b);
        assert b[0] in Elements(a);
      }
      assert Elements(a[1..]) == Elements(a) - {a[0]} by {
        assert forall x :: x in a[1..] ==> x != a[0];
        assert forall x :: x in a && x != a[0] ==> x in a[1..];
      }
      assert Elements(b[1..]) == Elements(b) - {b[0]} by {
        assert forall x :: x in b[1..] ==> x != b[0];
        assert forall x :: x in b && x != b[0] ==> x in b[1..];
      }
      AscendingUnique(a[1..], b[1..]);
      assert a == [a[0]] + a[1..] && b == [b[0]] + b[1..];
    }
  }

  /** Iterating the set built from an ascending, duplicate-free array gives the array back. */
  lemma InOrderOfAscending(a: seq<int>)
    requires StrictlyAscending(a)
    ensures InOrder(Elements(a)) == a
  {
    AscendingUnique(InOrder(Elements(a)), a);
  }
}
