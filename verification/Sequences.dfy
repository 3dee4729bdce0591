/** List operations of JavaScript that several parts of the repository use: `slice` and the stable `sort`. */
module Sequences {

  /** The part of a list from one position to another, cut off at its end. */
  function Slice<T>(items: seq<T>, from: nat, to: nat): seq<T>
    requires from <= to
  {
    items[if from < |items| then from else |items|..if to < |items| then to else |items|]
  }

  // ----- sorting by a relation that says what comes first

  /** The relation compares like numbers do: not both ways, and "not after" can be chained. */
  ghost predicate Compares<T(!new)>(before: (T, T) -> bool) {
    && (forall a, b :: before(a, b) ==> !before(b, a))
    && (forall a, b, c :: !before(b, a) && !before(c, b) ==> !before(c, a))
  }

  /** Puts an element behind every element that it does not come before. */
  function Insert<T>(before: (T, T) -> bool, sorted: seq<T>, e: T): seq<T> {
    if sorted == [] || !before(e, sorted[|sorted| - 1]) then sorted + [e]
    else Insert(before, sorted[..|sorted| - 1], e) + [sorted[|sorted| - 1]]
  }

  function Sort<T>(before: (T, T) -> bool, items: seq<T>): seq<T> {
    if items == [] then [] else Insert(before, Sort(before, items[..|items| - 1]), items[|items| - 1])
  }

  ghost predicate Ordered<T>(before: (T, T) -> bool, items: seq<T>) {
    forall i, j :: 0 <= i < j < |items| ==> !before(items[j], items[i])
  }

  lemma {:induction false} InsertPermutes<T>(before: (T, T) -> bool, sorted: seq<T>, e: T)
    ensures multiset(Insert(before, sorted, e)) == multiset(sorted) + multiset{e}
  {
    if sorted != [] && before(e, sorted[|sorted| - 1]) {
      InsertPermutes(before, sorted[..|sorted| - 1], e);
      assert sorted == sorted[..|sorted| - 1] + [sorted[|sorted| - 1]];
    }
  }

  lemma {:induction false} InsertOrders<T(!new)>(before: (T, T) -> bool, sorted: seq<T>, e: T)
    requires Compares(before) && Ordered(before, sorted)
    ensures Ordered(before, Insert(before, sorted, e))
  {
    if sorted != [] {
      var init, last := sorted[..|sorted| - 1], sorted[|sorted| - 1];
      if before(e, last) {
        InsertOrders(before, init, e);
        InsertPermutes(before, init, e);
        var front := Insert(before, init, e);
        forall i | 0 <= i < |front|
          ensures !before(last, front[i])
        {
          assert front[i] in multiset(init) + multiset{e};
        }
      } else {
        forall i | 0 <= i < |sorted|
          ensures !before(e, sorted[i])
        {
          assert i < |sorted| - 1 ==> !before(last, sorted[i]);
        }
      }
    }
  }

  /** Sorting arranges a list in order and keeps each element as often as it occurs. */
  lemma {:induction false} SortSorts<T(!new)>(before: (T, T) -> bool, items: seq<T>)
    requires Compares(before)
    ensures Ordered(before, Sort(before, items)) && multiset(Sort(before, items)) == multiset(items)
  {
    if items != [] {
      var init, last := items[..|items| - 1], items[|items| - 1];
      SortSorts(before, init);
      InsertOrders(before, Sort(before, init), last);
      InsertPermutes(before, Sort(before, init), last);
      assert items == init + [last];
    }
  }

  lemma {:induction false} OrderedIsSorted<T>(before: (T, T) -> bool, items: seq<T>)
    requires Ordered(before, items)
    ensures Sort(before, items) == items
  {
    if items != [] {
      var init, last := items[..|items| - 1], items[|items| - 1];
      OrderedIsSorted(before, init);
      assert items == init + [last];
    }
  }
}
