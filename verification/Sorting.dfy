/** The stable sort of the library, for an order given as "may stand before". */
module Sorting {
  ghost predicate TotalPreorder<T(!new)>(before: (T, T) -> bool) {
    && (forall a, b :: before(a, b) || before(b, a))
    && (forall a, b, c :: before(a, b) && before(b, c) ==> before(a, c))
  }

  ghost predicate SortedBy<T>(items: seq<T>, before: (T, T) -> bool) {
    forall i, j :: 0 <= i < j < |items| ==> before(items[i], items[j])
  }

  /** Insert after the items that may stand before it. */
  function Insert<T>(x: T, sorted: seq<T>, before: (T, T) -> bool): seq<T> {
    if sorted == [] || before(sorted[|sorted| - 1], x) then sorted + [x]
    else Insert(x, sorted[..|sorted| - 1], before) + [sorted[|sorted| - 1]]
  }

  function Sort<T>(items: seq<T>, before: (T, T) -> bool): seq<T> {
    if items == [] then [] else Insert(items[|items| - 1], Sort(items[..|items| - 1], before), before)
  }

  lemma {:induction false} InsertPermutes<T>(x: T, sorted: seq<T>, before: (T, T) -> bool)
    ensures multiset(Insert(x, sorted, before)) == multiset(sorted + [x])
  {
    if sorted != [] && !before(sorted[|sorted| - 1], x) {
      var front, last := sorted[..|sorted| - 1], sorted[|sorted| - 1];
      assert sorted == front + [last];
      InsertPermutes(x, front, before);
    }
  }

  lemma {:induction false} InsertSorts<T(!new)>(x: T, sorted: seq<T>, before: (T, T) -> bool)
    requires TotalPreorder(before) && SortedBy(sorted, before)
    ensures SortedBy(Insert(x, sorted, before), before)
  {
    if sorted != [] {
      var front, last := sorted[..|sorted| - 1], sorted[|sorted| - 1];
      if before(last, x) {
        forall i | 0 <= i < |sorted| ensures before(sorted[i], x) {
          assert i < |sorted| - 1 ==> before(sorted[i], last);
        }
      } else {
        InsertSorts(x, front, before);
        InsertPermutes(x, front, before);
        var inner := Insert(x, front, before);
        forall i | 0 <= i < |inner| ensures before(inner[i], last) {
          assert inner[i] in multiset(inner) && inner[i] in multiset(front + [x]);
          assert inner[i] in front + [x];
        }
      }
    }
  }

  /** Sorting keeps the items and puts them in order. */
  lemma {:induction false} SortFacts<T(!new)>(items: seq<T>, before: (T, T) -> bool)
    requires TotalPreorder(before)
    ensures multiset(Sort(items, before)) == multiset(items) && |Sort(items, before)| == |items|
    ensures SortedBy(Sort(items, before), before)
  {
    if items != [] {
      var front, last := items[..|items| - 1], items[|items| - 1];
      assert items == front + [last];
      SortFacts(front, before);
      InsertPermutes(last, Sort(front, before), before);
      InsertSorts(last, Sort(front, before), before);
    }
    assert |Sort(items, before)| == |multiset(Sort(items, before))|;
  }

  // ---- stability ----

  predicate Alike<T>(pivot: T, x: T, before: (T, T) -> bool) {
    before(pivot, x) && before(x, pivot)
  }

  /** The items that rank level with a pivot, in their order. */
  function LevelWith<T>(pivot: T, items: seq<T>, before: (T, T) -> bool): seq<T> {
    if items == [] then [] else
      var last := items[|items| - 1];
      LevelWith(pivot, items[..|items| - 1], before) + (if Alike(pivot, last, before) then [last] else [])
  }

  lemma {:induction false} InsertIsStable<T(!new)>(x: T, sorted: seq<T>, before: (T, T) -> bool, pivot: T)
    requires TotalPreorder(before)
    ensures LevelWith(pivot, Insert(x, sorted, before), before) == LevelWith(pivot, sorted + [x], before)
  {
    assert (sorted + [x])[..|sorted|] == sorted;
    if sorted != [] && !before(sorted[|sorted| - 1], x) {
      var front, last := sorted[..|sorted| - 1], sorted[|sorted| - 1];
      InsertIsStable(x, front, before, pivot);
      assert (front + [x])[..|front|] == front;
      var inner := Insert(x, front, before);
      assert (inner + [last])[..|inner|] == inner;
      assert Alike(pivot, x, before) && Alike(pivot, last, before) ==> before(last, pivot) && before(pivot, x);
    }
  }

  /** Items that rank level keep the order they came in. */
  lemma {:induction false} SortIsStable<T(!new)>(items: seq<T>, before: (T, T) -> bool, pivot: T)
    requires TotalPreorder(before)
    ensures LevelWith(pivot, Sort(items, before), before) == LevelWith(pivot, items, before)
  {
    if items != [] {
      var front, last := items[..|items| - 1], items[|items| - 1];
      SortIsStable(front, before, pivot);
      var sorted := Sort(front, before);
      InsertIsStable(last, sorted, before, pivot);
      assert (sorted + [last])[..|sorted|] == sorted;
    }
  }

  /** In order, and items that rank level in the order of their seats. */
  ghost predicate OrderedBySeat<T>(items: seq<T>, before: (T, T) -> bool, seat: T -> int) {
    forall i, j :: 0 <= i < j < |items| ==>
      before(items[i], items[j]) && (before(items[j], items[i]) ==> seat(items[i]) < seat(items[j]))
  }

  /** What all items of a list come before, in order and in seat, may follow them. */
  lemma SeatedSnoc<T>(items: seq<T>, last: T, before: (T, T) -> bool, seat: T -> int)
    requires OrderedBySeat(items, before, seat)
    requires forall e :: e in items ==> before(e, last) && (before(last, e) ==> seat(e) < seat(last))
    ensures OrderedBySeat(items + [last], before, seat)
  {
    assert forall i :: 0 <= i < |items| ==> items[i] in items;
  }

  lemma InsertHolds<T>(x: T, sorted: seq<T>, before: (T, T) -> bool, e: T)
    requires e in Insert(x, sorted, before)
    ensures e == x || e in sorted
  {
    InsertPermutes(x, sorted, before);
    assert e in multiset(Insert(x, sorted, before)) && e in multiset(sorted + [x]);
    assert e in sorted + [x];
  }

  lemma {:induction false} InsertKeepsSeats<T(!new)>(x: T, sorted: seq<T>, before: (T, T) -> bool, seat: T -> int)
    requires TotalPreorder(before) && OrderedBySeat(sorted, before, seat)
    requires forall e :: e in sorted ==> seat(e) < seat(x)
    ensures OrderedBySeat(Insert(x, sorted, before), before, seat)
  {
    if sorted != [] {
      var front, last := sorted[..|sorted| - 1], sorted[|sorted| - 1];
      assert sorted == front + [last];
      forall e | e in front ensures before(e, last) && (before(last, e) ==> seat(e) < seat(last)) {
        var i :| 0 <= i < |front| && front[i] == e;
        assert sorted[i] == e;
      }
      if before(last, x) {
        SeatedSnoc(sorted, x, before, seat);
      } else {
        InsertKeepsSeats(x, front, before, seat);
        var inner := Insert(x, front, before);
        forall e | e in inner ensures before(e, last) && (before(last, e) ==> seat(e) < seat(last)) {
          InsertHolds(x, front, before, e);
        }
        SeatedSnoc(inner, last, before, seat);
      }
    }
  }

  /** Sorting items that come in the order of their seats keeps that order among those that rank level. */
  lemma {:induction false} SortKeepsSeats<T(!new)>(items: seq<T>, before: (T, T) -> bool, seat: T -> int)
    requires TotalPreorder(before) && forall i, j :: 0 <= i < j < |items| ==> seat(items[i]) < seat(items[j])
    ensures OrderedBySeat(Sort(items, before), before, seat)
  {
    if items != [] {
      var front, last := items[..|items| - 1], items[|items| - 1];
      SortKeepsSeats(front, before, seat);
      SortFacts(front, before);
      forall e | e in Sort(front, before) ensures seat(e) < seat(last) {
        assert e in multiset(Sort(front, before)) && e in multiset(front);
        var i :| 0 <= i < |front| && front[i] == e;
        assert items[i] == e;
      }
      InsertKeepsSeats(last, Sort(front, before), before, seat);
    }
  }
}
