/** What the sorting routines of the standard library promise: an ordered, stable rearrangement. */
module Sorting {
  import opened Prelude

  /** A strict weak ordering. */
  ghost predicate IsOrder<T(!new)>(less: (T, T) -> bool) {
    && (forall x :: !less(x, x))
    && (forall x, y, z :: less(x, y) && less(y, z) ==> less(x, z))
    && (forall x, y, z :: less(x, z) ==> less(x, y) || less(y, z))
  }

  ghost predicate Ordered<T>(s: seq<T>, less: (T, T) -> bool) {
    forall i, j | 0 <= i < j < |s| :: !less(s[j], s[i])
  }

  /** Puts x behind everything that need not come after it. */
  function Insert<T>(s: seq<T>, x: T, less: (T, T) -> bool): seq<T> {
    if s == [] || !less(x, Last(s)) then s + [x] else Insert(Front(s), x, less) + [Last(s)]
  }

  function Sort<T>(s: seq<T>, less: (T, T) -> bool): seq<T> {
    if s == [] then [] else Insert(Sort(Front(s), less), Last(s), less)
  }

  lemma MultisetAppend<T>(s: seq<T>, x: T)
    ensures multiset(s + [x]) == multiset(s) + multiset{x}
  {
  }

  lemma {:induction false} InsertPermutes<T>(s: seq<T>, x: T, less: (T, T) -> bool)
    ensures multiset(Insert(s, x, less)) == multiset(s) + multiset{x}
    ensures |Insert(s, x, less)| == |s| + 1
  {
    MultisetAppend(s, x);
    if s != [] {
      assert s == Front(s) + [Last(s)];
      InsertPermutes(Front(s), x, less);
      MultisetAppend(Insert(Front(s), x, less), Last(s));
    }
  }

  lemma {:induction false} SortPermutes<T>(s: seq<T>, less: (T, T) -> bool)
    ensures multiset(Sort(s, less)) == multiset(s) && |Sort(s, less)| == |s|
  {
    if s != [] {
      assert s == Front(s) + [Last(s)];
      SortPermutes(Front(s), less);
      InsertPermutes(Sort(Front(s), less), Last(s), less);
    }
  }

  lemma SameElements<T>(a: seq<T>, b: seq<T>)
    requires multiset(a) == multiset(b)
    ensures forall x :: x in a <==> x in b
  {
    assert forall x :: x in a <==> x in multiset(a);
    assert forall x :: x in b <==> x in multiset(b);
  }

  lemma OrderedExtended<T>(s: seq<T>, x: T, less: (T, T) -> bool)
    requires Ordered(s, less) && forall y | y in s :: !less(x, y)
    ensures Ordered(s + [x], less)
  {
  }

  /** A strict weak ordering read backwards through a middle element. */
  lemma NotLessThrough<T(!new)>(less: (T, T) -> bool, x: T, y: T, z: T)
    requires IsOrder(less) && !less(x, y) && !less(y, z)
    ensures !less(x, z)
  {
  }

  lemma {:induction false} InsertOrders<T(!new)>(s: seq<T>, x: T, less: (T, T) -> bool)
    requires IsOrder(less) && Ordered(s, less)
    ensures Ordered(Insert(s, x, less), less)
  {
    if s == [] {
    } else if !less(x, Last(s)) {
      forall y | y in s
        ensures !less(x, y)
      {
        if y != Last(s) {
          NotLessThrough(less, x, Last(s), y);
        }
      }
      OrderedExtended(s, x, less);
    } else {
      var f, z := Front(s), Last(s);
      assert !less(z, x);
      InsertOrders(f, x, less);
      InsertPermutes(f, x, less);
      MultisetAppend(f, x);
      SameElements(Insert(f, x, less), f + [x]);
      forall y | y in Insert(f, x, less)
        ensures !less(z, y)
      {
        assert y in f + [x];
      }
      OrderedExtended(Insert(f, x, less), z, less);
    }
  }

  lemma {:induction false} SortOrders<T(!new)>(s: seq<T>, less: (T, T) -> bool)
    requires IsOrder(less)
    ensures Ordered(Sort(s, less), less)
  {
    if s != [] {
      SortOrders(Front(s), less);
      InsertOrders(Sort(Front(s), less), Last(s), less);
    }
  }

  /** An ordering under which only equal elements tie leaves one possible result. */
  ghost predicate IsTotal<T(!new)>(less: (T, T) -> bool) {
    forall x, y :: !less(x, y) && !less(y, x) ==> x == y
  }

  lemma MultisetFront<T>(s: seq<T>)
    requires s != []
    ensures multiset(Front(s)) == multiset(s) - multiset{Last(s)}
  {
    assert s == Front(s) + [Last(s)];
    MultisetAppend(Front(s), Last(s));
  }

  lemma SameLast<T(!new)>(a: seq<T>, b: seq<T>, less: (T, T) -> bool)
    requires IsTotal(less) && Ordered(a, less) && Ordered(b, less) && multiset(a) == multiset(b) && a != [] && b != []
    ensures Last(a) == Last(b)
  {
    SameElements(a, b);
    assert Last(a) in b && Last(b) in a;
  }

  lemma {:induction false} OrderedUnique<T(!new)>(a: seq<T>, b: seq<T>, less: (T, T) -> bool)
    requires IsTotal(less) && Ordered(a, less) && Ordered(b, less) && multiset(a) == multiset(b)
    ensures a == b
  {
    assert |a| == |multiset(a)| == |b|;
    if a != [] {
      SameLast(a, b, less);
      MultisetFront(a);
      MultisetFront(b);
      OrderedUnique(Front(a), Front(b), less);
    }
  }

  /** Sorting forgets the order its input came in. */
  lemma {:induction false} SortForgetsOrder<T(!new)>(a: seq<T>, b: seq<T>, less: (T, T) -> bool)
    requires IsOrder(less) && IsTotal(less) && multiset(a) == multiset(b)
    ensures Sort(a, less) == Sort(b, less)
  {
    SortPermutes(a, less);
    SortPermutes(b, less);
    SortOrders(a, less);
    SortOrders(b, less);
    OrderedUnique(Sort(a, less), Sort(b, less), less);
  }

  /** Ordered, and ties in order of place. */
  ghost predicate OrderedStably<T>(s: seq<T>, less: (T, T) -> bool, place: T -> int) {
    forall i, j | 0 <= i < j < |s| :: Precedes(s[i], s[j], less, place)
  }

  ghost predicate Precedes<T>(x: T, y: T, less: (T, T) -> bool, place: T -> int) {
    !less(y, x) && (!less(x, y) ==> place(x) < place(y))
  }

  lemma StablyExtended<T>(s: seq<T>, x: T, less: (T, T) -> bool, place: T -> int)
    requires OrderedStably(s, less, place)
    requires forall y | y in s :: Precedes(y, x, less, place)
    ensures OrderedStably(s + [x], less, place)
  {
    hide Precedes;
  }

  lemma {:induction false} InsertStable<T(!new)>(s: seq<T>, x: T, less: (T, T) -> bool, place: T -> int)
    requires IsOrder(less) && OrderedStably(s, less, place)
    requires forall y | y in s :: place(y) < place(x)
    ensures OrderedStably(Insert(s, x, less), less, place)
  {
    if s == [] || !less(x, Last(s)) {
      forall y | y in s
        ensures Precedes(y, x, less, place)
      {
        assert y == Last(s) || Precedes(y, Last(s), less, place);
      }
      StablyExtended(s, x, less, place);
    } else {
      var f, z := Front(s), Last(s);
      InsertStable(f, x, less, place);
      InsertPermutes(f, x, less);
      MultisetAppend(f, x);
      SameElements(Insert(f, x, less), f + [x]);
      forall y | y in Insert(f, x, less)
        ensures Precedes(y, z, less, place)
      {
        assert y in f + [x];
      }
      StablyExtended(Insert(f, x, less), z, less, place);
    }
  }

  /** Sorting a sequence whose places ascend leaves ties in their original order. */
  lemma {:induction false} SortStable<T(!new)>(s: seq<T>, less: (T, T) -> bool, place: T -> int)
    requires IsOrder(less) && forall i, j | 0 <= i < j < |s| :: place(s[i]) < place(s[j])
    ensures OrderedStably(Sort(s, less), less, place)
  {
    if s != [] {
      SortStable(Front(s), less, place);
      SortPermutes(Front(s), less);
      SameElements(Sort(Front(s), less), Front(s));
      InsertStable(Sort(Front(s), less), Last(s), less, place);
    }
  }
}
