/** Orders given by comparison functions, and sorting under them.  The C library's qsort appears as
    `Sort`: under a total order there is only one sorted permutation of a list. */
module Sorting {

  type Comparison<!T> = (T, T) -> int

  /** What a comparison function for qsort or binsert_g must be. */
  ghost predicate TotalOrder<T(!new)>(compar: Comparison<T>) {
    (forall a, b :: compar(a, b) == 0 <==> a == b) &&
    (forall a, b :: compar(a, b) < 0 <==> compar(b, a) > 0) &&
    forall a, b, c :: compar(a, b) < 0 && compar(b, c) < 0 ==> compar(a, c) < 0
  }

  lemma Laws<T(!new)>(compar: Comparison<T>, a: T, b: T, c: T)
    requires TotalOrder(compar)
    ensures compar(a, b) == 0 <==> a == b
    ensures compar(a, b) < 0 <==> compar(b, a) > 0
    ensures compar(a, b) < 0 && compar(b, c) < 0 ==> compar(a, c) < 0
  {
  }

  ghost predicate Sorted<T>(compar: Comparison<T>, s: seq<T>) {
    forall i, j :: 0 <= i < j < |s| ==> compar(s[i], s[j]) <= 0
  }

  function Insert<T>(compar: Comparison<T>, x: T, s: seq<T>): seq<T> {
    if s == [] || compar(x, s[0]) <= 0 then [x] + s else [s[0]] + Insert(compar, x, s[1..])
  }

  function Sort<T>(compar: Comparison<T>, s: seq<T>): seq<T> {
    if s == [] then [] else Insert(compar, s[0], Sort(compar, s[1..]))
  }

  lemma Prepend<T(!new)>(compar: Comparison<T>, x: T, s: seq<T>)
    requires Sorted(compar, s) && forall y :: y in multiset(s) ==> compar(x, y) <= 0
    ensures Sorted(compar, [x] + s) && multiset([x] + s) == multiset(s) + multiset{x}
  {
    assert forall j :: 0 <= j < |s| ==> s[j] in multiset(s);
  }

  lemma SmallestFirst<T(!new)>(compar: Comparison<T>, s: seq<T>, x: T)
    requires TotalOrder(compar) && Sorted(compar, s) && x in s
    ensures compar(s[0], x) <= 0
  {
    Laws(compar, s[0], s[0], s[0]);
  }

  lemma SortedTail<T(!new)>(compar: Comparison<T>, s: seq<T>)
    requires Sorted(compar, s) && s != []
    ensures Sorted(compar, s[1..]) && multiset(s[1..]) == multiset(s) - multiset{s[0]} && s == [s[0]] + s[1..]
    ensures multiset(s) == multiset(s[1..]) + multiset{s[0]}
  {
    assert s == [s[0]] + s[1..];
  }

  lemma {:induction false} InsertSorted<T(!new)>(compar: Comparison<T>, x: T, s: seq<T>)
    requires TotalOrder(compar) && Sorted(compar, s)
    ensures Sorted(compar, Insert(compar, x, s)) && multiset(Insert(compar, x, s)) == multiset(s) + multiset{x}
  {
    hide TotalOrder, Sorted;
    if s == [] || compar(x, s[0]) <= 0 {
      InsertFront(compar, x, s);
    } else {
      SortedTail(compar, s);
      InsertSorted(compar, x, s[1..]);
      InsertBehind(compar, x, s, Insert(compar, x, s[1..]));
    }
  }

  lemma InsertFront<T(!new)>(compar: Comparison<T>, x: T, s: seq<T>)
    requires TotalOrder(compar) && Sorted(compar, s) && (s == [] || compar(x, s[0]) <= 0)
    ensures Sorted(compar, [x] + s) && multiset([x] + s) == multiset(s) + multiset{x}
  {
    hide TotalOrder, Sorted;
    forall y | y in multiset(s) ensures compar(x, y) <= 0 {
      SmallestFirst(compar, s, y);
      Laws(compar, x, s[0], y);
      Laws(compar, s[0], y, y);
    }
    Prepend(compar, x, s);
  }

  lemma InsertBehind<T(!new)>(compar: Comparison<T>, x: T, s: seq<T>, r: seq<T>)
    requires TotalOrder(compar) && Sorted(compar, s) && s != [] && compar(x, s[0]) > 0
    requires Sorted(compar, r) && multiset(r) == multiset(s[1..]) + multiset{x}
    ensures Sorted(compar, [s[0]] + r) && multiset([s[0]] + r) == multiset(s) + multiset{x}
  {
    hide TotalOrder, Sorted;
    Laws(compar, s[0], x, x);
    SortedTail(compar, s);
    forall y | y in multiset(r) ensures compar(s[0], y) <= 0 {
      FromTail(s, x, r, y);
      if y != x { SmallestFirst(compar, s, y); }
    }
    Prepend(compar, s[0], r);
    Regroup(s, x, r);
  }

  lemma FromTail<T>(s: seq<T>, x: T, r: seq<T>, y: T)
    requires s != [] && multiset(r) == multiset(s[1..]) + multiset{x} && y in multiset(r)
    ensures y == x || y in s
  {
    assert y != x ==> y in multiset(s[1..]);
  }

  lemma Regroup<T>(s: seq<T>, x: T, r: seq<T>)
    requires s != [] && multiset(r) == multiset(s[1..]) + multiset{x}
    ensures multiset(r) + multiset{s[0]} == multiset(s) + multiset{x}
  {
    assert s == [s[0]] + s[1..];
  }

  lemma {:induction false} SortSorts<T(!new)>(compar: Comparison<T>, s: seq<T>)
    requires TotalOrder(compar)
    ensures Sorted(compar, Sort(compar, s)) && multiset(Sort(compar, s)) == multiset(s)
  {
    hide TotalOrder;
    if s != [] {
      SortSorts(compar, s[1..]);
      InsertSorted(compar, s[0], Sort(compar, s[1..]));
      assert s == [s[0]] + s[1..];
    }
  }

  /** There is only one way to sort. */
  lemma {:induction false} SortedUnique<T(!new)>(compar: Comparison<T>, a: seq<T>, b: seq<T>)
    requires TotalOrder(compar) && Sorted(compar, a) && Sorted(compar, b) && multiset(a) == multiset(b)
    ensures a == b
  {
    hide TotalOrder, Sorted;
    assert |multiset(a)| == |a| && |multiset(b)| == |b|;
    if a != [] {
      assert a[0] in multiset(b) && b[0] in multiset(a);
      SmallestFirst(compar, a, b[0]);
      SmallestFirst(compar, b, a[0]);
      Laws(compar, a[0], b[0], b[0]);
      Laws(compar, b[0], a[0], a[0]);
      SortedTail(compar, a);
      SortedTail(compar, b);
      SortedUnique(compar, a[1..], b[1..]);
    }
  }
}
