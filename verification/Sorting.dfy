/** Filtering and stable sorting of sequences. A stable sort is determined by its input and its
    order, so one definition stands for the library's. */
module Sorting {

  function Filter<T>(s: seq<T>, p: T -> bool): seq<T> {
    if s == [] then []
    else if p(s[0]) then [s[0]] + Filter(s[1..], p)
    else Filter(s[1..], p)
  }

  /** A total preorder: what a comparator must be for sorting to mean anything. */
  ghost predicate IsOrder<T(!new)>(leq: (T, T) -> bool) {
    && (forall a, b :: leq(a, b) || leq(b, a))
    && (forall a, b, c :: leq(a, b) && leq(b, c) ==> leq(a, c))
  }

  predicate Sorted<T>(s: seq<T>, leq: (T, T) -> bool) {
    forall i, j :: 0 <= i < j < |s| ==> leq(s[i], s[j])
  }

  lemma SortedPair<T>(s: seq<T>, leq: (T, T) -> bool, i: nat, j: nat)
    requires Sorted(s, leq) && i < |s| && j < |s|
    ensures i < j ==> leq(s[i], s[j])
  {
  }

  function Insert<T>(x: T, s: seq<T>, leq: (T, T) -> bool): seq<T> {
    if s == [] || leq(x, s[0]) then [x] + s else [s[0]] + Insert(x, s[1..], leq)
  }

  /** Equal elements keep their order: an element goes before everything it is at most. */
  function StableSort<T>(s: seq<T>, leq: (T, T) -> bool): seq<T> {
    if s == [] then [] else Insert(s[0], StableSort(s[1..], leq), leq)
  }

  lemma {:induction false} InsertElements<T>(x: T, s: seq<T>, leq: (T, T) -> bool)
    ensures multiset(Insert(x, s, leq)) == multiset(s) + multiset{x}
    ensures |Insert(x, s, leq)| == |s| + 1
  {
    if s != [] && !leq(x, s[0]) {
      InsertElements(x, s[1..], leq);
      assert s == [s[0]] + s[1..];
    }
  }

  lemma {:induction false} InsertSorted<T(!new)>(x: T, s: seq<T>, leq: (T, T) -> bool)
    requires IsOrder(leq) && Sorted(s, leq)
    ensures Sorted(Insert(x, s, leq), leq)
  {
    if s != [] && !leq(x, s[0]) {
      InsertSorted(x, s[1..], leq);
      InsertElements(x, s[1..], leq);
      var rest := Insert(x, s[1..], leq);
      forall j | 0 <= j < |rest|
        ensures leq(s[0], rest[j])
      {
        assert rest[j] in multiset(rest);
        assert rest[j] == x || rest[j] in s[1..];
      }
    }
  }

  lemma {:induction false} SortElements<T>(s: seq<T>, leq: (T, T) -> bool)
    ensures multiset(StableSort(s, leq)) == multiset(s)
    ensures |StableSort(s, leq)| == |s|
  {
    if s == [] {
    } else {
      SortElements(s[1..], leq);
      InsertElements(s[0], StableSort(s[1..], leq), leq);
      assert s == [s[0]] + s[1..];
    }
  }

  lemma {:induction false} SortSorts<T(!new)>(s: seq<T>, leq: (T, T) -> bool)
    requires IsOrder(leq)
    ensures Sorted(StableSort(s, leq), leq)
  {
    if s == [] {
    } else {
      SortSorts(s[1..], leq);
      InsertSorted(s[0], StableSort(s[1..], leq), leq);
    }
  }

  lemma SameMembers<T>(a: seq<T>, b: seq<T>)
    requires multiset(a) == multiset(b)
    ensures forall x :: x in a <==> x in b
  {
    forall x
      ensures x in a <==> x in b
    {
      assert x in a <==> x in multiset(a);
      assert x in b <==> x in multiset(b);
    }
  }

  lemma {:induction false} InsertFilter<T(!new)>(x: T, s: seq<T>, leq: (T, T) -> bool, p: T -> bool)
    requires IsOrder(leq) && Sorted(s, leq)
    ensures Filter(Insert(x, s, leq), p) == if p(x) then Insert(x, Filter(s, p), leq) else Filter(s, p)
  {
    if s == [] {
    } else if leq(x, s[0]) {
      assert ([x] + s)[1..] == s;
      if p(x) && Filter(s, p) != [] {
        FilterMembers(s, p, Filter(s, p)[0]);
      }
    } else {
      InsertFilter(x, s[1..], leq, p);
      assert Insert(x, s, leq)[1..] == Insert(x, s[1..], leq);
      if p(s[0]) {
        assert Filter(s, p) == [s[0]] + Filter(s[1..], p);
        assert Filter(s, p)[1..] == Filter(s[1..], p);
      }
    }
  }

  lemma {:induction false} FilterMembers<T>(s: seq<T>, p: T -> bool, x: T)
    ensures x in Filter(s, p) <==> x in s && p(x)
  {
    if s == [] {
    } else {
      FilterMembers(s[1..], p, x);
      assert s == [s[0]] + s[1..];
    }
  }

  lemma {:induction false} FilterAll<T>(s: seq<T>, p: T -> bool)
    requires forall i :: 0 <= i < |s| ==> p(s[i])
    ensures Filter(s, p) == s
  {
    if s == [] {
    } else {
      FilterAll(s[1..], p);
    }
  }

  lemma {:induction false} FilterConcat<T>(a: seq<T>, b: seq<T>, p: T -> bool)
    ensures Filter(a + b, p) == Filter(a, p) + Filter(b, p)
  {
    if a == [] {
      assert a + b == b;
    } else {
      FilterConcat(a[1..], b, p);
      assert (a + b)[1..] == a[1..] + b;
    }
  }

  lemma {:induction false} FilterShorter<T>(s: seq<T>, p: T -> bool)
    ensures |Filter(s, p)| <= |s|
  {
    if s == [] {
    } else {
      FilterShorter(s[1..], p);
    }
  }

  lemma {:induction false} FilterNone<T>(s: seq<T>, p: T -> bool)
    requires forall i :: 0 <= i < |s| ==> !p(s[i])
    ensures Filter(s, p) == []
  {
    if s == [] {
    } else {
      FilterNone(s[1..], p);
    }
  }

  lemma {:induction false} FilterLast<T>(s: seq<T>, p: T -> bool)
    requires s != [] && p(s[|s| - 1])
    ensures Filter(s, p) != [] && Filter(s, p)[|Filter(s, p)| - 1] == s[|s| - 1]
  {
    if |s| > 1 {
      FilterLast(s[1..], p);
    }
  }

  lemma {:induction false} FilterFirst<T>(s: seq<T>, p: T -> bool, i: nat)
    requires i < |s| && p(s[i]) && forall j :: 0 <= j < i ==> !p(s[j])
    ensures Filter(s, p) != [] && Filter(s, p)[0] == s[i]
  {
    if i == 0 {
    } else {
      FilterFirst(s[1..], p, i - 1);
    }
  }

  predicate Pairwise<T>(s: seq<T>, differ: (T, T) -> bool) {
    forall i, j :: 0 <= i < j < |s| ==> differ(s[i], s[j])
  }

  lemma {:induction false} InsertPairwise<T>(x: T, s: seq<T>, leq: (T, T) -> bool, differ: (T, T) -> bool)
    requires Pairwise(s, differ)
    requires forall i :: 0 <= i < |s| ==> differ(s[i], x) && differ(x, s[i])
    ensures Pairwise(Insert(x, s, leq), differ)
  {
    if s != [] && !leq(x, s[0]) {
      InsertPairwise(x, s[1..], leq, differ);
      InsertElements(x, s[1..], leq);
      var rest := Insert(x, s[1..], leq);
      forall j | 0 <= j < |rest|
        ensures differ(s[0], rest[j])
      {
        assert rest[j] in multiset(rest);
        assert rest[j] == x || rest[j] in s[1..];
      }
    }
  }

  /** Pairwise different elements stay so. */
  lemma {:induction false} SortPairwise<T(!new)>(s: seq<T>, leq: (T, T) -> bool, differ: (T, T) -> bool)
    requires Pairwise(s, differ) && forall a, b :: differ(a, b) ==> differ(b, a)
    ensures Pairwise(StableSort(s, leq), differ)
  {
    if s == [] {
    } else {
      SortPairwise(s[1..], leq, differ);
      SortElements(s[1..], leq);
      var rest := StableSort(s[1..], leq);
      SameMembers(rest, s[1..]);
      forall i | 0 <= i < |rest|
        ensures differ(s[0], rest[i])
      {
        assert rest[i] in rest;
      }
      InsertPairwise(s[0], rest, leq, differ);
    }
  }

  /** Sorting what is left is what is left of the sorted whole. */
  lemma {:induction false} SortFilter<T(!new)>(s: seq<T>, leq: (T, T) -> bool, p: T -> bool)
    requires IsOrder(leq)
    ensures Filter(StableSort(s, leq), p) == StableSort(Filter(s, p), leq)
  {
    if s == [] {
    } else {
      SortFilter(s[1..], leq, p);
      SortSorts(s[1..], leq);
      InsertFilter(s[0], StableSort(s[1..], leq), leq, p);
      if p(s[0]) {
        assert Filter(s, p)[0] == s[0] && Filter(s, p)[1..] == Filter(s[1..], p);
      }
    }
  }

  function TiesWith<T>(leq: (T, T) -> bool, x: T): T -> bool {
    y => leq(x, y) && leq(y, x)
  }

  lemma {:induction false} SortOfTied<T(!new)>(s: seq<T>, leq: (T, T) -> bool)
    requires forall i, j :: 0 <= i < |s| && 0 <= j < |s| ==> leq(s[i], s[j])
    ensures StableSort(s, leq) == s
  {
    if s == [] {
    } else {
      SortOfTied(s[1..], leq);
      if |s| > 1 {
        assert leq(s[0], s[1]);
      }
    }
  }

  lemma {:induction false} FilterKeeps<T>(s: seq<T>, p: T -> bool)
    ensures forall i :: 0 <= i < |Filter(s, p)| ==> p(Filter(s, p)[i])
  {
    if s == [] {
    } else {
      FilterKeeps(s[1..], p);
    }
  }

  /** Equal elements come out in the order they went in. */
  lemma SortIsStable<T(!new)>(s: seq<T>, leq: (T, T) -> bool, x: T)
    requires IsOrder(leq)
    ensures Filter(StableSort(s, leq), TiesWith(leq, x)) == Filter(s, TiesWith(leq, x))
  {
    var tied := Filter(s, TiesWith(leq, x));
    FilterKeeps(s, TiesWith(leq, x));
    forall i, j | 0 <= i < |tied| && 0 <= j < |tied|
      ensures leq(tied[i], tied[j])
    {
      assert leq(tied[i], x) && leq(x, tied[j]);
    }
    SortOfTied(tied, leq);
    SortFilter(s, leq, TiesWith(leq, x));
  }
}
