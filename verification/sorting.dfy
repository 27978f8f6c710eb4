/**
  Sorting a slice with a caller-supplied three-way comparator, as the stores'
  `sort_by` does. The model sorts by insertion, which, like the library's
  merge sort, is stable; only permutation and order are proved.
 */
module Sorting {

  datatype Ordering = Less | Equal | Greater

  /** `a` may come before `b`. */
  predicate NotAfter<T>(cmp: (T, T) -> Ordering, a: T, b: T) {
    cmp(a, b) != Greater
  }

  /** The comparator puts any two elements in some order. */
  ghost predicate Total<T(!new)>(cmp: (T, T) -> Ordering) {
    forall a, b :: NotAfter(cmp, a, b) || NotAfter(cmp, b, a)
  }

  /** Each element may come before its successor. */
  ghost predicate Sorted<T>(cmp: (T, T) -> Ordering, s: seq<T>) {
    forall i :: 0 <= i < |s| - 1 ==> NotAfter(cmp, s[i], s[i + 1])
  }

  /** Inserts `x` in front of the first element it may precede. */
  function Insert<T>(cmp: (T, T) -> Ordering, x: T, s: seq<T>): (r: seq<T>)
    ensures multiset(r) == multiset(s) + multiset{x}
    ensures |r| == |s| + 1
    ensures r[0] == x || (s != [] && r[0] == s[0])
  {
    if s == [] then [x]
    else if cmp(x, s[0]) == Greater then
      assert s == [s[0]] + s[1..];
      [s[0]] + Insert(cmp, x, s[1..])
    else [x] + s
  }

  lemma {:induction false} InsertSorted<T(!new)>(cmp: (T, T) -> Ordering, x: T, s: seq<T>)
    requires Total(cmp) && Sorted(cmp, s)
    ensures Sorted(cmp, Insert(cmp, x, s))
  {
    if s != [] && cmp(x, s[0]) == Greater {
      InsertSorted(cmp, x, s[1..]);
      var t := Insert(cmp, x, s[1..]);
      assert NotAfter(cmp, s[0], x);
      assert |s| > 1 ==> NotAfter(cmp, s[0], s[1]);
      assert NotAfter(cmp, s[0], t[0]);
    }
  }

  function SortBy<T>(cmp: (T, T) -> Ordering, s: seq<T>): (r: seq<T>)
    ensures multiset(r) == multiset(s)
    ensures |r| == |s|
  {
    if s == [] then []
    else
      assert s == [s[0]] + s[1..];
      Insert(cmp, s[0], SortBy(cmp, s[1..]))
  }

  /** With a comparator that orders any two elements, the result is in order. */
  lemma {:induction false} SortBySorted<T(!new)>(cmp: (T, T) -> Ordering, s: seq<T>)
    requires Total(cmp)
    ensures Sorted(cmp, SortBy(cmp, s))
  {
    if s != [] {
      SortBySorted(cmp, s[1..]);
      InsertSorted(cmp, s[0], SortBy(cmp, s[1..]));
    }
  }
}
