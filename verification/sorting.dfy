/**
 Sorting by a strict total order, the model of Python's `sorted` with a key
 function: `less` compares the keys.
 */
module Sorting {
  import opened Order
  import opened Seqs

  /** Adjacent elements are in order (equal keys allowed). */
  predicate Sorted<T>(s: seq<T>, less: (T, T) -> bool) {
    forall i :: 0 <= i < |s| - 1 ==> !less(s[i + 1], s[i])
  }

  /** Every earlier element is strictly smaller than every later one. */
  predicate StrictlySorted<T>(s: seq<T>, less: (T, T) -> bool) {
    forall i, j :: 0 <= i < j < |s| ==> less(s[i], s[j])
  }

  /** Insert `x` before the first element not below it. */
  function Insert<T(!new)>(x: T, s: seq<T>, less: (T, T) -> bool): (r: seq<T>)
    requires StrictTotalOrder(less)
    ensures forall c :: c in r <==> c == x || c in s
    ensures |r| == |s| + 1
    ensures r[0] == x || (|s| > 0 && r[0] == s[0])
    decreases |s|
  {
    if |s| == 0 || !less(s[0], x) then [x] + s
    else
      var rest := Insert(x, s[1..], less);
      assert s == [s[0]] + s[1..];
      [s[0]] + rest
  }

  /** `sorted(s)`: a permutation of `s` (insertion sort, so stable). */
  function Sort<T(!new)>(s: seq<T>, less: (T, T) -> bool): (r: seq<T>)
    requires StrictTotalOrder(less)
    ensures forall c :: c in r <==> c in s
    ensures |r| == |s|
    decreases |s|
  {
    if |s| == 0 then []
    else
      assert s == [s[0]] + s[1..];
      Insert(s[0], Sort(s[1..], less), less)
  }

  /** `Insert` adds exactly one occurrence of `x`. */
  lemma {:induction false} InsertPermutes<T(!new)>(x: T, s: seq<T>, less: (T, T) -> bool)
    requires StrictTotalOrder(less)
    ensures multiset(Insert(x, s, less)) == multiset(s) + multiset{x}
    decreases |s|
  {
    if |s| > 0 && less(s[0], x) {
      InsertPermutes(x, s[1..], less);
      assert s == [s[0]] + s[1..];
    }
  }

  /** `sorted(s)` is a permutation of `s`: every element occurs as often as
      in `s`. */
  lemma {:induction false} SortPermutes<T(!new)>(s: seq<T>, less: (T, T) -> bool)
    requires StrictTotalOrder(less)
    ensures multiset(Sort(s, less)) == multiset(s)
    decreases |s|
  {
    if |s| > 0 {
      SortPermutes(s[1..], less);
      InsertPermutes(s[0], Sort(s[1..], less), less);
      assert s == [s[0]] + s[1..];
    }
  }

  /** Inserting into a sorted list keeps it sorted. */
  lemma {:induction false} InsertSorted<T(!new)>(x: T, s: seq<T>, less: (T, T) -> bool)
    requires StrictTotalOrder(less)
    requires Sorted(s, less)
    ensures Sorted(Insert(x, s, less), less)
    decreases |s|
  {
    if |s| > 0 && less(s[0], x) {
      InsertSorted(x, s[1..], less);
    }
  }

  /** Inserting a new element into a list without repeats adds no repeat. */
  lemma {:induction false} InsertDistinct<T(!new)>(x: T, s: seq<T>, less: (T, T) -> bool)
    requires StrictTotalOrder(less)
    requires x !in s && Distinct(s)
    ensures Distinct(Insert(x, s, less))
    decreases |s|
  {
    DistinctCons(x, s);
    if |s| > 0 && less(s[0], x) {
      assert s == [s[0]] + s[1..];
      DistinctCons(s[0], s[1..]);
      InsertDistinct(x, s[1..], less);
      DistinctCons(s[0], Insert(x, s[1..], less));
    }
  }

  /** `sorted` returns its input in order (equal keys allowed), without
      repeats if there were none. */
  lemma {:induction false} SortSorted<T(!new)>(s: seq<T>, less: (T, T) -> bool)
    requires StrictTotalOrder(less)
    ensures Sorted(Sort(s, less), less)
    ensures Distinct(s) ==> Distinct(Sort(s, less))
    decreases |s|
  {
    if |s| > 0 {
      SortSorted(s[1..], less);
      assert s == [s[0]] + s[1..];
      DistinctCons(s[0], s[1..]);
      InsertSorted(s[0], Sort(s[1..], less), less);
      if Distinct(s) {
        InsertDistinct(s[0], Sort(s[1..], less), less);
      }
    }
  }

  /** Sorting a sorted list leaves it unchanged. */
  lemma {:induction false} SortIdempotent<T(!new)>(s: seq<T>, less: (T, T) -> bool)
    requires StrictTotalOrder(less)
    requires Sorted(s, less)
    ensures Sort(s, less) == s
    decreases |s|
  {
    if |s| > 0 {
      SortIdempotent(s[1..], less);
      assert s == [s[0]] + s[1..];
    }
  }

  /** Sorted without repeated elements is strictly sorted. */
  lemma {:induction false} SortedDistinct<T(!new)>(s: seq<T>, less: (T, T) -> bool)
    requires StrictTotalOrder(less)
    requires Sorted(s, less) && Distinct(s)
    ensures StrictlySorted(s, less)
    decreases |s|
  {
    if |s| > 1 {
      var t := s[1..];
      assert s == [s[0]] + t;
      DistinctCons(s[0], t);
      SortedDistinct(t, less);
      forall j | 1 <= j < |s| ensures less(s[0], s[j]) {
        if j > 1 {
          assert less(t[0], t[j - 1]);
        }
      }
    }
  }

  /** Strictly sorted implies sorted. */
  lemma StrictlySortedIsSorted<T(!new)>(s: seq<T>, less: (T, T) -> bool)
    requires StrictTotalOrder(less)
    requires StrictlySorted(s, less)
    ensures Sorted(s, less)
  {
    forall i | 0 <= i < |s| - 1 ensures !less(s[i + 1], s[i]) {
      assert less(s[i], s[i + 1]);
    }
  }
}
