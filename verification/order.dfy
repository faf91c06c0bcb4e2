/**
 The orders the clustering compares by. Point names are strings and cluster
 keys are tuples of names; both are compared the way Python compares `str`
 and `tuple` values: element by element, the first difference decides, and a
 proper prefix sorts first. So `"p10" < "p2"`, because '1' < '2'.
 */
module Order {

  /** Lexicographic order on sequences induced by a strict order on elements. */
  predicate LexLess<T(==)>(a: seq<T>, b: seq<T>, less: (T, T) -> bool)
    decreases |a|
  {
    if |a| == 0 then |b| > 0
    else if |b| == 0 then false
    else if a[0] == b[0] then LexLess(a[1..], b[1..], less)
    else less(a[0], b[0])
  }

  ghost predicate StrictTotalOrder<T(!new)>(less: (T, T) -> bool) {
    && (forall x :: !less(x, x))
    && (forall x, y, z :: less(x, y) && less(y, z) ==> less(x, z))
    && (forall x, y :: x == y || less(x, y) || less(y, x))
  }

  lemma {:induction false} LexIrreflexive<T(!new)>(a: seq<T>, less: (T, T) -> bool)
    requires StrictTotalOrder(less)
    ensures !LexLess(a, a, less)
    decreases |a|
  {
    if |a| > 0 {
      LexIrreflexive(a[1..], less);
    }
  }

  lemma {:induction false} LexTransitive<T(!new)>(a: seq<T>, b: seq<T>, c: seq<T>, less: (T, T) -> bool)
    requires StrictTotalOrder(less)
    requires LexLess(a, b, less) && LexLess(b, c, less)
    ensures LexLess(a, c, less)
    decreases |a|
  {
    if |a| > 0 && a[0] == b[0] && b[0] == c[0] {
      LexTransitive(a[1..], b[1..], c[1..], less);
    }
  }

  lemma {:induction false} LexTotal<T(!new)>(a: seq<T>, b: seq<T>, less: (T, T) -> bool)
    requires StrictTotalOrder(less)
    ensures a == b || LexLess(a, b, less) || LexLess(b, a, less)
    decreases |a|
  {
    if |a| > 0 && |b| > 0 && a[0] == b[0] {
      LexTotal(a[1..], b[1..], less);
      if a[1..] == b[1..] {
        assert a == [a[0]] + a[1..] && b == [b[0]] + b[1..];
      }
    }
  }

  /** The lexicographic extension of a strict total order is a strict total order. */
  lemma LexStrictTotal<T(!new)>(less: (T, T) -> bool)
    requires StrictTotalOrder(less)
    ensures forall a: seq<T> :: !LexLess(a, a, less)
    ensures forall a: seq<T>, b: seq<T>, c: seq<T> :: LexLess(a, b, less) && LexLess(b, c, less) ==> LexLess(a, c, less)
    ensures forall a: seq<T>, b: seq<T> :: a == b || LexLess(a, b, less) || LexLess(b, a, less)
  {
    forall a: seq<T> ensures !LexLess(a, a, less) {
      LexIrreflexive(a, less);
    }
    forall a: seq<T>, b: seq<T>, c: seq<T> | LexLess(a, b, less) && LexLess(b, c, less)
      ensures LexLess(a, c, less)
    {
      LexTransitive(a, b, c, less);
    }
    forall a: seq<T>, b: seq<T> ensures a == b || LexLess(a, b, less) || LexLess(b, a, less) {
      LexTotal(a, b, less);
    }
  }

  /** Comparing two pairs: the first components decide unless they are equal. */
  lemma LexPair<T>(a0: T, a1: T, b0: T, b1: T, less: (T, T) -> bool)
    ensures LexLess([a0, a1], [b0, b1], less) <==> (a0 != b0 && less(a0, b0)) || (a0 == b0 && a1 != b1 && less(a1, b1))
  {
    assert [a0, a1][1..] == [a1] && [b0, b1][1..] == [b1];
    assert [a1][1..] == [] && [b1][1..] == [];
    assert !LexLess([], [], less);
    assert LexLess([a1], [b1], less) <==> a1 != b1 && less(a1, b1);
  }

  predicate CharLess(x: char, y: char) {
    x < y
  }

  /** Python's `<` on `str`: code point by code point. */
  predicate NameLess(a: string, b: string) {
    LexLess(a, b, CharLess)
  }

  /** Python's `<` on tuples of `str`, the shape of a cluster key. */
  predicate KeyLess(a: seq<string>, b: seq<string>) {
    LexLess(a, b, NameLess)
  }

  lemma NameOrder()
    ensures StrictTotalOrder(NameLess)
  {
    LexStrictTotal(CharLess);
  }

  lemma KeyOrder()
    ensures StrictTotalOrder(KeyLess)
  {
    NameOrder();
    LexStrictTotal(NameLess);
  }

  /** Python string order is not numeric order on the digits. */
  lemma NumberedNamesExample()
    ensures NameLess("p10", "p2") && !NameLess("p2", "p10")
  {
  }
}
