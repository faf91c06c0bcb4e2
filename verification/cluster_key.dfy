/**
 Clusters and their canonical keys. A cluster is a finite set of point names
 (the source's `frozenset`); its key is the tuple of its members in ascending
 name order (`cluster_key`), which is how clusters are compared for the
 tie-break and for sorting the alive list.
 */
module ClusterKey {
  import opened Order

  type Name = string
  type Cluster = set<Name>

  /** Strictly ascending in Python string order. */
  predicate Ascending(k: seq<Name>) {
    forall i, j :: 0 <= i < j < |k| ==> NameLess(k[i], k[j])
  }

  predicate IsLeast(m: Name, c: Cluster) {
    m in c && forall y :: y in c && y != m ==> NameLess(m, y)
  }

  lemma {:induction false} LeastExists(c: Cluster)
    requires c != {}
    ensures exists m :: IsLeast(m, c)
    decreases |c|
  {
    NameOrder();
    var x :| x in c;
    if c != {x} {
      var rest := c - {x};
      LeastExists(rest);
      var m :| IsLeast(m, rest);
      if NameLess(x, m) {
        forall y | y in c && y != x ensures NameLess(x, y) {
          if y != m {
            assert NameLess(m, y);
          }
        }
        assert IsLeast(x, c);
      } else {
        assert IsLeast(m, c);
      }
    } else {
      assert IsLeast(x, c);
    }
  }

  lemma LeastUnique(c: Cluster)
    ensures forall m1, m2 :: IsLeast(m1, c) && IsLeast(m2, c) ==> m1 == m2
  {
    NameOrder();
  }

  /** The smallest member of a non-empty cluster. */
  function Least(c: Cluster): (m: Name)
    requires c != {}
    ensures m in c
    ensures forall y :: y in c && y != m ==> NameLess(m, y)
  {
    LeastExists(c);
    LeastUnique(c);
    var m :| m in c && IsLeast(m, c);
    m
  }

  /** `cluster_key`: the members of `c`, sorted, as a sequence. */
  function Key(c: Cluster): (k: seq<Name>)
    ensures forall x :: x in k <==> x in c
    ensures |k| == |c|
    ensures Ascending(k)
    decreases |c|
  {
    if c == {} then []
    else
      var m := Least(c);
      [m] + Key(c - {m})
  }

  /** An ascending listing of a set is unique, so `Key(c)` is exactly what
      sorting the members of `c` produces. */
  lemma {:induction false} AscendingUnique(k1: seq<Name>, k2: seq<Name>)
    requires Ascending(k1) && Ascending(k2)
    requires forall x :: x in k1 <==> x in k2
    ensures k1 == k2
    decreases |k1|
  {
    NameOrder();
    HeadIsLeast(k1);
    HeadIsLeast(k2);
    if |k1| > 0 {
      assert k1[0] == k2[0];
      TailMembers(k1);
      TailMembers(k2);
      AscendingUnique(k1[1..], k2[1..]);
      assert k1 == [k1[0]] + k1[1..] && k2 == [k2[0]] + k2[1..];
    }
  }

  /** The head of an ascending sequence is its least member. */
  lemma HeadIsLeast(k: seq<Name>)
    requires Ascending(k)
    ensures |k| > 0 ==> k[0] in k && forall x :: x in k ==> x == k[0] || NameLess(k[0], x)
  {
  }

  lemma TailMembers(k: seq<Name>)
    requires Ascending(k) && |k| > 0
    ensures forall x :: x in k[1..] <==> x in k && x != k[0]
  {
    NameOrder();
    forall x | x in k[1..] ensures x != k[0] {
      var i :| 1 <= i < |k| && k[i] == x;
      assert NameLess(k[0], k[i]);
    }
  }

  lemma KeyIsSortedMembers(c: Cluster, k: seq<Name>)
    requires Ascending(k)
    requires forall x :: x in k <==> x in c
    ensures Key(c) == k
  {
    AscendingUnique(Key(c), k);
  }

  /** Different clusters have different keys. */
  lemma KeyInjective(c1: Cluster, c2: Cluster)
    ensures Key(c1) == Key(c2) ==> c1 == c2
  {
    if Key(c1) == Key(c2) {
      assert forall x :: x in c1 <==> x in c2;
    }
  }

  /** The order on clusters induced by their keys. */
  predicate ClusterLess(c1: Cluster, c2: Cluster) {
    KeyLess(Key(c1), Key(c2))
  }

  lemma ClusterLessIrreflexive(c: Cluster)
    ensures !ClusterLess(c, c)
  {
    NameOrder();
    LexIrreflexive(Key(c), NameLess);
  }

  /** Distinct clusters have distinct keys, so key order on clusters is a
      strict total order. */
  lemma ClusterOrder()
    ensures StrictTotalOrder(ClusterLess)
  {
    KeyOrder();
    forall c1: Cluster, c2: Cluster ensures c1 == c2 || ClusterLess(c1, c2) || ClusterLess(c2, c1) {
      if Key(c1) == Key(c2) {
        assert forall x :: x in c1 <==> x in c2;
      }
    }
  }

  /** `key=cluster_key`: the comparison `sorted` and the tie-break use. */
  function ByKey(): (less: (Cluster, Cluster) -> bool)
    ensures StrictTotalOrder(less)
  {
    ClusterOrder();
    ClusterLess
  }
}
