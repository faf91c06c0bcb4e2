/**
 The list of alive clusters and the one update the merge loop and the cover
 replay both apply to it: drop the two merged clusters, append their union,
 and sort the list by cluster key.
 */
module Alive {
  import opened Seqs
  import opened Order
  import opened ClusterKey
  import opened Sorting

  /** The starting list: one singleton cluster per name, in the order the
      names were given (not key order). */
  function Singletons(names: seq<Name>): (s: seq<Cluster>)
    ensures |s| == |names|
    ensures forall c :: c in s <==> exists x :: x in names && c == {x}
  {
    var s := seq(|names|, i requires 0 <= i < |names| => {names[i]});
    assert forall c :: c in s <==> exists x :: x in names && c == {x} by {
      forall c | c in s ensures exists x :: x in names && c == {x} {
        var i :| 0 <= i < |s| && s[i] == c;
        assert c == {names[i]};
      }
      forall c | (exists x :: x in names && c == {x}) ensures c in s {
        var x :| x in names && c == {x};
        var i :| 0 <= i < |names| && names[i] == x;
        assert s[i] == c;
      }
    }
    s
  }

  /** The alive clusters are a partition of `all`: no cluster listed twice,
      none empty, pairwise disjoint, and every name in some cluster. */
  ghost predicate IsPartition(s: seq<Cluster>, all: set<Name>) {
    && Distinct(s)
    && (forall c :: c in s ==> c != {} && c <= all)
    && (forall c1, c2 :: c1 in s && c2 in s && c1 != c2 ==> c1 !! c2)
    && (forall x :: x in all ==> exists i :: 0 <= i < |s| && x in s[i])
  }

  /** The starting list is a partition of the names into singletons. */
  lemma SingletonsPartition(names: seq<Name>)
    requires Distinct(names)
    ensures IsPartition(Singletons(names), Elems(names))
  {
    var s := Singletons(names);
    forall i, j | 0 <= i < j < |s| ensures s[i] != s[j] {
      assert names[i] in s[i];
    }
    forall x | x in Elems(names) ensures exists i :: 0 <= i < |s| && x in s[i] {
      var i :| 0 <= i < |names| && names[i] == x;
      assert x in s[i];
    }
  }

  /** The list comprehension that drops `a` and `b`, keeping the order of
      the rest. */
  function Remove(s: seq<Cluster>, a: Cluster, b: Cluster): (r: seq<Cluster>)
    ensures forall c :: c in r <==> c in s && c != a && c != b
    decreases |s|
  {
    if |s| == 0 then []
    else if s[0] != a && s[0] != b then [s[0]] + Remove(s[1..], a, b)
    else Remove(s[1..], a, b)
  }

  /** Filtering a list without repeats keeps it without repeats, and drops
      one element for each of `a` and `b` present. */
  lemma {:induction false} RemoveDistinct(s: seq<Cluster>, a: Cluster, b: Cluster)
    requires Distinct(s)
    ensures Distinct(Remove(s, a, b))
    ensures |Remove(s, a, b)| == |s| - (if a in s then 1 else 0) - (if b in s && b != a then 1 else 0)
    decreases |s|
  {
    if |s| > 0 {
      assert s == [s[0]] + s[1..];
      DistinctCons(s[0], s[1..]);
      RemoveDistinct(s[1..], a, b);
      DistinctCons(s[0], Remove(s[1..], a, b));
    }
  }

  /** One merge: filter out `a` and `b`, append `m`, and sort by `less`,
      the order on cluster keys. The result lists `m` and every other
      cluster except `a` and `b`. */
  function Apply(s: seq<Cluster>, a: Cluster, b: Cluster, m: Cluster, less: (Cluster, Cluster) -> bool): (r: seq<Cluster>)
    requires StrictTotalOrder(less)
    ensures forall c :: c in r <==> c == m || (c in s && c != a && c != b)
  {
    Sort(Remove(s, a, b) + [m], less)
  }

  /** Before sorting: the list with `a` and `b` replaced by their union is
      again a partition, one shorter. */
  lemma ReplacePartition(s: seq<Cluster>, all: set<Name>, a: Cluster, b: Cluster)
    requires IsPartition(s, all)
    requires a in s && b in s && a != b
    ensures var r := Remove(s, a, b) + [a + b];
      IsPartition(r, all) && |r| == |s| - 1
  {
    var m := a + b;
    var rest := Remove(s, a, b);
    RemoveDistinct(s, a, b);
    forall c | c in rest ensures c != m {
      assert c !! a && a != {};
    }
    DistinctSnoc(rest, m);
    var r := rest + [m];
    forall x | x in all ensures exists i :: 0 <= i < |r| && x in r[i] {
      var i :| 0 <= i < |s| && x in s[i]; var c := s[i];
      if c == a || c == b {
        assert m in r && x in m;
      } else {
        assert c in r;
      }
    }
    forall c1, c2 | c1 in r && c2 in r && c1 != c2 ensures c1 !! c2 {
      if c1 == m {
        assert c2 !! a && c2 !! b;
      } else if c2 == m {
        assert c1 !! a && c1 !! b;
      }
    }
  }

  /** Being a partition depends only on which clusters are listed. */
  lemma PartitionPermuted(s: seq<Cluster>, r: seq<Cluster>, all: set<Name>)
    requires IsPartition(s, all)
    requires forall c :: c in r <==> c in s
    requires Distinct(r)
    ensures IsPartition(r, all)
  {
    forall x | x in all ensures exists j :: 0 <= j < |r| && x in r[j] {
      var i :| 0 <= i < |s| && x in s[i];
      assert s[i] in r;
    }
  }

  /** Merging two different alive clusters of a partition yields a strictly
      key-sorted partition of the same names, one cluster shorter, that holds
      exactly the union and the clusters other than the two merged. */
  lemma ApplyMerge(s: seq<Cluster>, all: set<Name>, a: Cluster, b: Cluster, less: (Cluster, Cluster) -> bool)
    requires StrictTotalOrder(less)
    requires IsPartition(s, all)
    requires a in s && b in s && a != b
    ensures var r := Apply(s, a, b, a + b, less);
      && IsPartition(r, all)
      && |r| == |s| - 1
      && StrictlySorted(r, less)
      && (forall c :: c in r <==> (c in s && c != a && c != b) || c == a + b)
  {
    var u := Remove(s, a, b) + [a + b];
    ReplacePartition(s, all, a, b);
    var r := Sort(u, less);
    SortSorted(u, less);
    PartitionPermuted(u, r, all);
    SortedDistinct(r, less);
  }
}
