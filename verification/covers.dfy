/**
 The covers printed after the merge sequence: the history is replayed from
 the singletons with the same update the merge loop applies, and after each
 record the current list, sorted by key, is collected.
 */
module Covers {
  import opened Seqs
  import opened Order
  import opened ClusterKey
  import opened Sorting
  import opened Alive
  import opened History

  /** The cover after `k` merges: the replayed list, sorted again by key. */
  function Cover(names: seq<Name>, h: seq<Merge>, k: nat, less: (Cluster, Cluster) -> bool): (cover: seq<Cluster>)
    requires StrictTotalOrder(less)
    requires k <= |h|
    ensures |cover| == |Replay(names, h[..k], less)|
    ensures forall c :: c in cover <==> c in Replay(names, h[..k], less)
  {
    Sort(Replay(names, h[..k], less), less)
  }

  /** `covers` holds the covers after 0, 1, ..., `k` merges. */
  ghost predicate CoversUpTo(names: seq<Name>, h: seq<Merge>, less: (Cluster, Cluster) -> bool,
                             covers: seq<seq<Cluster>>, k: nat)
    requires StrictTotalOrder(less)
    requires k <= |h|
  {
    |covers| == k + 1 && forall i :: 0 <= i <= k ==> covers[i] == Cover(names, h, i, less)
  }

  /** The cover replay of `cluster.py`: replay `history` and collect one
      cover before the first record and one after each record. */
  method ReplayCovers(names: seq<Name>, history: seq<Merge>, less: (Cluster, Cluster) -> bool)
    returns (covers: seq<seq<Cluster>>)
    requires StrictTotalOrder(less)
    ensures |covers| == |history| + 1
    ensures forall k :: 0 <= k <= |history| ==> covers[k] == Cover(names, history, k, less)
  {
    var current := Singletons(names);
    covers := [Sort(current, less)];
    var k := 0;
    assert history[..0] == [];
    while k < |history|
      invariant 0 <= k <= |history|
      invariant current == Replay(names, history[..k], less)
      invariant CoversUpTo(names, history, less, covers, k)
    {
      var rec := history[k];
      CoversStep(names, history, less, covers, k);
      current := Apply(current, rec.a, rec.b, rec.merged, less);
      covers := covers + [Sort(current, less)];
      k := k + 1;
    }
  }

  lemma CoversStep(names: seq<Name>, h: seq<Merge>, less: (Cluster, Cluster) -> bool,
                   covers: seq<seq<Cluster>>, k: nat)
    requires StrictTotalOrder(less)
    requires k < |h|
    requires CoversUpTo(names, h, less, covers, k)
    ensures Replay(names, h[..k + 1], less) == Apply(Replay(names, h[..k], less), h[k].a, h[k].b, h[k].merged, less)
    ensures CoversUpTo(names, h, less,
      covers + [Sort(Apply(Replay(names, h[..k], less), h[k].a, h[k].b, h[k].merged, less), less)], k + 1)
  {
    assert h[..k + 1] == h[..k] + [h[k]];
    ReplaySnoc(names, h[..k], h[k], less);
    var next := covers + [Sort(Apply(Replay(names, h[..k], less), h[k].a, h[k].b, h[k].merged, less), less)];
    assert next[k + 1] == Cover(names, h, k + 1, less);
    forall i | 0 <= i <= k ensures next[i] == Cover(names, h, i, less) {
      assert next[i] == covers[i];
    }
  }

  /** For a well-formed history, every cover is a strictly key-sorted
      partition of the names with one cluster fewer per merge; after at least
      one merge it is exactly the merge loop's alive list at that point. */
  lemma CoverIsPartition(names: seq<Name>, h: seq<Merge>, k: nat, less: (Cluster, Cluster) -> bool)
    requires StrictTotalOrder(less)
    requires Distinct(names)
    requires WellFormed(names, h, less) && k <= |h|
    ensures IsPartition(Cover(names, h, k, less), Elems(names))
    ensures |Cover(names, h, k, less)| == |names| - k
    ensures StrictlySorted(Cover(names, h, k, less), less)
    ensures k > 0 ==> Cover(names, h, k, less) == Replay(names, h[..k], less)
  {
    WellFormedPrefix(names, h, k, less);
    var s := Replay(names, h[..k], less);
    ReplayPartition(names, h[..k], less);
    var c := Sort(s, less);
    SortSorted(s, less);
    PartitionPermuted(s, c, Elems(names));
    SortedDistinct(c, less);
    if k > 0 {
      StrictlySortedIsSorted(s, less);
      SortIdempotent(s, less);
    }
  }

  /** The cover after the first record is the singletons, and the cover after
      the last record of a complete history is the one cluster of all names. */
  lemma FirstAndLastCover(names: seq<Name>, h: seq<Merge>, less: (Cluster, Cluster) -> bool)
    requires StrictTotalOrder(less)
    requires Distinct(names)
    requires WellFormed(names, h, less)
    ensures forall c :: c in Cover(names, h, 0, less) <==> exists x :: x in names && c == {x}
    ensures |names| > 0 && |h| == |names| - 1 ==> Cover(names, h, |h|, less) == [Elems(names)]
  {
    assert h[..0] == [];
    SingletonsPartition(names);
    if |names| > 0 && |h| == |names| - 1 {
      CoverIsPartition(names, h, |h|, less);
      assert names[0] in Elems(names);
      SingleCluster(Cover(names, h, |h|, less), Elems(names));
    }
  }
}
