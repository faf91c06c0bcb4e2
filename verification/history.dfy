/**
 The merge history and its replay. Both the merge loop and the cover
 computation walk the same update over the alive list; replaying the first
 `k` records from the singletons gives the alive list after `k` merges.
 */
module History {
  import opened Seqs
  import opened Order
  import opened ClusterKey
  import opened Sorting
  import opened Alive

  /** One entry of `merge_history`: `(step, clusterA, clusterB, newCluster, distance)`. */
  datatype Merge = Merge(step: nat, a: Cluster, b: Cluster, merged: Cluster, height: real)

  /** The alive list after applying the records of `h` in order, starting
      from the singletons of `names` and sorting by `less` after each merge.
      The last record's union is alive. */
  function Replay(names: seq<Name>, h: seq<Merge>, less: (Cluster, Cluster) -> bool): (alive: seq<Cluster>)
    requires StrictTotalOrder(less)
    ensures |h| > 0 ==> h[|h| - 1].merged in alive
    decreases |h|
  {
    if |h| == 0 then Singletons(names)
    else
      var r := h[|h| - 1];
      Apply(Replay(names, h[..|h| - 1], less), r.a, r.b, r.merged, less)
  }

  /** Every alive cluster is a starting singleton or the union some record
      made. */
  lemma {:induction false} ReplayOrigin(names: seq<Name>, h: seq<Merge>, less: (Cluster, Cluster) -> bool)
    requires StrictTotalOrder(less)
    ensures forall c :: c in Replay(names, h, less) ==>
      (exists x :: x in names && c == {x}) || (exists k :: 0 <= k < |h| && c == h[k].merged)
    decreases |h|
  {
    if |h| > 0 {
      var h0 := h[..|h| - 1];
      ReplayOrigin(names, h0, less);
      forall c | c in Replay(names, h, less) && c != h[|h| - 1].merged
        ensures (exists x :: x in names && c == {x}) || (exists k :: 0 <= k < |h| && c == h[k].merged)
      {
        assert c in Replay(names, h0, less);
        if !(exists x :: x in names && c == {x}) {
          var k :| 0 <= k < |h0| && c == h0[k].merged;
          assert h[k] == h0[k];
        }
      }
    }
  }

  /** Each record merges two different clusters alive at that point into their
      union. */
  ghost predicate WellFormed(names: seq<Name>, h: seq<Merge>, less: (Cluster, Cluster) -> bool)
    requires StrictTotalOrder(less)
    decreases |h|
  {
    |h| == 0 ||
      (WellFormed(names, h[..|h| - 1], less) && ValidMerge(Replay(names, h[..|h| - 1], less), h[|h| - 1]))
  }

  ghost predicate ValidMerge(alive: seq<Cluster>, r: Merge) {
    r.a in alive && r.b in alive && r.a != r.b && r.merged == r.a + r.b
  }

  lemma ReplaySnoc(names: seq<Name>, h: seq<Merge>, r: Merge, less: (Cluster, Cluster) -> bool)
    requires StrictTotalOrder(less)
    ensures Replay(names, h + [r], less) == Apply(Replay(names, h, less), r.a, r.b, r.merged, less)
    ensures WellFormed(names, h + [r], less) <==> WellFormed(names, h, less) && ValidMerge(Replay(names, h, less), r)
  {
    assert (h + [r])[..|h|] == h;
  }

  /** Every prefix of a well-formed history is well-formed. */
  lemma {:induction false} WellFormedPrefix(names: seq<Name>, h: seq<Merge>, k: nat, less: (Cluster, Cluster) -> bool)
    requires StrictTotalOrder(less)
    requires WellFormed(names, h, less) && k <= |h|
    ensures WellFormed(names, h[..k], less)
    decreases |h| - k
  {
    if k < |h| {
      WellFormedPrefix(names, h, k + 1, less);
      var h1 := h[..k + 1];
      WellFormedInit(names, h1, less);
      assert h1[..k] == h[..k];
    } else {
      assert h[..k] == h;
    }
  }

  lemma WellFormedInit(names: seq<Name>, h: seq<Merge>, less: (Cluster, Cluster) -> bool)
    requires StrictTotalOrder(less)
    requires WellFormed(names, h, less) && |h| > 0
    ensures WellFormed(names, h[..|h| - 1], less)
  {
  }

  /** Record `k` of a well-formed history is valid for the list replayed from
      the records before it. */
  lemma WellFormedAt(names: seq<Name>, h: seq<Merge>, k: nat, less: (Cluster, Cluster) -> bool)
    requires StrictTotalOrder(less)
    requires WellFormed(names, h, less) && k < |h|
    ensures ValidMerge(Replay(names, h[..k], less), h[k])
  {
    WellFormedPrefix(names, h, k + 1, less);
    assert h[..k + 1][..k] == h[..k];
  }

  /** The partition invariant of the merge loop: after every record of a
      well-formed history the alive clusters partition the names, there is
      one cluster fewer per merge, and after at least one merge the list is
      strictly sorted by cluster key. */
  lemma {:induction false} ReplayPartition(names: seq<Name>, h: seq<Merge>, less: (Cluster, Cluster) -> bool)
    requires StrictTotalOrder(less)
    requires Distinct(names)
    requires WellFormed(names, h, less)
    ensures IsPartition(Replay(names, h, less), Elems(names))
    ensures |Replay(names, h, less)| == |names| - |h|
    ensures |h| > 0 ==> StrictlySorted(Replay(names, h, less), less)
    decreases |h|
  {
    if |h| == 0 {
      SingletonsPartition(names);
    } else {
      var h0, r := h[..|h| - 1], h[|h| - 1];
      ReplayPartition(names, h0, less);
      ApplyMerge(Replay(names, h0, less), Elems(names), r.a, r.b, less);
    }
  }

  /** Every record is numbered by its position: steps run 1, 2, ... */
  ghost predicate Numbered(h: seq<Merge>) {
    forall k :: 0 <= k < |h| ==> h[k].step == k + 1
  }

  /** A well-formed history of `names` has at most `|names| - 1` records. */
  lemma HistoryLength(names: seq<Name>, h: seq<Merge>, less: (Cluster, Cluster) -> bool)
    requires StrictTotalOrder(less)
    requires Distinct(names)
    requires WellFormed(names, h, less)
    ensures |names| == 0 ==> |h| == 0
    ensures |names| > 0 ==> |h| <= |names| - 1
  {
    ReplayPartition(names, h, less);
    if |h| > 0 {
      var h0, r := h[..|h| - 1], h[|h| - 1];
      ReplayPartition(names, h0, less);
      var s := Replay(names, h0, less);
      var i :| 0 <= i < |s| && s[i] == r.a;
      var j :| 0 <= j < |s| && s[j] == r.b;
      assert i != j;
    }
  }

  /** A partition of a non-empty set into one cluster is that set. */
  lemma SingleCluster(s: seq<Cluster>, all: set<Name>)
    requires IsPartition(s, all)
    requires all != {} && |s| <= 1
    ensures s == [all]
  {
    var x :| x in all;
    var i :| 0 <= i < |s| && x in s[i];
    assert |s| == 1 && s[0] in s;
    forall y | y in all ensures y in s[0] {
      var k :| 0 <= k < |s| && y in s[k];
    }
    assert s[0] == all;
  }
}
