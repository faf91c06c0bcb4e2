/**
 Node positions for the dendrogram: leaves sit at their index in the sorted
 names at height 0, and each merge places its cluster midway between the
 two children at the merge height. Looking up a child that has no position
 yet is a `KeyError` in the source, modelled here as `None`.
 */
module Dendrogram {
  import opened Seqs
  import opened Order
  import opened ClusterKey
  import opened Sorting
  import opened Alive
  import opened History

  datatype Option<T> = None | Some(value: T)

  /** `(x_center, height)`. */
  datatype Node = Node(x: real, height: real)

  type Positions = map<Cluster, Node>

  /** `leaf_order = sorted(names)`. */
  function LeafOrder(names: seq<Name>): (lo: seq<Name>)
    ensures |lo| == |names|
    ensures forall x :: x in lo <==> x in names
  {
    NameOrder();
    Sort(names, NameLess)
  }

  /** The leaf loop over the first `k` names of `lo`: `{lo[i]}` at `(i, 0.0)`. */
  function Leaves(lo: seq<Name>, k: nat): (m: Positions)
    requires k <= |lo|
    ensures forall i :: 0 <= i < k ==> {lo[i]} in m
    ensures forall c :: c in m ==> 0.0 <= m[c].x <= (k - 1) as real && m[c].height == 0.0
  {
    if k == 0 then map[]
    else Leaves(lo, k - 1)[{lo[k - 1]} := Node((k - 1) as real, 0.0)]
  }

  /** With distinct names each leaf sits at its own index. */
  lemma {:induction false} LeafAtIndex(lo: seq<Name>, k: nat, i: nat)
    requires Distinct(lo)
    requires i < k <= |lo|
    ensures Leaves(lo, k)[{lo[i]}] == Node(i as real, 0.0)
    decreases k
  {
    if i < k - 1 {
      LeafAtIndex(lo, k - 1, i);
      assert lo[k - 1] != lo[i];
      assert lo[k - 1] in {lo[k - 1]};
    }
  }

  /** `node_positions` after the leaf loop and the loop over `merge_history`
      in `cluster.py`: the positions after processing the records of `h` in
      order, or `None` if some record names a child without a position. When
      no lookup fails, the last record's cluster sits at its merge height. */
  function NodePositions(names: seq<Name>, h: seq<Merge>): (pos: Option<Positions>)
    ensures pos.Some? && |h| > 0 ==>
      h[|h| - 1].merged in pos.value && pos.value[h[|h| - 1].merged].height == h[|h| - 1].height
    decreases |h|
  {
    if |h| == 0 then Some(Leaves(LeafOrder(names), |names|))
    else
      match NodePositions(names, h[..|h| - 1])
      case None => None
      case Some(m) =>
        var r := h[|h| - 1];
        if r.a in m && r.b in m then Some(m[r.merged := Node((m[r.a].x + m[r.b].x) / 2.0, r.height)])
        else None
  }

  /** Heights recorded so far never decrease and are not negative. */
  ghost predicate Climbing(h: seq<Merge>) {
    && (forall k :: 0 <= k < |h| ==> h[k].height >= 0.0)
    && (forall k, l :: 0 <= k < l < |h| ==> h[k].height <= h[l].height)
  }

  /** The height of the last merge, or 0 before the first. */
  function Top(h: seq<Merge>): real {
    if |h| == 0 then 0.0 else h[|h| - 1].height
  }

  lemma ClimbingPrefix(h: seq<Merge>)
    requires |h| > 0 && Climbing(h)
    ensures Climbing(h[..|h| - 1])
    ensures Top(h[..|h| - 1]) <= h[|h| - 1].height
  {
  }

  /** For a well-formed history with climbing heights every record finds
      both children: all alive clusters have a position, every x stays within
      `[0, n - 1]`, and no node is higher than the last merge. */
  lemma {:induction false} PositionsInvariant(names: seq<Name>, h: seq<Merge>, less: (Cluster, Cluster) -> bool)
    requires StrictTotalOrder(less)
    requires Distinct(names)
    requires WellFormed(names, h, less)
    requires Climbing(h)
    ensures NodePositions(names, h).Some?
    ensures var m := NodePositions(names, h).value;
      && (forall c :: c in Replay(names, h, less) ==> c in m)
      && (forall c :: c in m ==> 0.0 <= m[c].x <= (|names| - 1) as real)
      && (forall c :: c in m ==> 0.0 <= m[c].height <= Top(h))
    decreases |h|
  {
    if |h| == 0 {
      var lo := LeafOrder(names);
      var m := Leaves(lo, |names|);
      forall c | c in Singletons(names) ensures c in m {
        var i :| 0 <= i < |names| && Singletons(names)[i] == c;
        assert names[i] in names;
        var j :| 0 <= j < |lo| && lo[j] == names[i];
      }
    } else {
      var h0, r := h[..|h| - 1], h[|h| - 1];
      ClimbingPrefix(h);
      PositionsInvariant(names, h0, less);
      var m0 := NodePositions(names, h0).value;
      var xa, xb := m0[r.a].x, m0[r.b].x;
      assert r.a in m0 && r.b in m0;
      PositionsStep(names, h);
      var m := m0[r.merged := Node((xa + xb) / 2.0, r.height)];
      forall c | c in Replay(names, h, less) ensures c in m {
        assert c in Remove(Replay(names, h0, less), r.a, r.b) + [r.merged];
      }
    }
  }

  /** A record whose children have positions adds its merged node. */
  lemma PositionsStep(names: seq<Name>, h: seq<Merge>)
    requires |h| > 0
    requires NodePositions(names, h[..|h| - 1]).Some?
    requires var m := NodePositions(names, h[..|h| - 1]).value; h[|h| - 1].a in m && h[|h| - 1].b in m
    ensures var m, r := NodePositions(names, h[..|h| - 1]).value, h[|h| - 1];
      NodePositions(names, h) == Some(m[r.merged := Node((m[r.a].x + m[r.b].x) / 2.0, r.height)])
  {
  }

  /** One pass of the loop over `merge_history`: when record `k` is processed both children
      already have positions below the merge height, and the merged cluster
      is placed at the mean of their x positions, at the merge height. */
  lemma MergeNode(names: seq<Name>, h: seq<Merge>, less: (Cluster, Cluster) -> bool, k: nat)
    requires StrictTotalOrder(less)
    requires Distinct(names)
    requires WellFormed(names, h, less)
    requires Climbing(h)
    requires k < |h|
    ensures NodePositions(names, h[..k]).Some? && NodePositions(names, h[..k + 1]).Some?
    ensures var m, m' := NodePositions(names, h[..k]).value, NodePositions(names, h[..k + 1]).value;
      var r := h[k];
      && r.a in m && r.b in m
      && m[r.a].height <= r.height && m[r.b].height <= r.height
      && m'[r.merged] == Node((m[r.a].x + m[r.b].x) / 2.0, r.height)
  {
    WellFormedPrefix(names, h, k, less);
    WellFormedAt(names, h, k, less);
    ClimbingAt(h, k);
    PositionsInvariant(names, h[..k], less);
    assert h[..k + 1][..k] == h[..k];
  }

  lemma ClimbingAt(h: seq<Merge>, k: nat)
    requires Climbing(h) && k < |h|
    ensures Climbing(h[..k]) && Top(h[..k]) <= h[k].height
  {
  }

  /** The leaves are laid out in key order of the set of all names: the
      leaf order is `cluster_key` of the names, and `{x}` sits at the index
      of `x` there. */
  lemma LeafLayout(names: seq<Name>, i: nat)
    requires Distinct(names)
    requires i < |names|
    ensures LeafOrder(names) == Key(Elems(names))
    ensures var lo := LeafOrder(names);
      NodePositions(names, [])  == Some(Leaves(lo, |names|)) &&
      Leaves(lo, |names|)[{lo[i]}] == Node(i as real, 0.0)
  {
    NameOrder();
    var lo := LeafOrder(names);
    SortSorted(names, NameLess);
    SortedDistinct(lo, NameLess);
    KeyIsSortedMembers(Elems(names), lo);
    LeafAtIndex(lo, |names|, i);
  }
}
