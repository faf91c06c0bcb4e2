/**
 The merge loop of complete-link agglomerative clustering: while more than
 one cluster is alive, merge the closest pair (ties broken by key pair),
 record the merge, and replace the two clusters by their union in the
 key-sorted alive list.
 */
module Clustering {
  import opened Seqs
  import opened Order
  import opened ClusterKey
  import opened Distance
  import opened Alive
  import opened Selection
  import opened History

  /** Record `r` is what one pass of the loop makes of `alive`: the chosen
      pair, its union and its distance. */
  ghost predicate GreedyStep(dist: (Cluster, Cluster) -> real, less: (Cluster, Cluster) -> bool,
                             alive: seq<Cluster>, r: Merge) {
    exists i, j :: Chosen(dist, less, alive, i, j) && r.a == alive[i] && r.b == alive[j]
      && r.merged == r.a + r.b && r.height == dist(r.a, r.b)
  }

  /** `h` is the history the loop records: each record numbered by its step
      and chosen greedily from the list replayed so far. */
  ghost predicate Greedy(names: seq<Name>, dist: (Cluster, Cluster) -> real, less: (Cluster, Cluster) -> bool,
                         h: seq<Merge>)
    requires StrictTotalOrder(less)
    decreases |h|
  {
    |h| == 0 ||
      (&& Greedy(names, dist, less, h[..|h| - 1])
       && h[|h| - 1].step == |h|
       && GreedyStep(dist, less, Replay(names, h[..|h| - 1], less), h[|h| - 1]))
  }

  lemma GreedySnoc(names: seq<Name>, dist: (Cluster, Cluster) -> real, less: (Cluster, Cluster) -> bool,
                   h: seq<Merge>, r: Merge)
    requires StrictTotalOrder(less)
    ensures Greedy(names, dist, less, h + [r]) <==>
      Greedy(names, dist, less, h) && r.step == |h| + 1 && GreedyStep(dist, less, Replay(names, h, less), r)
  {
    assert (h + [r])[..|h|] == h;
  }

  /** The pair a greedy step merges is two different alive clusters. */
  lemma GreedyStepValid(dist: (Cluster, Cluster) -> real, less: (Cluster, Cluster) -> bool, s: seq<Cluster>, r: Merge)
    requires Distinct(s)
    requires GreedyStep(dist, less, s, r)
    ensures ValidMerge(s, r)
  {
    var i, j :| Chosen(dist, less, s, i, j) && r.a == s[i] && r.b == s[j] && r.merged == r.a + r.b;
  }

  /** A greedy history is well-formed. */
  lemma {:induction false} GreedyWellFormed(names: seq<Name>, dist: (Cluster, Cluster) -> real,
                                            less: (Cluster, Cluster) -> bool, h: seq<Merge>)
    requires StrictTotalOrder(less)
    requires Distinct(names)
    requires Greedy(names, dist, less, h)
    ensures WellFormed(names, h, less)
    decreases |h|
  {
    if |h| > 0 {
      var h0, r := h[..|h| - 1], h[|h| - 1];
      GreedyWellFormed(names, dist, less, h0);
      ReplayPartition(names, h0, less);
      GreedyStepValid(dist, less, Replay(names, h0, less), r);
    }
  }

  /** A greedy history is numbered 1, 2, ... */
  lemma {:induction false} GreedyNumbered(names: seq<Name>, dist: (Cluster, Cluster) -> real,
                                          less: (Cluster, Cluster) -> bool, h: seq<Merge>)
    requires StrictTotalOrder(less)
    requires Greedy(names, dist, less, h)
    ensures Numbered(h)
    decreases |h|
  {
    if |h| > 0 {
      var h0 := h[..|h| - 1];
      GreedyNumbered(names, dist, less, h0);
      assert h == h0 + [h[|h| - 1]];
    }
  }

  /** The loop is deterministic: two greedy histories of the same length
      over the same names, distance and key order are equal. */
  lemma {:induction false} GreedyUnique(names: seq<Name>, dist: (Cluster, Cluster) -> real,
                                        less: (Cluster, Cluster) -> bool, h1: seq<Merge>, h2: seq<Merge>)
    requires StrictTotalOrder(less)
    requires Distinct(names)
    requires Greedy(names, dist, less, h1) && Greedy(names, dist, less, h2)
    requires |h1| == |h2|
    ensures h1 == h2
    decreases |h1|
  {
    if |h1| > 0 {
      var n := |h1| - 1;
      GreedyUnique(names, dist, less, h1[..n], h2[..n]);
      GreedyWellFormed(names, dist, less, h1[..n]);
      ReplayPartition(names, h1[..n], less);
      var s := Replay(names, h1[..n], less);
      StepUnique(dist, less, s, h1[n], h2[n]);
      SameInitAndLast(h1, h2);
    }
  }

  lemma SameInitAndLast<T>(s1: seq<T>, s2: seq<T>)
    requires |s1| == |s2| > 0
    requires s1[..|s1| - 1] == s2[..|s2| - 1] && s1[|s1| - 1] == s2[|s2| - 1]
    ensures s1 == s2
  {
    assert s1 == s1[..|s1| - 1] + [s1[|s1| - 1]];
    assert s2 == s2[..|s2| - 1] + [s2[|s2| - 1]];
  }

  lemma GreedyInit(names: seq<Name>, dist: (Cluster, Cluster) -> real, less: (Cluster, Cluster) -> bool,
                   h: seq<Merge>)
    requires StrictTotalOrder(less)
    requires Greedy(names, dist, less, h) && |h| > 0
    ensures Greedy(names, dist, less, h[..|h| - 1])
  {
  }

  /** Every prefix of a greedy history is greedy. */
  lemma {:induction false} GreedyPrefix(names: seq<Name>, dist: (Cluster, Cluster) -> real,
                                        less: (Cluster, Cluster) -> bool, h: seq<Merge>, k: nat)
    requires StrictTotalOrder(less)
    requires Greedy(names, dist, less, h) && k <= |h|
    ensures Greedy(names, dist, less, h[..k])
    decreases |h| - k
  {
    if k < |h| {
      GreedyPrefix(names, dist, less, h, k + 1);
      var h1 := h[..k + 1];
      GreedyInit(names, dist, less, h1);
      assert h1[..k] == h[..k];
    } else {
      assert h[..k] == h;
    }
  }

  /** Record `k` of a greedy history is step `k + 1`, and is the pair the
      selection picks from the list replayed from the records before it. */
  lemma GreedyAt(names: seq<Name>, dist: (Cluster, Cluster) -> real, less: (Cluster, Cluster) -> bool,
                 h: seq<Merge>, k: nat)
    requires StrictTotalOrder(less)
    requires Greedy(names, dist, less, h) && k < |h|
    ensures h[k].step == k + 1
    ensures GreedyStep(dist, less, Replay(names, h[..k], less), h[k])
  {
    GreedyPrefix(names, dist, less, h, k + 1);
    var h1 := h[..k + 1];
    GreedyLast(names, dist, less, h1);
    assert h1[..k] == h[..k] && h1[k] == h[k];
  }

  lemma GreedyLast(names: seq<Name>, dist: (Cluster, Cluster) -> real, less: (Cluster, Cluster) -> bool,
                   h: seq<Merge>)
    requires StrictTotalOrder(less)
    requires Greedy(names, dist, less, h) && |h| > 0
    ensures h[|h| - 1].step == |h|
    ensures GreedyStep(dist, less, Replay(names, h[..|h| - 1], less), h[|h| - 1])
  {
  }

  /** From the second merge on, the loop records `cA` before `cB` in key
      order: the list it picks from is key-sorted, and the chosen pair keeps
      list order. The first merge is excluded because the starting list is
      in `names` order, not key order: for `names = ["p2", "p10"]` the first
      record is `({p2}, {p10})`, although `"p10"` sorts first. */
  lemma RecordInKeyOrder(names: seq<Name>, dist: (Cluster, Cluster) -> real, less: (Cluster, Cluster) -> bool,
                         h: seq<Merge>, k: nat)
    requires StrictTotalOrder(less)
    requires Distinct(names)
    requires Greedy(names, dist, less, h) && 1 <= k < |h|
    ensures less(h[k].a, h[k].b)
  {
    GreedyAt(names, dist, less, h, k);
    GreedyPrefix(names, dist, less, h, k);
    GreedyWellFormed(names, dist, less, h[..k]);
    ReplayPartition(names, h[..k], less);
    var s := Replay(names, h[..k], less);
    var i, j :| Chosen(dist, less, s, i, j) && h[k].a == s[i] && h[k].b == s[j];
    ChosenInKeyOrder(dist, less, s, i, j);
  }

  /** One greedy step is determined by the alive list, up to the step number. */
  lemma StepUnique(dist: (Cluster, Cluster) -> real, less: (Cluster, Cluster) -> bool,
                    s: seq<Cluster>, r1: Merge, r2: Merge)
    requires StrictTotalOrder(less)
    requires Distinct(s)
    requires GreedyStep(dist, less, s, r1) && GreedyStep(dist, less, s, r2)
    requires r1.step == r2.step
    ensures r1 == r2
  {
    var i1, j1 :| Chosen(dist, less, s, i1, j1) && r1.a == s[i1] && r1.b == s[j1]
      && r1.merged == r1.a + r1.b && r1.height == dist(r1.a, r1.b);
    var i2, j2 :| Chosen(dist, less, s, i2, j2) && r2.a == s[i2] && r2.b == s[j2]
      && r2.merged == r2.a + r2.b && r2.height == dist(r2.a, r2.b);
    ChosenUnique(dist, less, s, i1, j1, i2, j2);
  }

  /** After merging the chosen pair, no two alive clusters are closer than
      the pair just merged. */
  lemma FloorAfterMerge(dist: (Cluster, Cluster) -> real, less: (Cluster, Cluster) -> bool,
                        alive: seq<Cluster>, all: set<Name>, i: int, j: int)
    requires StrictTotalOrder(less)
    requires Symmetric(dist) && GrowsOnMerge(dist)
    requires IsPartition(alive, all)
    requires Chosen(dist, less, alive, i, j)
    ensures var next := Apply(alive, alive[i], alive[j], alive[i] + alive[j], less);
      forall c1, c2 :: c1 in next && c2 in next && c1 != c2 ==> dist(alive[i], alive[j]) <= dist(c1, c2)
  {
    var a, b := alive[i], alive[j];
    var m := a + b;
    assert a != b;
    ApplyMerge(alive, all, a, b, less);
    ChosenIsClosest(dist, less, alive, i, j);
    var next := Apply(alive, a, b, m, less);
    forall c1, c2 | c1 in next && c2 in next && c1 != c2
      ensures dist(a, b) <= dist(c1, c2)
    {
      if c1 == m {
        assert dist(a, c2) <= dist(a + b, c2);
      } else if c2 == m {
        assert dist(a, c1) <= dist(a + b, c1);
      }
    }
  }

  /** The merge loop's invariant after `history`: the alive list is the
      replay of the history, a partition of the names, and no two alive
      clusters are closer than `floor`, the height of the last merge, which
      bounds all earlier heights. */
  ghost predicate LoopInvariant(names: seq<Name>, dist: (Cluster, Cluster) -> real, less: (Cluster, Cluster) -> bool,
                                history: seq<Merge>, alive: seq<Cluster>, floor: real)
    requires StrictTotalOrder(less)
  {
    && Greedy(names, dist, less, history)
    && WellFormed(names, history, less)
    && alive == Replay(names, history, less)
    && IsPartition(alive, Elems(names))
    && |alive| == |names| - |history|
    && floor >= 0.0
    && (forall c1, c2 :: c1 in alive && c2 in alive && c1 != c2 ==> floor <= dist(c1, c2))
    && (forall k :: 0 <= k < |history| ==> 0.0 <= history[k].height <= floor)
    && (forall k, l :: 0 <= k < l < |history| ==> history[k].height <= history[l].height)
  }

  /** One pass of the loop keeps the invariant. */
  lemma LoopStep(names: seq<Name>, dist: (Cluster, Cluster) -> real, less: (Cluster, Cluster) -> bool,
                 history: seq<Merge>, alive: seq<Cluster>, floor: real, bi: int, bj: int)
    requires StrictTotalOrder(less)
    requires Symmetric(dist) && GrowsOnMerge(dist)
    requires LoopInvariant(names, dist, less, history, alive, floor)
    requires Chosen(dist, less, alive, bi, bj)
    ensures var cA, cB := alive[bi], alive[bj];
      var r := Merge(|history| + 1, cA, cB, cA + cB, dist(cA, cB));
      LoopInvariant(names, dist, less, history + [r], Apply(alive, cA, cB, cA + cB, less), dist(cA, cB))
  {
    var cA, cB := alive[bi], alive[bj];
    var r := Merge(|history| + 1, cA, cB, cA + cB, dist(cA, cB));
    assert GreedyStep(dist, less, alive, r);
    assert cA != cB;
    assert floor <= r.height by {
      assert cA in alive && cB in alive;
    }
    HeightsSnoc(history, r, floor);
    FloorAfterMerge(dist, less, alive, Elems(names), bi, bj);
    ApplyMerge(alive, Elems(names), cA, cB, less);
    GreedySnoc(names, dist, less, history, r);
    ReplaySnoc(names, history, r, less);
  }

  /** Appending a record no lower than every earlier one keeps the heights
      non-negative and non-decreasing. */
  lemma HeightsSnoc(history: seq<Merge>, r: Merge, floor: real)
    requires 0.0 <= floor <= r.height
    requires forall k :: 0 <= k < |history| ==> 0.0 <= history[k].height <= floor
    requires forall k, l :: 0 <= k < l < |history| ==> history[k].height <= history[l].height
    ensures forall k :: 0 <= k < |history + [r]| ==> 0.0 <= (history + [r])[k].height <= r.height
    ensures forall k, l :: 0 <= k < l < |history + [r]| ==> (history + [r])[k].height <= (history + [r])[l].height
  {
  }

  /** The `while` loop of `cluster.py` for a given cluster distance and key
      order. */
  method MergeLoop(names: seq<Name>, dist: (Cluster, Cluster) -> real, less: (Cluster, Cluster) -> bool)
    returns (history: seq<Merge>, alive: seq<Cluster>)
    requires StrictTotalOrder(less)
    requires Symmetric(dist) && NonNegative(dist) && GrowsOnMerge(dist)
    requires Distinct(names)
    ensures Greedy(names, dist, less, history)
    ensures WellFormed(names, history, less) && Numbered(history)
    ensures alive == Replay(names, history, less)
    ensures |names| > 0 ==> |history| == |names| - 1 && alive == [Elems(names)]
    ensures |names| == 0 ==> history == [] && alive == []
    ensures forall k :: 0 <= k < |history| ==> history[k].height >= 0.0
    ensures forall k, l :: 0 <= k < l < |history| ==> history[k].height <= history[l].height
  {
    alive := Singletons(names);
    history := [];
    var step := 0;
    ghost var floor := 0.0;
    SingletonsPartition(names);
    while |alive| > 1
      invariant step == |history|
      invariant LoopInvariant(names, dist, less, history, alive, floor)
      decreases |alive|
    {
      var bi, bj, bestDist := SelectPair(dist, less, alive);
      var cA, cB := alive[bi], alive[bj];
      var newC := cA + cB;
      step := step + 1;
      LoopStep(names, dist, less, history, alive, floor, bi, bj);
      alive := Apply(alive, cA, cB, newC, less);
      history := history + [Merge(step, cA, cB, newC, bestDist)];
      floor := bestDist;
    }
    GreedyNumbered(names, dist, less, history);
    if |names| > 0 {
      assert names[0] in Elems(names);
      SingleCluster(alive, Elems(names));
    }
  }

  /** The whole procedure: build the distance table over `names`, then run
      the merge loop with complete link and key order.
      `euclid` stands for the distance between the points of two names. */
  method Agglomerate(names: seq<Name>, euclid: (Name, Name) -> real) returns (history: seq<Merge>, alive: seq<Cluster>)
    requires Distinct(names)
    ensures Greedy(names, Linkage(BuildTable(names, euclid)), ByKey(), history)
    ensures WellFormed(names, history, ByKey()) && Numbered(history)
    ensures alive == Replay(names, history, ByKey())
    ensures |names| > 0 ==> |history| == |names| - 1 && alive == [Elems(names)]
    ensures |names| == 0 ==> history == [] && alive == []
    ensures forall k :: 0 <= k < |history| ==> history[k].height >= 0.0
    ensures forall k, l :: 0 <= k < l < |history| ==> history[k].height <= history[l].height
  {
    var t := BuildTable(names, euclid);
    LinkageLaws(t);
    history, alive := MergeLoop(names, Linkage(t), ByKey());
  }
}
