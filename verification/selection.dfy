/**
 Choosing the pair to merge: scan every pair `i < j` of the alive list and
 keep the one with the smallest cluster distance, breaking ties by the
 smaller pair of cluster keys. The distance `dist` and the key order `less`
 are parameters; the merge loop passes complete link (`Linkage`) and
 `ClusterLess`.
 */
module Selection {
  import opened Seqs
  import opened Order
  import opened ClusterKey

  /** Python's `(cluster_key(c1), cluster_key(c2)) < (cluster_key(d1), cluster_key(d2))`.
      Two clusters have equal keys exactly when they are equal. */
  predicate PairLess(less: (Cluster, Cluster) -> bool, c1: Cluster, c2: Cluster, d1: Cluster, d2: Cluster) {
    less(c1, d1) || (c1 == d1 && less(c2, d2))
  }

  /** Under the key order, `PairLess` is Python's comparison of the tuples
      `(cluster_key(c1), cluster_key(c2))` and `(cluster_key(d1), cluster_key(d2))`:
      lexicographic, with the keys compared as tuples of names. */
  lemma PairLessIsTupleOrder(c1: Cluster, c2: Cluster, d1: Cluster, d2: Cluster)
    ensures PairLess(ClusterLess, c1, c2, d1, d2) <==>
      LexLess([Key(c1), Key(c2)], [Key(d1), Key(d2)], KeyLess)
  {
    LexPair(Key(c1), Key(c2), Key(d1), Key(d2), KeyLess);
    KeyInjective(c1, d1);
    ClusterLessIrreflexive(c1);
    ClusterLessIrreflexive(c2);
  }

  /** The scan replaces the best pair `(d1, d2)` so far by `(c1, c2)`: strictly
      closer, or equally close with a smaller key pair. */
  predicate Preferred(dist: (Cluster, Cluster) -> real, less: (Cluster, Cluster) -> bool,
                      c1: Cluster, c2: Cluster, d1: Cluster, d2: Cluster) {
    dist(c1, c2) < dist(d1, d2) || (dist(c1, c2) == dist(d1, d2) && PairLess(less, c1, c2, d1, d2))
  }

  lemma PairLessTransitive(less: (Cluster, Cluster) -> bool,
                           c1: Cluster, c2: Cluster, d1: Cluster, d2: Cluster, e1: Cluster, e2: Cluster)
    requires StrictTotalOrder(less)
    requires PairLess(less, c1, c2, d1, d2) && PairLess(less, d1, d2, e1, e2)
    ensures PairLess(less, c1, c2, e1, e2)
  {
  }

  /** Pairs of clusters that differ are strictly ordered one way or the other. */
  lemma PairLessTotal(less: (Cluster, Cluster) -> bool, c1: Cluster, c2: Cluster, d1: Cluster, d2: Cluster)
    requires StrictTotalOrder(less)
    ensures (c1 == d1 && c2 == d2) || PairLess(less, c1, c2, d1, d2) || PairLess(less, d1, d2, c1, c2)
  {
  }

  lemma PairLessIrreflexive(less: (Cluster, Cluster) -> bool, c1: Cluster, c2: Cluster)
    requires StrictTotalOrder(less)
    ensures !PairLess(less, c1, c2, c1, c2)
  {
  }

  lemma PreferredTransitive(dist: (Cluster, Cluster) -> real, less: (Cluster, Cluster) -> bool,
                            c1: Cluster, c2: Cluster, d1: Cluster, d2: Cluster, e1: Cluster, e2: Cluster)
    requires StrictTotalOrder(less)
    requires Preferred(dist, less, c1, c2, d1, d2) && Preferred(dist, less, d1, d2, e1, e2)
    ensures Preferred(dist, less, c1, c2, e1, e2)
  {
    if PairLess(less, c1, c2, d1, d2) && PairLess(less, d1, d2, e1, e2) {
      PairLessTransitive(less, c1, c2, d1, d2, e1, e2);
    }
  }

  /** The pair at `i < j` is the one the scan ends with: no pair of the list
      would replace it. */
  ghost predicate Chosen(dist: (Cluster, Cluster) -> real, less: (Cluster, Cluster) -> bool,
                         alive: seq<Cluster>, i: int, j: int) {
    && 0 <= i < j < |alive|
    && forall p, q :: 0 <= p < q < |alive| ==> !Preferred(dist, less, alive[p], alive[q], alive[i], alive[j])
  }

  /** The double loop at the head of each merge step. */
  method SelectPair(dist: (Cluster, Cluster) -> real, less: (Cluster, Cluster) -> bool, alive: seq<Cluster>)
    returns (bi: nat, bj: nat, bestDist: real)
    requires StrictTotalOrder(less)
    requires |alive| >= 2
    ensures Chosen(dist, less, alive, bi, bj)
    ensures bestDist == dist(alive[bi], alive[bj])
  {
    var found := false;
    bi, bj, bestDist := 0, 1, 0.0;
    var i := 0;
    while i < |alive|
      invariant 0 <= i <= |alive|
      invariant bi < bj < |alive|
      invariant found ==> bestDist == dist(alive[bi], alive[bj])
      invariant found <==> i > 0
      invariant forall p, q :: 0 <= p < i && p < q < |alive| ==>
        !Preferred(dist, less, alive[p], alive[q], alive[bi], alive[bj])
    {
      found, bi, bj, bestDist := ScanRow(dist, less, alive, i, found, bi, bj, bestDist);
      i := i + 1;
    }
  }

  /** One pass of the inner loop: row `i` against every later cluster.
      `found` stands for `best_pair is not None`: the first pair always
      replaces the initial infinite distance. Distances are compared exactly. */
  method ScanRow(dist: (Cluster, Cluster) -> real, less: (Cluster, Cluster) -> bool, alive: seq<Cluster>, i: nat,
                 found0: bool, bi0: nat, bj0: nat, best0: real)
    returns (found: bool, bi: nat, bj: nat, bestDist: real)
    requires StrictTotalOrder(less)
    requires i < |alive| && bi0 < bj0 < |alive|
    requires found0 ==> best0 == dist(alive[bi0], alive[bj0])
    requires found0 <==> i > 0
    requires forall p, q :: 0 <= p < i && p < q < |alive| ==>
      !Preferred(dist, less, alive[p], alive[q], alive[bi0], alive[bj0])
    ensures bi < bj < |alive|
    ensures found ==> bestDist == dist(alive[bi], alive[bj])
    ensures found <==> i > 0 || i + 1 < |alive|
    ensures forall p, q :: 0 <= p <= i && p < q < |alive| ==>
      !Preferred(dist, less, alive[p], alive[q], alive[bi], alive[bj])
  {
    found, bi, bj, bestDist := found0, bi0, bj0, best0;
    var j := i + 1;
    while j < |alive|
      invariant i + 1 <= j <= |alive|
      invariant bi < bj < |alive|
      invariant found ==> bestDist == dist(alive[bi], alive[bj])
      invariant found <==> i > 0 || j > i + 1
      invariant forall p, q :: 0 <= p < i && p < q < |alive| ==>
        !Preferred(dist, less, alive[p], alive[q], alive[bi], alive[bj])
      invariant forall q :: i < q < j ==> !Preferred(dist, less, alive[i], alive[q], alive[bi], alive[bj])
    {
      var d := dist(alive[i], alive[j]);
      if !found || d < bestDist || (d == bestDist && PairLess(less, alive[i], alive[j], alive[bi], alive[bj])) {
        Rebase(dist, less, alive, i, j, bi, bj, found);
        bi, bj, bestDist := i, j, d;
        found := true;
      }
      j := j + 1;
    }
    forall p, q | 0 <= p <= i && p < q < |alive|
      ensures !Preferred(dist, less, alive[p], alive[q], alive[bi], alive[bj])
    {
      if p == i {
        assert i < q < j;
      }
    }
  }

  /** When the pair `i, j` replaces the best so far, every pair the scan
      has already passed stays no better than the new best. */
  lemma Rebase(dist: (Cluster, Cluster) -> real, less: (Cluster, Cluster) -> bool,
               alive: seq<Cluster>, i: nat, j: nat, oi: nat, oj: nat, found: bool)
    requires StrictTotalOrder(less)
    requires i < j < |alive| && oi < oj < |alive|
    requires found ==> Preferred(dist, less, alive[i], alive[j], alive[oi], alive[oj])
    requires !found ==> i == 0 && j == 1
    requires forall p, q :: 0 <= p < i && p < q < |alive| ==>
      !Preferred(dist, less, alive[p], alive[q], alive[oi], alive[oj])
    requires forall q :: i < q < j ==> !Preferred(dist, less, alive[i], alive[q], alive[oi], alive[oj])
    ensures forall p, q :: 0 <= p < i && p < q < |alive| ==>
      !Preferred(dist, less, alive[p], alive[q], alive[i], alive[j])
    ensures forall q :: i < q <= j ==> !Preferred(dist, less, alive[i], alive[q], alive[i], alive[j])
  {
    forall p, q | (0 <= p < i && p < q < |alive|) || (p == i && i < q < j)
      ensures !Preferred(dist, less, alive[p], alive[q], alive[i], alive[j])
    {
      if Preferred(dist, less, alive[p], alive[q], alive[i], alive[j]) {
        PreferredTransitive(dist, less, alive[p], alive[q], alive[i], alive[j], alive[oi], alive[oj]);
      }
    }
    PairLessIrreflexive(less, alive[i], alive[j]);
  }

  /** In a list without repeats the chosen pair is the unique best one: every
      other pair of the list is strictly farther apart, or equally far with a
      larger key pair. */
  lemma ChosenStrictlyBest(dist: (Cluster, Cluster) -> real, less: (Cluster, Cluster) -> bool,
                           alive: seq<Cluster>, i: int, j: int, p: int, q: int)
    requires StrictTotalOrder(less)
    requires Distinct(alive)
    requires Chosen(dist, less, alive, i, j)
    requires 0 <= p < q < |alive| && (p, q) != (i, j)
    ensures Preferred(dist, less, alive[i], alive[j], alive[p], alive[q])
  {
    PairLessTotal(less, alive[i], alive[j], alive[p], alive[q]);
  }

  /** Only one pair is chosen. */
  lemma ChosenUnique(dist: (Cluster, Cluster) -> real, less: (Cluster, Cluster) -> bool,
                     alive: seq<Cluster>, i: int, j: int, p: int, q: int)
    requires StrictTotalOrder(less)
    requires Distinct(alive)
    requires Chosen(dist, less, alive, i, j) && Chosen(dist, less, alive, p, q)
    ensures i == p && j == q
  {
    if (p, q) != (i, j) {
      ChosenStrictlyBest(dist, less, alive, i, j, p, q);
      assert false;
    }
  }

  /** For a symmetric distance, the chosen distance is the smallest distance
      between any two different alive clusters, in either order. */
  lemma ChosenIsClosest(dist: (Cluster, Cluster) -> real, less: (Cluster, Cluster) -> bool,
                        alive: seq<Cluster>, i: int, j: int)
    requires forall c1, c2 :: dist(c1, c2) == dist(c2, c1)
    requires Chosen(dist, less, alive, i, j)
    ensures forall c1, c2 :: c1 in alive && c2 in alive && c1 != c2 ==>
      dist(alive[i], alive[j]) <= dist(c1, c2)
  {
    forall c1, c2 | c1 in alive && c2 in alive && c1 != c2
      ensures dist(alive[i], alive[j]) <= dist(c1, c2)
    {
      var p :| 0 <= p < |alive| && alive[p] == c1;
      var q :| 0 <= q < |alive| && alive[q] == c2;
      if p > q {
        assert !Preferred(dist, less, alive[q], alive[p], alive[i], alive[j]);
      } else {
        assert !Preferred(dist, less, alive[p], alive[q], alive[i], alive[j]);
      }
    }
  }

  /** In a list sorted by key, the chosen pair is in key order:
      `cluster_key(cA) < cluster_key(cB)`. */
  lemma ChosenInKeyOrder(dist: (Cluster, Cluster) -> real, less: (Cluster, Cluster) -> bool,
                         alive: seq<Cluster>, i: int, j: int)
    requires Chosen(dist, less, alive, i, j)
    requires forall p, q :: 0 <= p < q < |alive| ==> less(alive[p], alive[q])
    ensures less(alive[i], alive[j])
  {
  }
}
