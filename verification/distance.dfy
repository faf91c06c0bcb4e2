/**
 The distance table and the complete-link distance between clusters.

 The table maps each unordered pair of distinct point names, written as the
 two-element set `{a, b}` (the source's `frozenset([i, j])`), to the distance
 between the two points. The Euclidean formula is abstracted as a parameter
 `euclid`, standing for `euclid(points[a], points[b])`.
 */
module Distance {
  import opened Seqs
  import opened ClusterKey

  type Table = map<set<Name>, real>

  /** Table key `key` is the unordered pair of `names[p]` and `names[q]` for
      some `lo <= p < q`. */
  ghost predicate PairFrom(names: seq<Name>, lo: nat, key: set<Name>) {
    exists p, q :: lo <= p < q < |names| && key == {names[p], names[q]}
  }

  /** The entries written for `names[i]` paired with each later name before
      index `k` (the inner loop over `combinations`). */
  function Row(names: seq<Name>, i: nat, k: nat, euclid: (Name, Name) -> real): (t: Table)
    requires i < k <= |names|
    ensures forall q :: i < q < k ==>
      {names[i], names[q]} in t && t[{names[i], names[q]}] == euclid(names[i], names[q])
    ensures forall key :: key in t ==> PairFrom(names, i, key)
    decreases k
  {
    if k == i + 1 then map[]
    else
      var t := Row(names, i, k - 1, euclid);
      var key := {names[i], names[k - 1]};
      assert PairFrom(names, i, key) by {
        assert i < k - 1 < |names| && key == {names[i], names[k - 1]};
      }
      t[key := euclid(names[i], names[k - 1])]
  }

  /** `t` holds `euclid(names[p], names[q])` under `{names[p], names[q]}` for
      every `lo <= p < q`. */
  ghost predicate EntriesFrom(names: seq<Name>, lo: nat, euclid: (Name, Name) -> real, t: Table) {
    forall p, q :: lo <= p < q < |names| ==>
      {names[p], names[q]} in t && t[{names[p], names[q]}] == euclid(names[p], names[q])
  }

  /** Every key of `t` is a pair from index `lo` on. */
  ghost predicate KeysFrom(names: seq<Name>, lo: nat, t: Table) {
    forall key :: key in t ==> PairFrom(names, lo, key)
  }

  /** The entries for every pair `names[p], names[q]` with `i <= p < q`, and
      no others. */
  function TableFrom(names: seq<Name>, i: nat, euclid: (Name, Name) -> real): (t: Table)
    requires Distinct(names) && i <= |names|
    ensures EntriesFrom(names, i, euclid, t) && KeysFrom(names, i, t)
    decreases |names| - i
  {
    if i == |names| then map[]
    else
      var rest := TableFrom(names, i + 1, euclid);
      var row := Row(names, i, |names|, euclid);
      Join(names, i, euclid, row, rest);
      row + rest
  }

  /** Row `i` followed by the entries for later rows covers every pair from
      row `i` on, and nothing else. */
  lemma Join(names: seq<Name>, i: nat, euclid: (Name, Name) -> real, row: Table, rest: Table)
    requires Distinct(names) && i < |names|
    requires forall q :: i < q < |names| ==>
      {names[i], names[q]} in row && row[{names[i], names[q]}] == euclid(names[i], names[q])
    requires KeysFrom(names, i, row)
    requires EntriesFrom(names, i + 1, euclid, rest) && KeysFrom(names, i + 1, rest)
    ensures EntriesFrom(names, i, euclid, row + rest) && KeysFrom(names, i, row + rest)
  {
    JoinKeys(names, i, row, rest);
    JoinEntries(names, i, euclid, row, rest);
  }

  lemma PairFromLater(names: seq<Name>, i: nat, key: set<Name>)
    requires Distinct(names) && i < |names|
    requires PairFrom(names, i + 1, key)
    ensures names[i] !in key && PairFrom(names, i, key)
  {
    var p, q :| i + 1 <= p < q < |names| && key == {names[p], names[q]};
    assert names[i] != names[p] && names[i] != names[q];
  }

  lemma JoinKeys(names: seq<Name>, i: nat, row: Table, rest: Table)
    requires Distinct(names) && i < |names|
    requires forall key :: key in row ==> PairFrom(names, i, key)
    requires forall key :: key in rest ==> PairFrom(names, i + 1, key)
    ensures forall key :: key in rest ==> names[i] !in key
    ensures forall key :: key in row + rest ==> PairFrom(names, i, key)
  {
    forall key | key in rest ensures names[i] !in key && PairFrom(names, i, key) {
      PairFromLater(names, i, key);
    }
  }

  lemma JoinEntries(names: seq<Name>, i: nat, euclid: (Name, Name) -> real, row: Table, rest: Table)
    requires i < |names|
    requires forall q :: i < q < |names| ==>
      {names[i], names[q]} in row && row[{names[i], names[q]}] == euclid(names[i], names[q])
    requires forall p, q :: i + 1 <= p < q < |names| ==>
      {names[p], names[q]} in rest && rest[{names[p], names[q]}] == euclid(names[p], names[q])
    requires forall key :: key in rest ==> names[i] !in key
    ensures forall p, q :: i <= p < q < |names| ==>
      {names[p], names[q]} in row + rest && (row + rest)[{names[p], names[q]}] == euclid(names[p], names[q])
  {
    forall p, q | i <= p < q < |names|
      ensures {names[p], names[q]} in row + rest && (row + rest)[{names[p], names[q]}] == euclid(names[p], names[q])
    {
      if p == i {
        assert names[i] in {names[p], names[q]};
      }
    }
  }

  /** The table built over `combinations(names, 2)`: one entry per pair
      `names[i], names[j]` with `i < j`, holding `euclid(names[i], names[j])`,
      and no other entry. */
  function BuildTable(names: seq<Name>, euclid: (Name, Name) -> real): (t: Table)
    requires Distinct(names)
    ensures forall i, j :: 0 <= i < j < |names| ==>
      {names[i], names[j]} in t && t[{names[i], names[j]}] == euclid(names[i], names[j])
    ensures forall key :: key in t ==> PairFrom(names, 0, key)
  {
    var t := TableFrom(names, 0, euclid);
    assert EntriesFrom(names, 0, euclid, t) && KeysFrom(names, 0, t);
    t
  }

  /** Every pair of distinct names has an entry. */
  lemma TableComplete(names: seq<Name>, euclid: (Name, Name) -> real, a: Name, b: Name)
    requires Distinct(names)
    requires a in names && b in names && a != b
    ensures {a, b} in BuildTable(names, euclid)
  {
    var i :| 0 <= i < |names| && names[i] == a;
    var j :| 0 <= j < |names| && names[j] == b;
    var p, q := if i < j then i else j, if i < j then j else i;
    assert {a, b} == {names[p], names[q]};
    TableHas(names, euclid, p, q);
  }

  /** The lookup `dist[frozenset([a, b])]` returns the distance stored for
      that pair, in either argument order. */
  lemma LinkLooksUp(names: seq<Name>, euclid: (Name, Name) -> real, i: nat, j: nat)
    requires Distinct(names) && i < j < |names|
    ensures Link(BuildTable(names, euclid), names[i], names[j]) == euclid(names[i], names[j])
    ensures Link(BuildTable(names, euclid), names[j], names[i]) == euclid(names[i], names[j])
  {
    assert {names[j], names[i]} == {names[i], names[j]};
  }

  lemma TableHas(names: seq<Name>, euclid: (Name, Name) -> real, p: nat, q: nat)
    requires Distinct(names) && p < q < |names|
    ensures {names[p], names[q]} in BuildTable(names, euclid)
  {
  }

  /** `dist[frozenset([a, b])]`. A pair missing from the table (a `KeyError`
      in the source, which no call can reach: see `TableComplete`) reads as 0. */
  function Link(t: Table, a: Name, b: Name): real {
    if {a, b} in t then t[{a, b}] else 0.0
  }

  /** The inner loop of `cluster_distance`: raise `maxd` to every distance
      from `a` to a member of `bs` other than `a` itself. */
  function RowMax(t: Table, a: Name, bs: seq<Name>, maxd: real): (r: real)
    ensures r >= maxd
    ensures forall b :: b in bs && b != a ==> Link(t, a, b) <= r
    ensures r == maxd || exists b :: b in bs && b != a && r == Link(t, a, b)
    decreases |bs|
  {
    if |bs| == 0 then maxd
    else
      var b := bs[0];
      var m := if b == a then maxd else if Link(t, a, b) > maxd then Link(t, a, b) else maxd;
      RowMax(t, a, bs[1..], m)
  }

  /** The outer loop of `cluster_distance`. */
  function ScanMax(t: Table, xs: seq<Name>, bs: seq<Name>, maxd: real): (r: real)
    ensures r >= maxd
    ensures forall a, b :: a in xs && b in bs && a != b ==> Link(t, a, b) <= r
    ensures r == maxd || exists a, b :: a in xs && b in bs && a != b && r == Link(t, a, b)
    decreases |xs|
  {
    if |xs| == 0 then maxd
    else ScanMax(t, xs[1..], bs, RowMax(t, xs[0], bs, maxd))
  }

  /** `cluster_distance`: the complete-link distance, the largest distance
      between a member of `c1` and a different member of `c2`, or 0 when
      there is no such pair. The members are visited in key order. */
  function CompleteLink(t: Table, c1: Cluster, c2: Cluster): (d: real)
    ensures d >= 0.0
    ensures forall a, b :: a in c1 && b in c2 && a != b ==> Link(t, a, b) <= d
    ensures d == 0.0 || exists a, b :: a in c1 && b in c2 && a != b && d == Link(t, a, b)
  {
    ScanMax(t, Key(c1), Key(c2), 0.0)
  }

  /** Complete link as a function on clusters, the way the merge loop uses it. */
  function Linkage(t: Table): (Cluster, Cluster) -> real {
    (c1: Cluster, c2: Cluster) => CompleteLink(t, c1, c2)
  }

  /** The laws of a cluster distance the merge loop relies on: symmetric,
      non-negative, and never smaller from a merged cluster than from either
      of its parts. */
  ghost predicate Symmetric(dist: (Cluster, Cluster) -> real) {
    forall c1, c2 :: dist(c1, c2) == dist(c2, c1)
  }

  ghost predicate NonNegative(dist: (Cluster, Cluster) -> real) {
    forall c1, c2 :: dist(c1, c2) >= 0.0
  }

  ghost predicate GrowsOnMerge(dist: (Cluster, Cluster) -> real) {
    forall a, b, c :: dist(a, c) <= dist(a + b, c)
  }

  /** With non-negative distances and at least one cross pair, the
      complete-link distance is the largest cross-pair distance itself. */
  lemma CompleteLinkAttained(t: Table, c1: Cluster, c2: Cluster)
    requires forall p :: p in t ==> t[p] >= 0.0
    requires exists a, b :: a in c1 && b in c2 && a != b
    ensures exists a, b :: a in c1 && b in c2 && a != b && CompleteLink(t, c1, c2) == Link(t, a, b)
  {
    var d := CompleteLink(t, c1, c2);
    if d == 0.0 {
      var a, b :| a in c1 && b in c2 && a != b;
      assert Link(t, a, b) <= d;
    }
  }

  /** Complete link is the least non-negative bound on the cross-pair
      distances. */
  lemma CompleteLinkLeast(t: Table, c1: Cluster, c2: Cluster, bound: real)
    requires bound >= 0.0
    requires forall a, b :: a in c1 && b in c2 && a != b ==> Link(t, a, b) <= bound
    ensures CompleteLink(t, c1, c2) <= bound
  {
  }

  lemma LinkSymmetric(t: Table, a: Name, b: Name)
    ensures Link(t, a, b) == Link(t, b, a)
  {
    assert {a, b} == {b, a};
  }

  /** The table is keyed by unordered pairs, so complete link is symmetric. */
  lemma CompleteLinkSymmetric(t: Table, c1: Cluster, c2: Cluster)
    ensures CompleteLink(t, c1, c2) == CompleteLink(t, c2, c1)
  {
    LinksBelow(t, c1, c2, CompleteLink(t, c2, c1));
    LinksBelow(t, c2, c1, CompleteLink(t, c1, c2));
    CompleteLinkLeast(t, c1, c2, CompleteLink(t, c2, c1));
    CompleteLinkLeast(t, c2, c1, CompleteLink(t, c1, c2));
  }

  lemma LinksBelow(t: Table, c1: Cluster, c2: Cluster, bound: real)
    requires forall b, a :: b in c2 && a in c1 && b != a ==> Link(t, b, a) <= bound
    ensures forall a, b :: a in c1 && b in c2 && a != b ==> Link(t, a, b) <= bound
  {
    forall a, b | a in c1 && b in c2 && a != b ensures Link(t, a, b) <= bound {
      LinkSymmetric(t, a, b);
    }
  }

  /** Complete link has the three laws. */
  lemma LinkageLaws(t: Table)
    ensures Symmetric(Linkage(t))
    ensures NonNegative(Linkage(t))
    ensures GrowsOnMerge(Linkage(t))
  {
    forall c1, c2 ensures Linkage(t)(c1, c2) == Linkage(t)(c2, c1) {
      CompleteLinkSymmetric(t, c1, c2);
    }
    forall a, b, c ensures Linkage(t)(a, c) <= Linkage(t)(a + b, c) {
      CompleteLinkMonotone(t, a, a + b, c);
    }
  }

  /** Growing the first cluster can only raise the complete-link distance. */
  lemma CompleteLinkMonotone(t: Table, c1: Cluster, c1': Cluster, c2: Cluster)
    requires c1 <= c1'
    ensures CompleteLink(t, c1, c2) <= CompleteLink(t, c1', c2)
  {
  }

  /** The complete-link distance from a merged cluster is the larger of the
      distances from its two parts (the Lance-Williams update for complete
      linkage). */
  lemma CompleteLinkOfUnion(t: Table, a: Cluster, b: Cluster, c: Cluster)
    ensures var da, db := CompleteLink(t, a, c), CompleteLink(t, b, c);
      CompleteLink(t, a + b, c) == if da >= db then da else db
  {
    CompleteLinkMonotone(t, a, a + b, c);
    CompleteLinkMonotone(t, b, a + b, c);
    var d := CompleteLink(t, a + b, c);
    if d != 0.0 {
      var x, y :| x in a + b && y in c && x != y && d == Link(t, x, y);
      if x in a {
        assert Link(t, x, y) <= CompleteLink(t, a, c);
      } else {
        assert Link(t, x, y) <= CompleteLink(t, b, c);
      }
    }
  }
}
