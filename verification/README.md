# Complete-link agglomerative clustering, in Dafny

This project models the clustering script `cluster.py`:

- it builds a table of pairwise point distances keyed by unordered name pairs;
- starting from one singleton cluster per point, it repeatedly merges the two
  clusters with the smallest complete-link distance;
- ties are broken by the smaller pair of cluster keys;
- after every merge the alive list is kept sorted by cluster key;
- it records each merge `(step, clusterA, clusterB, newCluster, distance)`;
- it then replays the history to print the covers, the alive clusters after
  each merge;
- finally it assigns dendrogram node positions: leaves at their index in the
  sorted names, and each merged node midway between its children at the
  merge height.

Modules, in dependency order:

- `Seqs`: no-repeat lists.
- `Order`: Python string and tuple order as one lexicographic order, with a
  proper prefix first.
- `ClusterKey`: clusters as sets of names and `cluster_key`.
- `Distance`: the distance table and `cluster_distance`.
- `Sorting`: `sorted` as a stable insertion sort under a strict total order.
- `Alive`: the list update shared by the loop and the cover replay.
- `Selection`: the double loop that picks a pair.
- `History`: merge records and their replay.
- `Clustering`: the merge loop.
- `Covers`: the cover replay.
- `Dendrogram`: node positions.

The selection, replay and merge-loop modules take two parameters:

- the cluster distance `dist`;
- the key order `less`.

`Clustering.Agglomerate` instantiates them with complete link over the
built table (`Distance.Linkage`) and the key order (`ClusterKey.ByKey`).
The merge loop needs only three laws of its distance:

- it is symmetric;
- it is non-negative;
- it never shrinks when one side grows by a merge.

`Distance.LinkageLaws` proves these for complete link.

The point coordinates and the Euclidean formula are a parameter
`euclid: (Name, Name) -> real`. Distances are exact reals.

`cluster.py` does not check the number of points: with zero or one name the
loop does not run and the history is empty. `Clustering.MergeLoop` states
exactly that.

## Model

| member | source | states |
|---|---|---|
| Order.NameOrder | cluster.py:103 | Python string comparison is a strict total order (irreflexive, transitive, total) |
| Order.NumberedNamesExample | cluster.py:103 | names sort lexicographically, so `"p10"` comes before `"p2"` |
| ClusterKey.Key | cluster.py:55-56 | the key of a cluster lists exactly its members, once each, in strictly ascending name order |
| ClusterKey.KeyIsSortedMembers | cluster.py:55-56 | any strictly ascending listing of a cluster's members is its key, so the key is the sorted tuple of the members |
| ClusterKey.ClusterOrder | cluster.py:55-56 | comparing clusters by key is a strict total order; different clusters never have equal keys |
| ClusterKey.ByKey | cluster.py:77 | the order `sorted(..., key=cluster_key)` uses is a strict total order |
| Distance.LinkLooksUp | cluster.py:32-46 | for names at positions `i < j`, the lookup of either `(names[i], names[j])` or `(names[j], names[i])` returns `euclid(names[i], names[j])`, the value stored on line 35 |
| Distance.BuildTable | cluster.py:32-35 | the table holds `euclid(names[i], names[j])` under the unordered pair `{names[i], names[j]}` for every `i < j`, and has no other keys |
| Distance.TableComplete | cluster.py:32-35 | every pair of different names has an entry, so the lookup on line 46 always finds one |
| Distance.RowMax | cluster.py:44-47 | the inner loop's result is at least the starting `maxd`, bounds the distance from `a` to every other member of the row, and is either the starting `maxd` or one of those distances |
| Distance.ScanMax | cluster.py:43-47 | the same for the outer loop, over every pair of a member of `xs` and a different member of `bs` |
| Distance.CompleteLink | cluster.py:41-48 | the result is at least 0, bounds every distance between a member of `c1` and a different member of `c2`, and is either 0 or one of those distances |
| Distance.CompleteLinkAttained | cluster.py:41-48 | with non-negative distances and at least one cross pair, the result is the largest cross-pair distance |
| Distance.CompleteLinkSymmetric | cluster.py:35 | the table is keyed by unordered pairs, so complete link does not depend on argument order |
| Distance.CompleteLinkOfUnion | cluster.py:41-48 | the distance from a merged cluster `a + b` is the larger of the distances from `a` and from `b` |
| Distance.LinkageLaws | cluster.py:41-48 | complete link is symmetric, non-negative, and never smaller from a merged cluster than from either part |
| Sorting.Sort | cluster.py:77 | `sorted` returns the same members as its input, and the same number of elements |
| Sorting.SortPermutes | cluster.py:77 | `sorted` returns a permutation of its input: every element occurs as often as before |
| Sorting.SortSorted | cluster.py:77 | the result of `sorted` is in order, and has no repeats if the input had none |
| Sorting.SortIdempotent | cluster.py:95 | sorting an already sorted list returns it unchanged |
| Alive.Singletons | cluster.py:38 | the starting list has one entry per name, and its clusters are exactly the singletons `{x}` of the names |
| Alive.SingletonsPartition | cluster.py:38 | with distinct names the starting list partitions the names |
| Alive.Remove | cluster.py:75 | the filtered list holds exactly the clusters other than `a` and `b` |
| Alive.RemoveDistinct | cluster.py:75 | filtering a list without repeats keeps it without repeats and drops one entry for each of `a` and `b` present |
| Alive.Apply | cluster.py:75-77 | after one update the list holds exactly the new cluster and the clusters other than the two merged |
| Alive.ApplyMerge | cluster.py:75-77 | merging two different alive clusters of a partition yields a strictly key-sorted partition of the same names, one cluster shorter, holding the union and every other cluster unchanged |
| Selection.PairLessIsTupleOrder | cluster.py:67 | under the key order, `PairLess` is Python's comparison of `(cluster_key(c1), cluster_key(c2))` with `(cluster_key(d1), cluster_key(d2))`: lexicographic over the two keys |
| Selection.SelectPair | cluster.py:60-70 | returns indices `i < j` that no pair of the list would replace, and the distance of that pair |
| Selection.ScanRow | cluster.py:63-69 | after scanning row `i`, no pair in rows `0..i` would replace the kept pair |
| Selection.Rebase | cluster.py:67-69 | when a pair replaces the best so far, every pair already scanned stays no better than the new best |
| Selection.ChosenStrictlyBest | cluster.py:67 | in a list without repeats, the chosen pair is strictly better than every other pair: strictly closer, or equally close with a smaller key pair |
| Selection.ChosenUnique | cluster.py:60-70 | at most one pair of a list without repeats is chosen |
| Selection.ChosenIsClosest | cluster.py:59-69 | for a symmetric distance, the chosen pair is at the minimum distance over all pairs of different alive clusters |
| History.Replay | cluster.py:75-77 | after replaying at least one record, that last record's union is alive |
| History.ReplayOrigin | cluster.py:71-77 | every cluster of a replayed list is a starting singleton or the union made by some record |
| History.ReplayPartition | cluster.py:58-78 | after each record of a well-formed history, the alive list partitions the names, has one cluster fewer per merge, and is strictly key-sorted after at least one merge |
| History.WellFormedAt | cluster.py:70-71 | each record of a well-formed history merges two different clusters alive just before it into their union |
| History.HistoryLength | cluster.py:58 | a well-formed history of `n > 0` names has at most `n - 1` records, and none when there are no names |
| History.SingleCluster | cluster.py:58 | a partition of a non-empty name set into at most one cluster is that one cluster |
| Clustering.GreedyWellFormed | cluster.py:70-71 | every record the loop's selection rule produces merges two different alive clusters into their union |
| Clustering.GreedyNumbered | cluster.py:72-73 | the records are numbered 1, 2, ... in order |
| Clustering.GreedyAt | cluster.py:58-73 | record `k` of the loop's history is step `k + 1` and is the pair the selection picks from the list after the first `k` records |
| Clustering.RecordInKeyOrder | cluster.py:62-77 | from the second merge on, each record has `cluster_key(cA) < cluster_key(cB)`; the first merge is excluded because the starting list is in `names` order |
| Clustering.GreedyUnique | cluster.py:58-78 | the loop is deterministic: two greedy histories of the same length over the same input are equal |
| Clustering.StepUnique | cluster.py:60-73 | one merge step is determined by the alive list |
| Clustering.FloorAfterMerge | cluster.py:58-78 | after a merge, no two alive clusters are closer than the pair just merged |
| Clustering.LoopStep | cluster.py:58-78 | one pass of the loop keeps the partition, the replay relation, the greedy rule and the height bounds |
| Clustering.MergeLoop | cluster.py:58-78 | the history is greedy, numbered and well-formed; the final list is its replay; `n > 0` names give exactly `n - 1` merges ending in the one cluster of all names; heights are non-negative and non-decreasing |
| Clustering.Agglomerate | cluster.py:29-78 | the same guarantees as `MergeLoop`, for complete link over the built table and the key order |
| Covers.Cover | cluster.py:88-95 | a cover lists the same clusters as the replayed alive list, and as many |
| Covers.ReplayCovers | cluster.py:87-95 | returns one cover before the first record and one after each, each the replayed alive list sorted by key |
| Covers.CoverIsPartition | cluster.py:87-95 | every cover is a strictly key-sorted partition with one cluster fewer per merge; after at least one merge it equals the merge loop's alive list |
| Covers.FirstAndLastCover | cluster.py:87-95 | the first cover is all singletons; after `n - 1` merges the cover is the single cluster of all names |
| Dendrogram.LeafOrder | cluster.py:103 | `sorted(names)` has the same members and length as `names` |
| Dendrogram.Leaves | cluster.py:104-109 | every leaf `{name}` gets a position, with x in `[0, n - 1]` and height 0 |
| Dendrogram.LeafAtIndex | cluster.py:104-109 | with distinct names, the leaf of the `i`-th sorted name sits at x = `i` |
| Dendrogram.LeafLayout | cluster.py:103-109 | the leaf order is the key of the set of all names, and each leaf sits at its index there |
| Dendrogram.NodePositions | cluster.py:106-118 | when no child lookup fails, the last record's cluster has a position at its merge height |
| Dendrogram.PositionsInvariant | cluster.py:106-118 | with a well-formed history and non-decreasing heights, no child lookup fails; every alive cluster has a position; every x stays in `[0, n - 1]`; no node is above the last merge height |
| Dendrogram.MergeNode | cluster.py:112-118 | when record `k` is processed, both children already have positions no higher than the merge height, and the merged node sits at the mean of their x positions at the merge height |

## Left out

- Point coordinates and `euclid` / `sqrt` (cluster.py:10-27) are the parameter `euclid`. The Euclidean formula is floating-point arithmetic.
- Selection.SelectPair: distances are compared exactly, without the source's 1e-9 tolerance. With the tolerance, two pairs whose distances differ by less than 1e-9 count as tied and are ordered by key; the model orders them by distance. With a tolerance the pick is no longer a strict argmin.
- Clustering.MergeLoop: records the exact distance as the merge height, where the source stores `round(best_dist, 4)`. Rounding is a float-formatting step; since it preserves order, the non-decreasing-heights property carries over.
- Dendrogram.NodePositions: x centres are exact reals, where the source halves floats (`(xa+xb)/2.0`). Halving a float gives the same value as long as the dyadic results fit in 53 bits: at most `n - 1` halvings of integers below `n`, which covers the twelve points of `cluster.py`.
- Distance.Link: a pair missing from the table reads as 0, where the source would raise `KeyError`. `Distance.TableComplete` shows that no lookup made by the loop reaches this case.
- Distance.CompleteLink visits members in key order, where the source iterates each frozenset in hash order. The maximum does not depend on the order.
- Printing and plotting (cluster.py:81-84, 97-99, 120-147) are console and matplotlib output. Converting frozensets to `set` for printing (cluster.py:88, 95) does not change their contents, so covers hold the clusters themselves.
- naive_bayes.py and decission_tree.py are not part of this model. They are pandas, numpy and graphviz scripts with no combinatorial core of their own.
