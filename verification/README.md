# Paired-data clustering and summary statistics — a Dafny model

The repository takes paired measurements (X, Y) and clusters the points. It
splits them by the direction of change, `Y - X >= 0` or `< 0`, and clusters
each side. Clustering uses either Ward hierarchical clustering with an elbow
rule for k, or a hand-written HDBSCAN: core distances, mutual reachability,
Prim's minimum spanning tree, a union-find condensed tree, and
excess-of-mass cluster extraction. The negative side's labels are then shifted
past the positive side's. A second stage groups the clustered rows, computes
means and quartiles per cluster, and computes the "trapezoid" point of each
group. The plotting scripts split the records into up, tie and down lists.
They use the Tukey fences (1.5 IQR) to decide whether outliers stretch an
axis by more than a third of its range.

The model is one Dafny module per part of that core:

| module | models |
|---|---|
| `ExtReal` | Python floats as used here: reals plus `inf` (for `1.0 / 0` and `np.inf`) and NaN; `max`, `<`, `>` as Python evaluates them |
| `Sorting` | Python's stable `sorted(key=..., reverse=...)` as a permutation of indices; order statistics |
| `Finite`, `Labels`, `Wrappers` | small shared notions: finite sets below a bound, contiguous labellings, `Option` |
| `Direction` | `split_by_direction` and the label-offset merge in `main` of preparation_1.py |
| `Elbow` | `find_optimal_k_elbow` and `hierarchical_clustering` |
| `Reachability` | `compute_core_distances`, `compute_mutual_reachability_distance` |
| `Prim` | `minimum_spanning_tree_prim` |
| `UnionFind` | the `UnionFind` class |
| `CondensedTree` | `build_condensed_tree` |
| `Extraction` | `extract_clusters_eom` |
| `Hdbscan` | `hdbscan_clustering` |
| `Quartiles` | `calculate_quartile_indices` / `calculate_quartiles` and sorted-position quantiles |
| `Entries`, `GroupStats` | `calculate_stats` and the grouping and trapezoid point of preparation_2.py's `main` |
| `Outliers` | `calculate_iqr` and `check_outliers_extent` |
| `UpTieDown` | the up/tie/down split of both plotting scripts and the counts of trapezoid_plot.py |

Mutable objects are modelled as values. The union-find is a `Forest` record
that each operation returns anew, with path compression included. The
condensed tree's dictionaries are sequences indexed by cluster id, because
ids are handed out consecutively. The recursive `select_clusters`, with its
shared `selected_clusters` set, is a pair of functions that thread the set
through the recursion.

## Model

| member | source | states |
|---|---|---|
| Direction.SplitByDirection | preparation_1.py:107-118 | the two index lists partition 0..n-1, each ascending; index i is on the positive side exactly when its y - x >= 0 |
| Direction.Scatter | preparation_1.py:518-519 | writing values at listed indices keeps the length of the label array |
| Direction.ScatterWrites | preparation_1.py:538-539 | every listed index receives its value plus the offset |
| Direction.ScatterKeeps | preparation_1.py:501-539 | indices that are not listed keep their earlier label |
| Direction.MergeLabels | preparation_1.py:501-541 | positive points keep their labels; each negative point gets its label plus the offset; every positive label is below every negative one |
| Direction.OffsetIsCount | preparation_1.py:521 | for contiguous labels 0..k-1, `max + 1` is the number of clusters k |
| Direction.MergedLabelsContiguous | preparation_1.py:501-541 | merging labellings with kPos and kNeg clusters gives one labelling whose labels are exactly 0..kPos+kNeg-1 |
| Direction.MergedBelow | preparation_1.py:521-539 | every merged label is below kPos + kNeg |
| Direction.MergedCovers | preparation_1.py:521-539 | every label below kPos + kNeg is used |
| Elbow.FirstArgMaxUnique | preparation_1.py:158 | the first position of the maximum is unique |
| Elbow.ArgMax | preparation_1.py:158 | `np.argmax`: the first position holding the largest value |
| Elbow.WssList | preparation_1.py:131-144 | one WSS value per k = 1..max_k, in order |
| Elbow.Angles | preparation_1.py:149-153 | one turn angle per inner point of the WSS curve |
| Elbow.FindOptimalK | preparation_1.py:121-158 | n <= 3 gives 1; fewer than 3 WSS values gives 2; otherwise k - 2 is the first position of the largest turn, so 2 <= k <= min(max_k, n) - 1 |
| Elbow.OptimalKIsElbow | preparation_1.py:146-158 | the converse: the k whose turn is the first largest one is the k returned |
| Elbow.HierarchicalClustering | preparation_1.py:161-174 | no points give ([], 0) and one point gives ([0], 1); otherwise k is the elbow `FindOptimalK`, there is one label per `fcluster` label at k, each label is that `fcluster` label minus one, and labels 1..k of `fcluster` become 0..k-1 |
| Reachability.CoreDistance | preparation_1.py:177-188 | the entry at position `min_samples` of the sorted row (the order statistic), or the row's largest entry when `min_samples` is past the end |
| Reachability.CoreDistances | preparation_1.py:177-188 | one core distance per row |
| Reachability.CoreDistanceBounds | preparation_1.py:177-188 | on a distance matrix, each core distance is non-negative and is a distance from that point |
| Reachability.Max3 | preparation_1.py:197 | the three-way `max`: an upper bound that is one of its arguments |
| Reachability.MutualReachability | preparation_1.py:191-199 | entry (i, j) is the largest of core[i], core[j] and d[i][j] |
| Reachability.MutualReachabilitySymmetric | preparation_1.py:191-199 | a symmetric input gives a symmetric matrix |
| Prim.TreeOrder | preparation_1.py:218-220 | the vertices in the order they join the tree: 0, then the target of each edge |
| Prim.SelectVertex | preparation_1.py:212-216 | an unvisited vertex with the smallest `min_dist`, the first one in index order on ties |
| Prim.Relax | preparation_1.py:223-226 | `min_dist[v]` and `parent[v]` change exactly for unvisited v whose edge from u is strictly lighter |
| Prim.PigeonholeMissing | preparation_1.py:210-212 | while fewer than n vertices are in the tree, an unvisited vertex exists, so `u` is never left at -1 |
| Prim.PigeonholeAll | preparation_1.py:210 | after n rounds every vertex is in the tree |
| Prim.ExtendTree | preparation_1.py:212-220 | the selected vertex's edge is a lightest edge leaving the tree built so far |
| Prim.RelaxFrontier | preparation_1.py:223-226 | after relaxing, each unvisited vertex's `min_dist` is its lightest edge from the tree |
| Prim.StepBookkeeping | preparation_1.py:212-218 | `in_tree` keeps marking exactly the vertices added, with no repeats |
| Prim.StepTree | preparation_1.py:212-220 | one round keeps the tree grown by lightest edges |
| Prim.StepFrontier | preparation_1.py:223-226 | one round keeps the frontier invariant |
| Prim.PrimStep | preparation_1.py:210-226 | one round of the loop preserves the loop invariant |
| Prim.MinimumSpanningTree | preparation_1.py:202-228 | n - 1 edges, each adding a new vertex through a lightest edge leaving the tree (the cut property of a minimum spanning tree) |
| Prim.PrimDone | preparation_1.py:210-228 | after n rounds the edges form the spanning tree |
| UnionFind.MaxRank | preparation_1.py:234 | a bound on every rank |
| UnionFind.Root | preparation_1.py:237-240 | the root reached by following parents; every step raises the rank |
| UnionFind.SetsJoinedFrom | preparation_1.py:237-252 | path compression before a join keeps the join |
| UnionFind.SetsJoinedCompress | preparation_1.py:237-252 | path compression after a join keeps the join |
| UnionFind.Init | preparation_1.py:232-235 | n singleton sets, each its own root with size 1 |
| UnionFind.InitCounted | preparation_1.py:232-235 | a forest of singletons of size 1 counts its sets |
| UnionFind.RedirectRoots | preparation_1.py:238-239 | re-pointing x at its root changes no element's root |
| UnionFind.RedirectAll | preparation_1.py:238-239 | the same for all elements at once |
| UnionFind.SameRootsSameClasses | preparation_1.py:237-240 | equal roots everywhere give equal sets, roots and size counts |
| UnionFind.Find | preparation_1.py:237-240 | returns x's root; the sets are unchanged and x now points at its root |
| UnionFind.LinkRoots | preparation_1.py:247-251 | after hanging root b under root a, b's members have root a and everyone else keeps their root |
| UnionFind.LinkRootsAll | preparation_1.py:247-251 | the same for all elements at once |
| UnionFind.LinkClasses | preparation_1.py:247-251 | a's set becomes the union of both sets, b stops being a root, and sizes still count their sets |
| UnionFind.LinkRootSet | preparation_1.py:248 | the roots lose exactly b |
| UnionFind.LinkUnion | preparation_1.py:248 | a's new set is the union of the two old ones |
| UnionFind.LinkSizes | preparation_1.py:249 | `size[px] += size[py]` keeps every root's size equal to its set's size |
| UnionFind.Merge | preparation_1.py:245-251 | the lower-ranked root goes under the other, so `py` survives exactly when its rank is higher and `px` survives a tie; every element of the two sets gets the survivor as root and the others keep theirs; the surviving root's set is the union and its size is the sum |
| UnionFind.Union | preparation_1.py:242-252 | reports True exactly when x and y were in different sets; afterwards they share a root, which is one of the two old roots |
| UnionFind.UnionSets | preparation_1.py:242-252 | the sets of x and y become one and every other set is unchanged |
| UnionFind.GetSize | preparation_1.py:254-255 | the number of elements in x's set |
| UnionFind.UnionRootCount | preparation_1.py:242-252 | a successful union removes exactly one root and a failed one removes none |
| CondensedTree.Entries | preparation_1.py:279-290 | two entries per merge, both with the new cluster as parent and the merge's lambda |
| CondensedTree.StartInv | preparation_1.py:262-268 | the initial state satisfies the loop invariant |
| CondensedTree.Start | preparation_1.py:262-268 | n singleton clusters, each standing for its own root |
| CondensedTree.CompressKeepsInv | preparation_1.py:271 | path compression keeps the invariant |
| CondensedTree.SizesOf | preparation_1.py:274-275 | the two `get_size` calls give the sizes of both sets |
| CondensedTree.UniteFind | preparation_1.py:297-299 | `union` then `find` joins the two sets and leaves one set fewer |
| CondensedTree.JoinForest | preparation_1.py:274-299 | the merging branch on the union-find |
| CondensedTree.JoinForestSets | preparation_1.py:274-299 | the merged set is the union of the two sets, and one set fewer remains |
| CondensedTree.AfterJoin | preparation_1.py:279-300 | the next cluster id stands for the joined root |
| CondensedTree.AfterJoinIs | preparation_1.py:279-300 | the state after a merge, field by field |
| CondensedTree.JoinKeepsInv | preparation_1.py:273-300 | the merging branch keeps the invariant |
| CondensedTree.JoinRecords | preparation_1.py:279-296 | a merge appends its record and its birth `1 / dist` (inf for dist 0) |
| CondensedTree.Join | preparation_1.py:273-300 | the merging branch: invariant kept, sets joined, the merge recorded, the new id labelling the joined root and every other label unchanged |
| CondensedTree.CompressSameMerge | preparation_1.py:271 | path compression does not change the merge an edge records |
| CondensedTree.Absorb | preparation_1.py:270-300 | one loop iteration: nothing but compression when the ends already share a set; otherwise one merge recorded at `1 / dist`, one more id, and the joined root relabelled with it while every other label stays |
| CondensedTree.AbsorbJoins | preparation_1.py:270-300 | afterwards both ends of the edge are in one set |
| CondensedTree.StructureAppend | preparation_1.py:279-296 | a merge of two existing ids keeps the tree's shape |
| CondensedTree.RootLabelsAfterMerge | preparation_1.py:294-300 | each root's cluster id still has the size of the root's set |
| CondensedTree.AbsorbStructure | preparation_1.py:279-296 | a merge keeps the tree's shape |
| CondensedTree.AbsorbMerge | preparation_1.py:273-300 | a merge keeps the invariant |
| CondensedTree.Weights | preparation_1.py:259 | the sort key, one weight per edge |
| CondensedTree.SortByWeight | preparation_1.py:259 | a permutation of the edges in ascending weight, produced by a stable index sort |
| CondensedTree.PrimTreeSpanning | preparation_1.py:202-228 | the MST's edges form a spanning tree of the n points |
| CondensedTree.SpanningJoined | preparation_1.py:270-300 | once every tree edge has been absorbed, a single set remains |
| CondensedTree.Covered | preparation_1.py:270-300 | a list covering all points with one root means every point has that root |
| CondensedTree.ReachedFromZero | preparation_1.py:270-300 | the first k + 1 tree vertices share vertex 0's root |
| CondensedTree.StepBirths | preparation_1.py:259-296 | births never increase from one cluster to the next, since edges arrive in ascending weight |
| CondensedTree.StepJoins | preparation_1.py:270-300 | each processed edge has both ends in one set |
| CondensedTree.StepTop | preparation_1.py:294-300 | the latest cluster id stands for a current root |
| CondensedTree.BuildCondensedTree | preparation_1.py:258-304 | the result is `Absorb` folded over the edges sorted by weight; it is a well-formed tree (ids from n up, each merging two older ids, sizes add up, births non-increasing) with at most n - 1 merges; no cluster is absorbed twice; each merge is made by one sorted edge, in edge order, at one over that edge's weight, with the edge's two ends below the two clusters it absorbs; on a spanning tree there are exactly n - 1 merges, merge k is made by the k-th sorted edge, and the last cluster holds all n points |
| CondensedTree.Finish | preparation_1.py:302-304 | after the last edge: a well-formed tree, at most n - 1 merges, every cluster absorbed once, and every merge made by its recorded sorted edge |
| CondensedTree.FinishSpanning | preparation_1.py:270-304 | on a spanning tree, after the last edge all points share one set and the n - 1 merges are made by the sorted edges in order, one each |
| CondensedTree.Traversed | preparation_1.py:270-300 | folding `Absorb` over all sorted edges from the one-point start leaves the loop invariant (forest, birth order, merge tracing) holding at the end |
| CondensedTree.Under | preparation_1.py:279-293 | the points below a cluster id: a point alone, or the points of the two clusters the merge absorbed |
| CondensedTree.UnderPrefix | preparation_1.py:282-293 | a later merge leaves the points below an earlier cluster unchanged |
| CondensedTree.UnderNew | preparation_1.py:279-293 | the new cluster holds the points of the two clusters it absorbs |
| CondensedTree.StartTraced | preparation_1.py:261-268 | before the first edge each point's cluster is itself, nothing is absorbed and no edge has merged |
| CondensedTree.JoinedClasses | preparation_1.py:298-300 | after the union the surviving root's set is the union of the two sets, and every other root keeps its set |
| CondensedTree.SameRootsAfter | preparation_1.py:271-273 | an edge whose ends share a root changes no root |
| CondensedTree.TraceSame | preparation_1.py:270-273 | an edge that merges nothing keeps the record of which edges merged |
| CondensedTree.TraceMergeRoots | preparation_1.py:282-300 | after a merge each root's cluster still holds exactly the root's set, and no root's cluster has been absorbed |
| CondensedTree.TraceMergeOnce | preparation_1.py:282-293 | a merge of two different open clusters keeps every cluster absorbed at most once |
| CondensedTree.TraceMergeBy | preparation_1.py:277-293 | a merge by the i-th edge at one over its weight, with its ends below the absorbed clusters, extends the record by i |
| CondensedTree.TraceMerge | preparation_1.py:273-300 | a merging edge keeps the record and adds its position |
| CondensedTree.LoopStart | preparation_1.py:261-268 | the loop invariant holds before the first edge |
| CondensedTree.LoopStep | preparation_1.py:270-300 | absorbing the next sorted edge keeps the loop invariant |
| CondensedTree.StepOrdered | preparation_1.py:270-300 | absorbing the next sorted edge keeps the births falling, the processed edges joined and the last id labelled |
| CondensedTree.StepTraced | preparation_1.py:270-300 | absorbing the next sorted edge keeps the record of which edges merged and what each cluster holds |
| CondensedTree.Fold | preparation_1.py:270-300 | absorbing a list of edges one by one keeps the invariant |
| CondensedTree.EndsBelowTail | preparation_1.py:269-270 | an edge list whose ends are all points has a first edge with point ends and a rest with the same property |
| CondensedTree.EndsBelowMembers | preparation_1.py:259-269 | sorting keeps every edge end a point, since each sorted edge is one of the input edges |
| CondensedTree.AbsorbAll | preparation_1.py:270-300 | the loop computes `Absorb` folded over the sorted edges |
| CondensedTree.FoldLoop | preparation_1.py:270-300 | the loop invariant survives absorbing all remaining edges |
| CondensedTree.RisingFull | preparation_1.py:270-300 | n - 1 strictly rising edge positions below n - 1 are exactly 0 .. n-2, so on a spanning tree every edge merges |
| CondensedTree.SingleClass | preparation_1.py:270-300 | one root for all n points means one set of n points |
| CondensedTree.OneSet | preparation_1.py:294-304 | with a single set, the last cluster holds all n points |
| Extraction.ChildrenOf | preparation_1.py:315-325 | `cluster_children.get(id, [])` built in entry order |
| Extraction.ChildrenOfEntries | preparation_1.py:315-325 | the children of merge k's id are the two clusters it absorbed, and any other id has none |
| Extraction.Children | preparation_1.py:345 | children have smaller ids than their parent (termination of the recursion) |
| Extraction.LambdaMax | preparation_1.py:327-330 | absent exactly when the id is never a child; otherwise one of the lambdas at which it is a child |
| Extraction.LambdaMaxBound | preparation_1.py:327-330 | a bound on every such lambda bounds their maximum |
| Extraction.DeathBeforeBirth | preparation_1.py:333-340 | a cluster's death lambda is at most its birth lambda |
| Extraction.SpanSign | preparation_1.py:340 | with death <= birth, (death - birth) * size is never positive and (birth - death) * size never negative |
| Extraction.AsWrittenNotPositive | preparation_1.py:332-340 | as written, no stability is positive |
| Extraction.CorrectedNotNegative | preparation_1.py:332-340 | corrected, no stability is negative |
| Extraction.SelectLarge | preparation_1.py:344-360 | only clusters (not points) with at least `min_cluster_size` points are ever selected |
| Extraction.SelectSumLarge | preparation_1.py:350 | the same over the children's sum |
| Extraction.AsWrittenSelectsNothing | preparation_1.py:344-360 | as written, every call returns 0 and leaves the selection unchanged |
| Extraction.AsWrittenSumZero | preparation_1.py:350 | as written, the children's sum is 0 and the selection is unchanged |
| Extraction.PointsIn | preparation_1.py:370-378 | the points below a cluster, all below n; a point's set is itself |
| Extraction.PointsInAll | preparation_1.py:375-377 | the union over a list of children, all below n |
| Extraction.Assign | preparation_1.py:368-384 | a point stays -1 exactly when no listed cluster so far contains it; otherwise it gets the index of the first one |
| Extraction.Unlabelled | preparation_1.py:386 | -1 becomes 0 and every other label is kept |
| Extraction.RootIsMax | preparation_1.py:311-362 | `max(all_clusters)` is the id of the last merge |
| Extraction.Selected | preparation_1.py:342-363 | the selection after processing the root: only large clusters |
| Extraction.Extract | preparation_1.py:307-388 | n labels; all zero when nothing is selected; otherwise each point gets the position, in ascending id order, of the first selected cluster containing it, or 0 if none does |
| Extraction.AssignFirst | preparation_1.py:380-386 | the assignment loop labels each point with its first containing cluster |
| Extraction.CardAscending | preparation_1.py:380 | `sorted(selected_clusters)` lists each selected id once |
| Extraction.AsWrittenAllZero | preparation_1.py:332-388 | as written, nothing is ever selected and every point gets 0, for every tree |
| Extraction.AsWrittenSelectsNone | preparation_1.py:342-363 | as written, the selection stays empty |
| Extraction.TwoPairs | preparation_1.py:258-304 | the four-point tree of two tight pairs exists and is well formed |
| Extraction.TwoPairsDeaths | preparation_1.py:327-338 | both pairs die at lambda 0.1, and so does the root, where it is born |
| Extraction.TwoPairsStability | preparation_1.py:332-340 | corrected stabilities are 1.8, 1.8 and 0 |
| Extraction.TwoPairsChildren | preparation_1.py:315-325 | the children in the two-pair tree |
| Extraction.PairSelected | preparation_1.py:344-358 | a large pair with positive stability replaces its two points in the selection |
| Extraction.TwoPairsSelectLeft | preparation_1.py:344-358 | the first pair is selected |
| Extraction.TwoPairsSelectRight | preparation_1.py:344-358 | the second pair is selected |
| Extraction.TwoPairsSelected | preparation_1.py:344-363 | the selection is {4, 5}, because the root's zero span does not beat the pairs |
| Extraction.TwoPairsPoints | preparation_1.py:370-378 | the points of each pair |
| Extraction.TwoPairsOrder | preparation_1.py:380 | the sorted selection is [4, 5] |
| Extraction.CorrectedTwoPairs | preparation_1.py:307-388 | corrected, the labels are [0, 0, 1, 1] |
| Extraction.TwoPairsLabels | preparation_1.py:380-386 | first-containing labelling with the clusters {0, 1} and {2, 3} gives [0, 0, 1, 1] |
| Extraction.AsWrittenTwoPairs | preparation_1.py:307-388 | as written, the labels are [0, 0, 0, 0] |
| Hdbscan.ClampMinClusterSize | preparation_1.py:403 | the request clamped into 2..max(2, n // 2) |
| Hdbscan.ClampMinSamples | preparation_1.py:400-404 | defaults to the requested `min_cluster_size`, clamped into 1..max(1, n - 1) |
| Hdbscan.ClampIdempotent | preparation_1.py:403-404 | clamping a clamped value changes nothing |
| Hdbscan.Unique | preparation_1.py:422 | `np.unique`: strictly ascending, with the same members as the labels |
| Hdbscan.IndexOf | preparation_1.py:428-429 | the position of a label among the unique labels |
| Hdbscan.IncreasingPositions | preparation_1.py:428 | in a strictly ascending list, positions compare as the entries do |
| Hdbscan.Relabel | preparation_1.py:422-429 | one new label per point; `n_found` is the number of distinct labels, or 1 for no labels |
| Hdbscan.UniqueCard | preparation_1.py:422-423 | `n_found` is the number of distinct labels |
| Hdbscan.RelabelMonotone | preparation_1.py:422-429 | the renumbering preserves order and equality in both directions and uses exactly 0..n_found-1 |
| Hdbscan.RelabelAllZero | preparation_1.py:422-429 | all-zero labels stay all zero with one cluster |
| Hdbscan.HdbscanClustering | preparation_1.py:391-431 | n labels; n = 0 gives 0 clusters and n = 1 or 2 give one cluster of zeros; otherwise the labels are exactly 0..k-1 with k >= 1 and equal the renumbered excess-of-mass extraction (with the clamped min_cluster_size) of the condensed tree built from a Prim tree of the mutual-reachability matrix at the clamped min_samples; with the formula as written, every label is 0 |
| Labels.Max | preparation_1.py:521 | `max()` of a non-empty labelling: a member that bounds every label |
| Labels.Zeros | preparation_1.py:309 | `np.zeros(n)`: n labels, all 0 |
| Labels.ContiguousMax | preparation_1.py:521 | labels that are exactly 0..k-1 have maximum k - 1 |
| Quartiles.QuartileIndices | preparation_2.py:11-19 | None exactly when n = 0; otherwise the floors of n/4, n/2 and 3n/4, ordered and in range (`calculate_quartiles` at para_and_nonPara_plot.py:59-67 and trapezoid_plot.py:25-33 is the same rule) |
| Quartiles.Quantile | preparation_2.py:26-34 | the entry at position k of the ascending sort, characterised as an order statistic |
| Quartiles.QuantilePermutation | preparation_2.py:26-34 | the quantile depends only on the multiset of values |
| Quartiles.QuantileMonotone | preparation_2.py:32-34 | q at a lower position is no larger |
| Quartiles.MonotoneIsOrderStatistic | preparation_2.py:81-90 | position k of a sorted permutation is the k-th order statistic |
| Quartiles.CountComplement | preparation_2.py:81-90 | each value is either ahead or not; the counts add up to n |
| Quartiles.DescendingIsAscending | preparation_2.py:81-90 | position k in descending order is position n-1-k in ascending order |
| Entries.MakeEntry | preparation_2.py:63-66 | a record `[x, y, y - x]` |
| Entries.Xs | preparation_2.py:72 | the x column |
| Entries.Ys | preparation_2.py:73 | the y column |
| Entries.Diffs | preparation_2.py:74 | the diff column |
| Entries.SortByXDescending | preparation_2.py:81 | a permutation of the records with x non-increasing, namely the records read through the stable descending index sort of the x values |
| Entries.SortByDiffDescending | preparation_2.py:83 | a permutation of the records with diff non-increasing, namely the records read through the stable descending index sort of the differences |
| Entries.SortedMonotone | preparation_2.py:81-83 | a descending stable sort yields non-increasing keys |
| GroupStats.SumAppend | preparation_2.py:28 | `sum` over a concatenation is the sum of the sums |
| GroupStats.SumPermutation | preparation_2.py:26-28 | summing the sorted values gives the same total as the original order |
| GroupStats.MeanPermutation | preparation_2.py:26-28 | the mean does not depend on order |
| GroupStats.CalculateStats | preparation_2.py:21-36 | n values; all zeros for no values; otherwise the mean, and q1, q2, q3 as the order statistics at n/4, n/2 and 3n/4, with q1 <= q2 <= q3 |
| GroupStats.Members | preparation_2.py:58-66 | a cluster's records are empty exactly when no row has that cluster |
| GroupStats.Group | preparation_2.py:58-66 | the keys are the clusters that occur, and each group holds that cluster's records in row order |
| GroupStats.SizeSumSnoc | preparation_2.py:59-66 | appending a row adds one record to each listed occurrence of its cluster |
| GroupStats.OccurrencesOnce | preparation_2.py:58-66 | a listed key occurs once in a list without repeats |
| GroupStats.OccurrencesNone | preparation_2.py:58-66 | an unlisted key occurs nowhere |
| GroupStats.GroupSizesSum | preparation_2.py:58-66 | the group sizes add up to the number of rows |
| GroupStats.SizeSumEmpty | preparation_2.py:58 | no rows give empty groups |
| GroupStats.Summarize | preparation_2.py:68-129 | x, y and diff stats per group; q2_start is the entry at m // 2 of x in descending order; the trapezoid diffs are the descending quartiles of diff; the mean and median points are both (q2_start, q2_start + q2_diff) |
| GroupStats.TrapezoidStart | preparation_2.py:81-92 | q2_start is the ascending quantile at m - 1 - m // 2, which equals the x median when m is odd |
| GroupStats.MiddleAgrees | preparation_2.py:78-88 | for an odd group size, the middle value read from the largest end equals the median `x_q2` |
| GroupStats.MiddleFromEitherEnd | preparation_2.py:81-88 | descending position m // 2 is ascending position m - 1 - m // 2, and for odd m it is the median |
| GroupStats.GroupStatistics | preparation_2.py:58-129 | one summary per cluster that occurs, over exactly its records, with n > 0 |
| Outliers.Iqr | para_and_nonPara_plot.py:114-128 | 0 for no data; otherwise the quantile at 3n/4 minus the quantile at n/4, never negative |
| Outliers.IqrPermutation | para_and_nonPara_plot.py:114-128 | the IQR depends only on the multiset of values |
| Outliers.TukeyFences | para_and_nonPara_plot.py:82-90 | lower <= Q1 <= Q3 <= upper, and the fences lie 4 IQR apart |
| Outliers.Select | para_and_nonPara_plot.py:92-102 | the values (not) strictly outside the fences, by membership |
| Outliers.MinOf | para_and_nonPara_plot.py:97-103 | `min`: a member no larger than any value |
| Outliers.MaxOf | para_and_nonPara_plot.py:97-104 | `max`: a member no smaller than any value |
| Outliers.SameExtremes | para_and_nonPara_plot.py:79-97 | lists with the same members have the same min and max |
| Outliers.InsideNonEmpty | para_and_nonPara_plot.py:102-104 | Q1 always lies within the fences, so the fallback to the whole data is never taken |
| Outliers.Extent | para_and_nonPara_plot.py:106-110 | the outlier extent lies between 0 and the data range |
| Outliers.Sides | para_and_nonPara_plot.py:106-110 | the lowest outlier is below the lowest inlier exactly when the data dips below the lower fence, and likewise above |
| Outliers.InsideAgrees | para_and_nonPara_plot.py:79-104 | sorting does not change the inliers' min and max |
| Outliers.OutliersReach | para_and_nonPara_plot.py:92-100 | the outliers' extremes are data values outside the fences and reach the data extremes on an offending side |
| Outliers.InsideBounds | para_and_nonPara_plot.py:102-104 | the inliers are non-empty and lie between the fences and within the data |
| Outliers.OutlierExtentIsExtent | para_and_nonPara_plot.py:92-110 | the extent `check_outliers_extent` computes equals the reference `Extent` |
| Outliers.CheckOutliersExtent | para_and_nonPara_plot.py:69-112 | True exactly when there are more than 4 values, some value lies outside the fences, and the outlier extent exceeds a third of the range (trapezoid_plot.py:36-79 is the same function) |
| Outliers.OutlierFound | para_and_nonPara_plot.py:92-95 | the outlier list is non-empty exactly when some value lies outside the fences |
| UpTieDown.SignOf | para_and_nonPara_plot.py:47-52 | up exactly when diff > 0, tie exactly when diff = 0, down exactly when diff < 0 |
| UpTieDown.CountSign | trapezoid_plot.py:469-471 | the count of one sign is at most the number of diffs |
| UpTieDown.CountsSum | trapezoid_plot.py:467-471 | positive + negative + tie = total |
| UpTieDown.Keep | para_and_nonPara_plot.py:46-52 | the records of one sign in order; as many as that sign's count |
| UpTieDown.KeepSubset | para_and_nonPara_plot.py:46-52 | every kept record comes from the input |
| UpTieDown.KeepPartition | para_and_nonPara_plot.py:46-52 | the three lists together are a permutation of the records |
| UpTieDown.KeepStep | trapezoid_plot.py:486-496 | one more record goes to exactly the list of its sign |
| UpTieDown.KeepMonotone | para_and_nonPara_plot.py:46-52 | filtering a descending list keeps it descending |
| UpTieDown.SplitEntries | trapezoid_plot.py:482-496 | the loop's three lists are the three sign filters |
| UpTieDown.WithSortedCopies | para_and_nonPara_plot.py:54-55 | the sorted copies are permutations of up and down with x non-increasing |
| UpTieDown.SplitWell | para_and_nonPara_plot.py:42-57 | splitting any rearrangement of the records partitions them by sign |
| UpTieDown.ParaSplit | para_and_nonPara_plot.py:42-57 | records sorted by diff (descending) then split: a partition by sign, the up and down lists in descending diff, with sorted copies by x |
| UpTieDown.TrapezoidSplit | trapezoid_plot.py:467-503 | counts add up to the total and equal the list sizes; each list holds its sign's rows in row order; the sorted copies are by x descending |
| UpTieDown.Records | trapezoid_plot.py:486-489 | one `[X, Y, Y - X]` record per row |
| Sorting.SortIndices | preparation_2.py:26 | a stable sort: a permutation of the positions, in key order, with ties kept in input order |
| Sorting.SortValues | preparation_2.py:26 | `sorted(values)`: a permutation of the values in order |
| Sorting.SortedIsOrderStatistic | preparation_2.py:32-34 | position k of the sorted values is the k-th order statistic |
| Sorting.OrderStatisticUnique | preparation_2.py:32-34 | the k-th order statistic is unique |
| Sorting.AscendingUpTo | preparation_1.py:380 | `sorted(set)` of a set of ids below a bound |
| ExtReal.Recip | preparation_1.py:277 | `1.0 / dist if dist > 0 else np.inf` |
| ExtReal.RecipAntitone | preparation_1.py:259-277 | larger distances give no larger lambdas |

## Left out

- Reading and parsing input files, writing output files, printing, plotting and argument parsing are not modelled. This covers `load_data`, `detect_delimiter`, the plot functions and the JSON/HTML export.
- The optional log2 transform is not modelled; it is a pure per-value map applied before everything modelled here.
- `scipy` functions are foreign code. `linkage` and `fcluster` appear as the parameters `wssAt` (the WSS for k clusters) and `cut` (the flat cut into k clusters) of `Elbow`. `np.arctan2(y, 1)` is the parameter `atan`. `pdist`/`squareform` are replaced by the distance matrix, which is the input of `Hdbscan.HdbscanClustering`.
- Floats are modelled as reals. Rounding is not modelled, and neither is the float evaluation of `int(n * 3 / 4)`, which agrees with `3 * n // 4` whenever 3n is below 2^53. NaN is modelled only where it arises inside the HDBSCAN lambdas (`inf - inf`).
- Elbow.FindOptimalK: the `if not angles: return 2` branch cannot be reached, because three or more WSS values give at least one angle. The `min(2, n)` branch returns 2 because n > 3 there.
- Hdbscan.HdbscanClustering: the `n_found == 0` branch cannot be reached, because extraction labels every point with a non-negative label. `labels[labels >= 0]` therefore keeps every label.
- Outliers.CheckOutliersExtent: the branch that flattens a list of lists is left out; every caller passes a flat list of numbers.
- UpTieDown.TrapezoidSplit: the percentages `100 * count / total_pairs` are printed only, and they divide by zero on an empty input. Differences that are NaN are not modelled: Python counts them in none of the three counts but puts them in the down list.
- Reachability.CoreDistance: a distance matrix given as a row list stands for numpy's 2-D array. `len(sorted_distances)` is the row length, and `IsSquare` states what `shape[0]` assumes.
- Prim.MinimumSpanningTree requires n >= 1, because `minimum_spanning_tree_prim` indexes `min_dist[0]` and fails on an empty matrix. Its callers only use n >= 3.
- Extraction.Extract and CondensedTree.BuildCondensedTree never produce a -1 label or an absent dictionary key. `cluster_sizes.get(c, 0)` and `cluster_birth.get(c, 0)` are total on the ids that occur, so those defaults are not modelled.
- The Python recursion-depth limit on `select_clusters`, `get_points_in_cluster` and `find` is not modelled.
- preparation_2.py's `q1_start` and `q3_start` are computed but never stored, so they are left out.
- `build_condensed_tree` never reads its `min_cluster_size` argument, and `extract_clusters_eom` never reads `n_clusters`, so neither takes part in the model. `n_clusters` is the number of merges.
- Only the label merge of preparation_1.py's `main` is modelled; the method switch chooses between the two modelled clusterings.

## Findings

| source | as written | input that shows it | evidently intended | confidence | as-written member | corrected member |
|---|---|---|---|---|---|---|
| preparation_1.py:337-340 | `cluster_stability = (death - birth) * size`, where `death` is the largest lambda at which the cluster is absorbed. Merges happen in ascending distance, so death <= birth and the stability is never positive. `select_clusters` then never prefers a cluster, nothing is selected, and every point gets label 0 for every input with n >= 3 | `extract_clusters_eom` with `min_cluster_size` 2 on the condensed tree over four points in which {0, 1} and {2, 3} merge at lambda 1 into clusters 4 and 5, which merge at lambda 0.1 into the root 6: the labels are [0, 0, 0, 0]. This is the tree `build_condensed_tree` makes for two pairs at distance 1 lying 10 apart when `min_samples` is 1, so that mutual reachability equals distance | `(birth - death) * size`, the lambda span the cluster persists for (lambda = 1/distance grows as clusters form, so a cluster lives from the smaller absorption lambda up to its birth lambda). With it, `extract_clusters_eom` on the same tree gives [0, 0, 1, 1]. With the default `min_samples` the core distances flatten that tree, and the labels can be all 0 even with the corrected formula | not executed | Extraction.AsWrittenAllZero, Extraction.AsWrittenTwoPairs | Extraction.CorrectedNotNegative, Extraction.CorrectedTwoPairs |

`Hdbscan.HdbscanClustering` takes the formula as a parameter, so both
readings of the pipeline are available. Its contract states the as-written
outcome: all labels are 0.
