# libnabo core in Dafny

libnabo answers k-nearest-neighbour queries over a point cloud: a matrix
whose columns are points. A query offers candidate columns to a bounded
result heap of `k` (index, squared distance) slots seeded with
(0, +infinity). An offer replaces the heap's head when its distance is
strictly smaller and the column is eligible. A column is eligible when
self-matches are allowed or its distance is above machine epsilon.

This project models the library's core and proves what its parts promise:

- **Result heaps.** `IndexHeap`, a std max-heap, and
  `IndexHeapBruteForceVector`, a sorted vector with the head in the last
  slot.
- **KD-tree builders.** All three use the implicit array layout with
  children at `2p+1` and `2p+2`:
  - points in nodes, with a median split on the axis of largest variance;
  - points in leaves, with the column index encoded as `dim = -2 - index`;
  - points in leaves, cut on the widest side of the current box with
    `nth_element`. This is the CPU side of the OpenCL tree.
- **Searches.**
  - The stack `recurseKnn` of both tree layouts. It descends the near side
    first and keeps the slab distance `rd` incrementally. It visits the far
    side only when `rd * maxError` is below the head.
  - The best-first priority-queue search over the points-in-nodes tree.
- **Brute force.** The brute-force scan in its current form and in the
  older root form. It is the reference every tree search is proved
  against.
- **Facade.** The base constructor with its bounding-box seeds, the batch
  query `knnM`, and the `create` factory.
- **Prototype.** The standalone file `knn.cpp`, with its own builder, a
  best-first `nn` and the brute-force `bfnn`.

The headline results:

- For every cloud and query with `epsilon <= 0`, every tree search returns
  the same bag of squared distances as brute force.
  - Under `SORT_RESULTS`, they agree rank by rank.
  - When the query's distances to the columns are pairwise distinct, they
    return identical (index, distance) entries. This is the sorted form of
    the comparison the validation tests make. For the two points-in-nodes
    trees it holds with the corrected node-to-column translation (see
    Findings). As written, when k exceeds the number of eligible columns,
    an unused slot reports the root's column where brute force reports 0.
- For `epsilon > 0`, the OpenCL tree's reply is within a factor `1 + epsilon`
  of the true k nearest. No left-out eligible distance, scaled by
  `1 + epsilon`, is below a kept one.
- The key lemma: `rd` is the squared norm of the offset vector `off`, and it
  is a lower bound on the squared distance to every point of a subtree that
  lies beyond all the cuts recorded in `off`.
- The prototype's comparator is not inverted, so its queue pops the largest
  bound first. The `break` on a popped bound above `bestDist` still never
  fires: the queue holds at most one element with a positive bound, and that
  bound was below `bestDist` when it was pushed. So `nn` returns a column
  at the same squared distance as `bfnn` whenever some column lies below
  the seed `numeric_limits<float>::max()`. It is the same point when the
  nearest point is unique; on a tie the two can differ (see Findings).

Scalars are `real`. Squared distances in heap slots are `Scalar.Dist`,
either a real or +infinity. Machine epsilon, the self-match threshold, is
a constant whose value is left open between 0 and the `float` epsilon
2^-23, so every result holds for the `double` epsilon 2^-52 as well.
The std algorithms (`sort`, `nth_element`, `make_heap`, `pop_heap`,
`push_heap`, `sort_heap`) are given by their contracts: a
permutation with the promised order. Functions built on them are ghost.
The linear heap's `replaceHead` is an imperative method with a loop
invariant.

Two properties of the code are stated against the source as written, which
differs from the evidently intended behaviour (see Findings):

- the bounds seed. The OpenCL tree is built in the box folded from that
  seed, so where a cloud has a non-positive coordinate maximum its cuts
  follow the as-written box;
- how the points-in-nodes searches translate node indexes back to column
  indexes. `NodesKnn.Knn` and `NodesPq.Knn` reply with the corrected
  translation. The code's own translation is stated only by
  `NodesKnn.KnnAsWritten`, `NodesPq.KnnAsWritten` and
  `CloudIndexes.AsWrittenVersusCorrected`.

## Model

| member | source | states |
|---|---|---|
| Scalar.LeTotalOrder | nabo/index_heap.h:25 | Entries compare by value only, and on values (reals and +infinity) `<=` is a total order whose strict part is `<`. |
| HeapEntries.Seeds | nabo/index_heap.h:33-38 | A fresh heap of size k holds exactly k slots, each the seed (index 0, +infinity). |
| HeapEntries.GetIndexes | nabo/index_heap.h:61-67 | The returned index vector has one element per slot, slot i's index at position i, in storage order. |
| HeapEntries.InsertionPoint | nabo/index_heap.h:110-116 | In a sorted run the shift loop stops after every entry whose value is at most the new value and before every strictly greater one. |
| HeapEntries.Insert | nabo/index_heap.h:107-119 | Inserting after the equal values keeps the run sorted, makes it one longer, and adds exactly the new entry to its multiset. |
| HeapEntries.SortedValuesUnique | nabo/index_heap.h:56-59 | Two sorted runs with the same bag of values have the same value at every rank, so a sort determines the values rank by rank. |
| IndexHeap.HeadIsMax | nabo/index_heap.h:46 | In a max-heap under `Entry::operator<` the front slot's value is a maximum of the heap's values. |
| IndexHeap.MakeHeap | nabo/index_heap.h:37 | `make_heap` yields a rearrangement of the same entries with the max-heap property. |
| IndexHeap.PopHeap | nabo/index_heap.h:50 | `pop_heap` moves the front entry to the last slot, leaves a heap on the rest, and keeps the multiset. |
| IndexHeap.PushHeap | nabo/index_heap.h:53 | `push_heap` re-establishes the heap property over the whole range and keeps the multiset. |
| IndexHeap.Create | nabo/index_heap.h:33-38 | The constructor gives k entries, all (0, +infinity), forming a heap; its head value is +infinity. |
| IndexHeap.Reset | nabo/index_heap.h:40-44 | `reset` restores every entry to (0, +infinity), keeps the size and re-heapifies. |
| IndexHeap.Head | nabo/index_heap.h:46 | `head()` is an entry of the heap whose value is at least every stored value. |
| IndexHeap.ReplaceHead | nabo/index_heap.h:48-54 | `replaceHead` keeps size k and the heap property; its multiset is the old one minus one head entry plus (index, value). |
| IndexHeap.ReplaceHeadBag | nabo/index_heap.h:48-54 | On values, `replaceHead` removes the head's value and adds the new value. |
| IndexHeap.Sort | nabo/index_heap.h:56-59 | `sort` orders the entries non-decreasing by value and keeps their multiset. |
| IndexHeap.Offer | nabo/brute_force_cpu.cpp:31-34 | The guarded offer keeps a k-entry heap. |
| IndexHeap.OfferWithin | nabo/brute_force_cpu.cpp:31-34 | An offer keeps the heap's values the best k within factor f of everything offered so far; only an eligible distance joins the candidates. |
| LinearHeap.Create | nabo/index_heap.h:92-97 | The constructor gives k entries, all (0, +infinity), already sorted. |
| LinearHeap.Reset | nabo/index_heap.h:99-103 | `reset` sets every value to +infinity and leaves every index untouched; the run stays sorted. |
| LinearHeap.Head | nabo/index_heap.h:105 | The last slot holds a largest value of a sorted run. |
| LinearHeap.InsertionPointUnique | nabo/index_heap.h:110-116 | Only one position separates the values at most v from those above v, so the loop's stopping point is the insertion point. |
| LinearHeap.ReplaceHead | nabo/index_heap.h:107-119 | The loop drops the last entry and inserts (index, value) after every equal value: same length, sorted, multiset minus the old last entry plus the new one. |
| LinearHeap.ShiftedIsInsert | nabo/index_heap.h:110-118 | Shifting the strictly greater entries one slot right and writing the new entry at the stop gives the sorted insertion. |
| LinearHeap.Sort | nabo/index_heap.h:121-124 | `std::sort` gives a sorted permutation of the entries. |
| LinearHeap.SortKeepsValues | nabo/index_heap.h:121-124 | Sorting a linear heap, which is already sorted, changes no value at any rank. |
| LinearHeap.ReplaceHeadBag | nabo/index_heap.h:107-119 | On values, the linear `replaceHead` removes the head's value and adds the new value, like the tree heap's. |
| LinearHeap.SameHeadValue | nabo/index_heap.h:46 | A linear heap and a tree heap with the same bag of values have the same head value. |
| LinearHeap.ReplaceHeadAgrees | nabo/index_heap.h:48-54 | The two heaps are interchangeable: with equal value bags they have equal head values, and `replaceHead` changes both bags the same way. |
| Nabo.Dist2 | nabo/nabo.h:12-16 | The squared distance is non-negative. |
| Nabo.Dist2Symmetric | nabo/nabo.h:12-16 | `dist2(a, b) == dist2(b, a)`. |
| Nabo.Dist2ZeroIffEqual | nabo/nabo.h:12-16 | `dist2(a, b)` is 0 exactly when a and b are the same point. |
| Nabo.FlagsIndependent | nabo/nabo.h:40-44 | `ALLOW_SELF_MATCH` and `SORT_RESULTS` are distinct single bits: each tests true on itself, and setting one never changes the test for the other. |
| Nabo.RecordQuery | nabo/brute_force_cpu.cpp:37-38 | After a query `lastQueryVisitCount` is that query's visit count and `totalVisitCount` grows by it. |
| Nabo.ChildrenOfParent | nabo/nabo.h:106-108 | Both children of p lie after p and next to each other, `parent` maps both back to p, and `parent(0)` wraps around in `size_t`. |
| Nabo.SumSqUpdate | nabo/kdtree_cpu.cpp:301 | Writing x into coordinate i of `off` changes its squared norm by `-old^2 + x^2`, the update applied to `rd`. |
| Nabo.SeparatedLowerBound | nabo/kdtree_cpu.cpp:296-318 | When a point lies beyond every cut recorded in `off`, the squared norm of `off` is at most its squared distance to the query. |
| Nabo.EligibleDistsMembers | nabo/brute_force_cpu.cpp:31-33 | The eligible distances of a set of points are exactly the distances of its columns that pass the self-match test. |
| Nabo.EligibleDistsPermutation | nabo/brute_force_cpu.cpp:29-35 | The bag of eligible distances depends only on the multiset of points, not on their order. |
| ArgMax.ArgMax | nabo/kdtree_cpu.cpp:13-27 | `argMax` returns the first index holding the strictly largest positive entry, 0 when no entry is positive, and an index in range. |
| ArgMax.FirstPositiveMaxUnique | nabo/kdtree_cpu.cpp:13-27 | At most one index is the first position of the largest positive entry. |
| ArgMax.ProtoArgMax | knn.cpp:98-112 | The prototype's `argMax` determines an index exactly when some entry is positive, and then it is the library's `argMax`. |
| ArgMax.ProtoArgMaxUndetermined | knn.cpp:98-112 | For the variance `[0, 0]` the prototype leaves `maxIdx` undetermined, where the library returns 0. |
| TreeSize.HighestBit | nabo/kdtree_cpu.cpp:33-39 | The downward bit loop stops at the highest set bit of the count, or at -1 for 0. |
| TreeSize.FillBits | nabo/kdtree_cpu.cpp:40-41 | Setting bits 0..i gives `2^(i+1) - 1`. |
| TreeSize.Mask | nabo/kdtree_cpu.cpp:33-43 | The two loops give `2^b - 1`, where b is the bit length of the count. |
| TreeSize.MaskIsSmallestFullTree | knn.cpp:81-96 | `2^b - 1` is the smallest size of a full binary tree that holds the count. |
| TreeSize.NodesTreeSize | nabo/kdtree_cpu.cpp:29-44 | The points-in-nodes tree size is the smallest `2^m - 1` at least the element count. |
| TreeSize.LeavesTreeSize | nabo/kdtree_cpu.cpp:331-349 | The points-in-leaves tree size is odd, and is twice the smallest `2^m - 1` at least `n - 1`, plus one. |
| TreeSize.RootFits | nabo/kdtree_cpu.cpp:29-44 | A full tree of the computed height rooted at slot 0 fits in the array. |
| TreeSize.NodesSplitFits | nabo/kdtree_cpu.cpp:93-101 | Every write the points-in-nodes builder makes for the two children stays below the computed size, and so do the two-point case's child slots. |
| TreeSize.LeavesSplitFits | nabo/kdtree_cpu.cpp:389-391 | Both recursive builds of the points-in-leaves builder start at slots whose subtrees fit below the computed size. |
| Layout.ChildSubtree | nabo/nabo.h:106-108 | A slot in a child's subtree is in the parent's subtree. |
| Layout.SiblingsDisjoint | nabo/nabo.h:106-108 | The two children's subtrees share no slot, and neither contains the parent. |
| Layout.SplitFrame | nabo/kdtree_cpu.cpp:88-96 | Writing a node at pos and building both children changes no slot outside pos's subtree and leaves pos's node in place. |
| Layout.LeftIntact | nabo/kdtree_cpu.cpp:95-96 | Building the right child does not touch the left child's subtree. |
| BuildPoints.FromCloud | nabo/kdtree_cpu.cpp:143-150 | There is one build point per column, carrying that column and its index in column order. |
| BuildPoints.FromCloudOnce | nabo/kdtree_cpu.cpp:143-150 | Every column appears exactly once among the build points, and every build point is the column it names. |
| BuildPoints.Variance | nabo/kdtree_cpu.cpp:66-75 | The variance estimate has one non-negative entry per dimension. |
| BuildPoints.SqDevZero | nabo/kdtree_cpu.cpp:72-75 | A dimension's summed squared deviation is 0 exactly when every point's coordinate equals the mean. |
| BuildPoints.VarianceCutDim | nabo/kdtree_cpu.cpp:66-77 | The cut dimension is a valid axis and, when some variance is positive, the first axis of largest variance. |
| Sorting.StdSort | nabo/kdtree_cpu.cpp:80 | `sort` under `CompareDim` gives a permutation sorted on the cut axis. |
| Sorting.NthElement | nabo/kdtree_opencl.cpp:115 | `nth_element` gives a permutation with nothing after position m below it on the cut axis and nothing before it above it. |
| Sorting.SortedIsPartitioned | nabo/kdtree_cpu.cpp:80-88 | A sorted range is partitioned at every position. |
| PtInNodes.SplitCounts | nabo/kdtree_cpu.cpp:83-86 | The left count plus one plus the right count is the count, and the left count exceeds the right count by 0 or 1. |
| PtInNodes.Build | nabo/kdtree_cpu.cpp:55-103 | The builder only writes slots inside the array: the node array keeps its length. |
| PtInNodes.BuildValid | nabo/kdtree_cpu.cpp:55-103 | The builder changes nothing outside pos's subtree. It leaves a valid subtree: a split node's left points are at most its own point on the cut axis, and its right points at least. The subtree holds exactly the input points. |
| PtInNodes.BuildPairValid | nabo/kdtree_cpu.cpp:98-102 | A two-point range gets a split node with the second point, a leaf with the first on the left, and an invalid (-2) node on the right. |
| PtInNodes.PairValid | nabo/kdtree_cpu.cpp:88-102 | The two-point layout is a valid subtree holding both points. |
| PtInNodes.BelowMedian | nabo/kdtree_cpu.cpp:80-95 | After the sort, every point sent left is at most the median on the cut axis. |
| PtInNodes.AboveMedian | nabo/kdtree_cpu.cpp:80-96 | After the sort, every point sent right is at least the median on the cut axis. |
| PtInNodes.BuildTree | nabo/kdtree_cpu.cpp:139-160 | The constructor's tree has the computed size, is valid, and its non-invalid nodes hold exactly the cloud's build points. |
| PtInNodes.TreeHoldsEachColumnOnce | nabo/kdtree_cpu.cpp:83-102 | Every column sits in exactly one non-invalid node, and every node's point is the column it names. |
| PtInLeaves.EncodeIndex | nabo/kdtree_cpu.cpp:358 | A leaf's code `-2 - index` is at most -2, so it is never the invalid code -1 nor a split axis. |
| PtInLeaves.DecodeIndex | nabo/kdtree_cpu.cpp:450 | Decoding `-(cd + 2)` inverts the builder's encoding. |
| PtInLeaves.EncodeInjective | nabo/kdtree_cpu.cpp:358 | Distinct columns get distinct leaf codes. |
| PtInLeaves.LeafSplitCounts | nabo/kdtree_cpu.cpp:381-383 | `leftCount + rightCount == count`, the left count exceeds the right by 0 or 1, and both are positive. |
| PtInLeaves.Build | nabo/kdtree_cpu.cpp:351-392 | The builder only writes slots inside the array: the node array keeps its length. |
| PtInLeaves.BuildValid | nabo/kdtree_cpu.cpp:351-392 | The builder changes nothing outside pos's subtree. It leaves a valid subtree whose left columns are at most the cut value and whose right columns are at least it. Its leaves hold exactly the input columns. |
| PtInLeaves.BelowCut | nabo/kdtree_cpu.cpp:378-390 | Every column sent left is at most `cutVal` on the cut axis. |
| PtInLeaves.AboveCut | nabo/kdtree_cpu.cpp:378-391 | Every column sent right is at least `cutVal` on the cut axis. |
| PtInLeaves.BuildTree | nabo/kdtree_cpu.cpp:394-414 | The constructor's tree has the computed size, is valid, and its leaves hold exactly the column indexes `0..n-1`. |
| PtInLeaves.TreeHoldsEachColumnOnce | nabo/kdtree_cpu.cpp:389-391 | Every column index is in exactly one leaf, and every leaf names a column. |
| BoxTree.Widths | nabo/kdtree_opencl.cpp:107 | The box's side lengths are `maxValues - minValues` per axis. |
| BoxTree.CutDim | nabo/kdtree_opencl.cpp:107 | The cut axis is a widest side of the current box, or axis 0 when no side has positive width. |
| BoxTree.WidthsPositive | nabo/kdtree_opencl.cpp:107 | Some side has positive width exactly when some axis has min below max. |
| BoxTree.Build | nabo/kdtree_opencl.cpp:93-133 | The box builder only writes slots inside the array. |
| BoxTree.BuildValid | nabo/kdtree_opencl.cpp:93-133 | The box builder changes nothing outside pos's subtree, leaves a valid points-in-leaves subtree, and its leaves hold exactly the input columns. |
| BoxTree.BuildSplit | nabo/kdtree_opencl.cpp:107-119 | The split cuts the box's widest side at the `nth_element` order statistic of position `leftCount`, so the range is partitioned there on the cut axis. |
| BoxTree.ChildBoxes | nabo/kdtree_opencl.cpp:123-132 | The cut value lies in the parent box. The left child's box is the parent's with its max on the cut axis lowered to `cutVal`, the right child's with its min raised to `cutVal`, and each holds its points. |
| BoxTree.BuildInBox | nabo/kdtree_opencl.cpp:93-133 | Started from any box, the builder gives a tree of the computed size whose leaves hold exactly the columns. |
| BoxTree.RootInBox | nabo/kdtree_opencl.cpp:139-152 | The bounds the constructor folds from the base seeds `max()`/`min()` contain every column, so the root range starts inside its box. |
| BoxTree.RootCutAsWritten | nabo/kdtree_opencl.cpp:139-152 | For the columns `(-10, 0)` and `(-12, 5)` the as-written box is widest on axis 0, so the root cuts axis 0; the exact box would cut axis 1. |
| BoxTree.TwoColumnsFolds | nabo/nabo.cpp:16-17 | For the columns `(-10, 0)` and `(-12, 5)` both folds give `minBound = (-12, 0)`; `maxBound` is `(min(), 5)` as written and `(-10, 5)` with the corrected seed. |
| BoxTree.BuildTree | nabo/kdtree_opencl.cpp:135-155 | The constructor's tree, built in the as-written folded box, has the computed size, is valid, and its leaves hold exactly the column indexes. |
| BoxTree.Knn | nabo/kdtree_opencl.cpp:157-176 | `knn` returns k slots, each naming an eligible column at its distance or a seed, whose values are the k best within factor `max(1, 1 + epsilon)`. They are exactly the k smallest when `epsilon <= 0`, sorted under `SORT_RESULTS`, and the visits are recorded. |
| BoxTree.KnnMatchesBruteForce | tests/knnvalidate.cpp:91-107 | With `epsilon <= 0` the box tree returns the brute-force bag of distances, the same distances rank by rank under `SORT_RESULTS`, and the same entries when distances are distinct. |
| BruteForce.Scan | nabo/brute_force_cpu.cpp:29-35 | The scan over the columns keeps a k-entry heap. |
| BruteForce.ScanSelects | nabo/brute_force_cpu.cpp:29-35 | After the first n columns the heap holds the k smallest of the seeds and the eligible distances of those columns. |
| BruteForce.ScanAnswers | nabo/brute_force_cpu.cpp:29-35 | After the scan every slot is a seed or names an eligible column at its squared distance. |
| BruteForce.FullScan | nabo/brute_force_cpu.cpp:27-35 | After all columns the heap holds the k smallest eligible distances, unused slots staying seeds. |
| BruteForce.Knn | nabo/brute_force_cpu.cpp:22-44 | `knn` returns k slots, each a seed or an eligible column at its distance, holding the k smallest eligible distances. They are sorted under `SORT_RESULTS`. `lastQueryVisitCount` is the column count and the total grows by it. |
| BruteForce.ZeroIsLeast | nabo/brute_force_cpu.cpp:31 | No candidate distance is below 0. |
| BruteForce.SelfMatchFirst | examples/usage.cpp:30-38 | With `ALLOW_SELF_MATCH \| SORT_RESULTS` and the query in the cloud, the first slot has distance 0 and names a column equal to the query. |
| BruteForce.NoSelfMatch | nabo/brute_force_cpu.cpp:32-33 | Without `ALLOW_SELF_MATCH` no returned distance is at most machine epsilon, so the query's own column is never returned. |
| BruteForce.RootKnn | brute_force_cpu.cpp:22-42 | The older `knn` returns k slots holding the k smallest eligible distances, always sorted, and records the column count as visits. |
| BruteForce.RootKnnAgrees | brute_force_cpu.cpp:22-42 | The older `knn` with a bool flag gives the same distances, rank by rank, as the current one called with `SORT_RESULTS` and the matching self-match flag. |
| Results.OfferAnswers | nabo/brute_force_cpu.cpp:31-34 | After an offer every slot still names an eligible column at its distance or is a seed. |
| Results.SortKeeps | nabo/brute_force_cpu.cpp:40-41 | Sorting keeps both the per-slot answers and the k-smallest property. |
| Results.SameValueBags | tests/knnvalidate.cpp:91-107 | Any two k-slot replies that hold the k smallest eligible distances have the same bag of distances. |
| Results.SameAnswers | tests/knnvalidate.cpp:91-107 | Two sorted k-smallest replies agree in distance rank by rank, and are identical when distances are distinct and every slot answers. |
| Selection.OfferReplace | nabo/brute_force_cpu.cpp:32-34 | Replacing a maximal kept distance by a strictly smaller offered one keeps the k best within factor f of all offered. |
| Selection.OfferKeep | nabo/brute_force_cpu.cpp:32 | Rejecting an offer that is not below the head keeps the k best within factor f. |
| Selection.Prune | nabo/kdtree_opencl.cpp:205 | Skipping distances that, scaled by f, are not below the head keeps the k best within factor f. |
| Selection.SmallestUnique | tests/knnvalidate.cpp:91-107 | The k smallest of a bag are unique as a bag. |
| Selection.SmallestKeepsMinimum | examples/usage.cpp:30-38 | The k smallest of a bag contain its least element. |
| NodesSearch.Recurse | nabo/kdtree_cpu.cpp:277-321 | `recurseKnn` keeps a k-entry heap, restores `off` on return, and counts at least one visit. |
| NodesSearch.RecurseChildren | nabo/kdtree_cpu.cpp:294-320 | A split node descends the near side first, then maybe the far side; `off` is restored and visits grow. |
| NodesSearch.AfterNear | nabo/kdtree_cpu.cpp:301-318 | After the near side the updated `rd` decides on the far side; `off` is restored. |
| NodesSearch.RecurseFar | nabo/kdtree_cpu.cpp:304-306 | The far side is searched with `off[cd]` set to the new offset, which is then restored. |
| NodesSearch.NodeOfferAnswers | nabo/kdtree_cpu.cpp:288-292 | Offering a node's own point keeps every slot naming a node of the tree at its point's distance. |
| NodesSearch.FarSeparated | nabo/kdtree_cpu.cpp:296-317 | With `off[cd]` set to the new offset, every point of the far subtree lies beyond all recorded cuts; the near subtree keeps the old offsets. |
| NodesSearch.PruneBound | nabo/kdtree_cpu.cpp:302 | When the head is at most `rd`, every distance in the skipped subtree is at least the head. |
| NodesSearch.RecurseSelects | nabo/kdtree_cpu.cpp:277-321 | The walk keeps the heap the exact k smallest of what came before plus the subtree's eligible distances, with every slot answering. |
| LeavesSearch.Recurse | nabo/kdtree_cpu.cpp:438-484 | The points-in-leaves `recurseKnn` keeps a k-entry heap, restores `off` on return, and counts at least one visit. |
| LeavesSearch.RecurseChildren | nabo/kdtree_opencl.cpp:199-222 | A split node descends the near side first, then maybe the far side; `off` is restored. |
| LeavesSearch.AfterNear | nabo/kdtree_opencl.cpp:204-221 | After the near side, the far side is searched only when `rd * maxError` is below the head; `off` is restored. |
| LeavesSearch.RecurseFar | nabo/kdtree_opencl.cpp:207-209 | The far side is searched with `off[cd]` set to the new offset, which is then restored. |
| LeavesSearch.FarSeparated | nabo/kdtree_cpu.cpp:459-481 | With `off[cd]` set to the new offset, every column in the far subtree lies beyond all recorded cuts. |
| LeavesSearch.PruneBound | nabo/kdtree_opencl.cpp:205 | When the head is at most `rd * f`, every distance of the skipped subtree, scaled by f, is at least the head. |
| LeavesSearch.SkipUnderLargerFactor | nabo/kdtree_opencl.cpp:205 | A skip under `maxError` is also a skip under any larger factor f. |
| LeavesSearch.RecurseSelects | nabo/kdtree_opencl.cpp:178-224 | With `maxError <= f` the walk keeps the heap the k best within factor f of what came before plus the subtree's eligible distances, with every slot answering. |
| NodesKnn.RootWalk | nabo/kdtree_cpu.cpp:261-266 | The search from the root with a fresh heap and zero offsets gives a k-entry heap and at least one visit. |
| NodesKnn.RootWalkSelects | nabo/kdtree_cpu.cpp:261-266 | The root walk's heap holds exactly the k smallest of the seeds and the tree's eligible distances. |
| NodesKnn.FinalHeap | nabo/kdtree_cpu.cpp:268-269 | The heap is sorted only under `SORT_RESULTS` and otherwise kept as it is. |
| NodesKnn.Knn | nabo/kdtree_cpu.cpp:254-275 | With the corrected node-to-column translation, the stack search returns k slots, each a seed or an eligible column at its distance, holding the k smallest eligible distances. They are sorted under `SORT_RESULTS` and the visits are recorded. |
| NodesKnn.KnnAsWritten | nabo/kdtree_cpu.cpp:274 | The indexes as the code returns them are all valid column indexes. |
| NodesKnn.KnnMatchesBruteForce | tests/knnvalidate.cpp:91-107 | The stack search returns the brute-force bag of distances, the same distances rank by rank under `SORT_RESULTS`, and, with the corrected node-to-column translation, the same entries when distances are distinct. |
| PtInNodes.TwoColumnTree | nabo/kdtree_cpu.cpp:88-101 | The cloud `[0], [1]` builds a split node with column 1, a leaf with column 0 and an invalid slot. |
| NodesKnn.SeedSlotReportsRoot | nabo/kdtree_cpu.cpp:46-53 | On that cloud with query `[0]`, k = 2 and `SORT_RESULTS`, the corrected reply is `[1, 0]` and the code returns `[1, 1]`. |
| CloudIndexes.CloudIndexesAsWritten | nabo/kdtree_cpu.cpp:46-53 | Every returned index is the column index of the node at the heap's index, seed slots included. |
| CloudIndexes.CloudEntries | nabo/kdtree_cpu.cpp:46-53 | The corrected translation keeps every distance and maps a node slot to its column, keeping a seed a seed. |
| CloudIndexes.TranslateAnswers | nabo/kdtree_cpu.cpp:46-53 | Translating slots that name tree nodes gives slots that name columns at the same distances. |
| CloudIndexes.TranslateKeepsValues | nabo/kdtree_cpu.cpp:46-53 | The translation keeps the bag of distances and keeps a sorted reply sorted. |
| CloudIndexes.AsWrittenVersusCorrected | nabo/kdtree_cpu.cpp:46-53 | The code and the corrected translation agree on every non-seed slot; on a seed slot the code reports the root's column where the corrected one reports 0. |
| CloudIndexes.AsWrittenPair | nabo/kdtree_cpu.cpp:46-53 | With a seed in the second slot and the root naming column 1, the code returns `[1, 1]` where the corrected reply is `[1, 0]`. |
| NodesPq.Top | nabo/nabo.h:135-143 | With the inverted comparator, the queue's top is an element of smallest bound. |
| NodesPq.Without | nabo/kdtree_cpu.cpp:184-185 | Popping removes exactly that element from the queue. |
| NodesPq.PushFar | nabo/kdtree_cpu.cpp:207-225 | At a split node the far child is queued only when its slab is closer than the head and the slot is not invalid; the queue only grows. |
| NodesPq.Dive | nabo/kdtree_cpu.cpp:192-233 | Diving from a node offers every node passed and only appends valid subtrees to the queue; the pending work shrinks. |
| NodesPq.Descend | nabo/kdtree_cpu.cpp:204-231 | Below a split node the dive continues on the query's side unless that slot is invalid. |
| NodesPq.Resume | nabo/kdtree_cpu.cpp:184-233 | One turn of the outer loop pops the top and dives from it; the pending work strictly shrinks. |
| NodesPq.Drain | nabo/kdtree_cpu.cpp:182-234 | The outer loop runs until the queue is empty or a popped bound is above the head. |
| NodesPq.PqWalk | nabo/kdtree_cpu.cpp:177-234 | The search from the root queued at bound 0 keeps a k-entry heap. |
| NodesPq.StopPrunes | nabo/kdtree_cpu.cpp:188-189 | When the smallest queued bound is above the head, nothing still queued can enter the heap. |
| NodesPq.DrainSelects | nabo/kdtree_cpu.cpp:182-234 | The loop keeps the heap the exact k smallest of what came before plus everything still queued, with every slot answering. |
| NodesPq.RootQueued | nabo/kdtree_cpu.cpp:178 | Queuing the root at bound 0 queues exactly the tree's eligible distances. |
| NodesPq.PqWalkSelects | nabo/kdtree_cpu.cpp:177-234 | The best-first search's heap holds exactly the k smallest of the seeds and the tree's eligible distances. |
| NodesPq.FinalHeap | nabo/kdtree_cpu.cpp:237-238 | The heap is sorted only under `SORT_RESULTS`. |
| NodesPq.Knn | nabo/kdtree_cpu.cpp:170-241 | With the corrected node-to-column translation, the best-first search returns k slots, each a seed or an eligible column at its distance, holding the k smallest eligible distances. They are sorted under `SORT_RESULTS` and the visits are recorded. |
| NodesPq.KnnAsWritten | nabo/kdtree_cpu.cpp:240 | The indexes as the code returns them are all valid column indexes. |
| NodesPq.KnnMatchesBruteForce | tests/knn.cpp:95-102 | The best-first search returns the brute-force bag of distances, the same distances rank by rank under `SORT_RESULTS`, and, with the corrected node-to-column translation, the same entries when distances are distinct. |
| NodesPq.KnnMatchesStack | nabo/kdtree_cpu.cpp:170-275 | The best-first and the stack search return the same bag of distances. |
| LeavesKnn.RootWalk | nabo/kdtree_cpu.cpp:422-427 | The search from the root with a fresh heap and zero offsets gives a k-entry heap and at least one visit. |
| LeavesKnn.RootWalkWithin | nabo/kdtree_opencl.cpp:163-168 | With `maxError <= f` the root walk's heap holds the k best within factor f of the cloud's eligible distances, with every slot answering. |
| LeavesKnn.FinalHeap | nabo/kdtree_cpu.cpp:429-430 | The heap is sorted only under `SORT_RESULTS`. |
| LeavesKnn.FinalHeapWithin | nabo/kdtree_opencl.cpp:168-171 | Sorting or not, the final k slots hold the k best within factor f, with every slot answering. |
| LeavesKnn.Knn | nabo/kdtree_cpu.cpp:416-436 | The points-in-leaves search returns k slots, each a seed or an eligible column at its distance, holding the k smallest eligible distances. They are sorted under `SORT_RESULTS` and the visits are recorded. |
| LeavesKnn.KnnMatchesBruteForce | tests/knnvalidate.cpp:91-107 | The points-in-leaves search returns the brute-force bag of distances, the same distances rank by rank under `SORT_RESULTS`, and the same entries when distances are distinct. |
| Bounds.MinPositive | nabo/nabo.cpp:17 | `numeric_limits<T>::min()` is positive (and at most 1). |
| Bounds.Fold | nabo/brute_force_cpu.cpp:13-18 | The constructor loop folds componentwise `min` into `minBound` and `max` into `maxBound`, coordinate by coordinate. |
| Bounds.FoldMinIsLeast | nabo/brute_force_cpu.cpp:16 | The folded minimum is at most the seed and every folded coordinate, and is one of them. |
| Bounds.FoldMaxIsGreatest | nabo/brute_force_cpu.cpp:17 | The folded maximum is at least the seed and every folded coordinate, and is one of them. |
| Bounds.CloudBounds | nabo/brute_force_cpu.cpp:8-19 | The constructor's bounds, as written, have one entry per dimension. |
| Bounds.AsWrittenBounds | nabo/nabo.cpp:16-17 | As written, `minBound` is the exact minimum, and `maxBound` is the exact maximum raised to at least `numeric_limits<T>::min()`. |
| Bounds.CorrectedBoundsTight | nabo/nabo.cpp:16-17 | Seeded with `lowest()` instead, the bounds of a non-empty cloud hold every column and each bound is a column's coordinate. |
| Bounds.NegativeCloudMaxBound | nabo/nabo.cpp:17 | For the cloud `[[-1]]` the code's `maxBound` is `[min()]`, above every coordinate, where the corrected one is `[-1]`. |
| Facade.NewBase | nabo/nabo.cpp:12-20 | The base constructor keeps the cloud, sets `dim` to the row count, and seeds every `minBound` entry with `max()` and every `maxBound` entry with exactly `min()`, the smallest positive value. |
| Facade.NewBruteForce | nabo/brute_force_cpu.cpp:8-19 | The brute-force constructor keeps the cloud and `dim`, and gives one bound per dimension. |
| Facade.NewBruteForceBounds | nabo/brute_force_cpu.cpp:8-19 | Its bounds hold every column; `minBound` is exact and `maxBound` is the exact one raised to at least `min()`. |
| Facade.Create | nabo/nabo.cpp:37-47 | `create` succeeds exactly for the three known types, builds a search of the requested type over the cloud, and otherwise fails with "Unknown search type". |
| Facade.CreateDistinguishes | nabo/nabo.cpp:40-45 | For the three known types, `create` builds equal search objects exactly when the requested types are equal. |
| Facade.CreateBruteForce | nabo/nabo.cpp:42 | The brute-force object `create` returns holds every column in its bounds, with the exact `minBound`. |
| Facade.KnnM | nabo/nabo.cpp:22-35 | `knnM` returns one index column per query column. |
| Facade.KnnMColumns | nabo/nabo.cpp:28-32 | Column i of `knnM` is `knn` of query column i, run after columns 0..i-1: the columns are filled in order and each reads only its own query column. |
| Facade.KnnMVisits | nabo/nabo.cpp:28-32 | When each query adds c visits, `knnM` adds c per query column to the total. |
| Facade.BruteForceKnnM | nabo/nabo.cpp:22-35 | Brute-force `knnM` returns, in column i, the k indexes brute force finds for query column i, and adds the column count per query to the total visits. |
| Proto.Strip | knn.cpp:53-58 | The prototype's node keeps a node's position and code and drops the column index. |
| Proto.ProtoTree | knn.cpp:114-162 | The prototype's tree has the computed size and is well formed. |
| Proto.StripValid | knn.cpp:114-162 | A valid points-in-nodes tree stays well formed without its column indexes. |
| Proto.SubMinIsLeast | knn.cpp:242-270 | The least distance computed over a subtree is at most every point's distance in it and is attained, unless the subtree holds no point. |
| Proto.TopMax | knn.cpp:43-50 | With `operator<` comparing `minDist` directly, the queue's top is an element of largest bound. |
| Proto.Pushes | knn.cpp:257-270 | A split node queues one or two children, the near one at bound 0 and the far one only when its bound is below `bestDist`; at most one has a positive bound. |
| Proto.Step | knn.cpp:235-273 | One turn of the loop past the `break` test keeps `bestDist` a node's distance (or the seed), never raises it, and shrinks the pending work. |
| Proto.Search | knn.cpp:233-274 | The loop ends with `bestDist` a node's distance or the seed, never above where it started. |
| Proto.StepKeeps | knn.cpp:239-240 | While the invariant holds the popped bound is never above `bestDist`, so the `break` does not fire, and a turn keeps the invariant. |
| Proto.SearchFinds | knn.cpp:233-274 | From the invariant, the loop ends with `bestDist` equal to the least of the seed and every queued subtree's distances. |
| Proto.Nn | knn.cpp:222-277 | `nn` returns the position of a node of the tree. |
| Proto.BfScan | knn.cpp:288-296 | The scan keeps the first column of least distance below the seed, or column 0 when none is below the seed. |
| Proto.Bfnn | knn.cpp:281-301 | `bfnn` returns a column of the cloud, at a least distance whenever some column is below the seed. |
| Proto.RootMinIsBfnn | knn.cpp:222-301 | The least distance the built tree holds is below the seed and equals `bfnn`'s. |
| Proto.NnMatchesBfnn | knn.cpp:364 | When some column is below the seed, `nn` returns a point at the same squared distance from the query as `bfnn`'s. |
| Proto.NnIsColumn | knn.cpp:222-277 | When some column is below the seed, `nn` returns a column of the cloud, as near to the query as `bfnn`'s. |
| Proto.NnIsBfnn | knn.cpp:364 | When, in addition, every column at the least distance is `bfnn`'s point, `nn` returns exactly `bfnn`'s point, which is what the assert compares. |
| Proto.StepReached | knn.cpp:235-273 | A turn of the loop queues only subtrees of the tree and moves `bestIndex` only to a node holding one of the tree's points. |
| Proto.SearchReached | knn.cpp:233-274 | The whole loop keeps `bestIndex`, once below the seed, on a node holding one of the tree's points. |
| Proto.NnTieSplits | knn.cpp:364 | For the columns `[0]`, `[1]` and the query `[0.5]`, at squared distance 0.25 from both, `bfnn` returns `[0]` and `nn` returns `[1]`. |

## Left out

- The unbalanced points-in-leaves tree that `create` builds for `KDTREE_LINEAR_HEAP` and `KDTREE_TREE_HEAP` is only declared (nabo/nabo_private.h:28-83, experimental/nabo_experimental.h:175-239). Its constructor and search bodies are not part of this model. `Facade.Create` runs only the base constructor for it and records the chosen heap.
- `IndexHeapSTL` is only declared; it is modelled as `IndexHeap`. No search whose body is visible uses the linear heap. Its interchangeability with the tree heap is stated by `LinearHeap.ReplaceHeadAgrees`.
- Headers and sources come from different revisions. nabo/nabo.h:47-48 declares `knn`/`knnM` without epsilon, while nabo/nabo.cpp:23 has it. nabo/nabo.h:225 declares a leaves `buildNodes` with a `balanceVariance` argument the definition lacks. The model follows the function bodies.
- The CPU trees' `knn` take no epsilon. `NodesKnn.Knn`, `NodesPq.Knn` and `LeavesKnn.Knn` compare against brute force at any epsilon. The brute-force scan ignores epsilon as well.
- Floating point: scalars are `real`. Rounding, NaN and overflow in `dist2` are not modelled.
- Nabo.Eligible: the self-match threshold is one constant, `Scalar.Epsilon`, whose value is only known to lie in (0, 2^-23]. It is not tied to the precision a search is instantiated with. What is proved therefore holds for the `float` threshold and for the `double` one, but no statement depends on which one applies, such as whether a column at squared distance 1e-10 is eligible.
- `std::sort`, `nth_element`, the heap algorithms and `priority_queue` are given by contract. Which arrangement of equal keys they pick is not modelled. For `priority_queue`, the top among equal bounds is taken as the first such element.
- The 32-bit limit of `getTreeSize` (`1 << i` for `i <= 31`): every tree size and builder requires fewer than 2^31 columns.
- Every `knn` requires `k > 0`; the linear heap's `sizeMinusOne` underflows at size 0.
- Empty clouds: the tree constructors require at least one column, as `getTreeSize` asserts for the leaves tree.
- Visit statistics are threaded as plain values; sharing and thread safety are not modelled.
- Nabo.RecordQuery: the counters are unbounded integers. In nabo/nabo.h:36-37 they are 32-bit `int`, so `totalVisitCount` overflows once the cumulative visits pass 2^31 - 1, for example over a long `knnM` batch. That is undefined behaviour in C++, which the model does not try to represent. `Facade.KnnMVisits` inherits this.
- Facade.KnnM: its own contract states only the column count. Per-column content is stated by `Facade.KnnMColumns` through the counters each column reads, because `knn` also updates the statistics.
- Proto.NnMatchesBfnn: requires some column at a squared distance below `numeric_limits<float>::max()`. Otherwise both searches keep their seed index 0, and `nn`'s node 0 need not be column 0. Its conclusion is the distance to the query. The equality of the returned points, which the assert compares, needs the nearest point to be unique (`Proto.NnIsBfnn`); on ties the two differ (`Proto.NnTieSplits`).
- Proto.ProtoTree: cuts on the library's `argMax`, which returns 0 when no variance is positive. There the prototype's `maxIdx` is uninitialised (`ArgMax.ProtoArgMaxUndetermined`), so the prototype's tree is undetermined.
- `cerr` output of `nn`/`bfnn`, the `dump` printers, file loading, timers and every `main`: output and I/O only.
- OpenCL kernels and GPU setup: only the CPU build and search of nabo/kdtree_opencl.cpp are modelled.
- The Python bindings: glue code only.

## Findings

The OpenCL tree keeps the as-written box. `BoxTree.BuildInBox` shows that the tree is valid and holds every column whatever box it starts from, so the `maxBound` seed changes only where the tree cuts, not what a search with `epsilon <= 0` returns.

| source | as written | input that shows it | evidently intended | confidence | as-written member | corrected member |
|---|---|---|---|---|---|---|
| nabo/nabo.cpp:17 | `maxBound` is seeded with `numeric_limits<T>::min()`, the smallest positive value, so it never drops below that value | the cloud `[[-1.0]]`: `maxBound` is `[min()]`, above every coordinate; the columns `(-10, 0)`, `(-12, 5)`: the OpenCL tree's root cuts axis 0 instead of axis 1 (`BoxTree.RootCutAsWritten`) | seed with `numeric_limits<T>::lowest()` so the bounds are the exact bounding box | not executed; high | Bounds.NegativeCloudMaxBound | Bounds.CorrectedBoundsTight |
| knn.cpp:98-112 | `maxIdx` is never initialised, so when no variance is positive `argMax` returns an undetermined value | two coincident points: the variance is `[0, 0]` | start `maxIdx` at 0, as nabo/kdtree_cpu.cpp:17 does | not executed; high | ArgMax.ProtoArgMaxUndetermined | ArgMax.ArgMax |
| knn.cpp:364 | the check asserts that `nn` and `bfnn` return the same point | the columns `[0]`, `[1]` and the query `[0.5]`: both columns are at squared distance 0.25, `bfnn` returns `[0]` and `nn` returns `[1]`, so `dist2(v_bf, v_kdtree)` is 1 | compare the two points' squared distances to the query, which always agree | not executed; low, since random queries rarely tie | Proto.NnTieSplits | Proto.NnMatchesBfnn |
| nabo/kdtree_cpu.cpp:46-53 | every heap slot is looked up in the node array, so an unused seed slot (index 0) reports the root's column | cloud `[0], [1]`, query `[0]`, k = 2, `SORT_RESULTS` without self-match: returns `[1, 1]` | an unused slot reports index 0, as brute force does: `[1, 0]` | not executed; medium | NodesKnn.SeedSlotReportsRoot | NodesKnn.Knn |
