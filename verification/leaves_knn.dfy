/** `KDTreeItInLeavesStack`: the tree is built once from the cloud; `knn`
    runs `recurseKnn` from the root with a fresh heap and a zero offset
    vector, sorts when asked and records the visit count. The leaves hold
    column indexes, so the heap's indexes are the reply as they stand. The
    root walk is stated for any `maxError`, since the OpenCL tree runs the
    same walk with `maxError = 1 + epsilon`. */
module LeavesKnn {
  import opened Scalar
  import opened SeqUtil
  import opened Nabo
  import opened HeapEntries
  import opened Selection
  import opened IndexHeap
  import opened Results
  import opened BuildPoints
  import opened TreeSize
  import opened PtInLeaves
  import opened LeavesSearch
  import NodesSearch
  import BruteForce

  /** `recurseKnn(query, 0, 0, heap, off, maxError, allowSelfMatch)` with
      `heap` a fresh heap of `k` slots and `off` the zero vector. */
  ghost function RootWalk(nodes: seq<LeafNode>, cloud: Cloud, q: Vector, k: nat, maxError: real,
                          allowSelfMatch: bool): (r: NodesSearch.Walk)
    requires Valid(nodes, 0, cloud, |q|) && IsCloud(cloud, |q|) && k > 0
    ensures |r.heap| == k && IsMaxHeap(r.heap) && r.visits > 0
  {
    Recurse(nodes, cloud, q, 0, 0.0, NodesSearch.Walk(Create(k), Zeros(|q|), 0), maxError, allowSelfMatch)
  }

  /** A tree holding every column once offers the eligible distances of
      the cloud's columns, no more and no fewer. */
  lemma TreeDistsAreCloudDists(nodes: seq<LeafNode>, cloud: Cloud, q: Vector, allowSelfMatch: bool)
    requires Valid(nodes, 0, cloud, |q|) && IsCloud(cloud, |q|)
    requires multiset(Contents(nodes, 0)) == multiset(Range(|cloud|))
    ensures SubtreeDists(nodes, 0, cloud, q, allowSelfMatch) == multiset(EligibleDists(cloud, q, allowSelfMatch))
  {
    var c := Contents(nodes, 0);
    SubtreeDistsContents(nodes, 0, cloud, q, allowSelfMatch);
    MapPermutation(ColumnOf(cloud), c, Range(|cloud|));
    assert Columns(cloud, Range(|cloud|)) == cloud;
    EligibleDistsPermutation(Columns(cloud, c), cloud, q, allowSelfMatch);
  }

  /** From the root, the walk's heap holds smallest candidates up to any
      factor `f >= 1` that is at least `maxError`, and each slot answers
      the query over the cloud. */
  lemma RootWalkWithin(nodes: seq<LeafNode>, cloud: Cloud, q: Vector, k: nat, maxError: real, f: real, allowSelfMatch: bool)
    requires Valid(nodes, 0, cloud, |q|) && IsCloud(cloud, |q|) && k > 0 && maxError <= f && f >= 1.0
    requires multiset(Contents(nodes, 0)) == multiset(Range(|cloud|))
    ensures Within(ValueBag(RootWalk(nodes, cloud, q, k, maxError, allowSelfMatch).heap),
                   Candidates(cloud, q, allowSelfMatch, k), f)
    ensures Answers(RootWalk(nodes, cloud, q, k, maxError, allowSelfMatch).heap, cloud, q, allowSelfMatch)
  {
    CreateIsSeeds(k);
    SeedBag(k, f);
    SeedsAnswer(k, cloud, q, allowSelfMatch);
    SumSqZeros(|q|);
    ZeroOffsetSeparates(nodes, 0, cloud, q);
    RecurseSelects(nodes, cloud, q, 0, 0.0, NodesSearch.Walk(Create(k), Zeros(|q|), 0), maxError, f, allowSelfMatch,
                   ValueBag(Create(k)));
    TreeDistsAreCloudDists(nodes, cloud, q, allowSelfMatch);
  }

  /** The heap `knn` reads its indexes from: the root walk's heap, sorted
      when `SORT_RESULTS` is set. */
  ghost function FinalHeap(nodes: seq<LeafNode>, cloud: Cloud, q: Vector, k: nat, maxError: real,
                           optionFlags: bv32): (r: seq<Entry>)
    requires Valid(nodes, 0, cloud, |q|) && IsCloud(cloud, |q|) && k > 0
    ensures multiset(r) == multiset(RootWalk(nodes, cloud, q, k, maxError, HasFlag(optionFlags, AllowSelfMatch)).heap)
    ensures HasFlag(optionFlags, SortResults) ==> Sorted(r)
  {
    var h := RootWalk(nodes, cloud, q, k, maxError, HasFlag(optionFlags, AllowSelfMatch)).heap;
    if HasFlag(optionFlags, SortResults) then Sort(h) else h
  }

  /** Whatever arrangement of the root walk's heap is read, it has `k`
      slots, answers the query and holds smallest candidates up to `f`. */
  lemma FinalHeapWithin(nodes: seq<LeafNode>, cloud: Cloud, q: Vector, k: nat, maxError: real, f: real, optionFlags: bv32)
    requires Valid(nodes, 0, cloud, |q|) && IsCloud(cloud, |q|) && k > 0 && maxError <= f && f >= 1.0
    requires multiset(Contents(nodes, 0)) == multiset(Range(|cloud|))
    ensures |FinalHeap(nodes, cloud, q, k, maxError, optionFlags)| == k
    ensures Within(ValueBag(FinalHeap(nodes, cloud, q, k, maxError, optionFlags)),
                   Candidates(cloud, q, HasFlag(optionFlags, AllowSelfMatch), k), f)
    ensures Answers(FinalHeap(nodes, cloud, q, k, maxError, optionFlags), cloud, q, HasFlag(optionFlags, AllowSelfMatch))
  {
    var allowSelfMatch := HasFlag(optionFlags, AllowSelfMatch);
    var w := RootWalk(nodes, cloud, q, k, maxError, allowSelfMatch).heap;
    var h := FinalHeap(nodes, cloud, q, k, maxError, optionFlags);
    RootWalkWithin(nodes, cloud, q, k, maxError, f, allowSelfMatch);
    assert |h| == |multiset(h)| == k;
    ValueBagPermutation(h, w);
    forall e | e in h
      ensures AnswerEntry(e, cloud, q, allowSelfMatch)
    {
      assert e in multiset(w);
    }
  }

  /** `knn(query, k, optionFlags)` of `KDTreeItInLeavesStack`: the far side
      is pruned on `rd` itself, so the reply is exact. */
  ghost function Knn(cloud: Cloud, q: Vector, k: nat, optionFlags: bv32, stats: Statistics): (r: Reply)
    requires 0 < |cloud| < Pow2(31) && |q| > 0 && IsCloud(cloud, |q|) && k > 0
    ensures |r.entries| == k
    ensures Answers(r.entries, cloud, q, HasFlag(optionFlags, AllowSelfMatch))
    ensures KSmallest(r.entries, cloud, q, HasFlag(optionFlags, AllowSelfMatch))
    ensures HasFlag(optionFlags, SortResults) ==> Sorted(r.entries)
    ensures r.stats.lastQueryVisitCount > 0
    ensures r.stats.totalVisitCount == stats.totalVisitCount + r.stats.lastQueryVisitCount
  {
    var nodes := BuildTree(cloud, |q|);
    FinalHeapWithin(nodes, cloud, q, k, 1.0, 1.0, optionFlags);
    Reply(FinalHeap(nodes, cloud, q, k, 1.0, optionFlags),
          RecordQuery(stats, RootWalk(nodes, cloud, q, k, 1.0, HasFlag(optionFlags, AllowSelfMatch)).visits))
  }

  /** The leaves tree and the brute-force search hold the same distances.
      Sorted, they agree distance by distance, rank by rank, and when no
      two columns lie at the same distance from the query they return the
      same columns in the same order. */
  lemma KnnMatchesBruteForce(cloud: Cloud, q: Vector, k: nat, epsilon: real, optionFlags: bv32, stats: Statistics)
    requires 0 < |cloud| < Pow2(31) && |q| > 0 && IsCloud(cloud, |q|) && k > 0
    ensures ValueBag(Knn(cloud, q, k, optionFlags, stats).entries)
         == ValueBag(BruteForce.Knn(cloud, q, k, epsilon, optionFlags, stats).entries)
    ensures HasFlag(optionFlags, SortResults) ==>
              Values(Knn(cloud, q, k, optionFlags, stats).entries)
              == Values(BruteForce.Knn(cloud, q, k, epsilon, optionFlags, stats).entries)
    ensures HasFlag(optionFlags, SortResults) && DistinctDists(cloud, q) ==>
              Knn(cloud, q, k, optionFlags, stats).entries
              == BruteForce.Knn(cloud, q, k, epsilon, optionFlags, stats).entries
  {
    SameValueBags(Knn(cloud, q, k, optionFlags, stats).entries,
                  BruteForce.Knn(cloud, q, k, epsilon, optionFlags, stats).entries, cloud, q, HasFlag(optionFlags, AllowSelfMatch));
    if HasFlag(optionFlags, SortResults) {
      SameAnswers(Knn(cloud, q, k, optionFlags, stats).entries,
                  BruteForce.Knn(cloud, q, k, epsilon, optionFlags, stats).entries, cloud, q, HasFlag(optionFlags, AllowSelfMatch));
    }
  }
}
