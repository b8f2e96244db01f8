/** `KDTreePtInNodesStack`: the tree is built once from the cloud; `knn`
    runs `recurseKnn` from the root with a fresh heap and a zero offset
    vector, sorts when asked, records the visit count and translates the
    heap's node indexes into column indexes. */
module NodesKnn {
  import opened Scalar
  import opened SeqUtil
  import opened Nabo
  import opened HeapEntries
  import opened Selection
  import opened IndexHeap
  import opened Results
  import opened BuildPoints
  import opened TreeSize
  import opened Sorting
  import opened PtInNodes
  import opened NodesSearch
  import opened CloudIndexes
  import BruteForce

  /** `recurseKnn(query, 0, 0, heap, off, allowSelfMatch)` with `heap` a
      fresh heap of `k` slots and `off` the zero vector. */
  ghost function RootWalk(nodes: seq<Node>, q: Vector, k: nat, allowSelfMatch: bool): (r: Walk)
    requires Valid(nodes, 0, |q|) && k > 0
    ensures |r.heap| == k && IsMaxHeap(r.heap) && r.visits > 0
  {
    Recurse(nodes, q, 0, 0.0, Walk(Create(k), Zeros(|q|), 0), allowSelfMatch)
  }

  /** A zero offset vector separates every point from the query. */
  lemma ZeroOffsetSeparates(nodes: seq<Node>, q: Vector)
    requires Valid(nodes, 0, |q|)
    ensures SeparatedAll(nodes, 0, q, Zeros(|q|))
  {
    ContentsDim(nodes, 0, |q|);
  }

  /** From the root, the walk selects k smallest of the seeds and every
      eligible point of the tree, each slot naming a node of the tree. */
  lemma RootWalkSelects(nodes: seq<Node>, q: Vector, k: nat, allowSelfMatch: bool)
    requires Valid(nodes, 0, |q|) && k > 0
    ensures Smallest(ValueBag(RootWalk(nodes, q, k, allowSelfMatch).heap),
                     ValueBag(Seeds(k)) + SubtreeDists(nodes, 0, q, allowSelfMatch))
    ensures NodeAnswers(RootWalk(nodes, q, k, allowSelfMatch).heap, nodes, q, allowSelfMatch, Contents(nodes, 0))
  {
    CreateIsSeeds(k);
    SeedBag(k, 1.0);
    SumSqZeros(|q|);
    ZeroOffsetSeparates(nodes, q);
    RecurseSelects(nodes, q, 0, 0.0, Walk(Create(k), Zeros(|q|), 0), allowSelfMatch,
                   ValueBag(Seeds(k)), Contents(nodes, 0));
  }

  /** The tree built from a cloud offers the eligible distances of the
      cloud's columns, no more and no fewer. */
  lemma TreeDistsAreCloudDists(cloud: Cloud, q: Vector, allowSelfMatch: bool)
    requires 0 < |cloud| < Pow2(31) && |q| > 0 && IsCloud(cloud, |q|)
    ensures SubtreeDists(BuildTree(cloud, |q|), 0, q, allowSelfMatch) == multiset(EligibleDists(cloud, q, allowSelfMatch))
  {
    var c := Contents(BuildTree(cloud, |q|), 0);
    SubtreeDistsContents(BuildTree(cloud, |q|), 0, q, allowSelfMatch);
    MapPermutation(PosOf, c, FromCloud(cloud));
    HasDimPositions(c, |q|);
    EligibleDistsPermutation(Positions(c), cloud, q, allowSelfMatch);
  }

  /** Any heap of `k` slots holding smallest candidates among the seeds and
      the tree's distances, each slot naming a node of the tree, translates
      to a reply that answers the query over the cloud and holds k smallest
      candidates, whatever its arrangement. */
  lemma TranslateTreeHeap(cloud: Cloud, q: Vector, k: nat, allowSelfMatch: bool, w: seq<Entry>, h: seq<Entry>)
    requires 0 < |cloud| < Pow2(31) && |q| > 0 && IsCloud(cloud, |q|) && |w| == k
    requires Smallest(ValueBag(w), ValueBag(Seeds(k)) + SubtreeDists(BuildTree(cloud, |q|), 0, q, allowSelfMatch))
    requires NodeAnswers(w, BuildTree(cloud, |q|), q, allowSelfMatch, Contents(BuildTree(cloud, |q|), 0))
    requires multiset(h) == multiset(w)
    ensures NodeAnswers(h, BuildTree(cloud, |q|), q, allowSelfMatch, Contents(BuildTree(cloud, |q|), 0))
    ensures Translatable(h, BuildTree(cloud, |q|))
    ensures Answers(CloudEntries(BuildTree(cloud, |q|), h), cloud, q, allowSelfMatch)
    ensures KSmallest(CloudEntries(BuildTree(cloud, |q|), h), cloud, q, allowSelfMatch)
  {
    var nodes := BuildTree(cloud, |q|);
    TreeDistsAreCloudDists(cloud, q, allowSelfMatch);
    TreeHoldsEachColumnOnce(cloud, |q|);
    assert |h| == |multiset(h)| == k;
    forall e | e in h
      ensures NodeEntry(e, nodes, q, allowSelfMatch, Contents(nodes, 0))
    {
      assert e in multiset(w);
    }
    TranslateAnswers(h, nodes, cloud, q, allowSelfMatch, Contents(nodes, 0));
    ValueBagPermutation(h, w);
    TranslateKeepsValues(h, nodes);
  }

  /** Whatever arrangement of a root walk's heap is translated, it answers
      the query over the cloud and holds k smallest candidates. */
  lemma TranslateSelects(cloud: Cloud, q: Vector, k: nat, allowSelfMatch: bool, h: seq<Entry>)
    requires 0 < |cloud| < Pow2(31) && |q| > 0 && IsCloud(cloud, |q|) && k > 0
    requires multiset(h) == multiset(RootWalk(BuildTree(cloud, |q|), q, k, allowSelfMatch).heap)
    ensures NodeAnswers(h, BuildTree(cloud, |q|), q, allowSelfMatch, Contents(BuildTree(cloud, |q|), 0))
    ensures Translatable(h, BuildTree(cloud, |q|))
    ensures Answers(CloudEntries(BuildTree(cloud, |q|), h), cloud, q, allowSelfMatch)
    ensures KSmallest(CloudEntries(BuildTree(cloud, |q|), h), cloud, q, allowSelfMatch)
  {
    RootWalkSelects(BuildTree(cloud, |q|), q, k, allowSelfMatch);
    TranslateTreeHeap(cloud, q, k, allowSelfMatch, RootWalk(BuildTree(cloud, |q|), q, k, allowSelfMatch).heap, h);
  }

  /** The heap `knn` reads its indexes from: the root walk's heap, sorted
      when `SORT_RESULTS` is set. */
  ghost function FinalHeap(cloud: Cloud, q: Vector, k: nat, optionFlags: bv32): (r: seq<Entry>)
    requires 0 < |cloud| < Pow2(31) && |q| > 0 && IsCloud(cloud, |q|) && k > 0
    ensures multiset(r) == multiset(RootWalk(BuildTree(cloud, |q|), q, k, HasFlag(optionFlags, AllowSelfMatch)).heap)
    ensures HasFlag(optionFlags, SortResults) ==> Sorted(r)
  {
    var h := RootWalk(BuildTree(cloud, |q|), q, k, HasFlag(optionFlags, AllowSelfMatch)).heap;
    if HasFlag(optionFlags, SortResults) then Sort(h) else h
  }

  /** `knn(query, k, epsilon, optionFlags)` of the stack tree, with the
      corrected index translation. `epsilon` is accepted and not used. */
  ghost function Knn(cloud: Cloud, q: Vector, k: nat, epsilon: real, optionFlags: bv32, stats: Statistics): (r: Reply)
    requires 0 < |cloud| < Pow2(31) && |q| > 0 && IsCloud(cloud, |q|) && k > 0
    ensures |r.entries| == k
    ensures Answers(r.entries, cloud, q, HasFlag(optionFlags, AllowSelfMatch))
    ensures KSmallest(r.entries, cloud, q, HasFlag(optionFlags, AllowSelfMatch))
    ensures HasFlag(optionFlags, SortResults) ==> Sorted(r.entries)
    ensures r.stats.lastQueryVisitCount > 0
    ensures r.stats.totalVisitCount == stats.totalVisitCount + r.stats.lastQueryVisitCount
  {
    var allowSelfMatch := HasFlag(optionFlags, AllowSelfMatch);
    var h := FinalHeap(cloud, q, k, optionFlags);
    TranslateSelects(cloud, q, k, allowSelfMatch, h);
    TranslateKeepsValues(h, BuildTree(cloud, |q|));
    Reply(CloudEntries(BuildTree(cloud, |q|), h),
          RecordQuery(stats, RootWalk(BuildTree(cloud, |q|), q, k, allowSelfMatch).visits))
  }

  /** `knn` as written: every slot of the final heap, seeds included, is
      looked up in the node array. */
  ghost function KnnAsWritten(cloud: Cloud, q: Vector, k: nat, optionFlags: bv32): (r: seq<int>)
    requires 0 < |cloud| < Pow2(31) && |q| > 0 && IsCloud(cloud, |q|) && k > 0
    ensures |r| == k
    ensures forall i :: 0 <= i < k ==> 0 <= r[i] < |cloud|
  {
    FinalHeapInRange(cloud, q, k, optionFlags);
    CloudIndexesAsWritten(BuildTree(cloud, |q|), GetIndexes(FinalHeap(cloud, q, k, optionFlags)))
  }

  /** Every slot of the final heap names a node, and the column the code
      reads from that node is a column of the cloud. */
  lemma FinalHeapInRange(cloud: Cloud, q: Vector, k: nat, optionFlags: bv32)
    requires 0 < |cloud| < Pow2(31) && |q| > 0 && IsCloud(cloud, |q|) && k > 0
    ensures forall i :: 0 <= i < k ==> 0 <= GetIndexes(FinalHeap(cloud, q, k, optionFlags))[i] < |BuildTree(cloud, |q|)|
    ensures forall i :: 0 <= i < k ==>
              CloudIndexesAsWritten(BuildTree(cloud, |q|), GetIndexes(FinalHeap(cloud, q, k, optionFlags)))[i] < |cloud|
  {
    var h := FinalHeap(cloud, q, k, optionFlags);
    TranslateSelects(cloud, q, k, HasFlag(optionFlags, AllowSelfMatch), h);
    AsWrittenInRange(cloud, q, HasFlag(optionFlags, AllowSelfMatch), h);
  }

  /** The root of a tree built from a non-empty cloud holds a point. */
  lemma RootHoldsColumn(cloud: Cloud, q: Vector)
    requires 0 < |cloud| < Pow2(31) && |q| > 0 && IsCloud(cloud, |q|)
    ensures BuildTree(cloud, |q|)[0].dim != -2
    ensures BuildTree(cloud, |q|)[0].index < |cloud|
  {
    var nodes := BuildTree(cloud, |q|);
    var c := Contents(nodes, 0);
    assert |c| == |multiset(c)| == |cloud|;
    TreeHoldsEachColumnOnce(cloud, |q|);
    assert BuildPoint(nodes[0].pos, nodes[0].index) in c;
  }

  /** Every index the code reports is a column of the cloud. */
  lemma AsWrittenInRange(cloud: Cloud, q: Vector, allowSelfMatch: bool, h: seq<Entry>)
    requires 0 < |cloud| < Pow2(31) && |q| > 0 && IsCloud(cloud, |q|)
    requires NodeAnswers(h, BuildTree(cloud, |q|), q, allowSelfMatch, Contents(BuildTree(cloud, |q|), 0))
    ensures forall i :: 0 <= i < |h| ==> 0 <= GetIndexes(h)[i] < |BuildTree(cloud, |q|)|
    ensures forall i :: 0 <= i < |h| ==> CloudIndexesAsWritten(BuildTree(cloud, |q|), GetIndexes(h))[i] < |cloud|
  {
    var nodes := BuildTree(cloud, |q|);
    RootHoldsColumn(cloud, q);
    TreeHoldsEachColumnOnce(cloud, |q|);
    TranslateAnswers(h, nodes, cloud, q, allowSelfMatch, Contents(nodes, 0));
    AsWrittenVersusCorrected(h, nodes);
    forall i | 0 <= i < |h|
      ensures CloudIndexesAsWritten(nodes, GetIndexes(h))[i] < |cloud|
    {
      assert NodeEntry(h[i], nodes, q, allowSelfMatch, Contents(nodes, 0));
      if h[i] != Sentinel {
        assert BuildPoint(nodes[h[i].index].pos, nodes[h[i].index].index) in Contents(nodes, 0);
      }
    }
  }

  /** The stack tree and the brute-force search hold the same distances.
      Sorted, they agree distance by distance, rank by rank, and when no
      two columns lie at the same distance from the query they return the
      same columns in the same order. */
  lemma KnnMatchesBruteForce(cloud: Cloud, q: Vector, k: nat, epsilon: real, optionFlags: bv32, stats: Statistics)
    requires 0 < |cloud| < Pow2(31) && |q| > 0 && IsCloud(cloud, |q|) && k > 0
    ensures ValueBag(Knn(cloud, q, k, epsilon, optionFlags, stats).entries)
         == ValueBag(BruteForce.Knn(cloud, q, k, epsilon, optionFlags, stats).entries)
    ensures HasFlag(optionFlags, SortResults) ==>
              Values(Knn(cloud, q, k, epsilon, optionFlags, stats).entries)
              == Values(BruteForce.Knn(cloud, q, k, epsilon, optionFlags, stats).entries)
    ensures HasFlag(optionFlags, SortResults) && DistinctDists(cloud, q) ==>
              Knn(cloud, q, k, epsilon, optionFlags, stats).entries
              == BruteForce.Knn(cloud, q, k, epsilon, optionFlags, stats).entries
  {
    SameValueBags(Knn(cloud, q, k, epsilon, optionFlags, stats).entries,
                  BruteForce.Knn(cloud, q, k, epsilon, optionFlags, stats).entries, cloud, q, HasFlag(optionFlags, AllowSelfMatch));
    if HasFlag(optionFlags, SortResults) {
      SameAnswers(Knn(cloud, q, k, epsilon, optionFlags, stats).entries,
                  BruteForce.Knn(cloud, q, k, epsilon, optionFlags, stats).entries, cloud, q, HasFlag(optionFlags, AllowSelfMatch));
    }
  }

  /** `Knn` and `KnnAsWritten` read the same final heap: one through the
      corrected translation, the other through the code's. */
  lemma KnnUnfold(cloud: Cloud, q: Vector, k: nat, optionFlags: bv32)
    requires 0 < |cloud| < Pow2(31) && |q| > 0 && IsCloud(cloud, |q|) && k > 0
    ensures Translatable(FinalHeap(cloud, q, k, optionFlags), BuildTree(cloud, |q|))
    ensures forall i :: 0 <= i < k ==> 0 <= GetIndexes(FinalHeap(cloud, q, k, optionFlags))[i] < |BuildTree(cloud, |q|)|
    ensures forall e :: e in FinalHeap(cloud, q, k, optionFlags) ==> e == Sentinel || e.value.Finite?
    ensures Knn(cloud, q, k, 0.0, optionFlags, NewStatistics).entries
         == CloudEntries(BuildTree(cloud, |q|), FinalHeap(cloud, q, k, optionFlags))
    ensures KnnAsWritten(cloud, q, k, optionFlags)
         == CloudIndexesAsWritten(BuildTree(cloud, |q|), GetIndexes(FinalHeap(cloud, q, k, optionFlags)))
  {
    var h := FinalHeap(cloud, q, k, optionFlags);
    var nodes := BuildTree(cloud, |q|);
    TranslateSelects(cloud, q, k, HasFlag(optionFlags, AllowSelfMatch), h);
    FinalHeapInRange(cloud, q, k, optionFlags);
    forall e | e in h
      ensures e == Sentinel || e.value.Finite?
    {
      assert NodeEntry(e, nodes, q, HasFlag(optionFlags, AllowSelfMatch), Contents(nodes, 0));
    }
  }

  /** The two-column cloud queried at `[0]` for two neighbours, sorted and
      without self match: only column 1 is eligible, so one slot keeps its
      seed. The corrected reply is column 1 at distance 1 and then the
      seed; the code reports column 1 twice, since the root holds column
      1. */
  lemma SeedSlotReportsRoot(cloud: Cloud, q: Vector)
    requires cloud == [[0.0], [1.0]] && q == [0.0]
    ensures 0 < |cloud| < Pow2(31) && |q| > 0 && IsCloud(cloud, |q|)
    ensures GetIndexes(Knn(cloud, q, 2, 0.0, SortResults, NewStatistics).entries) == [1, 0]
    ensures KnnAsWritten(cloud, q, 2, SortResults) == [1, 1]
  {
    TwoColumnEntries(cloud, q);
    KnnUnfold(cloud, q, 2, SortResults);
    AsWrittenPair(FinalHeap(cloud, q, 2, SortResults), BuildTree(cloud, |q|));
  }

  /** The tree and the sorted corrected reply of the two-column cloud. */
  lemma TwoColumnEntries(cloud: Cloud, q: Vector)
    requires cloud == [[0.0], [1.0]] && q == [0.0]
    ensures 0 < |cloud| < Pow2(31) && |q| > 0 && IsCloud(cloud, |q|)
    ensures BuildTree(cloud, |q|)[0].index == 1
    ensures Knn(cloud, q, 2, 0.0, SortResults, NewStatistics).entries == [Entry(1, Finite(1.0)), Sentinel]
  {
    TwoColumnCandidates(cloud, q);
    TwoColumnTree();
    ReplyOfOneEligible(cloud, q);
  }

  /** The candidates of the two-column cloud at `[0]` without self match:
      the two seeds and column 1's distance; column 0 coincides with the
      query. */
  lemma TwoColumnCandidates(cloud: Cloud, q: Vector)
    requires cloud == [[0.0], [1.0]] && q == [0.0]
    ensures 0 < |cloud| < Pow2(31) && |q| > 0 && IsCloud(cloud, |q|)
    ensures Dist2(cloud[0], q) == 0.0 && Dist2(cloud[1], q) == 1.0
    ensures Candidates(cloud, q, false, 2) == multiset{Infinity, Infinity, Finite(1.0)}
  {
    TwoBelowLimit();
    TwoColumnDists(cloud, q);
    TwoColumnEligible(cloud, q);
    CandidatesOfOne(cloud, q);
  }

  /** Two seeds and one eligible distance 1 make three candidates. */
  lemma CandidatesOfOne(cloud: Cloud, q: Vector)
    requires IsCloud(cloud, |q|) && EligibleDists(cloud, q, false) == [Finite(1.0)]
    ensures Candidates(cloud, q, false, 2) == multiset{Infinity, Infinity, Finite(1.0)}
  {
    assert Values(Seeds(2)) == [Infinity, Infinity];
    assert ValueBag(Seeds(2)) == multiset{Infinity, Infinity};
  }

  lemma TwoColumnEligible(cloud: Cloud, q: Vector)
    requires cloud == [[0.0], [1.0]] && q == [0.0]
    requires Dist2(cloud[0], q) == 0.0 && Dist2(cloud[1], q) == 1.0
    ensures IsCloud(cloud, |q|)
    ensures EligibleDists(cloud, q, false) == [Finite(1.0)]
  {
    assert EligibleDists(cloud[1..], q, false) == [Finite(1.0)];
  }

  lemma TwoBelowLimit()
    ensures 2 < Pow2(31)
  {
    Pow2Monotone(2, 31);
    assert Pow2(2) == 4;
  }

  lemma TwoColumnDists(cloud: Cloud, q: Vector)
    requires cloud == [[0.0], [1.0]] && q == [0.0]
    ensures Dist2(cloud[0], q) == 0.0 && Dist2(cloud[1], q) == 1.0
  {
    assert Dist2(cloud[0][1..], q[1..]) == 0.0;
    assert Dist2(cloud[1][1..], q[1..]) == 0.0;
    assert Sq(cloud[1][0] - q[0]) == 1.0;
  }

  /** A cloud of two columns where only column 1, at distance 1, is
      eligible: the sorted reply for two neighbours without self match is
      column 1 and then a seed. */
  lemma ReplyOfOneEligible(cloud: Cloud, q: Vector)
    requires 0 < |cloud| < Pow2(31) && |q| > 0 && IsCloud(cloud, |q|) && |cloud| == 2
    requires Dist2(cloud[0], q) == 0.0 && Dist2(cloud[1], q) == 1.0
    requires Candidates(cloud, q, false, 2) == multiset{Infinity, Infinity, Finite(1.0)}
    ensures Knn(cloud, q, 2, 0.0, SortResults, NewStatistics).entries == [Entry(1, Finite(1.0)), Sentinel]
  {
    FlagsIndependent(SortResults);
    OneEligibleSorted(cloud, q, Knn(cloud, q, 2, 0.0, SortResults, NewStatistics).entries);
  }

  /** Two smallest of two infinities and a finite distance. */
  lemma TwoSmallest(m: multiset<Dist>, x: real)
    requires Smallest(m, multiset{Infinity, Infinity, Finite(x)}) && |m| == 2
    ensures m == multiset{Finite(x), Infinity}
  {
    var a := multiset{Infinity, Infinity, Finite(x)};
    SmallestKeepsMinimum(m, a, Finite(x));
    var rest := m - multiset{Finite(x)};
    assert rest <= multiset{Infinity, Infinity};
    assert |rest| == 1;
    var y :| y in rest;
    assert y == Infinity;
    assert |rest - multiset{y}| == 0;
    assert rest == (rest - multiset{y}) + multiset{y};
    assert m == rest + multiset{Finite(x)};
  }

  /** The sorted reply when only column 1, at distance 1, is eligible. */
  lemma OneEligibleSorted(cloud: Cloud, q: Vector, e: seq<Entry>)
    requires IsCloud(cloud, |q|) && |cloud| == 2 && |e| == 2
    requires Dist2(cloud[0], q) == 0.0 && Dist2(cloud[1], q) == 1.0
    requires Candidates(cloud, q, false, 2) == multiset{Infinity, Infinity, Finite(1.0)}
    requires Sorted(e) && KSmallest(e, cloud, q, false) && Answers(e, cloud, q, false)
    ensures e == [Entry(1, Finite(1.0)), Sentinel]
  {
    SortedPairValues(e);
    assert AnswerEntry(e[0], cloud, q, false) && AnswerEntry(e[1], cloud, q, false);
  }

  /** Two sorted slots holding two smallest of two infinities and 1: 1
      comes first, then an infinity. */
  lemma SortedPairValues(e: seq<Entry>)
    requires |e| == 2 && Sorted(e)
    requires Smallest(ValueBag(e), multiset{Infinity, Infinity, Finite(1.0)})
    ensures e[0].value == Finite(1.0) && e[1].value == Infinity
  {
    assert |ValueBag(e)| == |Values(e)| == 2;
    TwoSmallest(ValueBag(e), 1.0);
    SortedDistsUnique(Values(e), [Finite(1.0), Infinity]);
    assert e[0].value == Values(e)[0];
    assert e[1].value == Values(e)[1];
  }
}
