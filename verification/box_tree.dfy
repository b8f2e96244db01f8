/** `KDTreeBalancedPtInLeavesStackOpenCL`, its CPU side: the constructor
    folds the cloud's bounding box, and `buildNodes` cuts each range on the
    widest side of its current box at the `nth_element` order statistic,
    narrowing the box for each side. The tree has the points-in-leaves
    layout, so it is searched by the same `recurseKnn`, here with `maxError
    = 1 + epsilon`. `argMax` and `getTreeSize` of this file are those of
    the CPU trees (`ArgMax.ArgMax`, `TreeSize.LeavesTreeSize`). */
module BoxTree {
  import opened Scalar
  import opened SeqUtil
  import opened Nabo
  import opened HeapEntries
  import opened Selection
  import opened IndexHeap
  import opened Results
  import opened BuildPoints
  import opened Layout
  import opened TreeSize
  import opened Sorting
  import opened ArgMax
  import opened PtInLeaves
  import opened Bounds
  import LeavesKnn
  import BruteForce

  /** `maxValues - minValues`: the side lengths of the box. */
  function Widths(minV: Vector, maxV: Vector): (r: Vector)
    requires |minV| == |maxV|
    ensures |r| == |minV| && forall d :: 0 <= d < |r| ==> r[d] == maxV[d] - minV[d]
  {
    seq(|minV|, d requires 0 <= d < |minV| => maxV[d] - minV[d])
  }

  /** `argMax(maxValues - minValues)`: the first of the widest sides of
      the box, or axis 0 when the box is flat on every axis. */
  function CutDim(minV: Vector, maxV: Vector): (d: nat)
    requires |minV| == |maxV| > 0
    ensures d < |minV|
    ensures (exists j :: 0 <= j < |minV| && minV[j] < maxV[j]) ==>
              forall j :: 0 <= j < |minV| ==> maxV[j] - minV[j] <= maxV[d] - minV[d]
    ensures (forall j :: 0 <= j < |minV| ==> maxV[j] <= minV[j]) ==> d == 0
  {
    WidthsPositive(minV, maxV);
    ArgMax.ArgMax(Widths(minV, maxV))
  }

  /** A box has a side of positive length exactly when some bound is
      below its partner. */
  lemma WidthsPositive(minV: Vector, maxV: Vector)
    requires |minV| == |maxV|
    ensures HasPositive(Widths(minV, maxV)) <==> exists j :: 0 <= j < |minV| && minV[j] < maxV[j]
  {
    if exists j :: 0 <= j < |minV| && minV[j] < maxV[j] {
      var j :| 0 <= j < |minV| && minV[j] < maxV[j];
      assert Widths(minV, maxV)[j] > 0.0;
    }
  }

  /** Every point lies in the box. */
  ghost predicate InBox(pts: seq<BuildPoint>, minV: Vector, maxV: Vector)
  {
    forall x, d :: x in pts && 0 <= d < |x.pos| && d < |minV| && d < |maxV| ==> minV[d] <= x.pos[d] <= maxV[d]
  }

  /** `buildNodes(first, last, pos, minValues, maxValues)`: a single point
      becomes a leaf encoding its column; otherwise the range is
      rearranged by `nth_element` on the widest side of the box around
      position `leftCount`, the node at `pos` cuts at the coordinate of the
      point there, and the two sides are built below it, left first, the
      left box capped at the cut and the right box starting from it. */
  ghost function Build(pts: seq<BuildPoint>, pos: nat, nodes: seq<LeafNode>, dim: nat, minV: Vector, maxV: Vector)
    : (r: seq<LeafNode>)
    requires |pts| > 0 && dim > 0 && HasDim(pts, dim) && |minV| == dim && |maxV| == dim
    requires Fits(pos, Levels(|pts|), |nodes|)
    ensures |r| == |nodes|
    decreases |pts|
  {
    if |pts| == 1 then
      FitsChildren(pos, 1, |nodes|);
      nodes[pos := LeafNode(EncodeIndex(pts[0].index), 0.0)]
    else
      var cutDim := CutDim(minV, maxV);
      var leftCount := LeafSplitCounts(|pts|).0;
      var s := NthElement(pts, CompareDim(cutDim), leftCount);
      LeavesSplitFits(pos, |pts|, |nodes|);
      HasDimPermutation(pts, s, dim);
      SidesDims(s, leftCount, dim);
      var cutVal := s[leftCount].pos[cutDim];
      var l := Build(s[..leftCount], ChildLeft(pos), nodes[pos := LeafNode(cutDim, cutVal)], dim, minV, maxV[cutDim := cutVal]);
      Build(s[leftCount..], ChildRight(pos), l, dim, minV[cutDim := cutVal], maxV)
  }

  /** What `buildNodes` establishes, for any box: it writes only inside
      the subtree of `pos`, leaves that subtree well formed, and holds there
      exactly the columns of its range, each in a leaf of its own. */
  lemma {:induction false} BuildValid(pts: seq<BuildPoint>, pos: nat, nodes: seq<LeafNode>, dim: nat,
                                      minV: Vector, maxV: Vector, cloud: Cloud)
    requires |pts| > 0 && dim > 0 && HasDim(pts, dim) && OfCloud(pts, cloud) && |minV| == dim && |maxV| == dim
    requires Fits(pos, Levels(|pts|), |nodes|)
    ensures forall i :: 0 <= i < |nodes| && !InSubtree(i, pos) ==> Build(pts, pos, nodes, dim, minV, maxV)[i] == nodes[i]
    ensures Valid(Build(pts, pos, nodes, dim, minV, maxV), pos, cloud, dim)
    ensures multiset(Contents(Build(pts, pos, nodes, dim, minV, maxV), pos)) == multiset(Indexes(pts))
    decreases |pts|, 1
  {
    if |pts| == 1 {
      FitsChildren(pos, 1, |nodes|);
      assert pts[0] in pts;
      assert Indexes(pts) == [pts[0].index];
    } else {
      var s, cutDim := BuildSplit(pts, pos, nodes, dim, minV, maxV, cloud);
      var m := LeafSplitCounts(|pts|).0;
      BuildSplitUnfold(pts, pos, nodes, dim, minV, maxV, s, cutDim, m);
      BuildSplitValid(s, pos, cutDim, nodes,
                      Build(s[..m], ChildLeft(pos), nodes[pos := LeafNode(cutDim, s[m].pos[cutDim])], dim,
                            minV, maxV[cutDim := s[m].pos[cutDim]]),
                      Build(pts, pos, nodes, dim, minV, maxV), dim, minV, maxV, cloud);
      MapPermutation(BuildPoints.IndexOf, s, pts);
    }
  }

  /** The first half of a step of `Build` on two or more points: the cut
      axis, the rearranged range, and the room both sides have. */
  lemma BuildSplit(pts: seq<BuildPoint>, pos: nat, nodes: seq<LeafNode>, dim: nat, minV: Vector, maxV: Vector, cloud: Cloud)
    returns (s: seq<BuildPoint>, cutDim: nat)
    requires |pts| > 1 && dim > 0 && HasDim(pts, dim) && OfCloud(pts, cloud) && |minV| == dim && |maxV| == dim
    requires Fits(pos, Levels(|pts|), |nodes|)
    ensures cutDim == CutDim(minV, maxV)
    ensures s == NthElement(pts, CompareDim(cutDim), LeafSplitCounts(|pts|).0)
    ensures |s| == |pts| && multiset(s) == multiset(pts)
    ensures cutDim < dim && HasDim(s, dim) && OfCloud(s, cloud)
    ensures PartitionedAt(s, CompareDim(cutDim), LeafSplitCounts(|pts|).0)
    ensures pos < |nodes|
    ensures Fits(ChildLeft(pos), Levels(LeafSplitCounts(|s|).0), |nodes|)
    ensures Fits(ChildRight(pos), Levels(LeafSplitCounts(|s|).1), |nodes|)
  {
    cutDim := CutDim(minV, maxV);
    s := NthElement(pts, CompareDim(cutDim), LeafSplitCounts(|pts|).0);
    LeavesSplitFits(pos, |pts|, |nodes|);
    HasDimPermutation(pts, s, dim);
    forall x | x in s
      ensures x.index < |cloud| && x.pos == cloud[x.index]
    {
      assert x in multiset(pts);
    }
  }

  /** A step of `Build` on two or more points: the cut goes to `pos`, then
      the left side is built in the capped box, then the right side. */
  lemma BuildSplitUnfold(pts: seq<BuildPoint>, pos: nat, nodes: seq<LeafNode>, dim: nat, minV: Vector, maxV: Vector,
                         s: seq<BuildPoint>, cutDim: nat, m: nat)
    requires |pts| > 1 && dim > 0 && HasDim(pts, dim) && |minV| == dim && |maxV| == dim
    requires Fits(pos, Levels(|pts|), |nodes|)
    requires m == LeafSplitCounts(|pts|).0
    requires cutDim == CutDim(minV, maxV) && s == NthElement(pts, CompareDim(cutDim), m)
    requires |s| == |pts| && HasDim(s, dim)
    requires pos < |nodes|
    requires Fits(ChildLeft(pos), Levels(m), |nodes|)
    requires Fits(ChildRight(pos), Levels(|pts| - m), |nodes|)
    ensures HasDim(s[..m], dim) && HasDim(s[m..], dim) && |s[m].pos| == dim
    ensures Build(pts, pos, nodes, dim, minV, maxV)
         == Build(s[m..], ChildRight(pos),
                  Build(s[..m], ChildLeft(pos), nodes[pos := LeafNode(cutDim, s[m].pos[cutDim])], dim,
                        minV, maxV[cutDim := s[m].pos[cutDim]]),
                  dim, minV[cutDim := s[m].pos[cutDim]], maxV)
  {
    SidesDims(s, m, dim);
  }

  /** The split case of `BuildValid`: both sides are built in turn below
      the cut stored at `pos`. */
  lemma {:induction false} BuildSplitValid(s: seq<BuildPoint>, pos: nat, cutDim: nat, nodes: seq<LeafNode>,
                                           l: seq<LeafNode>, r: seq<LeafNode>, dim: nat,
                                           minV: Vector, maxV: Vector, cloud: Cloud)
    requires |s| > 1 && cutDim < dim && HasDim(s, dim) && OfCloud(s, cloud) && |minV| == dim && |maxV| == dim
    requires PartitionedAt(s, CompareDim(cutDim), LeafSplitCounts(|s|).0)
    requires pos < |nodes|
    requires Fits(ChildLeft(pos), Levels(LeafSplitCounts(|s|).0), |nodes|)
    requires Fits(ChildRight(pos), Levels(LeafSplitCounts(|s|).1), |nodes|)
    requires HasDim(s[..LeafSplitCounts(|s|).0], dim) && HasDim(s[LeafSplitCounts(|s|).0..], dim)
    requires l == Build(s[..LeafSplitCounts(|s|).0], ChildLeft(pos),
                        nodes[pos := LeafNode(cutDim, s[LeafSplitCounts(|s|).0].pos[cutDim])], dim,
                        minV, maxV[cutDim := s[LeafSplitCounts(|s|).0].pos[cutDim]])
    requires r == Build(s[LeafSplitCounts(|s|).0..], ChildRight(pos), l, dim,
                        minV[cutDim := s[LeafSplitCounts(|s|).0].pos[cutDim]], maxV)
    ensures forall i :: 0 <= i < |nodes| && !InSubtree(i, pos) ==> r[i] == nodes[i]
    ensures Valid(r, pos, cloud, dim)
    ensures multiset(Contents(r, pos)) == multiset(Indexes(s))
    decreases |s|, 0
  {
    var m := LeafSplitCounts(|s|).0;
    SidesOfCloud(s, m, cloud);
    BuildValid(s[..m], ChildLeft(pos), nodes[pos := LeafNode(cutDim, s[m].pos[cutDim])], dim,
               minV, maxV[cutDim := s[m].pos[cutDim]], cloud);
    BuildValid(s[m..], ChildRight(pos), l, dim, minV[cutDim := s[m].pos[cutDim]], maxV, cloud);
    BuiltSidesValid(s, m, pos, cutDim, nodes, nodes[pos := LeafNode(cutDim, s[m].pos[cutDim])], l, r, dim, cloud);
  }

  /** A cut of a range lying in its box: the cut value lies within the box
      on the cut axis, so both child boxes lie in the parent's, and each
      side of the range lies in its own child box. Here `s` is the range
      as `nth_element` leaves it around `m`, on axis `cutDim`. */
  lemma ChildBoxes(pts: seq<BuildPoint>, s: seq<BuildPoint>, m: nat, cutDim: nat, dim: nat, minV: Vector, maxV: Vector)
    requires 0 < m < |s| && cutDim < dim && HasDim(pts, dim) && HasDim(s, dim) && |minV| == dim && |maxV| == dim
    requires multiset(s) == multiset(pts) && PartitionedAt(s, CompareDim(cutDim), m)
    requires InBox(pts, minV, maxV)
    ensures minV[cutDim] <= s[m].pos[cutDim] <= maxV[cutDim]
    ensures InBox(s[..m], minV, maxV[cutDim := s[m].pos[cutDim]])
    ensures InBox(s[m..], minV[cutDim := s[m].pos[cutDim]], maxV)
  {
    forall x | x in s
      ensures x in pts
    {
      assert x in multiset(pts);
    }
    assert s[m] in s;
    forall x, d | x in s[..m] && 0 <= d < |x.pos| && d < dim
      ensures minV[d] <= x.pos[d] <= maxV[cutDim := s[m].pos[cutDim]][d]
    {
      var j :| 0 <= j < m && s[..m][j] == x;
      assert s[j] == x && x in s;
      assert CompareDim(cutDim)(s[j]) <= CompareDim(cutDim)(s[m]);
    }
    forall x, d | x in s[m..] && 0 <= d < |x.pos| && d < dim
      ensures minV[cutDim := s[m].pos[cutDim]][d] <= x.pos[d] <= maxV[d]
    {
      var j :| 0 <= j < |s| - m && s[m..][j] == x;
      assert s[m + j] == x && x in s;
      if j > 0 {
        assert CompareDim(cutDim)(s[m]) <= CompareDim(cutDim)(s[m + j]);
      }
    }
  }

  /** The constructor: the cloud's bounding box, build points for every
      column, `getTreeSize(n)` invalid nodes, and `buildNodes` over the
      whole range from the root in the whole box. The box is the one the
      constructor folds from the base seeds (`Bounds.CloudBounds`), so its
      upper corner is never below `numeric_limits<T>::min()`. */
  ghost function BuildTree(cloud: Cloud, dim: nat, p: Precision): (r: seq<LeafNode>)
    requires 0 < |cloud| < Pow2(31) && dim > 0 && IsCloud(cloud, dim)
    ensures |r| == LeavesSize(|cloud|)
    ensures Valid(r, 0, cloud, dim)
    ensures multiset(Contents(r, 0)) == multiset(Range(|cloud|))
  {
    BuildInBox(cloud, dim, CloudBounds(cloud, dim, p))
  }

  /** `buildNodes` over the whole range from the root in the box `b`. */
  ghost function BuildInBox(cloud: Cloud, dim: nat, b: Box): (r: seq<LeafNode>)
    requires 0 < |cloud| < Pow2(31) && dim > 0 && IsCloud(cloud, dim) && IsBox(b, dim)
    ensures |r| == LeavesSize(|cloud|)
    ensures Valid(r, 0, cloud, dim)
    ensures multiset(Contents(r, 0)) == multiset(Range(|cloud|))
  {
    var pts := FromCloud(cloud);
    var empty := seq(LeavesSize(|cloud|), _ => InvalidLeaf);
    RootFits(Levels(|cloud|));
    FromCloudOfCloud(cloud, dim);
    FromCloudIndexes(cloud);
    BuildValid(pts, 0, empty, dim, b.minB, b.maxB, cloud);
    Build(pts, 0, empty, dim, b.minB, b.maxB)
  }

  /** The root range lies in the box the constructor folds, so by
      `ChildBoxes` every range lies in the box it is built in. */
  lemma RootInBox(cloud: Cloud, dim: nat, p: Precision)
    requires IsCloud(cloud, dim)
    ensures InBox(FromCloud(cloud), CloudBounds(cloud, dim, p).minB, CloudBounds(cloud, dim, p).maxB)
  {
    FromCloudOnce(cloud);
    forall x, d | x in FromCloud(cloud) && 0 <= d < |x.pos| && d < dim
      ensures CloudBounds(cloud, dim, p).minB[d] <= x.pos[d] <= CloudBounds(cloud, dim, p).maxB[d]
    {
      FoldMinIsLeast(MaxValue(p), cloud, d, |cloud|);
      FoldMaxIsGreatest(MinPositive(p), cloud, d, |cloud|);
    }
  }

  /** The columns `(-10, 0)` and `(-12, 5)`. The folded box has upper
      corner `(min(), 5)`: its widest side is axis 0, while the exact box
      `[-12, -10] x [0, 5]` is widest on axis 1. So the seed of `maxBound`
      changes where the root cuts. */
  lemma RootCutAsWritten(p: Precision)
    ensures CutDim(CloudBounds(TwoColumns(), 2, p).minB, CloudBounds(TwoColumns(), 2, p).maxB) == 0
    ensures CutDim(CorrectedBounds(TwoColumns(), 2, p).minB, CorrectedBounds(TwoColumns(), 2, p).maxB) == 1
  {
    var b := CloudBounds(TwoColumns(), 2, p);
    var c := CorrectedBounds(TwoColumns(), 2, p);
    TwoColumnsFolds(p);
    assert b.minB[0] < b.maxB[0];
    var db := CutDim(b.minB, b.maxB);
    assert b.maxB[1] - b.minB[1] < b.maxB[0] - b.minB[0];
    assert db == 0;
    assert c.minB[1] < c.maxB[1];
    var dc := CutDim(c.minB, c.maxB);
    assert c.maxB[0] - c.minB[0] < c.maxB[1] - c.minB[1];
    assert dc == 1;
  }

  function TwoColumns(): (r: Cloud)
    ensures IsCloud(r, 2)
  {
    [[-10.0, 0.0], [-12.0, 5.0]]
  }

  /** Coordinate by coordinate, the folds over `TwoColumns`. */
  lemma TwoColumnsFolds(p: Precision)
    ensures CloudBounds(TwoColumns(), 2, p).minB[0] == CorrectedBounds(TwoColumns(), 2, p).minB[0] == -12.0
    ensures CloudBounds(TwoColumns(), 2, p).minB[1] == CorrectedBounds(TwoColumns(), 2, p).minB[1] == 0.0
    ensures CloudBounds(TwoColumns(), 2, p).maxB[0] == MinPositive(p)
    ensures CloudBounds(TwoColumns(), 2, p).maxB[1] == 5.0
    ensures CorrectedBounds(TwoColumns(), 2, p).maxB[0] == -10.0
    ensures CorrectedBounds(TwoColumns(), 2, p).maxB[1] == 5.0
  {
    var cloud := TwoColumns();
    assert cloud[0] == [-10.0, 0.0] && cloud[1] == [-12.0, 5.0];
    var m := MaxValue(p);
    MaxValueAbove(p);
    assert FoldMin(m, cloud, 0, 1) == -10.0;
    assert FoldMin(m, cloud, 1, 1) == 0.0;
    assert FoldMax(-m, cloud, 0, 1) == -10.0;
    assert FoldMax(-m, cloud, 1, 1) == 0.0;
    assert FoldMax(MinPositive(p), cloud, 0, 1) == MinPositive(p);
    assert FoldMax(MinPositive(p), cloud, 1, 1) == MinPositive(p);
  }

  /** `knn(query, k, epsilon, optionFlags)`: the leaves search with
      `maxError = 1 + epsilon`. Every returned distance is at most
      `1 + epsilon` times any candidate left out; with `epsilon <= 0` the
      reply holds k smallest candidates. */
  ghost function Knn(cloud: Cloud, q: Vector, k: nat, epsilon: real, optionFlags: bv32, stats: Statistics,
                     p: Precision): (r: Reply)
    requires 0 < |cloud| < Pow2(31) && |q| > 0 && IsCloud(cloud, |q|) && k > 0
    ensures |r.entries| == k
    ensures Answers(r.entries, cloud, q, HasFlag(optionFlags, AllowSelfMatch))
    ensures Within(ValueBag(r.entries), Candidates(cloud, q, HasFlag(optionFlags, AllowSelfMatch), k), Max(1.0, 1.0 + epsilon))
    ensures epsilon <= 0.0 ==> KSmallest(r.entries, cloud, q, HasFlag(optionFlags, AllowSelfMatch))
    ensures HasFlag(optionFlags, SortResults) ==> Sorted(r.entries)
    ensures r.stats.lastQueryVisitCount > 0
    ensures r.stats.totalVisitCount == stats.totalVisitCount + r.stats.lastQueryVisitCount
  {
    var nodes := BuildTree(cloud, |q|, p);
    LeavesKnn.FinalHeapWithin(nodes, cloud, q, k, 1.0 + epsilon, Max(1.0, 1.0 + epsilon), optionFlags);
    Reply(LeavesKnn.FinalHeap(nodes, cloud, q, k, 1.0 + epsilon, optionFlags),
          RecordQuery(stats, LeavesKnn.RootWalk(nodes, cloud, q, k, 1.0 + epsilon, HasFlag(optionFlags, AllowSelfMatch)).visits))
  }

  /** With `epsilon <= 0` (the validation test uses 0), the box tree and
      the brute-force search hold the same distances; sorted, they agree
      rank by rank, and when no two columns lie at the same distance from
      the query they return the same columns in the same order. */
  lemma KnnMatchesBruteForce(cloud: Cloud, q: Vector, k: nat, epsilon: real, optionFlags: bv32, stats: Statistics,
                             p: Precision)
    requires 0 < |cloud| < Pow2(31) && |q| > 0 && IsCloud(cloud, |q|) && k > 0 && epsilon <= 0.0
    ensures ValueBag(Knn(cloud, q, k, epsilon, optionFlags, stats, p).entries)
         == ValueBag(BruteForce.Knn(cloud, q, k, epsilon, optionFlags, stats).entries)
    ensures HasFlag(optionFlags, SortResults) ==>
              Values(Knn(cloud, q, k, epsilon, optionFlags, stats, p).entries)
              == Values(BruteForce.Knn(cloud, q, k, epsilon, optionFlags, stats).entries)
    ensures HasFlag(optionFlags, SortResults) && DistinctDists(cloud, q) ==>
              Knn(cloud, q, k, epsilon, optionFlags, stats, p).entries
              == BruteForce.Knn(cloud, q, k, epsilon, optionFlags, stats).entries
  {
    SameValueBags(Knn(cloud, q, k, epsilon, optionFlags, stats, p).entries,
                  BruteForce.Knn(cloud, q, k, epsilon, optionFlags, stats).entries, cloud, q, HasFlag(optionFlags, AllowSelfMatch));
    if HasFlag(optionFlags, SortResults) {
      SameAnswers(Knn(cloud, q, k, epsilon, optionFlags, stats, p).entries,
                  BruteForce.Knn(cloud, q, k, epsilon, optionFlags, stats).entries, cloud, q, HasFlag(optionFlags, AllowSelfMatch));
    }
  }
}
