/** `KDTreeItInLeavesStack`: split nodes only cut space, on one axis at a
    value `cutVal`; every point sits alone in a leaf, which stores its
    column index in `dim` as `-2 - index`. The builder sorts the range on
    the axis of largest variance and sends the first `count - count / 2`
    points left and the rest right, cutting at the first point on the
    right. */
module PtInLeaves {
  import opened SeqUtil
  import opened Nabo
  import opened BuildPoints
  import opened Layout
  import opened TreeSize
  import opened Sorting

  /** `Node`: `dim >= 0` cuts on that axis at `cutVal`, `-1` is an invalid
      (unused) slot, and `dim <= -2` is a leaf holding a column. */
  datatype LeafNode = LeafNode(dim: int, cutVal: real)

  /** A default-constructed node, `Node()`: invalid. */
  const InvalidLeaf := LeafNode(-1, 0.0)

  /** The builder's leaf encoding of column `index`: never `-1` and never a
      split axis. */
  function EncodeIndex(index: nat): (d: int)
    ensures d <= -2
  {
    -2 - index
  }

  /** The search's decoding `-(cd + 2)` of a leaf: it gives back the column
      the builder encoded. */
  function DecodeIndex(d: int): (index: nat)
    requires d <= -2
    ensures EncodeIndex(index) == d
  {
    -(d + 2)
  }

  /** The encoding is one-to-one, so distinct columns get distinct leaves. */
  lemma EncodeInjective(i: nat, j: nat)
    requires EncodeIndex(i) == EncodeIndex(j)
    ensures i == j
  {
    assert DecodeIndex(EncodeIndex(i)) == i by {
      assert EncodeIndex(DecodeIndex(EncodeIndex(i))) == EncodeIndex(i);
    }
  }

  /** The columns held by the subtree at `p`, leaves from left to right. */
  function Contents(nodes: seq<LeafNode>, p: nat): seq<nat>
    decreases |nodes| - p
  {
    if p >= |nodes| || nodes[p].dim == -1 then []
    else if nodes[p].dim <= -2 then [DecodeIndex(nodes[p].dim)]
    else Contents(nodes, ChildLeft(p)) + Contents(nodes, ChildRight(p))
  }

  /** Coordinate `d` of column `i`, when the cloud has it. */
  function CoordOf(cloud: Cloud, i: nat, d: nat): real
  {
    if i < |cloud| && d < |cloud[i]| then cloud[i][d] else 0.0
  }

  /** The subtree at `p` is well formed over `cloud` of `dim` coordinates:
      leaves name columns of the cloud, split nodes have both children
      inside the array, and every column on the left is at most, every
      column on the right at least, the cut value on the node's axis. */
  ghost predicate Valid(nodes: seq<LeafNode>, p: nat, cloud: Cloud, dim: nat)
    decreases |nodes| - p
  {
    p < |nodes|
    && var n := nodes[p];
    (n.dim <= -2 ==> DecodeIndex(n.dim) < |cloud|)
    && (n.dim >= 0 ==>
          n.dim < dim && ChildRight(p) < |nodes|
          && Valid(nodes, ChildLeft(p), cloud, dim) && Valid(nodes, ChildRight(p), cloud, dim)
          && (forall i :: i in Contents(nodes, ChildLeft(p)) ==> CoordOf(cloud, i, n.dim) <= n.cutVal)
          && (forall i :: i in Contents(nodes, ChildRight(p)) ==> n.cutVal <= CoordOf(cloud, i, n.dim)))
  }

  /** Every column a well-formed subtree holds is a column of the cloud. */
  lemma {:induction false} ContentsInCloud(nodes: seq<LeafNode>, p: nat, cloud: Cloud, dim: nat)
    requires Valid(nodes, p, cloud, dim)
    ensures forall i :: i in Contents(nodes, p) ==> i < |cloud|
    decreases |nodes| - p
  {
    if nodes[p].dim >= 0 {
      ContentsInCloud(nodes, ChildLeft(p), cloud, dim);
      ContentsInCloud(nodes, ChildRight(p), cloud, dim);
    }
  }

  /** Two arrays that agree on the subtree of `p` agree on what it holds. */
  lemma {:induction false} ContentsFrame(a: seq<LeafNode>, b: seq<LeafNode>, p: nat)
    requires |a| == |b|
    requires forall i :: 0 <= i < |a| && InSubtree(i, p) ==> a[i] == b[i]
    ensures Contents(a, p) == Contents(b, p)
    decreases |a| - p
  {
    if p < |a| && a[p].dim >= 0 {
      forall i | 0 <= i < |a| && InSubtree(i, ChildLeft(p))
        ensures a[i] == b[i]
      {
        ChildSubtree(i, p);
      }
      forall i | 0 <= i < |a| && InSubtree(i, ChildRight(p))
        ensures a[i] == b[i]
      {
        ChildSubtree(i, p);
      }
      ContentsFrame(a, b, ChildLeft(p));
      ContentsFrame(a, b, ChildRight(p));
    }
  }

  /** Two arrays that agree on the subtree of `p` agree on its validity. */
  lemma {:induction false} ValidFrame(a: seq<LeafNode>, b: seq<LeafNode>, p: nat, cloud: Cloud, dim: nat)
    requires |a| == |b| && Valid(a, p, cloud, dim)
    requires forall i :: 0 <= i < |a| && InSubtree(i, p) ==> a[i] == b[i]
    ensures Valid(b, p, cloud, dim)
    decreases |a| - p
  {
    if a[p].dim >= 0 {
      forall i | 0 <= i < |a| && InSubtree(i, ChildLeft(p))
        ensures a[i] == b[i]
      {
        ChildSubtree(i, p);
      }
      forall i | 0 <= i < |a| && InSubtree(i, ChildRight(p))
        ensures a[i] == b[i]
      {
        ChildSubtree(i, p);
      }
      ValidFrame(a, b, ChildLeft(p), cloud, dim);
      ValidFrame(a, b, ChildRight(p), cloud, dim);
      ContentsFrame(a, b, ChildLeft(p));
      ContentsFrame(a, b, ChildRight(p));
    }
  }

  /** Every build point is the column of the cloud it names. */
  ghost predicate OfCloud(pts: seq<BuildPoint>, cloud: Cloud)
  {
    forall x :: x in pts ==> x.index < |cloud| && x.pos == cloud[x.index]
  }

  /** The levels a points-in-leaves subtree of `count > 0` points needs. */
  function Levels(count: nat): nat
    requires count > 0
  {
    BitLength(count - 1) + 1
  }

  /** Both sides of a cut keep the dimension of the points. */
  lemma SidesDims(s: seq<BuildPoint>, m: nat, dim: nat)
    requires HasDim(s, dim) && m < |s|
    ensures HasDim(s[..m], dim) && HasDim(s[m..], dim)
    ensures |s[m].pos| == dim
  {
    assert forall i :: 0 <= i < |s| - m ==> s[m..][i] == s[m + i];
  }

  /** The split of `count >= 2` points: `rightCount` is `count / 2` and
      `leftCount` the rest, so the sides partition the range and the left
      one has the extra point when `count` is odd. */
  function LeafSplitCounts(count: nat): (r: (nat, nat))
    requires count >= 2
    ensures r.0 + r.1 == count
    ensures r.0 == r.1 || r.0 == r.1 + 1
    ensures r.0 > 0 && r.1 > 0
  {
    var rightCount := count / 2;
    (count - rightCount, rightCount)
  }

  /** `buildNodes(first, last, pos)`: a single point becomes a leaf
      encoding its column; otherwise the range is sorted on the axis of
      largest variance, the node at `pos` cuts at the coordinate of the
      first point after `leftCount`, and the two sides are built below it,
      left first. */
  ghost function Build(pts: seq<BuildPoint>, pos: nat, nodes: seq<LeafNode>, dim: nat): (r: seq<LeafNode>)
    requires |pts| > 0 && dim > 0 && HasDim(pts, dim)
    requires Fits(pos, Levels(|pts|), |nodes|)
    ensures |r| == |nodes|
    decreases |pts|
  {
    if |pts| == 1 then
      FitsChildren(pos, 1, |nodes|);
      nodes[pos := LeafNode(EncodeIndex(pts[0].index), 0.0)]
    else
      var cutDim := VarianceCutDim(pts, dim);
      var s := StdSort(pts, CompareDim(cutDim));
      var leftCount := LeafSplitCounts(|pts|).0;
      LeavesSplitFits(pos, |pts|, |nodes|);
      HasDimPermutation(pts, s, dim);
      SidesDims(s, leftCount, dim);
      var l := Build(s[..leftCount], ChildLeft(pos), nodes[pos := LeafNode(cutDim, s[leftCount].pos[cutDim])], dim);
      Build(s[leftCount..], ChildRight(pos), l, dim)
  }

  /** What `buildNodes` establishes: it writes only inside the subtree of
      `pos`, leaves that subtree well formed, and holds there exactly the
      columns of its range, each in a leaf of its own. */
  lemma {:induction false} BuildValid(pts: seq<BuildPoint>, pos: nat, nodes: seq<LeafNode>, dim: nat, cloud: Cloud)
    requires |pts| > 0 && dim > 0 && HasDim(pts, dim) && OfCloud(pts, cloud)
    requires Fits(pos, Levels(|pts|), |nodes|)
    ensures forall i :: 0 <= i < |nodes| && !InSubtree(i, pos) ==> Build(pts, pos, nodes, dim)[i] == nodes[i]
    ensures Valid(Build(pts, pos, nodes, dim), pos, cloud, dim)
    ensures multiset(Contents(Build(pts, pos, nodes, dim), pos)) == multiset(Indexes(pts))
    decreases |pts|, 1
  {
    if |pts| == 1 {
      FitsChildren(pos, 1, |nodes|);
      assert pts[0] in pts;
      assert Indexes(pts) == [pts[0].index];
    } else {
      var s, cutDim := BuildSplit(pts, pos, nodes, dim, cloud);
      var m := LeafSplitCounts(|pts|).0;
      BuildSplitUnfold(pts, pos, nodes, dim, s, cutDim, m);
      BuildSplitValid(s, pos, cutDim, nodes,
                      Build(s[..m], ChildLeft(pos), nodes[pos := LeafNode(cutDim, s[m].pos[cutDim])], dim),
                      Build(pts, pos, nodes, dim), dim, cloud);
      MapPermutation(BuildPoints.IndexOf, s, pts);
    }
  }

  /** The first half of a step of `Build` on two or more points: the cut
      axis, the range sorted on it, and the room both sides have. */
  lemma BuildSplit(pts: seq<BuildPoint>, pos: nat, nodes: seq<LeafNode>, dim: nat, cloud: Cloud)
    returns (s: seq<BuildPoint>, cutDim: nat)
    requires |pts| > 1 && dim > 0 && HasDim(pts, dim) && OfCloud(pts, cloud)
    requires Fits(pos, Levels(|pts|), |nodes|)
    ensures cutDim == VarianceCutDim(pts, dim) && s == StdSort(pts, CompareDim(cutDim))
    ensures |s| == |pts| && multiset(s) == multiset(pts)
    ensures cutDim < dim && HasDim(s, dim) && OfCloud(s, cloud) && SortedOn(s, CompareDim(cutDim))
    ensures pos < |nodes|
    ensures Fits(ChildLeft(pos), Levels(LeafSplitCounts(|s|).0), |nodes|)
    ensures Fits(ChildRight(pos), Levels(LeafSplitCounts(|s|).1), |nodes|)
  {
    cutDim := VarianceCutDim(pts, dim);
    s := StdSort(pts, CompareDim(cutDim));
    LeavesSplitFits(pos, |pts|, |nodes|);
    HasDimPermutation(pts, s, dim);
    forall x | x in s
      ensures x.index < |cloud| && x.pos == cloud[x.index]
    {
      assert x in multiset(pts);
    }
  }

  /** A step of `Build` on two or more points: the cut goes to `pos`, then
      the left side is built, then the right side. */
  lemma BuildSplitUnfold(pts: seq<BuildPoint>, pos: nat, nodes: seq<LeafNode>, dim: nat, s: seq<BuildPoint>, cutDim: nat, m: nat)
    requires |pts| > 1 && dim > 0 && HasDim(pts, dim)
    requires Fits(pos, Levels(|pts|), |nodes|)
    requires cutDim == VarianceCutDim(pts, dim) && s == StdSort(pts, CompareDim(cutDim))
    requires m == LeafSplitCounts(|pts|).0 && |s| == |pts| && HasDim(s, dim)
    requires pos < |nodes|
    requires Fits(ChildLeft(pos), Levels(m), |nodes|)
    requires Fits(ChildRight(pos), Levels(|pts| - m), |nodes|)
    ensures HasDim(s[..m], dim) && HasDim(s[m..], dim) && |s[m].pos| == dim
    ensures Build(pts, pos, nodes, dim)
         == Build(s[m..], ChildRight(pos),
                  Build(s[..m], ChildLeft(pos), nodes[pos := LeafNode(cutDim, s[m].pos[cutDim])], dim),
                  dim)
  {
    SidesDims(s, m, dim);
  }

  /** The split case of `BuildValid`: both sides are built in turn below the
      cut stored at `pos`. */
  lemma {:induction false} BuildSplitValid(s: seq<BuildPoint>, pos: nat, cutDim: nat, nodes: seq<LeafNode>,
                                           l: seq<LeafNode>, r: seq<LeafNode>, dim: nat, cloud: Cloud)
    requires |s| > 1 && cutDim < dim && HasDim(s, dim) && OfCloud(s, cloud)
    requires SortedOn(s, CompareDim(cutDim))
    requires pos < |nodes|
    requires Fits(ChildLeft(pos), Levels(LeafSplitCounts(|s|).0), |nodes|)
    requires Fits(ChildRight(pos), Levels(LeafSplitCounts(|s|).1), |nodes|)
    requires HasDim(s[..LeafSplitCounts(|s|).0], dim) && HasDim(s[LeafSplitCounts(|s|).0..], dim)
    requires l == Build(s[..LeafSplitCounts(|s|).0], ChildLeft(pos),
                        nodes[pos := LeafNode(cutDim, s[LeafSplitCounts(|s|).0].pos[cutDim])], dim)
    requires r == Build(s[LeafSplitCounts(|s|).0..], ChildRight(pos), l, dim)
    ensures forall i :: 0 <= i < |nodes| && !InSubtree(i, pos) ==> r[i] == nodes[i]
    ensures Valid(r, pos, cloud, dim)
    ensures multiset(Contents(r, pos)) == multiset(Indexes(s))
    decreases |s|, 0
  {
    var m := LeafSplitCounts(|s|).0;
    SidesOfCloud(s, m, cloud);
    BuildValid(s[..m], ChildLeft(pos), nodes[pos := LeafNode(cutDim, s[m].pos[cutDim])], dim, cloud);
    BuildValid(s[m..], ChildRight(pos), l, dim, cloud);
    SortedIsPartitioned(s, CompareDim(cutDim), m);
    BuiltSidesValid(s, m, pos, cutDim, nodes, nodes[pos := LeafNode(cutDim, s[m].pos[cutDim])], l, r, dim, cloud);
  }

  /** Both sides of a range of the cloud's columns are of the cloud. */
  lemma SidesOfCloud(s: seq<BuildPoint>, m: nat, cloud: Cloud)
    requires OfCloud(s, cloud) && m <= |s|
    ensures OfCloud(s[..m], cloud) && OfCloud(s[m..], cloud)
  {
    forall x | x in s[..m]
      ensures x in s
    {
    }
    forall x | x in s[m..]
      ensures x in s
    {
    }
  }

  /** The split case of every points-in-leaves builder once both sides are
      built: a range with the cut point `s[m]` in its place, cut at that
      point's coordinate, gives a well-formed subtree holding every column
      of the range. */
  lemma BuiltSidesValid(s: seq<BuildPoint>, m: nat, pos: nat, cutDim: nat, nodes: seq<LeafNode>, withNode: seq<LeafNode>,
                        l: seq<LeafNode>, r: seq<LeafNode>, dim: nat, cloud: Cloud)
    requires 0 < m < |s| && cutDim < dim && HasDim(s, dim) && OfCloud(s, cloud)
    requires PartitionedAt(s, CompareDim(cutDim), m)
    requires pos < |nodes| == |withNode| == |l| == |r| && ChildRight(pos) < |r|
    requires |s[m].pos| == dim
    requires withNode == nodes[pos := LeafNode(cutDim, s[m].pos[cutDim])]
    requires forall i :: 0 <= i < |nodes| && !InSubtree(i, ChildLeft(pos)) ==> l[i] == withNode[i]
    requires Valid(l, ChildLeft(pos), cloud, dim)
    requires multiset(Contents(l, ChildLeft(pos))) == multiset(Indexes(s[..m]))
    requires forall i :: 0 <= i < |nodes| && !InSubtree(i, ChildRight(pos)) ==> r[i] == l[i]
    requires Valid(r, ChildRight(pos), cloud, dim)
    requires multiset(Contents(r, ChildRight(pos))) == multiset(Indexes(s[m..]))
    ensures forall i :: 0 <= i < |nodes| && !InSubtree(i, pos) ==> r[i] == nodes[i]
    ensures Valid(r, pos, cloud, dim)
    ensures multiset(Contents(r, pos)) == multiset(Indexes(s))
  {
    SplitFrame(pos, nodes, withNode, l, r);
    LeftIntact(pos, l, r);
    ValidFrame(l, r, ChildLeft(pos), cloud, dim);
    ContentsFrame(l, r, ChildLeft(pos));
    BelowCut(s, m, cutDim, Contents(r, ChildLeft(pos)), cloud, dim);
    AboveCut(s, m, cutDim, Contents(r, ChildRight(pos)), cloud, dim);
    IndexesSplit(s, m);
    CutAssemble(r, pos, cloud, dim);
  }

  /** The column indexes of a range are those of its two sides. */
  lemma IndexesSplit(s: seq<BuildPoint>, m: nat)
    requires m <= |s|
    ensures Indexes(s) == Indexes(s[..m]) + Indexes(s[m..])
  {
    assert s == s[..m] + s[m..];
    MapConcat(BuildPoints.IndexOf, s[..m], s[m..]);
  }

  /** A split node over two well-formed subtrees ordered around its cut is
      a well-formed subtree holding both sides' columns. */
  lemma CutAssemble(r: seq<LeafNode>, pos: nat, cloud: Cloud, dim: nat)
    requires pos < |r| && ChildRight(pos) < |r| && 0 <= r[pos].dim < dim
    requires Valid(r, ChildLeft(pos), cloud, dim) && Valid(r, ChildRight(pos), cloud, dim)
    requires forall i :: i in Contents(r, ChildLeft(pos)) ==> CoordOf(cloud, i, r[pos].dim) <= r[pos].cutVal
    requires forall i :: i in Contents(r, ChildRight(pos)) ==> r[pos].cutVal <= CoordOf(cloud, i, r[pos].dim)
    ensures Valid(r, pos, cloud, dim)
    ensures Contents(r, pos) == Contents(r, ChildLeft(pos)) + Contents(r, ChildRight(pos))
  {
  }

  /** Every column drawn from the part of a range before its cut point is
      at most the cut point on the cut axis. */
  lemma BelowCut(s: seq<BuildPoint>, m: nat, d: nat, xs: seq<nat>, cloud: Cloud, dim: nat)
    requires PartitionedAt(s, CompareDim(d), m) && OfCloud(s, cloud) && HasDim(s, dim) && d < dim
    requires multiset(xs) == multiset(Indexes(s[..m]))
    ensures forall i :: i in xs ==> CoordOf(cloud, i, d) <= s[m].pos[d]
  {
    forall i | i in xs
      ensures CoordOf(cloud, i, d) <= s[m].pos[d]
    {
      assert i in multiset(Indexes(s[..m]));
      var j :| 0 <= j < m && Indexes(s[..m])[j] == i;
      assert s[..m][j] == s[j] && s[j] in s;
      assert CompareDim(d)(s[j]) <= CompareDim(d)(s[m]);
    }
  }

  /** Every column drawn from the part of a range from its cut point on is
      at least the cut point on the cut axis. */
  lemma AboveCut(s: seq<BuildPoint>, m: nat, d: nat, xs: seq<nat>, cloud: Cloud, dim: nat)
    requires PartitionedAt(s, CompareDim(d), m) && OfCloud(s, cloud) && HasDim(s, dim) && d < dim
    requires multiset(xs) == multiset(Indexes(s[m..]))
    ensures forall i :: i in xs ==> s[m].pos[d] <= CoordOf(cloud, i, d)
  {
    forall i | i in xs
      ensures s[m].pos[d] <= CoordOf(cloud, i, d)
    {
      assert i in multiset(Indexes(s[m..]));
      var j :| 0 <= j < |s| - m && Indexes(s[m..])[j] == i;
      assert s[m..][j] == s[m + j] && s[m + j] in s;
      if j > 0 {
        assert CompareDim(d)(s[m]) <= CompareDim(d)(s[m + j]);
      }
    }
  }

  /** The build points of a cloud are its columns. */
  lemma FromCloudOfCloud(cloud: Cloud, dim: nat)
    requires IsCloud(cloud, dim)
    ensures OfCloud(FromCloud(cloud), cloud) && HasDim(FromCloud(cloud), dim)
  {
    FromCloudOnce(cloud);
  }

  /** The constructor: build points for every column, an array of
      `getTreeSize(n)` invalid nodes, and `buildNodes` over the whole range
      from the root. */
  ghost function BuildTree(cloud: Cloud, dim: nat): (r: seq<LeafNode>)
    requires 0 < |cloud| < Pow2(31) && dim > 0 && IsCloud(cloud, dim)
    ensures |r| == LeavesSize(|cloud|)
    ensures Valid(r, 0, cloud, dim)
    ensures multiset(Contents(r, 0)) == multiset(Range(|cloud|))
  {
    var pts := FromCloud(cloud);
    var empty := seq(LeavesSize(|cloud|), _ => InvalidLeaf);
    RootFits(Levels(|cloud|));
    FromCloudOfCloud(cloud, dim);
    FromCloudIndexes(cloud);
    BuildValid(pts, 0, empty, dim, cloud);
    Build(pts, 0, empty, dim)
  }

  /** Every column of the cloud sits in exactly one leaf of the tree, and
      the tree holds nothing else. */
  lemma TreeHoldsEachColumnOnce(cloud: Cloud, dim: nat)
    requires 0 < |cloud| < Pow2(31) && dim > 0 && IsCloud(cloud, dim)
    ensures forall i :: 0 <= i < |cloud| ==> multiset(Contents(BuildTree(cloud, dim), 0))[i] == 1
    ensures forall i :: i in Contents(BuildTree(cloud, dim), 0) ==> i < |cloud|
  {
    var c := Contents(BuildTree(cloud, dim), 0);
    assert multiset(c) == multiset(Range(|cloud|));
    FromCloudIndexes(cloud);
    RangeMembers(|cloud|);
    forall i | i in c
      ensures i < |cloud|
    {
      assert i in multiset(c);
    }
  }
}
