/** `KDTreePtInNodes`: every node of the implicit tree holds a point; a
    split node also cuts space on one axis at its own coordinate. The
    builder sorts the range on the cut axis and stores its median. */
module PtInNodes {
  import opened SeqUtil
  import opened Nabo
  import opened BuildPoints
  import opened Layout
  import opened TreeSize
  import opened Sorting

  /** `Node`: `dim >= 0` splits on that axis, `-1` is a leaf, `-2` is an
      invalid (unused) slot. */
  datatype Node = Node(pos: Vector, dim: int, index: nat)

  /** A default-constructed node, `Node()`: invalid. */
  const InvalidNode := Node([], -2, 0)

  predicate IsInvalid(n: Node)
  {
    n.dim == -2
  }

  /** The points held by the subtree at `p`, in order: left subtree, the node,
      right subtree. An invalid slot holds nothing and a leaf only itself. */
  function Contents(nodes: seq<Node>, p: nat): seq<BuildPoint>
    decreases |nodes| - p
  {
    if p >= |nodes| then []
    else
      var n := nodes[p];
      if n.dim == -2 then []
      else if n.dim < 0 then [BuildPoint(n.pos, n.index)]
      else Contents(nodes, ChildLeft(p)) + [BuildPoint(n.pos, n.index)] + Contents(nodes, ChildRight(p))
  }

  /** The subtree at `p` is well formed for points of `dim` coordinates:
      encodings are in range, split nodes have both children inside the
      array, and every point on the left is at most, every point on the
      right at least, the node's coordinate on its axis. */
  ghost predicate Valid(nodes: seq<Node>, p: nat, dim: nat)
    decreases |nodes| - p
  {
    p < |nodes|
    && var n := nodes[p];
    n.dim >= -2
    && (n.dim != -2 ==> |n.pos| == dim)
    && (n.dim >= 0 ==>
          n.dim < dim && ChildRight(p) < |nodes|
          && Valid(nodes, ChildLeft(p), dim) && Valid(nodes, ChildRight(p), dim)
          && (forall x :: x in Contents(nodes, ChildLeft(p)) ==> Coord(x, n.dim) <= n.pos[n.dim])
          && (forall x :: x in Contents(nodes, ChildRight(p)) ==> n.pos[n.dim] <= Coord(x, n.dim)))
  }

  /** Every point of a well-formed subtree has `dim` coordinates. */
  lemma {:induction false} ContentsDim(nodes: seq<Node>, p: nat, dim: nat)
    requires Valid(nodes, p, dim)
    ensures HasDim(Contents(nodes, p), dim)
    decreases |nodes| - p
  {
    if nodes[p].dim >= 0 {
      ContentsDim(nodes, ChildLeft(p), dim);
      ContentsDim(nodes, ChildRight(p), dim);
    }
  }

  /** Two arrays that agree on the subtree of `p` agree on what it holds. */
  lemma {:induction false} ContentsFrame(a: seq<Node>, b: seq<Node>, p: nat)
    requires |a| == |b|
    requires forall i :: 0 <= i < |a| && InSubtree(i, p) ==> a[i] == b[i]
    ensures Contents(a, p) == Contents(b, p)
    decreases |a| - p
  {
    if p < |a| && a[p].dim >= 0 {
      forall i | 0 <= i < |a| && InSubtree(i, ChildLeft(p))
        ensures a[i] == b[i]
      {
        ChildSubtree(i, p);
      }
      forall i | 0 <= i < |a| && InSubtree(i, ChildRight(p))
        ensures a[i] == b[i]
      {
        ChildSubtree(i, p);
      }
      ContentsFrame(a, b, ChildLeft(p));
      ContentsFrame(a, b, ChildRight(p));
    }
  }

  /** Two arrays that agree on the subtree of `p` agree on its validity. */
  lemma {:induction false} ValidFrame(a: seq<Node>, b: seq<Node>, p: nat, dim: nat)
    requires |a| == |b| && Valid(a, p, dim)
    requires forall i :: 0 <= i < |a| && InSubtree(i, p) ==> a[i] == b[i]
    ensures Valid(b, p, dim)
    decreases |a| - p
  {
    if a[p].dim >= 0 {
      forall i | 0 <= i < |a| && InSubtree(i, ChildLeft(p))
        ensures a[i] == b[i]
      {
        ChildSubtree(i, p);
      }
      forall i | 0 <= i < |a| && InSubtree(i, ChildRight(p))
        ensures a[i] == b[i]
      {
        ChildSubtree(i, p);
      }
      ValidFrame(a, b, ChildLeft(p), dim);
      ValidFrame(a, b, ChildRight(p), dim);
      ContentsFrame(a, b, ChildLeft(p));
      ContentsFrame(a, b, ChildRight(p));
    }
  }

  /** The split of `count` points around a median: `rightCount` is
      `(count - 1) / 2` and `leftCount` the rest of the `count - 1` others,
      so the left side has the extra point when `count` is even. */
  function SplitCounts(count: nat): (r: (nat, nat))
    requires count >= 1
    ensures r.0 + 1 + r.1 == count
    ensures r.0 == r.1 || r.0 == r.1 + 1
    ensures r.0 == count / 2
  {
    var rightCount := (count - 1) / 2;
    ((count - 1) - rightCount, rightCount)
  }

  /** `buildNodes(first, last, pos)`: a single point becomes a leaf;
      otherwise the range is sorted on the axis of largest variance, its
      median (after `(count - 1) - (count - 1) / 2` points) is stored at
      `pos`, and the two sides are built below it, except that a two-point
      range gets a leaf on the left and an invalid node on the right. */
  ghost function Build(pts: seq<BuildPoint>, pos: nat, nodes: seq<Node>, dim: nat): (r: seq<Node>)
    requires |pts| > 0 && dim > 0 && HasDim(pts, dim)
    requires Fits(pos, BitLength(|pts|), |nodes|)
    ensures |r| == |nodes|
    decreases |pts|
  {
    var count := |pts|;
    if count == 1 then
      assert BitLength(1) == 1;
      FitsChildren(pos, 1, |nodes|);
      nodes[pos := Node(pts[0].pos, -1, pts[0].index)]
    else
      var cutDim := VarianceCutDim(pts, dim);
      var s := StdSort(pts, CompareDim(cutDim));
      var leftCount := SplitCounts(count).0;
      BuildStepFits(pts, pos, nodes, dim);
      var withNode := nodes[pos := Node(s[leftCount].pos, cutDim, s[leftCount].index)];
      if count > 2 then
        var l := Build(s[..leftCount], ChildLeft(pos), withNode, dim);
        Build(s[leftCount + 1..], ChildRight(pos), l, dim)
      else
        withNode[ChildLeft(pos) := Node(s[0].pos, -1, s[0].index)][ChildRight(pos) := InvalidNode]
  }

  /** Both sides of a split keep the dimension of the points. */
  lemma SliceDims(s: seq<BuildPoint>, m: nat, dim: nat)
    requires HasDim(s, dim) && m < |s|
    ensures HasDim(s[..m], dim) && HasDim(s[m + 1..], dim)
    ensures |s[m].pos| == dim
  {
  }

  /** What `buildNodes` establishes: it writes only inside the subtree of
      `pos`, leaves that subtree well formed, and stores there exactly the
      points of its range. */
  lemma {:induction false} BuildValid(pts: seq<BuildPoint>, pos: nat, nodes: seq<Node>, dim: nat)
    requires |pts| > 0 && dim > 0 && HasDim(pts, dim)
    requires Fits(pos, BitLength(|pts|), |nodes|)
    ensures forall i :: 0 <= i < |nodes| && !InSubtree(i, pos) ==> Build(pts, pos, nodes, dim)[i] == nodes[i]
    ensures Valid(Build(pts, pos, nodes, dim), pos, dim)
    ensures multiset(Contents(Build(pts, pos, nodes, dim), pos)) == multiset(pts)
    decreases |pts|, 2
  {
    if |pts| == 1 {
      assert BitLength(1) == 1;
      FitsChildren(pos, 1, |nodes|);
      assert pts == [pts[0]];
    } else if |pts| == 2 {
      BuildPairValid(pts, pos, nodes, dim);
    } else {
      BuildStepValid(pts, pos, nodes, dim);
    }
  }

  /** `BuildValid` on more than two points. */
  lemma {:induction false} BuildStepValid(pts: seq<BuildPoint>, pos: nat, nodes: seq<Node>, dim: nat)
    requires |pts| > 2 && dim > 0 && HasDim(pts, dim)
    requires Fits(pos, BitLength(|pts|), |nodes|)
    ensures forall i :: 0 <= i < |nodes| && !InSubtree(i, pos) ==> Build(pts, pos, nodes, dim)[i] == nodes[i]
    ensures Valid(Build(pts, pos, nodes, dim), pos, dim)
    ensures multiset(Contents(Build(pts, pos, nodes, dim), pos)) == multiset(pts)
    decreases |pts|, 1
  {
    var s, cutDim := BuildSplit(pts, pos, nodes, dim);
    BuildSplitUnfold(pts, pos, nodes, dim, s, cutDim, |s| / 2);
    BuildSplitValid(s, pos, cutDim, nodes,
                    Build(s[..|s| / 2], ChildLeft(pos), nodes[pos := Node(s[|s| / 2].pos, cutDim, s[|s| / 2].index)], dim),
                    Build(pts, pos, nodes, dim), dim);
  }

  /** `BuildValid` on two points. */
  lemma BuildPairValid(pts: seq<BuildPoint>, pos: nat, nodes: seq<Node>, dim: nat)
    requires |pts| == 2 && dim > 0 && HasDim(pts, dim)
    requires Fits(pos, BitLength(|pts|), |nodes|)
    ensures forall i :: 0 <= i < |nodes| && !InSubtree(i, pos) ==> Build(pts, pos, nodes, dim)[i] == nodes[i]
    ensures Valid(Build(pts, pos, nodes, dim), pos, dim)
    ensures multiset(Contents(Build(pts, pos, nodes, dim), pos)) == multiset(pts)
  {
    var s, cutDim := BuildSplit(pts, pos, nodes, dim);
    BuildPairUnfold(pts, pos, nodes, dim, s, cutDim);
    PairValid(s, pos, cutDim, nodes, Build(pts, pos, nodes, dim), dim);
  }

  /** The first half of a step of `Build` on two or more points: the cut
      axis, the range sorted on it, and the room both sides have. */
  lemma BuildSplit(pts: seq<BuildPoint>, pos: nat, nodes: seq<Node>, dim: nat)
    returns (s: seq<BuildPoint>, cutDim: nat)
    requires |pts| > 1 && dim > 0 && HasDim(pts, dim)
    requires Fits(pos, BitLength(|pts|), |nodes|)
    ensures cutDim == VarianceCutDim(pts, dim) && s == StdSort(pts, CompareDim(cutDim))
    ensures |s| == |pts| && multiset(s) == multiset(pts)
    ensures cutDim < dim && HasDim(s, dim) && SortedOn(s, CompareDim(cutDim))
    ensures pos < |nodes| && ChildRight(pos) < |nodes|
    ensures Fits(ChildLeft(pos), BitLength(|s| / 2), |nodes|)
    ensures Fits(ChildRight(pos), BitLength((|s| - 1) / 2), |nodes|)
    ensures HasDim(s[..|s| / 2], dim) && HasDim(s[|s| / 2 + 1..], dim)
  {
    var count := |pts|;
    cutDim := VarianceCutDim(pts, dim);
    s := StdSort(pts, CompareDim(cutDim));
    NodesSplitFits(pos, count, |nodes|);
    if count > 2 {
      Pow2Monotone(1, BitLength((count - 1) / 2));
      BitLengthBounds((count - 1) / 2);
      FitsChildren(ChildRight(pos), BitLength((count - 1) / 2), |nodes|);
    }
    HasDimPermutation(pts, s, dim);
    SliceDims(s, count / 2, dim);
  }

  /** What the recursive calls of `buildNodes` need: the sorted range
      splits into two halves of `dim`-coordinate points whose subtrees
      fit, and the node slot and its right child are inside the array. */
  lemma BuildStepFits(pts: seq<BuildPoint>, pos: nat, nodes: seq<Node>, dim: nat)
    requires |pts| > 1 && dim > 0 && HasDim(pts, dim)
    requires Fits(pos, BitLength(|pts|), |nodes|)
    ensures var s := StdSort(pts, CompareDim(VarianceCutDim(pts, dim)));
            var m := |pts| / 2;
            |s| == |pts| && pos < |nodes| && ChildRight(pos) < |nodes| && |s[m].pos| == dim
            && HasDim(s[..m], dim) && HasDim(s[m + 1..], dim)
            && Fits(ChildLeft(pos), BitLength(|s[..m]|), |nodes|)
            && Fits(ChildRight(pos), BitLength(|s[m + 1..]|), |nodes|)
  {
    var s, cutDim := BuildSplit(pts, pos, nodes, dim);
    SliceDims(s, |pts| / 2, dim);
    assert |s[..|pts| / 2]| == |s| / 2 && |s[|pts| / 2 + 1..]| == (|s| - 1) / 2;
  }

  /** A step of `Build` on more than two points: the median goes to `pos`,
      then the left side is built, then the right side. */
  lemma BuildSplitUnfold(pts: seq<BuildPoint>, pos: nat, nodes: seq<Node>, dim: nat, s: seq<BuildPoint>, cutDim: nat, m: nat)
    requires |pts| > 2 && dim > 0 && HasDim(pts, dim)
    requires Fits(pos, BitLength(|pts|), |nodes|)
    requires cutDim == VarianceCutDim(pts, dim) && s == StdSort(pts, CompareDim(cutDim))
    requires m == SplitCounts(|pts|).0 && |s| == |pts|
    requires pos < |nodes| && HasDim(s[..m], dim) && HasDim(s[m + 1..], dim)
    requires Fits(ChildLeft(pos), BitLength(m), |nodes|)
    requires Fits(ChildRight(pos), BitLength(|pts| - 1 - m), |nodes|)
    ensures Build(pts, pos, nodes, dim)
         == Build(s[m + 1..], ChildRight(pos),
                  Build(s[..m], ChildLeft(pos), nodes[pos := Node(s[m].pos, cutDim, s[m].index)], dim),
                  dim)
  {
  }

  /** A step of `Build` on two points: the larger goes to `pos`, the
      smaller to a leaf on the left, and the right child is invalid. */
  lemma BuildPairUnfold(pts: seq<BuildPoint>, pos: nat, nodes: seq<Node>, dim: nat, s: seq<BuildPoint>, cutDim: nat)
    requires |pts| == 2 && dim > 0 && HasDim(pts, dim)
    requires Fits(pos, BitLength(|pts|), |nodes|)
    requires cutDim == VarianceCutDim(pts, dim) && s == StdSort(pts, CompareDim(cutDim))
    requires pos < |nodes| && ChildRight(pos) < |nodes|
    ensures Build(pts, pos, nodes, dim)
         == nodes[pos := Node(s[1].pos, cutDim, s[1].index)]
                 [ChildLeft(pos) := Node(s[0].pos, -1, s[0].index)][ChildRight(pos) := InvalidNode]
  {
  }

  /** The split case of `BuildValid`: both sides are built in turn below the
      median stored at `pos`. */
  lemma {:induction false} BuildSplitValid(s: seq<BuildPoint>, pos: nat, cutDim: nat, nodes: seq<Node>,
                                           l: seq<Node>, r: seq<Node>, dim: nat)
    requires |s| > 2 && cutDim < dim && HasDim(s, dim)
    requires SortedOn(s, CompareDim(cutDim))
    requires pos < |nodes|
    requires Fits(ChildLeft(pos), BitLength(|s| / 2), |nodes|)
    requires Fits(ChildRight(pos), BitLength((|s| - 1) / 2), |nodes|)
    requires HasDim(s[..|s| / 2], dim) && HasDim(s[|s| / 2 + 1..], dim)
    requires l == Build(s[..|s| / 2], ChildLeft(pos), nodes[pos := Node(s[|s| / 2].pos, cutDim, s[|s| / 2].index)], dim)
    requires r == Build(s[|s| / 2 + 1..], ChildRight(pos), l, dim)
    ensures forall i :: 0 <= i < |nodes| && !InSubtree(i, pos) ==> r[i] == nodes[i]
    ensures Valid(r, pos, dim)
    ensures multiset(Contents(r, pos)) == multiset(s)
    decreases |s|, 0
  {
    assert |s[..|s| / 2]| == |s| / 2 && |s[|s| / 2 + 1..]| == (|s| - 1) / 2;
    BuildValid(s[..|s| / 2], ChildLeft(pos), nodes[pos := Node(s[|s| / 2].pos, cutDim, s[|s| / 2].index)], dim);
    BuildValid(s[|s| / 2 + 1..], ChildRight(pos), l, dim);
    BuiltSidesValid(s, |s| / 2, pos, cutDim, nodes, nodes[pos := Node(s[|s| / 2].pos, cutDim, s[|s| / 2].index)], l, r, dim);
  }

  /** The split case of `BuildValid` once both recursive calls have kept
      their promises. */
  lemma BuiltSidesValid(s: seq<BuildPoint>, m: nat, pos: nat, cutDim: nat, nodes: seq<Node>, withNode: seq<Node>,
                      l: seq<Node>, r: seq<Node>, dim: nat)
    requires 0 < m < |s| - 1 && cutDim < dim && HasDim(s, dim)
    requires SortedOn(s, CompareDim(cutDim))
    requires pos < |nodes| == |withNode| == |l| == |r| && ChildRight(pos) < |r|
    requires withNode == nodes[pos := Node(s[m].pos, cutDim, s[m].index)]
    requires forall i :: 0 <= i < |nodes| && !InSubtree(i, ChildLeft(pos)) ==> l[i] == withNode[i]
    requires Valid(l, ChildLeft(pos), dim)
    requires multiset(Contents(l, ChildLeft(pos))) == multiset(s[..m])
    requires forall i :: 0 <= i < |nodes| && !InSubtree(i, ChildRight(pos)) ==> r[i] == l[i]
    requires Valid(r, ChildRight(pos), dim)
    requires multiset(Contents(r, ChildRight(pos))) == multiset(s[m + 1..])
    ensures forall i :: 0 <= i < |nodes| && !InSubtree(i, pos) ==> r[i] == nodes[i]
    ensures Valid(r, pos, dim)
    ensures multiset(Contents(r, pos)) == multiset(s)
  {
    SplitFrame(pos, nodes, withNode, l, r);
    LeftIntact(pos, l, r);
    SplitValid(s, m, pos, cutDim, l, r, dim);
  }

  /** The split case of `BuildValid`, once both sides are built: the node
      at `pos` holds the median and the left side, built first, is intact. */
  lemma SplitValid(s: seq<BuildPoint>, m: nat, pos: nat, cutDim: nat, l: seq<Node>, r: seq<Node>, dim: nat)
    requires 0 < m < |s| - 1 && cutDim < dim && HasDim(s, dim)
    requires SortedOn(s, CompareDim(cutDim))
    requires |l| == |r| && ChildRight(pos) < |r|
    requires r[pos] == Node(s[m].pos, cutDim, s[m].index)
    requires Valid(l, ChildLeft(pos), dim)
    requires multiset(Contents(l, ChildLeft(pos))) == multiset(s[..m])
    requires forall i :: 0 <= i < |r| && InSubtree(i, ChildLeft(pos)) ==> l[i] == r[i]
    requires Valid(r, ChildRight(pos), dim)
    requires multiset(Contents(r, ChildRight(pos))) == multiset(s[m + 1..])
    ensures Valid(r, pos, dim)
    ensures multiset(Contents(r, pos)) == multiset(s)
  {
    var left, right := ChildLeft(pos), ChildRight(pos);
    ValidFrame(l, r, left, dim);
    ContentsFrame(l, r, left);
    BelowMedian(s, m, cutDim, Contents(r, left));
    AboveMedian(s, m, cutDim, Contents(r, right));
    SplitAt(s, m);
    SplitAssemble(r, pos, dim, s[..m], s[m], s[m + 1..]);
  }

  /** Everything drawn from the part of a sorted range before `m` is at most
      the element at `m` on the sort key. */
  lemma BelowMedian(s: seq<BuildPoint>, m: nat, d: nat, xs: seq<BuildPoint>)
    requires m < |s| && SortedOn(s, CompareDim(d))
    requires multiset(xs) == multiset(s[..m])
    ensures forall x :: x in xs ==> Coord(x, d) <= Coord(s[m], d)
  {
    forall x | x in xs
      ensures Coord(x, d) <= Coord(s[m], d)
    {
      InSlice(s[..m], xs, x);
      var j :| 0 <= j < m && s[..m][j] == x;
      assert CompareDim(d)(s[j]) <= CompareDim(d)(s[m]);
    }
  }

  /** Everything drawn from the part of a sorted range after `m` is at least
      the element at `m` on the sort key. */
  lemma AboveMedian(s: seq<BuildPoint>, m: nat, d: nat, xs: seq<BuildPoint>)
    requires m < |s| && SortedOn(s, CompareDim(d))
    requires multiset(xs) == multiset(s[m + 1..])
    ensures forall x :: x in xs ==> Coord(s[m], d) <= Coord(x, d)
  {
    forall x | x in xs
      ensures Coord(s[m], d) <= Coord(x, d)
    {
      InSlice(s[m + 1..], xs, x);
      var j :| 0 <= j < |s| - m - 1 && s[m + 1..][j] == x;
      assert CompareDim(d)(s[m]) <= CompareDim(d)(s[m + 1 + j]);
    }
  }

  /** A split node over two well-formed, correctly ordered subtrees is a
      well-formed subtree holding their points and its own. */
  lemma SplitAssemble(r: seq<Node>, pos: nat, dim: nat, left: seq<BuildPoint>, mid: BuildPoint, right: seq<BuildPoint>)
    requires pos < |r| && ChildRight(pos) < |r|
    requires r[pos] == Node(mid.pos, r[pos].dim, mid.index)
    requires 0 <= r[pos].dim < dim && |mid.pos| == dim
    requires Valid(r, ChildLeft(pos), dim) && Valid(r, ChildRight(pos), dim)
    requires forall x :: x in Contents(r, ChildLeft(pos)) ==> Coord(x, r[pos].dim) <= Coord(mid, r[pos].dim)
    requires forall x :: x in Contents(r, ChildRight(pos)) ==> Coord(mid, r[pos].dim) <= Coord(x, r[pos].dim)
    requires multiset(Contents(r, ChildLeft(pos))) == multiset(left)
    requires multiset(Contents(r, ChildRight(pos))) == multiset(right)
    ensures Valid(r, pos, dim)
    ensures multiset(Contents(r, pos)) == multiset(left + [mid] + right)
  {
    assert BuildPoint(mid.pos, mid.index) == mid;
  }

  /** The two-point case of `BuildValid`: the median, a leaf on its left and
      an invalid node on its right. */
  lemma PairValid(s: seq<BuildPoint>, pos: nat, cutDim: nat, nodes: seq<Node>, r: seq<Node>, dim: nat)
    requires |s| == 2 && cutDim < dim && HasDim(s, dim)
    requires SortedOn(s, CompareDim(cutDim))
    requires ChildRight(pos) < |nodes|
    requires r == nodes[pos := Node(s[1].pos, cutDim, s[1].index)]
                       [ChildLeft(pos) := Node(s[0].pos, -1, s[0].index)][ChildRight(pos) := InvalidNode]
    ensures forall i :: 0 <= i < |nodes| && !InSubtree(i, pos) ==> r[i] == nodes[i]
    ensures Valid(r, pos, dim)
    ensures multiset(Contents(r, pos)) == multiset(s)
  {
    assert InSubtree(ChildLeft(pos), pos) && InSubtree(ChildRight(pos), pos);
    assert Contents(r, ChildLeft(pos)) == [s[0]];
    assert Contents(r, ChildRight(pos)) == [];
    assert CompareDim(cutDim)(s[0]) <= CompareDim(cutDim)(s[1]);
    assert s == [s[0]] + [s[1]];
  }

  /** The constructor: build points for every column, an array of
      `getTreeSize(n)` invalid nodes, and `buildNodes` over the whole
      range from the root. */
  ghost function BuildTree(cloud: Cloud, dim: nat): (r: seq<Node>)
    requires 0 < |cloud| < Pow2(31) && dim > 0 && IsCloud(cloud, dim)
    ensures |r| == NodesSize(|cloud|)
    ensures Valid(r, 0, dim)
    ensures multiset(Contents(r, 0)) == multiset(FromCloud(cloud))
  {
    var pts := FromCloud(cloud);
    var empty := seq(NodesSize(|cloud|), _ => InvalidNode);
    RootFits(BitLength(|cloud|));
    BuildValid(pts, 0, empty, dim);
    Build(pts, 0, empty, dim)
  }

  /** The tree holds every column exactly once, each with its own
      coordinates and column index, and nothing else. */
  lemma TreeHoldsEachColumnOnce(cloud: Cloud, dim: nat)
    requires 0 < |cloud| < Pow2(31) && dim > 0 && IsCloud(cloud, dim)
    ensures forall i :: 0 <= i < |cloud| ==>
              multiset(Contents(BuildTree(cloud, dim), 0))[BuildPoint(cloud[i], i)] == 1
    ensures forall x :: x in Contents(BuildTree(cloud, dim), 0) ==>
              x.index < |cloud| && x.pos == cloud[x.index]
  {
    FromCloudOnce(cloud);
    var c := Contents(BuildTree(cloud, dim), 0);
    forall x | x in c
      ensures x.index < |cloud| && x.pos == cloud[x.index]
    {
      assert x in multiset(FromCloud(cloud));
    }
  }

  /** Two points with distinct keys have one sorted order. */
  lemma SortedPairFixed(pts: seq<BuildPoint>, s: seq<BuildPoint>, d: nat)
    requires |pts| == 2 && Coord(pts[0], d) < Coord(pts[1], d)
    requires SortedOn(s, CompareDim(d)) && multiset(s) == multiset(pts)
    ensures s == pts
  {
    assert |s| == |multiset(s)| == 2;
    assert s == [s[0], s[1]] && pts == [pts[0], pts[1]];
    assert s[0] in multiset(pts) && s[1] in multiset(pts);
    assert CompareDim(d)(s[0]) <= CompareDim(d)(s[1]);
    if s[0] == pts[1] {
      assert false;
    }
    assert multiset(s) - multiset{pts[0]} == multiset{s[1]};
    assert multiset(pts) - multiset{pts[0]} == multiset{pts[1]};
  }

  /** The two-column cloud `[0], [1]` builds a root split at column 1, a
      leaf for column 0 on its left and an invalid node on its right. */
  lemma TwoColumnTree()
    ensures BuildTree([[0.0], [1.0]], 1) == [Node([1.0], 0, 1), Node([0.0], -1, 0), InvalidNode]
  {
    var cloud: Cloud := [[0.0], [1.0]];
    var pts := FromCloud(cloud);
    assert pts == [BuildPoint([0.0], 0), BuildPoint([1.0], 1)];
    assert NodesSize(2) == 3;
    var empty := seq(NodesSize(|cloud|), _ => InvalidNode);
    RootFits(BitLength(|cloud|));
    TwoPointBuild(pts, empty);
  }

  /** `buildNodes` over the two points `[0]` and `[1]` from the root of a
      three-slot array: a split node with the second point, a leaf with the
      first, and an invalid slot. */
  lemma TwoPointBuild(pts: seq<BuildPoint>, empty: seq<Node>)
    requires pts == [BuildPoint([0.0], 0), BuildPoint([1.0], 1)]
    requires empty == seq(3, _ => InvalidNode) && Fits(0, BitLength(2), 3)
    ensures HasDim(pts, 1)
    ensures Build(pts, 0, empty, 1) == [Node([1.0], 0, 1), Node([0.0], -1, 0), InvalidNode]
  {
    var cutDim := VarianceCutDim(pts, 1);
    assert cutDim == 0;
    SortedPairFixed(pts, StdSort(pts, CompareDim(cutDim)), cutDim);
  }
}
