/** The build-time view of the cloud shared by every tree builder: a
    `BuildPoint` per column, the `CompareDim` key, and the variance estimate
    that picks the cut dimension. */
module BuildPoints {
  import opened SeqUtil
  import opened Nabo
  import ArgMax

  /** `BuildPoint`: a column's coordinates and its column index. */
  datatype BuildPoint = BuildPoint(pos: Vector, index: nat)

  function PosOf(p: BuildPoint): Vector
  {
    p.pos
  }

  function IndexOf(p: BuildPoint): nat
  {
    p.index
  }

  /** The coordinates of a sequence of build points, in order. */
  function Positions(pts: seq<BuildPoint>): (r: seq<Vector>)
    ensures |r| == |pts|
    ensures forall i :: 0 <= i < |pts| ==> r[i] == pts[i].pos
  {
    Map(PosOf, pts)
  }

  /** The column indexes of a sequence of build points, in order. */
  function Indexes(pts: seq<BuildPoint>): (r: seq<nat>)
    ensures |r| == |pts|
    ensures forall i :: 0 <= i < |pts| ==> r[i] == pts[i].index
  {
    Map(IndexOf, pts)
  }

  /** The constructors' first loop: `BuildPoint(cloud.col(i), i)` for every
      column, in column order. */
  function FromCloud(cloud: Cloud): (r: seq<BuildPoint>)
    ensures |r| == |cloud|
    ensures forall i :: 0 <= i < |cloud| ==> r[i] == BuildPoint(cloud[i], i)
    ensures Positions(r) == cloud
  {
    seq(|cloud|, i requires 0 <= i < |cloud| => BuildPoint(cloud[i], i))
  }

  /** `0, 1, ..., n - 1`. */
  function Range(n: nat): (r: seq<nat>)
    ensures |r| == n
    ensures forall i :: 0 <= i < n ==> r[i] == i
  {
    seq(n, i => i)
  }

  /** Each column index occurs exactly once among the build points. */
  lemma FromCloudIndexes(cloud: Cloud)
    ensures Indexes(FromCloud(cloud)) == Range(|cloud|)
    ensures forall i :: 0 <= i < |cloud| ==> multiset(Range(|cloud|))[i] == 1
  {
    forall i | 0 <= i < |cloud|
      ensures multiset(Range(|cloud|))[i] == 1
    {
      RangeCount(|cloud|, i);
    }
  }

  /** Only indexes below `n` occur in `Range(n)`. */
  lemma RangeMembers(n: nat)
    ensures forall x :: x in multiset(Range(n)) ==> x < n
  {
    forall x | x in multiset(Range(n))
      ensures x < n
    {
      assert x in Range(n);
    }
  }

  lemma {:induction false} RangeCount(n: nat, i: nat)
    requires i < n
    ensures multiset(Range(n))[i] == 1
    decreases n
  {
    assert Range(n) == Range(n - 1) + [n - 1];
    if i < n - 1 {
      RangeCount(n - 1, i);
    } else {
      assert i !in Range(n - 1);
    }
  }

  /** The build point of column `i` occurs once among the first `n`
      build points when `i < n`, and not at all otherwise. */
  lemma {:induction false} FromCloudPrefixCount(cloud: Cloud, n: nat, i: nat)
    requires n <= |cloud| && i < |cloud|
    ensures multiset(FromCloud(cloud)[..n])[BuildPoint(cloud[i], i)] == if i < n then 1 else 0
    decreases n
  {
    var pts := FromCloud(cloud);
    if n > 0 {
      assert pts[..n] == pts[..n - 1] + [pts[n - 1]];
      FromCloudPrefixCount(cloud, n - 1, i);
    }
  }

  /** Every column's build point occurs exactly once, and every build point
      is the one of its own column. */
  lemma FromCloudOnce(cloud: Cloud)
    ensures forall i :: 0 <= i < |cloud| ==> multiset(FromCloud(cloud))[BuildPoint(cloud[i], i)] == 1
    ensures forall x :: x in FromCloud(cloud) ==> x.index < |cloud| && x.pos == cloud[x.index]
  {
    var pts := FromCloud(cloud);
    forall i | 0 <= i < |cloud|
      ensures multiset(pts)[BuildPoint(cloud[i], i)] == 1
    {
      FromCloudPrefixCount(cloud, |cloud|, i);
      assert pts[..|cloud|] == pts;
    }
  }

  /** Every point has `dim` coordinates. */
  predicate HasDim(pts: seq<BuildPoint>, dim: nat)
  {
    forall i :: 0 <= i < |pts| ==> |pts[i].pos| == dim
  }

  lemma HasDimPermutation(a: seq<BuildPoint>, b: seq<BuildPoint>, dim: nat)
    requires HasDim(a, dim) && multiset(a) == multiset(b)
    ensures HasDim(b, dim)
  {
    forall i | 0 <= i < |b|
      ensures |b[i].pos| == dim
    {
      assert b[i] in multiset(a);
    }
  }

  lemma HasDimPositions(pts: seq<BuildPoint>, dim: nat)
    requires HasDim(pts, dim)
    ensures IsCloud(Positions(pts), dim)
  {
  }

  /** Coordinate `d` of a build point, the key `CompareDim(d)` orders by; a
      point without that coordinate never reaches a comparison. */
  function Coord(p: BuildPoint, d: nat): real
  {
    if d < |p.pos| then p.pos[d] else 0.0
  }

  /** `CompareDim(d)` as a key. */
  function CompareDim(d: nat): BuildPoint -> real
  {
    p => Coord(p, d)
  }

  /** The sum of coordinate `d` over the points. */
  function SumAt(pts: seq<BuildPoint>, d: nat): real
    decreases |pts|
  {
    if |pts| == 0 then 0.0 else Coord(pts[0], d) + SumAt(pts[1..], d)
  }

  /** The sum of squared deviations of coordinate `d` from `m`. */
  function SqDevAt(pts: seq<BuildPoint>, d: nat, m: real): (r: real)
    ensures r >= 0.0
    decreases |pts|
  {
    if |pts| == 0 then 0.0 else Sq(Coord(pts[0], d) - m) + SqDevAt(pts[1..], d, m)
  }

  /** The mean point. */
  function Mean(pts: seq<BuildPoint>, dim: nat): (r: Vector)
    requires |pts| > 0
    ensures |r| == dim
  {
    seq(dim, d requires 0 <= d => SumAt(pts, d) / (|pts| as real))
  }

  /** The per-axis sum of squared deviations from the mean, `var` of the
      builders. */
  function Variance(pts: seq<BuildPoint>, dim: nat): (r: Vector)
    requires |pts| > 0
    ensures |r| == dim
    ensures forall d :: 0 <= d < dim ==> r[d] >= 0.0
  {
    var mean := Mean(pts, dim);
    seq(dim, d requires 0 <= d < dim => SqDevAt(pts, d, mean[d]))
  }

  /** The deviation sum is zero exactly when every point sits at `m` on
      axis `d`. */
  lemma {:induction false} SqDevZero(pts: seq<BuildPoint>, d: nat, m: real)
    ensures SqDevAt(pts, d, m) == 0.0 <==> forall i :: 0 <= i < |pts| ==> Coord(pts[i], d) == m
    decreases |pts|
  {
    if |pts| > 0 {
      SqDevZero(pts[1..], d, m);
      var x := Coord(pts[0], d) - m;
      if x != 0.0 {
        SqPositive(x);
      }
      if forall i :: 0 <= i < |pts| ==> Coord(pts[i], d) == m {
        assert forall i :: 0 <= i < |pts[1..]| ==> Coord(pts[1..][i], d) == m by {
          forall i | 0 <= i < |pts[1..]|
            ensures Coord(pts[1..][i], d) == m
          {
            assert pts[1..][i] == pts[i + 1];
          }
        }
      }
      if SqDevAt(pts, d, m) == 0.0 {
        forall i | 0 <= i < |pts|
          ensures Coord(pts[i], d) == m
        {
          if i > 0 {
            assert pts[1..][i - 1] == pts[i];
          }
        }
      }
    }
  }

  /** The cut dimension of the variance-balanced builders, `argMax(var)`: an
      axis of largest spread, and 0 when every axis is flat. */
  function VarianceCutDim(pts: seq<BuildPoint>, dim: nat): (r: nat)
    requires |pts| > 0 && dim > 0
    ensures r < dim
    ensures ArgMax.HasPositive(Variance(pts, dim)) ==> ArgMax.IsFirstPositiveMax(Variance(pts, dim), r)
  {
    ArgMax.ArgMax(Variance(pts, dim))
  }
}
