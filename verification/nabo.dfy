/** The shared vocabulary of the library's public header: vectors and clouds,
    the squared Euclidean distance, the option flags, the visit statistics and
    the implicit binary-tree index arithmetic. It also defines the reference
    notion every search is measured against: the multiset of eligible squared
    distances from a query to a set of points. */
module Nabo {
  import opened Scalar
  import opened SeqUtil

  type Vector = seq<real>

  /** A point cloud: one column (point) per entry. */
  type Cloud = seq<Vector>

  /** Every column of `cloud` has `dim` coordinates. */
  predicate IsCloud(cloud: Cloud, dim: nat)
  {
    forall i :: 0 <= i < |cloud| ==> |cloud[i]| == dim
  }

  function Sq(x: real): (r: real)
    ensures r >= 0.0
  {
    x * x
  }

  /** `dist2(v0, v1)`: the squared norm of `v0 - v1`. Eigen requires both
      vectors to have the same size. */
  function Dist2(a: Vector, b: Vector): (r: real)
    requires |a| == |b|
    ensures r >= 0.0
    decreases |a|
  {
    if |a| == 0 then 0.0 else Sq(a[0] - b[0]) + Dist2(a[1..], b[1..])
  }

  lemma SqNegate(x: real)
    ensures Sq(-x) == Sq(x)
  {
  }

  lemma SqPositive(x: real)
    requires x != 0.0
    ensures Sq(x) > 0.0
  {
    var s := Sq(x);
    if x > 0.0 {
      PositiveProduct(x, x, s);
    } else {
      SqNegate(x);
      PositiveProduct(-x, -x, s);
    }
  }

  /** Squaring is monotone on the non-negative reals. */
  lemma SqMonotone(a: real, b: real)
    requires 0.0 <= a <= b
    ensures Sq(a) <= Sq(b)
  {
    var sa, sb := Sq(a), Sq(b);
    NonNegativeProduct(b - a, b + a, sb - sa);
  }

  lemma {:induction false} Dist2Symmetric(a: Vector, b: Vector)
    requires |a| == |b|
    ensures Dist2(a, b) == Dist2(b, a)
    decreases |a|
  {
    if |a| > 0 {
      Dist2Symmetric(a[1..], b[1..]);
      SqNegate(a[0] - b[0]);
      assert -(a[0] - b[0]) == b[0] - a[0];
    }
  }

  /** The squared distance vanishes exactly between equal vectors. */
  lemma {:induction false} Dist2ZeroIffEqual(a: Vector, b: Vector)
    requires |a| == |b|
    ensures Dist2(a, b) == 0.0 <==> a == b
    decreases |a|
  {
    if |a| > 0 {
      Dist2ZeroIffEqual(a[1..], b[1..]);
      var d := a[0] - b[0];
      assert Dist2(a, b) == Sq(d) + Dist2(a[1..], b[1..]);
      if a[0] != b[0] {
        SqPositive(d);
      } else if a[1..] != b[1..] {
        assert a != b;
      } else {
        assert a == [a[0]] + a[1..];
        assert b == [b[0]] + b[1..];
      }
    }
  }

  /** Squared norm of an offset vector: the squared distance from the query to
      a box whose per-axis gaps are `v`. */
  function SumSq(v: Vector): (r: real)
    ensures r >= 0.0
    decreases |v|
  {
    if |v| == 0 then 0.0 else Sq(v[0]) + SumSq(v[1..])
  }

  /** `Vector::Zero(dim)`. */
  function Zeros(dim: nat): (r: Vector)
    ensures |r| == dim
    ensures forall i :: 0 <= i < dim ==> r[i] == 0.0
  {
    seq(dim, _ => 0.0)
  }

  lemma {:induction false} SumSqZeros(dim: nat)
    ensures SumSq(Zeros(dim)) == 0.0
    decreases dim
  {
    if dim > 0 {
      assert Zeros(dim)[1..] == Zeros(dim - 1);
      SumSqZeros(dim - 1);
    }
  }

  /** Replacing one axis contribution changes the squared norm by exactly the
      difference of the squares: the incremental update `rd += new² - old²`. */
  lemma {:induction false} SumSqUpdate(v: Vector, i: nat, x: real)
    requires i < |v|
    ensures SumSq(v[i := x]) == SumSq(v) - Sq(v[i]) + Sq(x)
    decreases i
  {
    if i == 0 {
      assert v[i := x][1..] == v[1..];
    } else {
      assert v[i := x][1..] == v[1..][i - 1 := x];
      SumSqUpdate(v[1..], i - 1, x);
    }
  }

  /** On one axis, the point coordinate `pd` lies on the far side of the cut
      `qd - o` from the query coordinate `qd` whenever the offset `o` is
      non-zero. */
  predicate SepCoord(qd: real, o: real, pd: real)
  {
    (o > 0.0 ==> pd <= qd - o) && (o < 0.0 ==> qd - o <= pd)
  }

  /** Every axis of `p` is separated from `q` by at least the offset `off`. */
  predicate Separated(q: Vector, off: Vector, p: Vector)
    requires |off| == |q| && |p| == |q|
  {
    forall d :: 0 <= d < |q| ==> SepCoord(q[d], off[d], p[d])
  }

  lemma SepCoordBound(qd: real, o: real, pd: real)
    requires SepCoord(qd, o, pd)
    ensures Sq(o) <= Sq(qd - pd)
  {
    var g := qd - pd;
    if o > 0.0 {
      SqMonotone(o, g);
    } else if o < 0.0 {
      SqMonotone(-o, -g);
      SqNegate(o);
      SqNegate(g);
    }
  }

  /** The squared norm of the offsets of a separated point is a lower bound on
      its squared distance to the query. */
  lemma {:induction false} SeparatedLowerBound(q: Vector, off: Vector, p: Vector)
    requires |off| == |q| && |p| == |q|
    requires Separated(q, off, p)
    ensures SumSq(off) <= Dist2(q, p)
    decreases |q|
  {
    if |q| > 0 {
      SepCoordBound(q[0], off[0], p[0]);
      assert Separated(q[1..], off[1..], p[1..]) by {
        forall d | 0 <= d < |q| - 1
          ensures SepCoord(q[1..][d], off[1..][d], p[1..][d])
        {
          assert SepCoord(q[d + 1], off[d + 1], p[d + 1]);
        }
      }
      SeparatedLowerBound(q[1..], off[1..], p[1..]);
    }
  }

  /** The `SearchOptionFlags` bits of the option mask. */
  const AllowSelfMatch: bv32 := 1
  const SortResults: bv32 := 2

  predicate HasFlag(flags: bv32, flag: bv32)
  {
    flags & flag != 0
  }

  /** The two options are distinct single bits: setting one never sets or
      clears the other. */
  lemma FlagsIndependent(flags: bv32)
    ensures AllowSelfMatch & SortResults == 0
    ensures HasFlag(flags | SortResults, AllowSelfMatch) == HasFlag(flags, AllowSelfMatch)
    ensures HasFlag(flags | AllowSelfMatch, SortResults) == HasFlag(flags, SortResults)
    ensures HasFlag(AllowSelfMatch, AllowSelfMatch) && !HasFlag(AllowSelfMatch, SortResults)
    ensures HasFlag(SortResults, SortResults) && !HasFlag(SortResults, AllowSelfMatch)
  {
  }

  /** `Statistics`: visit counters, both zero when constructed. They are
      32-bit `int`s in the source and unbounded here. */
  datatype Statistics = Statistics(lastQueryVisitCount: int, totalVisitCount: int)

  const NewStatistics := Statistics(0, 0)

  /** The end of every query: the last count is replaced and the total grows
      by it. */
  function RecordQuery(stats: Statistics, visits: int): (r: Statistics)
    ensures r.lastQueryVisitCount == visits
    ensures r.totalVisitCount - stats.totalVisitCount == visits
  {
    Statistics(visits, stats.totalVisitCount + visits)
  }

  /** Implicit binary tree layout: the children of slot `p`. */
  function ChildLeft(p: nat): nat
  {
    2 * p + 1
  }

  function ChildRight(p: nat): nat
  {
    2 * p + 2
  }

  /** `size_t` arithmetic wraps modulo 2^64. */
  const SizeTModulus: nat := 0x1_0000_0000_0000_0000

  /** `parent(pos) = (pos - 1) / 2` computed in `size_t`: at the root the
      subtraction wraps around. */
  function Parent(p: nat): nat
    requires p < SizeTModulus
  {
    ((p - 1) % SizeTModulus) / 2
  }

  lemma ChildrenOfParent(p: nat)
    requires ChildRight(p) < SizeTModulus
    ensures p < ChildLeft(p) < ChildRight(p) == ChildLeft(p) + 1
    ensures Parent(ChildLeft(p)) == p && Parent(ChildRight(p)) == p
    ensures Parent(0) == (SizeTModulus - 1) / 2
  {
  }

  /** A candidate at squared distance `d` may enter a result: always when self
      matches are allowed, otherwise only beyond the machine epsilon. */
  predicate Eligible(d: real, allowSelfMatch: bool)
  {
    allowSelfMatch || d > Epsilon
  }

  /** The reference notion of every search: the squared distances
      `dist2(p, q)` of the eligible points `p` of `ps`, in order. */
  function EligibleDists(ps: seq<Vector>, q: Vector, allowSelfMatch: bool): seq<Dist>
    requires IsCloud(ps, |q|)
    decreases |ps|
  {
    if |ps| == 0 then []
    else
      var d := Dist2(ps[0], q);
      (if Eligible(d, allowSelfMatch) then [Finite(d)] else [])
      + EligibleDists(ps[1..], q, allowSelfMatch)
  }

  lemma {:induction false} EligibleDistsConcat(a: seq<Vector>, b: seq<Vector>, q: Vector, allowSelfMatch: bool)
    requires IsCloud(a, |q|) && IsCloud(b, |q|)
    ensures IsCloud(a + b, |q|)
    ensures EligibleDists(a + b, q, allowSelfMatch)
         == EligibleDists(a, q, allowSelfMatch) + EligibleDists(b, q, allowSelfMatch)
    decreases |a|
  {
    if |a| == 0 {
      assert a + b == b;
    } else {
      assert (a + b)[0] == a[0];
      assert (a + b)[1..] == a[1..] + b;
      EligibleDistsConcat(a[1..], b, q, allowSelfMatch);
      assert EligibleDists(a + b, q, allowSelfMatch)
          == (if Eligible(Dist2(a[0], q), allowSelfMatch) then [Finite(Dist2(a[0], q))] else [])
             + EligibleDists(a[1..] + b, q, allowSelfMatch);
    }
  }

  /** Each eligible distance is that of some eligible point of `ps`, and each
      eligible point contributes its distance. */
  lemma {:induction false} EligibleDistsMembers(ps: seq<Vector>, q: Vector, allowSelfMatch: bool)
    requires IsCloud(ps, |q|)
    ensures forall x :: x in EligibleDists(ps, q, allowSelfMatch) ==>
      exists i :: 0 <= i < |ps| && x == Finite(Dist2(ps[i], q)) && Eligible(Dist2(ps[i], q), allowSelfMatch)
    ensures forall i :: 0 <= i < |ps| && Eligible(Dist2(ps[i], q), allowSelfMatch) ==>
      Finite(Dist2(ps[i], q)) in EligibleDists(ps, q, allowSelfMatch)
    decreases |ps|
  {
    if |ps| > 0 {
      EligibleDistsMembers(ps[1..], q, allowSelfMatch);
      forall x | x in EligibleDists(ps, q, allowSelfMatch)
        ensures exists i :: 0 <= i < |ps| && x == Finite(Dist2(ps[i], q)) && Eligible(Dist2(ps[i], q), allowSelfMatch)
      {
        if x !in EligibleDists(ps[1..], q, allowSelfMatch) {
          assert x == Finite(Dist2(ps[0], q));
        } else {
          var i :| 0 <= i < |ps[1..]| && x == Finite(Dist2(ps[1..][i], q)) && Eligible(Dist2(ps[1..][i], q), allowSelfMatch);
          assert ps[1..][i] == ps[i + 1];
        }
      }
      forall i | 0 <= i < |ps| && Eligible(Dist2(ps[i], q), allowSelfMatch)
        ensures Finite(Dist2(ps[i], q)) in EligibleDists(ps, q, allowSelfMatch)
      {
        if i > 0 {
          assert ps[1..][i - 1] == ps[i];
        }
      }
    }
  }

  /** If every point of `ps` is at least `bound` away, so is every eligible
      distance. */
  lemma EligibleDistsAbove(ps: seq<Vector>, q: Vector, allowSelfMatch: bool, bound: Dist)
    requires IsCloud(ps, |q|)
    requires forall i :: 0 <= i < |ps| ==> Le(bound, Finite(Dist2(ps[i], q)))
    ensures forall x :: x in EligibleDists(ps, q, allowSelfMatch) ==> Le(bound, x)
  {
    EligibleDistsMembers(ps, q, allowSelfMatch);
  }

  /** The eligible distances of a sequence without its `j`-th point. */
  lemma EligibleDistsRemove(ps: seq<Vector>, j: nat, q: Vector, allowSelfMatch: bool)
    requires IsCloud(ps, |q|) && j < |ps|
    ensures IsCloud(ps[..j] + ps[j + 1..], |q|)
    ensures multiset(EligibleDists(ps, q, allowSelfMatch))
         == multiset(EligibleDists(ps[..j] + ps[j + 1..], q, allowSelfMatch))
          + multiset(EligibleDists([ps[j]], q, allowSelfMatch))
  {
    var pre, post := ps[..j], ps[j + 1..];
    assert ps == pre + ([ps[j]] + post);
    EligibleDistsConcat(pre, [ps[j]] + post, q, allowSelfMatch);
    EligibleDistsConcat([ps[j]], post, q, allowSelfMatch);
    EligibleDistsConcat(pre, post, q, allowSelfMatch);
  }

  /** The eligible distances depend only on the multiset of points, not on
      the order in which they are visited. */
  lemma {:induction false} EligibleDistsPermutation(a: seq<Vector>, b: seq<Vector>, q: Vector, allowSelfMatch: bool)
    requires IsCloud(a, |q|) && IsCloud(b, |q|)
    requires multiset(a) == multiset(b)
    ensures multiset(EligibleDists(a, q, allowSelfMatch)) == multiset(EligibleDists(b, q, allowSelfMatch))
    decreases |a|
  {
    if |a| == 0 {
      assert |b| == |multiset(b)| == 0;
    } else {
      assert a[0] in multiset(b);
      var j :| 0 <= j < |b| && b[j] == a[0];
      SplitAt(b, j);
      SplitAt(a, 0);
      assert a[..0] + a[1..] == a[1..];
      MultisetCancel(multiset(a[1..]), multiset(b[..j] + b[j + 1..]), a[0]);
      EligibleDistsRemove(b, j, q, allowSelfMatch);
      EligibleDistsRemove(a, 0, q, allowSelfMatch);
      EligibleDistsPermutation(a[1..], b[..j] + b[j + 1..], q, allowSelfMatch);
    }
  }
}
