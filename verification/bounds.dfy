/** The bounding box every search object keeps of its cloud. The base
    constructor seeds `minBound` with `numeric_limits<T>::max()` and
    `maxBound` with `numeric_limits<T>::min()`; every concrete constructor
    then folds each column into them with componentwise `min` and `max`.
    `numeric_limits<T>::min()` is the smallest positive normal value, not
    the most negative one, so as written `maxBound` never drops below it.
    The corrected seed is `numeric_limits<T>::lowest()`, the negated
    largest finite value. */
module Bounds {
  import opened Nabo
  import Scalar

  /** The scalar types the library is instantiated with. */
  datatype Precision = Float | Double

  function Pow2Real(n: nat): (r: real)
    ensures r >= 1.0
  {
    if n == 0 then 1.0 else 2.0 * Pow2Real(n - 1)
  }

  lemma {:induction false} Pow2RealGrows(a: nat, b: nat)
    requires a > b
    ensures Pow2Real(a) >= 2.0 * Pow2Real(b)
    decreases a
  {
    if a > b + 1 {
      Pow2RealGrows(a - 1, b);
    }
  }

  /** `numeric_limits<T>::max()`: `(2 - 2^-23) * 2^127` for `float` and
      `(2 - 2^-52) * 2^1023` for `double`. */
  function MaxValue(p: Precision): (r: real)
    ensures r >= 1.0
  {
    match p
    case Float =>
      Pow2RealGrows(128, 104);
      Pow2Real(128) - Pow2Real(104)
    case Double =>
      Pow2RealGrows(1024, 971);
      Pow2Real(1024) - Pow2Real(971)
  }

  /** Both largest finite values are far above the small coordinates of
      concrete examples. */
  lemma MaxValueAbove(p: Precision)
    ensures MaxValue(p) >= 16.0
  {
    match p {
      case Float => Pow2RealGrows(128, 104); Pow2RealGrows(104, 3);
      case Double => Pow2RealGrows(1024, 971); Pow2RealGrows(971, 3);
    }
  }

  /** `numeric_limits<T>::min()`: the smallest positive normal value,
      `2^-126` for `float` and `2^-1022` for `double`. */
  function MinPositive(p: Precision): (r: real)
    ensures 0.0 < r <= 1.0
  {
    match p
    case Float => 1.0 / Pow2Real(126)
    case Double => 1.0 / Pow2Real(1022)
  }

  /** `numeric_limits<T>::epsilon()`: `2^-23` for `float` and `2^-52` for
      `double`. Both are values `Scalar.Epsilon` ranges over. */
  function MachineEpsilonOf(p: Precision): (r: Scalar.MachineEpsilon)
    ensures 0.0 < r <= 1.0 / 8388608.0
    ensures p.Double? ==> r < 1.0 / 8388608.0
  {
    match p
    case Float => 1.0 / 8388608.0
    case Double => 1.0 / 4503599627370496.0
  }

  /** Every coordinate is a finite value of the precision. */
  predicate Representable(cloud: Cloud, p: Precision)
  {
    forall i, d :: 0 <= i < |cloud| && 0 <= d < |cloud[i]| ==> -MaxValue(p) <= cloud[i][d] <= MaxValue(p)
  }

  function Min(x: real, y: real): real
  {
    if y < x then y else x
  }

  function Max(x: real, y: real): real
  {
    if y > x then y else x
  }

  /** `a.cwise().min(b)` and `a.cwise().max(b)`. */
  function CwiseMin(a: Vector, b: Vector): (r: Vector)
    requires |a| == |b|
    ensures |r| == |a| && forall d :: 0 <= d < |a| ==> r[d] == Min(a[d], b[d])
  {
    seq(|a|, d requires 0 <= d < |a| => Min(a[d], b[d]))
  }

  function CwiseMax(a: Vector, b: Vector): (r: Vector)
    requires |a| == |b|
    ensures |r| == |a| && forall d :: 0 <= d < |a| ==> r[d] == Max(a[d], b[d])
  {
    seq(|a|, d requires 0 <= d < |a| => Max(a[d], b[d]))
  }

  /** `minBound` and `maxBound`. */
  datatype Box = Box(minB: Vector, maxB: Vector)

  predicate IsBox(b: Box, dim: nat)
  {
    |b.minB| == dim && |b.maxB| == dim
  }

  function Constant(dim: nat, x: real): (r: Vector)
    ensures |r| == dim && forall d :: 0 <= d < dim ==> r[d] == x
  {
    seq(dim, _ => x)
  }

  /** The base constructor's seeds, as written. */
  function SeedBox(dim: nat, p: Precision): (b: Box)
    ensures IsBox(b, dim)
  {
    Box(Constant(dim, MaxValue(p)), Constant(dim, MinPositive(p)))
  }

  /** The seeds with `maxBound` started at `numeric_limits<T>::lowest()`. */
  function CorrectedSeedBox(dim: nat, p: Precision): (b: Box)
    ensures IsBox(b, dim)
  {
    Box(Constant(dim, MaxValue(p)), Constant(dim, -MaxValue(p)))
  }

  /** One coordinate of the loop: the smallest of `x` and coordinate `d`
      of the first `n` columns, and the largest. */
  function FoldMin(x: real, cloud: Cloud, d: nat, n: nat): real
    requires n <= |cloud| && forall i :: 0 <= i < n ==> d < |cloud[i]|
  {
    if n == 0 then x else Min(FoldMin(x, cloud, d, n - 1), cloud[n - 1][d])
  }

  function FoldMax(x: real, cloud: Cloud, d: nat, n: nat): real
    requires n <= |cloud| && forall i :: 0 <= i < n ==> d < |cloud[i]|
  {
    if n == 0 then x else Max(FoldMax(x, cloud, d, n - 1), cloud[n - 1][d])
  }

  /** The constructors' loop over the first `n` columns: coordinate by
      coordinate, `minBound` folds `min` and `maxBound` folds `max` from
      the seed. */
  function Fold(cloud: Cloud, seed: Box, n: nat): (b: Box)
    requires n <= |cloud| && IsBox(seed, |seed.minB|) && IsCloud(cloud, |seed.minB|)
    ensures IsBox(b, |seed.minB|)
    ensures forall d :: 0 <= d < |seed.minB| ==> b.minB[d] == FoldMin(seed.minB[d], cloud, d, n)
    ensures forall d :: 0 <= d < |seed.minB| ==> b.maxB[d] == FoldMax(seed.maxB[d], cloud, d, n)
    decreases n
  {
    if n == 0 then seed
    else
      var b := Fold(cloud, seed, n - 1);
      Box(CwiseMin(b.minB, cloud[n - 1]), CwiseMax(b.maxB, cloud[n - 1]))
  }

  /** The folded minimum is at most the seed and every coordinate folded,
      and it is the seed or one of those coordinates. */
  lemma {:induction false} FoldMinIsLeast(x: real, cloud: Cloud, d: nat, n: nat)
    requires n <= |cloud| && forall i :: 0 <= i < n ==> d < |cloud[i]|
    ensures FoldMin(x, cloud, d, n) <= x
    ensures forall i :: 0 <= i < n ==> FoldMin(x, cloud, d, n) <= cloud[i][d]
    ensures FoldMin(x, cloud, d, n) == x || exists i :: 0 <= i < n && cloud[i][d] == FoldMin(x, cloud, d, n)
    decreases n
  {
    if n > 0 {
      FoldMinIsLeast(x, cloud, d, n - 1);
    }
  }

  /** The folded maximum is at least the seed and every coordinate folded,
      and it is the seed or one of those coordinates. */
  lemma {:induction false} FoldMaxIsGreatest(x: real, cloud: Cloud, d: nat, n: nat)
    requires n <= |cloud| && forall i :: 0 <= i < n ==> d < |cloud[i]|
    ensures x <= FoldMax(x, cloud, d, n)
    ensures forall i :: 0 <= i < n ==> cloud[i][d] <= FoldMax(x, cloud, d, n)
    ensures FoldMax(x, cloud, d, n) == x || exists i :: 0 <= i < n && cloud[i][d] == FoldMax(x, cloud, d, n)
    decreases n
  {
    if n > 0 {
      FoldMaxIsGreatest(x, cloud, d, n - 1);
    }
  }

  /** Folding from a larger seed gives the larger of that seed and what
      the smaller seed gives. */
  lemma {:induction false} FoldMaxLargerSeed(a: real, c: real, cloud: Cloud, d: nat, n: nat)
    requires n <= |cloud| && forall i :: 0 <= i < n ==> d < |cloud[i]|
    requires c <= a
    ensures FoldMax(a, cloud, d, n) == Max(a, FoldMax(c, cloud, d, n))
    decreases n
  {
    if n > 0 {
      FoldMaxLargerSeed(a, c, cloud, d, n - 1);
    }
  }

  /** The bounds every constructor computes, as written. */
  function CloudBounds(cloud: Cloud, dim: nat, p: Precision): (b: Box)
    requires IsCloud(cloud, dim)
    ensures IsBox(b, dim)
  {
    Fold(cloud, SeedBox(dim, p), |cloud|)
  }

  /** The bounds from the corrected seeds. */
  function CorrectedBounds(cloud: Cloud, dim: nat, p: Precision): (b: Box)
    requires IsCloud(cloud, dim)
    ensures IsBox(b, dim)
  {
    Fold(cloud, CorrectedSeedBox(dim, p), |cloud|)
  }

  /** The box holds every column. */
  predicate Contains(b: Box, cloud: Cloud)
  {
    forall i, d :: 0 <= i < |cloud| && 0 <= d < |cloud[i]| && d < |b.minB| && d < |b.maxB| ==>
      b.minB[d] <= cloud[i][d] <= b.maxB[d]
  }

  /** With the corrected seeds, a non-empty cloud of finite values gets
      its exact bounding box: it holds every column, and each bound is the
      coordinate of some column. */
  lemma CorrectedBoundsTight(cloud: Cloud, dim: nat, p: Precision)
    requires |cloud| > 0 && IsCloud(cloud, dim) && Representable(cloud, p)
    ensures Contains(CorrectedBounds(cloud, dim, p), cloud)
    ensures forall d :: 0 <= d < dim ==>
              exists i :: 0 <= i < |cloud| && cloud[i][d] == CorrectedBounds(cloud, dim, p).minB[d]
    ensures forall d :: 0 <= d < dim ==>
              exists i :: 0 <= i < |cloud| && cloud[i][d] == CorrectedBounds(cloud, dim, p).maxB[d]
  {
    forall d | 0 <= d < dim
      ensures forall i :: 0 <= i < |cloud| ==>
                CorrectedBounds(cloud, dim, p).minB[d] <= cloud[i][d] <= CorrectedBounds(cloud, dim, p).maxB[d]
      ensures exists i :: 0 <= i < |cloud| && cloud[i][d] == CorrectedBounds(cloud, dim, p).minB[d]
      ensures exists i :: 0 <= i < |cloud| && cloud[i][d] == CorrectedBounds(cloud, dim, p).maxB[d]
    {
      FoldMinIsLeast(MaxValue(p), cloud, d, |cloud|);
      FoldMaxIsGreatest(-MaxValue(p), cloud, d, |cloud|);
      if FoldMin(MaxValue(p), cloud, d, |cloud|) == MaxValue(p) {
        assert cloud[0][d] == FoldMin(MaxValue(p), cloud, d, |cloud|);
      }
      if FoldMax(-MaxValue(p), cloud, d, |cloud|) == -MaxValue(p) {
        assert cloud[0][d] == FoldMax(-MaxValue(p), cloud, d, |cloud|);
      }
    }
  }

  /** As written, `minBound` is the exact one, and `maxBound` is the exact
      one raised to at least `numeric_limits<T>::min()`. */
  lemma AsWrittenBounds(cloud: Cloud, dim: nat, p: Precision)
    requires IsCloud(cloud, dim)
    ensures CloudBounds(cloud, dim, p).minB == CorrectedBounds(cloud, dim, p).minB
    ensures forall d :: 0 <= d < dim ==>
              CloudBounds(cloud, dim, p).maxB[d] == Max(MinPositive(p), CorrectedBounds(cloud, dim, p).maxB[d])
  {
    forall d | 0 <= d < dim
      ensures CloudBounds(cloud, dim, p).maxB[d] == Max(MinPositive(p), CorrectedBounds(cloud, dim, p).maxB[d])
    {
      FoldMaxLargerSeed(MinPositive(p), -MaxValue(p), cloud, d, |cloud|);
    }
  }

  /** The one-column cloud `[-1]`: as written, `maxBound` is the smallest
      positive value, above every coordinate, where the corrected bound is
      -1. */
  lemma NegativeCloudMaxBound(p: Precision)
    ensures CloudBounds([[-1.0]], 1, p).maxB == [MinPositive(p)]
    ensures CorrectedBounds([[-1.0]], 1, p).maxB == [-1.0]
  {
    var cloud: Cloud := [[-1.0]];
    assert FoldMax(MinPositive(p), cloud, 0, 1) == MinPositive(p);
    assert FoldMax(-MaxValue(p), cloud, 0, 1) == -1.0;
  }
}
