/** Scalars of the library. Coordinates and squared distances are modelled as
    `real`; a heap slot may also hold +infinity, the value every result heap
    is seeded with. The limits of each scalar type are in `Bounds`; the
    self-match threshold `Epsilon` is left open over both types. */
module Scalar {

  /** A squared distance as stored in a heap entry: a real number or +infinity
      (`numeric_limits<T>::infinity()`). */
  datatype Dist = Finite(r: real) | Infinity

  /** Strict order on distances, the order `Entry::operator<` compares by. */
  predicate Lt(a: Dist, b: Dist)
  {
    match a
    case Infinity => false
    case Finite(x) => b.Infinity? || x < b.r
  }

  /** Non-strict order: `a` is not above `b`. */
  predicate Le(a: Dist, b: Dist)
  {
    !Lt(b, a)
  }

  lemma LeTotalOrder(a: Dist, b: Dist, c: Dist)
    ensures Le(a, a)
    ensures Le(a, b) || Le(b, a)
    ensures Le(a, b) && Le(b, a) ==> a == b
    ensures Le(a, b) && Le(b, c) ==> Le(a, c)
    ensures Lt(a, b) <==> Le(a, b) && a != b
  {
  }

  /** Distances are never negative; +infinity is not either. */
  predicate NonNeg(d: Dist)
  {
    d.Infinity? || d.r >= 0.0
  }

  /** `d` multiplied by the factor `f`; +infinity stays +infinity. */
  function Scale(d: Dist, f: real): Dist
  {
    match d
    case Infinity => Infinity
    case Finite(x) => Finite(x * f)
  }

  /** The products below are bound to names before the solver sees them:
      nonlinear real terms stated inline make it give up. */
  lemma PositiveProduct(a: real, b: real, s: real)
    requires a > 0.0 && b > 0.0 && s == a * b
    ensures s > 0.0
  {
  }

  lemma NonNegativeProduct(a: real, b: real, s: real)
    requires a >= 0.0 && b >= 0.0 && s == a * b
    ensures s >= 0.0
  {
  }

  lemma ScaleOne(d: Dist)
    ensures Scale(d, 1.0) == d
  {
  }

  /** Scaling a non-negative distance by a factor of at least one never
      lowers it. */
  lemma ScaleAbove(d: Dist, f: real)
    requires NonNeg(d) && f >= 1.0
    ensures Le(d, Scale(d, f))
  {
    if d.Finite? {
      var x := d.r;
      var s := x * f;
      assert s - x == x * (f - 1.0);
      NonNegativeProduct(x, f - 1.0, s - x);
    }
  }

  /** Scaling by a non-negative factor is monotone. */
  lemma ScaleMonotone(a: Dist, b: Dist, f: real)
    requires Le(a, b) && f >= 0.0
    ensures Le(Scale(a, f), Scale(b, f))
  {
    if a.Finite? && b.Finite? {
      var sa, sb := a.r * f, b.r * f;
      assert sb - sa == (b.r - a.r) * f;
      NonNegativeProduct(b.r - a.r, f, sb - sa);
    }
  }

  /** The values `numeric_limits<T>::epsilon()` takes: positive and at most
      the `float` one, 2^-23 (the `double` one is 2^-52). */
  type MachineEpsilon = r: real | 0.0 < r <= 1.0 / 8388608.0 witness 1.0 / 8388608.0

  /** `numeric_limits<T>::epsilon()`, the self-match threshold. Its value is
      left open within `MachineEpsilon`, so whatever is proved about it
      holds for the `float` and the `double` instantiation alike. */
  const Epsilon: MachineEpsilon
}
