/** `argMax` of the builders: the position of the largest entry, counting
    only entries above zero, the first one on ties. */
module ArgMax {
  import opened Wrappers

  /** Some entry is above zero. */
  predicate HasPositive(v: seq<real>)
  {
    exists i :: 0 <= i < |v| && v[i] > 0.0
  }

  /** `i` is the first position of a largest entry of `v`, and it is above
      zero. */
  predicate IsFirstPositiveMax(v: seq<real>, i: nat)
  {
    i < |v| && v[i] > 0.0
    && (forall j :: 0 <= j < |v| ==> v[j] <= v[i])
    && (forall j :: 0 <= j < i ==> v[j] < v[i])
  }

  /** The scan from position `i` on, with `maxVal` and `maxIdx` as left by
      the positions before it: `maxVal` is the largest entry seen so far or
      0, held first at `maxIdx`. */
  function Scan(v: seq<real>, i: nat, maxVal: real, maxIdx: nat): (r: nat)
    requires i <= |v| && maxVal >= 0.0
    requires forall j :: 0 <= j < i ==> v[j] <= maxVal
    requires maxVal > 0.0 ==> maxIdx < i && v[maxIdx] == maxVal && forall j :: 0 <= j < maxIdx ==> v[j] < maxVal
    requires maxVal == 0.0 ==> maxIdx == 0
    ensures HasPositive(v) ==> IsFirstPositiveMax(v, r)
    ensures !HasPositive(v) ==> r == 0
    decreases |v| - i
  {
    if i == |v| then maxIdx
    else if v[i] > maxVal then Scan(v, i + 1, v[i], i)
    else Scan(v, i + 1, maxVal, maxIdx)
  }

  /** `argMax(v)` (`nabo/kdtree_cpu.cpp` and `nabo/kdtree_opencl.cpp`):
      `maxVal` starts at 0 and `maxIdx` at 0, and a strictly larger entry
      moves both. */
  function ArgMax(v: seq<real>): (r: nat)
    ensures HasPositive(v) ==> IsFirstPositiveMax(v, r)
    ensures !HasPositive(v) ==> r == 0
    ensures |v| > 0 ==> r < |v|
  {
    Scan(v, 0, 0.0, 0)
  }

  /** The first positive maximum is unique: `ArgMax` is determined by its
      contract. */
  lemma FirstPositiveMaxUnique(v: seq<real>, i: nat, j: nat)
    requires IsFirstPositiveMax(v, i) && IsFirstPositiveMax(v, j)
    ensures i == j
  {
  }

  /** The prototype's scan (`knn.cpp`): the same loop, but `maxIdx` has no
      initial value, so it stays undetermined (`None`) until an entry above
      zero is met. */
  function ProtoScan(v: seq<real>, i: nat, maxVal: real, maxIdx: Option<nat>): (r: Option<nat>)
    requires i <= |v| && maxVal >= 0.0
    requires forall j :: 0 <= j < i ==> v[j] <= maxVal
    requires maxVal > 0.0 ==> maxIdx.Some? && maxIdx.value < i && v[maxIdx.value] == maxVal
                              && forall j :: 0 <= j < maxIdx.value ==> v[j] < maxVal
    requires maxVal == 0.0 ==> maxIdx == None
    ensures HasPositive(v) ==> r.Some? && IsFirstPositiveMax(v, r.value)
    ensures !HasPositive(v) ==> r == None
    decreases |v| - i
  {
    if i == |v| then maxIdx
    else if v[i] > maxVal then ProtoScan(v, i + 1, v[i], Some(i))
    else ProtoScan(v, i + 1, maxVal, maxIdx)
  }

  /** `KDTree::argMax` of the prototype, as written: `None` stands for the
      uninitialised `maxIdx` returned when no entry is above zero. */
  function ProtoArgMax(v: seq<real>): (r: Option<nat>)
    ensures r.Some? <==> HasPositive(v)
    ensures r.Some? ==> r.value == ArgMax(v)
  {
    var r := ProtoScan(v, 0, 0.0, None);
    if r.Some? then
      FirstPositiveMaxUnique(v, r.value, ArgMax(v));
      r
    else r
  }

  /** Two coincident points have zero variance on every axis, and then the
      prototype's cut dimension is undetermined while the library's is 0. */
  lemma ProtoArgMaxUndetermined()
    ensures ProtoArgMax([0.0, 0.0]) == None
    ensures ArgMax([0.0, 0.0]) == 0
  {
    assert !HasPositive([0.0, 0.0]);
  }
}
