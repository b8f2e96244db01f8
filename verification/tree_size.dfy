/** Sizes of the implicit trees and the positions a build may write. Bit
    tests and bit sets of the source are written with integer arithmetic:
    `n & (1 << i)` is `Bit(n, i)` and `count |= (1 << j)` is `SetBit`. */
module TreeSize {

  function Pow2(n: nat): (r: nat)
    ensures r >= 1
  {
    if n == 0 then 1 else 2 * Pow2(n - 1)
  }

  lemma {:induction false} Pow2Monotone(a: nat, b: nat)
    requires a <= b
    ensures Pow2(a) <= Pow2(b)
    decreases b
  {
    if a < b {
      Pow2Monotone(a, b - 1);
    }
  }

  /** Bit `i` of `n`. */
  function Bit(n: nat, i: nat): bool
    decreases i
  {
    if i == 0 then n % 2 == 1 else Bit(n / 2, i - 1)
  }

  /** `n | (1 << j)`. */
  function SetBit(n: nat, j: nat): nat
  {
    if Bit(n, j) then n else n + Pow2(j)
  }

  /** The number of significant bits of `n`: 0 for 0. */
  function BitLength(n: nat): nat
  {
    if n == 0 then 0 else 1 + BitLength(n / 2)
  }

  lemma {:induction false} BitLengthBounds(n: nat)
    ensures n < Pow2(BitLength(n))
    ensures n > 0 ==> Pow2(BitLength(n) - 1) <= n
  {
    if n > 0 {
      BitLengthBounds(n / 2);
    }
  }

  /** A number between `2^i` and `2^(i+1)` has `i + 1` bits. */
  lemma {:induction false} BitLengthOfRange(n: nat, i: nat)
    requires Pow2(i) <= n < Pow2(i + 1)
    ensures BitLength(n) == i + 1
    decreases i
  {
    if i > 0 {
      BitLengthOfRange(n / 2, i - 1);
    }
  }

  lemma {:induction false} BitLengthHalf(n: nat)
    requires n > 0
    ensures BitLength(n / 2) == BitLength(n) - 1
  {
  }

  lemma {:induction false} BitLengthMonotone(a: nat, b: nat)
    requires a <= b
    ensures BitLength(a) <= BitLength(b)
    decreases b
  {
    if a > 0 {
      BitLengthMonotone(a / 2, b / 2);
    }
  }

  /** Below `2^(i+1)` with bit `i` clear means below `2^i`. */
  lemma {:induction false} ClearTopBit(n: nat, i: nat)
    requires n < Pow2(i + 1) && !Bit(n, i)
    ensures n < Pow2(i)
    decreases i
  {
    if i > 0 {
      ClearTopBit(n / 2, i - 1);
    }
  }

  lemma {:induction false} SetBitBound(n: nat, i: nat)
    requires Bit(n, i)
    ensures n >= Pow2(i)
    decreases i
  {
    if i > 0 {
      SetBitBound(n / 2, i - 1);
    }
  }

  /** `2^j - 1` has bit `j` clear, so setting it adds `2^j`. */
  lemma {:induction false} MaskTopBitClear(j: nat)
    ensures !Bit(Pow2(j) - 1, j)
    decreases j
  {
    if j > 0 {
      assert (Pow2(j) - 1) / 2 == Pow2(j - 1) - 1;
      MaskTopBitClear(j - 1);
    }
  }

  /** The first loop of `getTreeSize`: the highest set bit among bits 31
      down to 0, or -1 when there is none. */
  method HighestBit(elCount: nat) returns (i: int)
    requires elCount < Pow2(31)
    ensures i == BitLength(elCount) - 1
  {
    i := 31;
    while i >= 0 && !Bit(elCount, i)
      invariant -1 <= i <= 31
      invariant elCount < Pow2(i + 1)
      decreases i + 1
    {
      ClearTopBit(elCount, i);
      i := i - 1;
    }
    if i >= 0 {
      SetBitBound(elCount, i);
      BitLengthOfRange(elCount, i);
    }
  }

  /** The second loop: set every bit from 0 up to `i`. */
  method FillBits(i: int) returns (count: nat)
    requires i >= -1
    ensures count == Pow2(i + 1) - 1
  {
    count := 0;
    var j := 0;
    while j <= i
      invariant 0 <= j <= i + 1
      invariant count == Pow2(j) - 1
    {
      MaskTopBitClear(j);
      count := SetBit(count, j);
      j := j + 1;
    }
  }

  /** The all-ones mask as wide as `n`, `2^BitLength(n) - 1`. */
  method Mask(elCount: nat) returns (count: nat)
    requires elCount < Pow2(31)
    ensures count == Pow2(BitLength(elCount)) - 1
  {
    var i := HighestBit(elCount);
    count := FillBits(i);
  }

  /** The smallest `2^m - 1` not below `n`. */
  ghost predicate SmallestFullTree(count: nat, n: nat)
  {
    (exists m: nat :: count == Pow2(m) - 1)
    && count >= n
    && forall m: nat :: Pow2(m) - 1 >= n ==> count <= Pow2(m) - 1
  }

  lemma MaskIsSmallestFullTree(n: nat)
    ensures SmallestFullTree(Pow2(BitLength(n)) - 1, n)
  {
    BitLengthBounds(n);
    forall m: nat | Pow2(m) - 1 >= n
      ensures Pow2(BitLength(n)) - 1 <= Pow2(m) - 1
    {
      if m < BitLength(n) {
        Pow2Monotone(m, BitLength(n) - 1);
      } else {
        Pow2Monotone(BitLength(n), m);
      }
    }
  }

  /** The size a points-in-nodes tree of `n` points is given: a full tree of
      `BitLength(n)` levels. */
  function NodesSize(n: nat): nat
  {
    Pow2(BitLength(n)) - 1
  }

  /** The size a points-in-leaves tree of `n > 0` points is given: a full
      tree of `BitLength(n - 1) + 1` levels. */
  function LeavesSize(n: nat): nat
    requires n > 0
  {
    Pow2(BitLength(n - 1) + 1) - 1
  }

  /** Points-in-nodes `getTreeSize(n)` (also the prototype's): one slot per
      node of the smallest full binary tree with at least `n` slots. */
  method NodesTreeSize(elCount: nat) returns (count: nat)
    requires elCount < Pow2(31)
    ensures SmallestFullTree(count, elCount)
    ensures count == NodesSize(elCount)
  {
    count := Mask(elCount);
    MaskIsSmallestFullTree(elCount);
  }

  /** Doubling the all-ones mask and setting the low bit adds one level. */
  lemma OneMoreLevel(inner: nat, count: nat, elCount: nat)
    requires elCount > 0 && inner == NodesSize(elCount - 1) && count == 2 * inner + 1
    ensures count == LeavesSize(elCount)
  {
    var b := BitLength(elCount - 1);
    assert Pow2(b + 1) == 2 * Pow2(b);
  }

  /** Points-in-leaves `getTreeSize(n)`: `n - 1` split nodes rounded up to a
      full tree, shifted left with the low bit set, i.e. one more level. */
  method LeavesTreeSize(elCount: nat) returns (count: nat)
    requires 0 < elCount < Pow2(31)
    ensures count % 2 == 1 && SmallestFullTree(count / 2, elCount - 1)
    ensures count == LeavesSize(elCount)
  {
    var inner := NodesTreeSize(elCount - 1);
    count := 2 * inner;
    count := count + 1;
    OneMoreLevel(inner, count, elCount);
    OddHalf(inner, count, elCount - 1);
  }

  /** `2 * inner + 1` halves back to `inner`. */
  lemma OddHalf(inner: nat, count: nat, n: nat)
    requires SmallestFullTree(inner, n) && count == 2 * inner + 1
    ensures count % 2 == 1 && SmallestFullTree(count / 2, n)
  {
    assert count / 2 == inner;
  }

  /** Every slot of a complete subtree of height `h` rooted at `pos` lies
      below `size`. */
  predicate Fits(pos: nat, h: nat, size: nat)
    decreases h
  {
    h == 0 || (pos < size && Fits(2 * pos + 1, h - 1, size) && Fits(2 * pos + 2, h - 1, size))
  }

  lemma {:induction false} FitsLower(pos: nat, h: nat, h': nat, size: nat)
    requires Fits(pos, h, size) && h' <= h
    ensures Fits(pos, h', size)
    decreases h
  {
    if h' > 0 {
      FitsLower(2 * pos + 1, h - 1, h' - 1, size);
      FitsLower(2 * pos + 2, h - 1, h' - 1, size);
    }
  }

  /** A slot on level `d` (between `2^d - 1` and `2^(d+1) - 2`) roots a
      subtree of height `levels - d` inside a full tree of `levels` levels. */
  lemma {:induction false} LevelFits(pos: nat, d: nat, h: nat, levels: nat)
    requires Pow2(d) - 1 <= pos <= Pow2(d + 1) - 2
    requires d + h <= levels
    ensures Fits(pos, h, Pow2(levels) - 1)
    decreases h
  {
    if h > 0 {
      Pow2Monotone(d + 1, levels);
      LevelFits(2 * pos + 1, d + 1, h - 1, levels);
      LevelFits(2 * pos + 2, d + 1, h - 1, levels);
    }
  }

  /** The root of a full tree of `levels` levels fits that many levels. */
  lemma RootFits(levels: nat)
    ensures Fits(0, levels, Pow2(levels) - 1)
  {
    LevelFits(0, 0, levels, levels);
  }

  /** A subtree of positive height has its root inside the array, and its
      children root subtrees one level lower. */
  lemma FitsChildren(pos: nat, h: nat, size: nat)
    requires Fits(pos, h, size) && h > 0
    ensures pos < size
    ensures Fits(2 * pos + 1, h - 1, size) && Fits(2 * pos + 2, h - 1, size)
  {
  }

  /** The points-in-nodes split of `c >= 2` points: the left range of
      `c / 2` points and the right range of `(c - 1) / 2` points each fit
      below the node. */
  lemma NodesSplitFits(pos: nat, c: nat, size: nat)
    requires c >= 2 && Fits(pos, BitLength(c), size)
    ensures pos < size
    ensures Fits(2 * pos + 1, BitLength(c / 2), size)
    ensures Fits(2 * pos + 2, BitLength((c - 1) / 2), size)
    ensures c == 2 ==> 2 * pos + 2 < size
  {
    var h := BitLength(c);
    BitLengthHalf(c);
    FitsChildren(pos, h, size);
    BitLengthMonotone((c - 1) / 2, c / 2);
    FitsLower(2 * pos + 2, h - 1, BitLength((c - 1) / 2), size);
    if c == 2 {
      assert BitLength(1) == 1;
      FitsChildren(2 * pos + 2, h - 1, size);
    }
  }

  /** The points-in-leaves split of `c >= 2` points into `c - c / 2` on the
      left and `c / 2` on the right: both ranges fit below the node. */
  lemma LeavesSplitFits(pos: nat, c: nat, size: nat)
    requires c >= 2 && Fits(pos, BitLength(c - 1) + 1, size)
    ensures pos < size
    ensures Fits(2 * pos + 1, BitLength(c - c / 2 - 1) + 1, size)
    ensures Fits(2 * pos + 2, BitLength(c / 2 - 1) + 1, size)
  {
    var h := BitLength(c - 1) + 1;
    FitsChildren(pos, h, size);
    assert c - c / 2 - 1 == (c - 1) / 2;
    BitLengthHalf(c - 1);
    BitLengthMonotone(c / 2 - 1, (c - 1) / 2);
    FitsLower(2 * pos + 2, h - 1, BitLength(c / 2 - 1) + 1, size);
  }
}
