/** `IndexHeapBruteForceVector`: the same k (index, value) entries kept in a
    vector sorted ascending by value, so that the head is the last slot. */
module LinearHeap {
  import opened Scalar
  import opened HeapEntries
  import IndexHeap

  /** Constructor: `size` seeded entries, already in order. */
  function Create(k: nat): (r: seq<Entry>)
    ensures |r| == k && Sorted(r)
    ensures forall i :: 0 <= i < k ==> r[i] == Entry(0, Infinity)
  {
    Seeds(k)
  }

  /** `reset()`: every value becomes +infinity; the indexes stay as they are. */
  function Reset(h: seq<Entry>): (r: seq<Entry>)
    ensures |r| == |h| && Sorted(r)
    ensures GetIndexes(r) == GetIndexes(h)
    ensures forall i :: 0 <= i < |h| ==> r[i].value == Infinity
  {
    seq(|h|, i requires 0 <= i < |h| => Entry(h[i].index, Infinity))
  }

  /** `head()`: the last slot, a largest entry of a sorted vector. */
  function Head(h: seq<Entry>): (e: Entry)
    requires |h| > 0 && Sorted(h)
    ensures e in h
    ensures forall i :: 0 <= i < |h| ==> Le(h[i].value, e.value)
  {
    var e := h[|h| - 1];
    assert forall i :: 0 <= i < |h| - 1 ==> Le(h[i].value, e.value);
    LeTotalOrder(e.value, e.value, e.value);
    e
  }

  /** Only one slot can follow the prefix of values not above `v` and precede
      the values above it. */
  lemma {:induction false} InsertionPointUnique(v: Dist, s: seq<Entry>, j: nat)
    requires Sorted(s) && j <= |s|
    requires forall i :: 0 <= i < j ==> Le(s[i].value, v)
    requires forall i :: j <= i < |s| ==> Lt(v, s[i].value)
    ensures j == InsertionPoint(v, s)
    decreases |s|
  {
    if |s| > 0 && j > 0 {
      InsertionPointUnique(v, s[1..], j - 1);
    }
  }

  /** `replaceHead(index, value)`: starting from the last slot, every entry
      strictly greater than `value` moves one slot right, overwriting the old
      head, and the new entry lands after any equal values. The size must be
      at least one: the loop starts at `size - 1`. */
  method ReplaceHead(data: seq<Entry>, index: int, value: real) returns (r: seq<Entry>)
    requires |data| > 0 && Sorted(data)
    ensures r == Insert(Entry(index, Finite(value)), data[..|data| - 1])
    ensures Sorted(r) && |r| == |data|
    ensures multiset(r) == multiset(data) - multiset{data[|data| - 1]} + multiset{Entry(index, Finite(value))}
  {
    var e := Entry(index, Finite(value));
    var n := |data|;
    r := data;
    var i := n - 1;
    while i > 0 && Lt(e.value, r[i - 1].value)
      invariant 0 <= i <= n - 1 && |r| == n
      invariant r[..i] == data[..i]
      invariant forall t :: i < t < n ==> r[t] == data[t - 1]
      invariant forall t :: i <= t < n - 1 ==> Lt(e.value, data[t].value)
      decreases i
    {
      r := r[i := r[i - 1]];
      i := i - 1;
    }
    ShiftedIsInsert(data, r, i, e);
    r := r[i := e];
    DropLastBag(data, e);
  }

  /** Once the shifting stops, writing the new entry into the freed slot gives
      the sorted insertion into the vector without its old head. */
  lemma ShiftedIsInsert(data: seq<Entry>, r: seq<Entry>, i: nat, e: Entry)
    requires Sorted(data) && i < |data| == |r|
    requires r[..i] == data[..i]
    requires forall t :: i < t < |data| ==> r[t] == data[t - 1]
    requires forall t :: i <= t < |data| - 1 ==> Lt(e.value, data[t].value)
    requires i == 0 || Le(data[i - 1].value, e.value)
    ensures r[i := e] == Insert(e, data[..|data| - 1])
  {
    var s := data[..|data| - 1];
    forall t | 0 <= t < i
      ensures Le(s[t].value, e.value)
    {
      LeTotalOrder(s[t].value, s[i - 1].value, e.value);
    }
    InsertionPointUnique(e.value, s, i);
    var q := r[i := e];
    assert q == s[..i] + [e] + s[i..] by {
      forall t | 0 <= t < |q|
        ensures q[t] == (s[..i] + [e] + s[i..])[t]
      {
        if t < i {
          assert q[t] == r[..i][t];
        }
      }
    }
  }

  lemma DropLastBag(data: seq<Entry>, e: Entry)
    requires |data| > 0 && Sorted(data)
    ensures multiset(Insert(e, data[..|data| - 1])) == multiset(data) - multiset{data[|data| - 1]} + multiset{e}
  {
    var n := |data|;
    assert data == data[..n - 1] + [data[n - 1]];
    assert multiset(data) == multiset(data[..n - 1]) + multiset{data[n - 1]};
  }

  /** `sort()`: `std::sort` by value. The order among equal values is not
      specified, so the result is some sorted arrangement. */
  ghost function Sort(h: seq<Entry>): (r: seq<Entry>)
    ensures Sorted(r)
    ensures multiset(r) == multiset(h)
  {
    var r :| Sorted(r) && multiset(r) == multiset(SortEntries(h));
    r
  }

  /** The vector is sorted already, so sorting it leaves every value where it
      was; only entries of equal value may trade places. */
  lemma SortKeepsValues(h: seq<Entry>)
    requires Sorted(h)
    ensures Values(Sort(h)) == Values(h)
  {
    ValueBagPermutation(Sort(h), h);
    SortedValuesUnique(Sort(h), h);
  }

  /** Both strategies make the same change to the bag of values: the head's
      value leaves and the new value enters. So a linear heap and a tree heap
      that hold the same values still do after the same replacement. */
  lemma ReplaceHeadAgrees(l: seq<Entry>, t: seq<Entry>, index: int, value: real)
    requires |l| > 0 && Sorted(l)
    requires IndexHeap.IsMaxHeap(t) && |t| > 0
    requires ValueBag(l) == ValueBag(t)
    ensures Head(l).value == IndexHeap.Head(t).value
    ensures ValueBag(Insert(Entry(index, Finite(value)), l[..|l| - 1]))
         == ValueBag(IndexHeap.ReplaceHead(t, index, value))
  {
    SameHeadValue(l, t);
    ReplaceHeadBag(l, index, value);
    IndexHeap.ReplaceHeadBag(t, index, value);
  }

  /** The value bag after a linear replacement: the head's value leaves and
      the new value enters. */
  lemma ReplaceHeadBag(l: seq<Entry>, index: int, value: real)
    requires |l| > 0 && Sorted(l)
    ensures ValueBag(Insert(Entry(index, Finite(value)), l[..|l| - 1]))
         == ValueBag(l) - multiset{Head(l).value} + multiset{Finite(value)}
  {
    DropLastBag(l, Entry(index, Finite(value)));
    ExchangeBag(l, |l| - 1, Entry(index, Finite(value)), Insert(Entry(index, Finite(value)), l[..|l| - 1]));
  }

  /** Heads hold a largest value, and a bag has only one largest value. */
  lemma SameHeadValue(l: seq<Entry>, t: seq<Entry>)
    requires |l| > 0 && Sorted(l)
    requires IndexHeap.IsMaxHeap(t) && |t| > 0
    requires ValueBag(l) == ValueBag(t)
    ensures Head(l).value == IndexHeap.Head(t).value
  {
    var hl, ht := Head(l), IndexHeap.Head(t);
    var jl :| 0 <= jl < |l| && l[jl] == hl;
    var jt :| 0 <= jt < |t| && t[jt] == ht;
    assert Values(l)[jl] == hl.value;
    assert Values(t)[jt] == ht.value;
    assert hl.value in ValueBag(t);
    assert ht.value in ValueBag(l);
    var i :| 0 <= i < |t| && Values(t)[i] == hl.value;
    var j :| 0 <= j < |l| && Values(l)[j] == ht.value;
    assert Le(hl.value, ht.value) && Le(ht.value, hl.value);
    LeTotalOrder(hl.value, ht.value, ht.value);
  }
}
