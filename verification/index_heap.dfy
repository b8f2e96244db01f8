/** `IndexHeap`: k (index, value) entries kept as a std max-heap under
    `Entry::operator<`, so that `head()` is a largest entry. The std algorithms
    `make_heap`, `pop_heap`, `push_heap` and `sort_heap` are given by their
    contracts (a rearrangement of the same entries with the promised order);
    which of the admissible arrangements the library picks is not modelled,
    so the operations are ghost. */
module IndexHeap {
  import opened Scalar
  import opened SeqUtil
  import opened HeapEntries
  import opened Selection
  import Nabo

  /** No slot's value exceeds its parent's. */
  predicate IsMaxHeap(h: seq<Entry>)
  {
    forall i {:trigger h[i]} :: 0 < i < |h| ==> Le(h[i].value, h[(i - 1) / 2].value)
  }

  lemma {:induction false} HeadIsMaxAt(h: seq<Entry>, i: nat)
    requires IsMaxHeap(h) && i < |h|
    ensures Le(h[i].value, h[0].value)
    decreases i
  {
    if i > 0 {
      var p := (i - 1) / 2;
      HeadIsMaxAt(h, p);
      LeTotalOrder(h[i].value, h[p].value, h[0].value);
    } else {
      LeTotalOrder(h[0].value, h[0].value, h[0].value);
    }
  }

  /** The first slot of a max-heap holds a largest value of the heap. */
  lemma HeadIsMax(h: seq<Entry>)
    requires IsMaxHeap(h) && |h| > 0
    ensures IsMax(h[0].value, ValueBag(h))
  {
    forall x | x in ValueBag(h)
      ensures Le(x, h[0].value)
    {
      var i :| 0 <= i < |h| && Values(h)[i] == x;
      HeadIsMaxAt(h, i);
    }
  }

  /** A sequence in non-increasing value order is a max-heap. */
  lemma DescendingIsHeap(s: seq<Entry>)
    requires Sorted(s)
    ensures IsMaxHeap(Reverse(s))
  {
    var r := Reverse(s);
    forall i {:trigger r[i]} | 0 < i < |r|
      ensures Le(r[i].value, r[(i - 1) / 2].value)
    {
      var p := (i - 1) / 2;
      assert r[i] == s[|s| - 1 - i] && r[p] == s[|s| - 1 - p];
    }
  }

  /** Some heap arrangement of any entries exists. */
  lemma HeapExists(s: seq<Entry>)
    ensures exists r :: IsMaxHeap(r) && multiset(r) == multiset(s)
  {
    DescendingIsHeap(SortEntries(s));
  }

  /** `std::make_heap`: a heap arrangement of the same entries. */
  ghost function MakeHeap(s: seq<Entry>): (r: seq<Entry>)
    ensures IsMaxHeap(r)
    ensures multiset(r) == multiset(s)
  {
    HeapExists(s);
    var r :| IsMaxHeap(r) && multiset(r) == multiset(s);
    r
  }

  /** `std::pop_heap`: the head moves to the last slot and the slots before it
      form a heap of the remaining entries. */
  ghost function PopHeap(h: seq<Entry>): (r: seq<Entry>)
    requires IsMaxHeap(h) && |h| > 0
    ensures |r| == |h| && r[|h| - 1] == h[0]
    ensures IsMaxHeap(r[..|h| - 1])
    ensures multiset(r) == multiset(h)
  {
    var rest := MakeHeap(h[1..]);
    assert |rest| == |multiset(rest)| == |h[1..]|;
    assert h == [h[0]] + h[1..];
    assert (rest + [h[0]])[..|h| - 1] == rest;
    rest + [h[0]]
  }

  /** `std::push_heap`: the last entry joins the heap formed by the others. */
  ghost function PushHeap(h: seq<Entry>): (r: seq<Entry>)
    requires |h| > 0 && IsMaxHeap(h[..|h| - 1])
    ensures IsMaxHeap(r)
    ensures multiset(r) == multiset(h)
  {
    MakeHeap(h)
  }

  /** A permutation of seeds is the seeds. */
  lemma PermutationOfSeeds(r: seq<Entry>, k: nat)
    requires multiset(r) == multiset(Seeds(k))
    ensures r == Seeds(k)
  {
    assert |r| == |multiset(r)| == k;
    forall i | 0 <= i < |r|
      ensures r[i] == Sentinel
    {
      assert r[i] in multiset(Seeds(k));
    }
  }

  /** Constructor `IndexHeap(size)`: `size` seeded entries, made into a heap. */
  ghost function Create(k: nat): (r: seq<Entry>)
    ensures |r| == k
    ensures forall i :: 0 <= i < k ==> r[i] == Entry(0, Infinity)
    ensures IsMaxHeap(r)
  {
    var r := MakeHeap(Seeds(k));
    PermutationOfSeeds(r, k);
    r
  }

  /** `reset()`: every slot is refilled with the seed and re-heapified. */
  ghost function Reset(h: seq<Entry>): (r: seq<Entry>)
    ensures |r| == |h|
    ensures forall i :: 0 <= i < |h| ==> r[i] == Entry(0, Infinity)
    ensures IsMaxHeap(r)
  {
    Create(|h|)
  }

  /** `head()`: the front entry, a largest one. */
  function Head(h: seq<Entry>): (e: Entry)
    requires IsMaxHeap(h) && |h| > 0
    ensures e in h
    ensures forall i :: 0 <= i < |h| ==> Le(h[i].value, e.value)
  {
    HeadIsMax(h);
    forall i | 0 <= i < |h|
      ensures Le(h[i].value, h[0].value)
    {
      HeadIsMaxAt(h, i);
    }
    h[0]
  }

  /** `replaceHead(index, value)`: pop the head to the last slot, overwrite it,
      and push it back. */
  lemma PopReplacePush(h: seq<Entry>, index: int, value: real)
    requires IsMaxHeap(h) && |h| > 0
    ensures exists r :: |r| == |h| && IsMaxHeap(r)
              && multiset(r) == multiset(h) - multiset{Head(h)} + multiset{Entry(index, Finite(value))}
  {
    var p := PopHeap(h);
    var n := |h| - 1;
    var q := p[n := Entry(index, Finite(value))];
    assert q[..n] == p[..n];
    assert p == p[..n] + [p[n]];
    assert q == p[..n] + [Entry(index, Finite(value))];
    var r := PushHeap(q);
    assert |r| == |multiset(r)| == |q|;
  }

  /** The heap after `replaceHead`: some heap arrangement of the entries
      with the head exchanged for the new one, as `PopReplacePush` builds. */
  ghost function ReplaceHead(h: seq<Entry>, index: int, value: real): (r: seq<Entry>)
    requires IsMaxHeap(h) && |h| > 0
    ensures |r| == |h|
    ensures IsMaxHeap(r)
    ensures multiset(r) == multiset(h) - multiset{Head(h)} + multiset{Entry(index, Finite(value))}
  {
    PopReplacePush(h, index, value);
    var r :| |r| == |h| && IsMaxHeap(r)
             && multiset(r) == multiset(h) - multiset{Head(h)} + multiset{Entry(index, Finite(value))};
    r
  }

  /** `sort()`: `std::sort_heap`, ascending by value. */
  ghost function Sort(h: seq<Entry>): (r: seq<Entry>)
    requires IsMaxHeap(h)
    ensures Sorted(r)
    ensures |r| == |h| && multiset(r) == multiset(h)
  {
    var r :| Sorted(r) && multiset(r) == multiset(SortEntries(h));
    assert |r| == |multiset(r)| == |h|;
    r
  }

  /** The value bag after a replacement: the head's value leaves and the new
      value enters. */
  lemma ReplaceHeadBag(h: seq<Entry>, index: int, value: real)
    requires IsMaxHeap(h) && |h| > 0
    ensures ValueBag(ReplaceHead(h, index, value))
         == ValueBag(h) - multiset{Head(h).value} + multiset{Finite(value)}
  {
    var hd := Head(h);
    var j :| 0 <= j < |h| && h[j] == hd;
    ExchangeBag(h, j, Entry(index, Finite(value)), ReplaceHead(h, index, value));
  }

  /** The guarded offer every search makes: a candidate at squared distance
      `d` replaces the head only if it is strictly closer than the head and
      eligible under the self-match rule. */
  ghost function Offer(h: seq<Entry>, index: int, d: real, allowSelfMatch: bool): (r: seq<Entry>)
    requires IsMaxHeap(h) && |h| > 0
    ensures |r| == |h| && IsMaxHeap(r)
  {
    if Lt(Finite(d), Head(h).value) && Nabo.Eligible(d, allowSelfMatch) then ReplaceHead(h, index, d) else h
  }

  /** The eligible part of a candidate: the distance it adds to everything
      offered so far. */
  function Offered(d: real, allowSelfMatch: bool): multiset<Dist>
  {
    if Nabo.Eligible(d, allowSelfMatch) then multiset{Finite(d)} else multiset{}
  }

  /** An offer keeps the heap's values within `f` of everything eligible
      offered so far. */
  lemma OfferWithin(h: seq<Entry>, index: int, d: real, allowSelfMatch: bool, a: multiset<Dist>, f: real)
    requires IsMaxHeap(h) && |h| > 0
    requires Within(ValueBag(h), a, f) && AllNonNeg(a) && d >= 0.0 && f >= 1.0
    ensures Within(ValueBag(Offer(h, index, d, allowSelfMatch)), a + Offered(d, allowSelfMatch), f)
    ensures AllNonNeg(a + Offered(d, allowSelfMatch))
  {
    HeadIsMax(h);
    var mx := Head(h).value;
    if !Nabo.Eligible(d, allowSelfMatch) {
      assert a + Offered(d, allowSelfMatch) == a;
    } else if Lt(Finite(d), mx) {
      ReplaceHeadBag(h, index, d);
      OfferReplace(ValueBag(h), a, f, mx, Finite(d));
    } else {
      LeTotalOrder(mx, Finite(d), Finite(d));
      OfferKeep(ValueBag(h), a, f, mx, Finite(d));
    }
  }

  /** The seeds of a fresh heap. */
  lemma SeedBag(k: nat, f: real)
    ensures Within(ValueBag(Create(k)), ValueBag(Create(k)), f)
    ensures AllNonNeg(ValueBag(Create(k)))
  {
    WithinSelf(ValueBag(Create(k)), f);
  }
}
