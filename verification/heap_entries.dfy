/** Entries of both result heaps and the orderings used on them: an entry is
    an index with a squared distance, and entries compare by value only. */
module HeapEntries {
  import opened Scalar
  import opened SeqUtil

  /** `Entry`: a candidate index with its squared distance. */
  datatype Entry = Entry(index: int, value: Dist)

  /** The entry every heap slot is seeded with, `Entry(0, infinity)`. */
  const Sentinel := Entry(0, Infinity)

  /** `k` seeded slots. */
  function Seeds(k: nat): (r: seq<Entry>)
    ensures |r| == k
    ensures forall i :: 0 <= i < k ==> r[i] == Sentinel
  {
    seq(k, _ => Sentinel)
  }

  function ValueOf(e: Entry): Dist
  {
    e.value
  }

  function IndexOf(e: Entry): int
  {
    e.index
  }

  /** `getIndexes()` of either heap: the stored indexes, slot by slot, in
      storage order. */
  function GetIndexes(h: seq<Entry>): (r: seq<int>)
    ensures |r| == |h|
    ensures forall i :: 0 <= i < |h| ==> r[i] == h[i].index
  {
    Map(IndexOf, h)
  }

  /** The values of a heap, slot by slot. */
  function Values(s: seq<Entry>): (r: seq<Dist>)
    ensures |r| == |s|
    ensures forall i :: 0 <= i < |s| ==> r[i] == s[i].value
  {
    Map(ValueOf, s)
  }

  /** The values of a heap as a bag: what every ordering of it shares. */
  function ValueBag(s: seq<Entry>): multiset<Dist>
  {
    multiset(Values(s))
  }

  lemma ValueBagPermutation(a: seq<Entry>, b: seq<Entry>)
    requires multiset(a) == multiset(b)
    ensures ValueBag(a) == ValueBag(b)
  {
    MapPermutation(ValueOf, a, b);
  }

  lemma ValueBagConcat(a: seq<Entry>, b: seq<Entry>)
    ensures ValueBag(a + b) == ValueBag(a) + ValueBag(b)
  {
    MapConcat(ValueOf, a, b);
  }

  /** Exchanging the entry in slot `j` for `e`, in any arrangement, exchanges
      one value in the bag. */
  lemma ExchangeBag(h: seq<Entry>, j: nat, e: Entry, r: seq<Entry>)
    requires j < |h|
    requires multiset(r) == multiset(h) - multiset{h[j]} + multiset{e}
    ensures ValueBag(r) == ValueBag(h) - multiset{h[j].value} + multiset{e.value}
  {
    var rest := h[..j] + h[j + 1..];
    SplitAt(h, j);
    assert multiset(h) - multiset{h[j]} == multiset(rest);
    assert multiset(r) == multiset(rest + [e]);
    MapPermutation(ValueOf, r, rest + [e]);
    MapConcat(ValueOf, rest, [e]);
    MapRemove(ValueOf, h, j);
  }

  /** Non-decreasing distances. */
  predicate SortedDists(s: seq<Dist>)
  {
    forall i, j :: 0 <= i < j < |s| ==> Le(s[i], s[j])
  }

  /** Non-decreasing by value, the order `Entry::operator<` sorts by. */
  predicate Sorted(s: seq<Entry>)
  {
    forall i, j :: 0 <= i < j < |s| ==> Le(s[i].value, s[j].value)
  }

  /** The slot an entry of value `v` takes in a sorted sequence when it is
      placed after every value not above it. */
  function InsertionPoint(v: Dist, s: seq<Entry>): (j: nat)
    requires Sorted(s)
    ensures j <= |s|
    ensures forall i :: 0 <= i < j ==> Le(s[i].value, v)
    ensures forall i :: j <= i < |s| ==> Lt(v, s[i].value)
    decreases |s|
  {
    if |s| == 0 || Lt(v, s[0].value) then 0 else 1 + InsertionPoint(v, s[1..])
  }

  /** Sorted insertion after any equal values. */
  function Insert(e: Entry, s: seq<Entry>): (r: seq<Entry>)
    requires Sorted(s)
    ensures |r| == |s| + 1
    ensures Sorted(r)
    ensures multiset(r) == multiset(s) + multiset{e}
  {
    var j := InsertionPoint(e.value, s);
    InsertAt(e, s, j);
    s[..j] + [e] + s[j..]
  }

  lemma InsertAt(e: Entry, s: seq<Entry>, j: nat)
    requires Sorted(s) && j <= |s|
    requires forall i :: 0 <= i < j ==> Le(s[i].value, e.value)
    requires forall i :: j <= i < |s| ==> Lt(e.value, s[i].value)
    ensures Sorted(s[..j] + [e] + s[j..])
    ensures multiset(s[..j] + [e] + s[j..]) == multiset(s) + multiset{e}
  {
    var r := s[..j] + [e] + s[j..];
    forall a, b | 0 <= a < b < |r|
      ensures Le(r[a].value, r[b].value)
    {
      if b < j {
        assert r[a] == s[a] && r[b] == s[b];
      } else if b == j {
        assert r[a] == s[a];
      } else if a == j {
        assert r[b] == s[b - 1];
      } else if a < j {
        assert r[a] == s[a] && r[b] == s[b - 1];
      } else {
        assert r[a] == s[a - 1] && r[b] == s[b - 1];
      }
    }
    assert s == s[..j] + s[j..];
  }

  /** An insertion sort, the witness that a sorted arrangement of any entries
      exists. */
  function SortEntries(s: seq<Entry>): (r: seq<Entry>)
    ensures Sorted(r)
    ensures multiset(r) == multiset(s)
    decreases |s|
  {
    if |s| == 0 then []
    else
      assert s == [s[0]] + s[1..];
      Insert(s[0], SortEntries(s[1..]))
  }

  function Reverse<T>(s: seq<T>): (r: seq<T>)
    ensures |r| == |s|
    ensures forall i :: 0 <= i < |s| ==> r[i] == s[|s| - 1 - i]
    ensures multiset(r) == multiset(s)
    decreases |s|
  {
    if |s| == 0 then []
    else
      assert s == [s[0]] + s[1..];
      Reverse(s[1..]) + [s[0]]
  }

  /** The first of a sorted sequence of distances is a least one. */
  lemma SortedHeadIsLeast(a: seq<Dist>, x: Dist)
    requires SortedDists(a) && x in multiset(a)
    ensures Le(a[0], x)
  {
    var i :| 0 <= i < |a| && a[i] == x;
    if i == 0 {
      LeTotalOrder(x, x, x);
    }
  }

  /** Two sorted sequences of distances holding the same bag are equal: the
      sorted order of a bag is unique. */
  lemma {:induction false} SortedDistsUnique(a: seq<Dist>, b: seq<Dist>)
    requires SortedDists(a) && SortedDists(b)
    requires multiset(a) == multiset(b)
    ensures a == b
    decreases |a|
  {
    if |a| == 0 {
      assert |b| == |multiset(b)| == 0;
    } else {
      assert |b| == |multiset(b)| == |a|;
      SortedHeadIsLeast(a, b[0]);
      SortedHeadIsLeast(b, a[0]);
      LeTotalOrder(a[0], b[0], b[0]);
      assert a == [a[0]] + a[1..];
      assert b == [b[0]] + b[1..];
      assert multiset(a) == multiset(a[1..]) + multiset{a[0]};
      assert multiset(b) == multiset(b[1..]) + multiset{a[0]};
      MultisetCancel(multiset(a[1..]), multiset(b[1..]), a[0]);
      SortedDistsUnique(a[1..], b[1..]);
    }
  }

  /** Two sorted arrangements of entries with the same value bag agree value
      by value, rank by rank. */
  lemma SortedValuesUnique(a: seq<Entry>, b: seq<Entry>)
    requires Sorted(a) && Sorted(b)
    requires ValueBag(a) == ValueBag(b)
    ensures Values(a) == Values(b)
  {
    SortedDistsUnique(Values(a), Values(b));
  }
}
