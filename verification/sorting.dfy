/** `std::sort` and `std::nth_element` under a key comparator such as
    `CompareDim`: given by what they promise (a rearrangement with the
    stated order), not by how the library arranges equal keys. */
module Sorting {

  /** Non-decreasing under `key`. */
  ghost predicate SortedOn<T>(s: seq<T>, key: T -> real)
  {
    forall i, j :: 0 <= i < j < |s| ==> key(s[i]) <= key(s[j])
  }

  /** `s[m]` sits where it would in sorted order: nothing before it has a
      larger key and nothing after it a smaller one. */
  ghost predicate PartitionedAt<T>(s: seq<T>, key: T -> real, m: nat)
  {
    m < |s|
    && (forall i :: 0 <= i < m ==> key(s[i]) <= key(s[m]))
    && (forall i :: m < i < |s| ==> key(s[m]) <= key(s[i]))
  }

  /** Insertion in front of the first larger key. */
  ghost function InsertOn<T>(x: T, s: seq<T>, key: T -> real): (r: seq<T>)
    requires SortedOn(s, key)
    ensures SortedOn(r, key)
    ensures multiset(r) == multiset(s) + multiset{x}
    decreases |s|
  {
    if |s| == 0 then [x]
    else if key(x) <= key(s[0]) then [x] + s
    else
      var t := InsertOn(x, s[1..], key);
      BagBound(t, s[1..], x, key, key(s[0]));
      ConsSorted(s[0], t, key);
      ConsBag(s, t, x);
      [s[0]] + t
  }

  /** Everything in a bag made of `s` and `x` is at least `b` on the key
      when all of `s` and `x` are. */
  lemma BagBound<T>(t: seq<T>, s: seq<T>, x: T, key: T -> real, b: real)
    requires multiset(t) == multiset(s) + multiset{x}
    requires b <= key(x) && forall i :: 0 <= i < |s| ==> b <= key(s[i])
    ensures forall i :: 0 <= i < |t| ==> b <= key(t[i])
  {
    forall i | 0 <= i < |t|
      ensures b <= key(t[i])
    {
      assert t[i] in multiset(s) + multiset{x};
      if t[i] != x {
        assert t[i] in s;
      }
    }
  }

  /** A sorted run stays sorted under a head at most its elements. */
  lemma ConsSorted<T>(h: T, t: seq<T>, key: T -> real)
    requires SortedOn(t, key) && forall i :: 0 <= i < |t| ==> key(h) <= key(t[i])
    ensures SortedOn([h] + t, key)
  {
  }

  /** Putting back the head of `s` in front of `s[1..]` with `x` inserted
      gives the bag of `s` and `x`. */
  lemma ConsBag<T>(s: seq<T>, t: seq<T>, x: T)
    requires |s| > 0 && multiset(t) == multiset(s[1..]) + multiset{x}
    ensures multiset([s[0]] + t) == multiset(s) + multiset{x}
  {
    assert s == [s[0]] + s[1..];
  }

  /** An insertion sort: the witness that a sorted rearrangement exists. */
  ghost function InsertionSort<T>(s: seq<T>, key: T -> real): (r: seq<T>)
    ensures SortedOn(r, key)
    ensures multiset(r) == multiset(s)
    decreases |s|
  {
    if |s| == 0 then []
    else
      assert s == [s[0]] + s[1..];
      InsertOn(s[0], InsertionSort(s[1..], key), key)
  }

  /** `std::sort(first, last, comp)`: a sorted rearrangement. */
  ghost function StdSort<T>(s: seq<T>, key: T -> real): (r: seq<T>)
    ensures SortedOn(r, key)
    ensures multiset(r) == multiset(s) && |r| == |s|
  {
    var w := InsertionSort(s, key);
    var r :| SortedOn(r, key) && multiset(r) == multiset(s);
    assert |r| == |multiset(r)| == |s|;
    r
  }

  /** `std::nth_element(first, first + m, last, comp)`: a rearrangement with
      the order statistic `m` in its place. */
  ghost function NthElement<T>(s: seq<T>, key: T -> real, m: nat): (r: seq<T>)
    requires m < |s|
    ensures PartitionedAt(r, key, m)
    ensures multiset(r) == multiset(s) && |r| == |s|
  {
    var w := InsertionSort(s, key);
    assert |w| == |multiset(w)| == |s|;
    var r :| PartitionedAt(r, key, m) && multiset(r) == multiset(s);
    assert |r| == |multiset(r)| == |s|;
    r
  }

  /** An element of a rearranged slice is an element of that slice. */
  lemma InSlice<T>(s: seq<T>, t: seq<T>, x: T)
    requires multiset(t) == multiset(s) && x in t
    ensures exists i :: 0 <= i < |s| && s[i] == x
  {
    assert x in multiset(t);
    assert x in multiset(s);
  }

  /** A sorted sequence has every position in its place. */
  lemma SortedIsPartitioned<T>(s: seq<T>, key: T -> real, m: nat)
    requires SortedOn(s, key) && m < |s|
    ensures PartitionedAt(s, key, m)
  {
  }
}
