/** What every search hands back, judged against the cloud it searched: each
    slot names a column at its squared distance from the query (or is still
    an unused seed), and the slots hold the k smallest eligible distances. */
module Results {
  import opened Scalar
  import opened Nabo
  import opened HeapEntries
  import opened Selection
  import opened IndexHeap

  /** What a query hands back: the final slots, whose indexes are the
      returned `IndexVector`, and the updated visit counters. */
  datatype Reply = Reply(entries: seq<Entry>, stats: Statistics)

  /** A slot is an unused seed, or names an eligible column at its squared
      distance from the query. */
  ghost predicate AnswerEntry(e: Entry, cloud: Cloud, q: Vector, allowSelfMatch: bool)
  {
    e == Sentinel
    || (0 <= e.index < |cloud| && |cloud[e.index]| == |q|
        && e.value == Finite(Dist2(cloud[e.index], q))
        && Eligible(Dist2(cloud[e.index], q), allowSelfMatch))
  }

  ghost predicate Answers(h: seq<Entry>, cloud: Cloud, q: Vector, allowSelfMatch: bool)
  {
    forall e :: e in h ==> AnswerEntry(e, cloud, q, allowSelfMatch)
  }

  /** Everything a search over `cloud` puts before a heap of `k` slots: the
      `k` seeds and the distance of every eligible column. */
  ghost function Candidates(cloud: Cloud, q: Vector, allowSelfMatch: bool, k: nat): multiset<Dist>
    requires IsCloud(cloud, |q|)
  {
    ValueBag(Seeds(k)) + multiset(EligibleDists(cloud, q, allowSelfMatch))
  }

  /** The slots hold k smallest candidates. */
  ghost predicate KSmallest(h: seq<Entry>, cloud: Cloud, q: Vector, allowSelfMatch: bool)
    requires IsCloud(cloud, |q|)
  {
    Smallest(ValueBag(h), Candidates(cloud, q, allowSelfMatch, |h|))
  }

  /** A fresh heap is its seeds. */
  lemma CreateIsSeeds(k: nat)
    ensures Create(k) == Seeds(k)
  {
  }

  /** Seeds answer any query. */
  lemma SeedsAnswer(k: nat, cloud: Cloud, q: Vector, allowSelfMatch: bool)
    ensures Answers(Create(k), cloud, q, allowSelfMatch)
  {
  }

  /** Offering column `i` keeps every slot an answer. */
  lemma OfferAnswers(h: seq<Entry>, cloud: Cloud, q: Vector, allowSelfMatch: bool, i: nat)
    requires IsMaxHeap(h) && |h| > 0 && Answers(h, cloud, q, allowSelfMatch)
    requires i < |cloud| && |cloud[i]| == |q|
    ensures Answers(Offer(h, i, Dist2(cloud[i], q), allowSelfMatch), cloud, q, allowSelfMatch)
  {
    var d := Dist2(cloud[i], q);
    var r := Offer(h, i, d, allowSelfMatch);
    if Lt(Finite(d), Head(h).value) && Eligible(d, allowSelfMatch) {
      assert r == ReplaceHead(h, i, d);
      forall e | e in r
        ensures AnswerEntry(e, cloud, q, allowSelfMatch)
      {
        assert e in multiset(r);
        if e != Entry(i, Finite(d)) {
          assert e in multiset(h);
        }
      }
    }
  }

  /** Sorting the slots keeps what they answer and what they select. */
  lemma SortKeeps(h: seq<Entry>, cloud: Cloud, q: Vector, allowSelfMatch: bool)
    requires IsMaxHeap(h) && IsCloud(cloud, |q|)
    requires Answers(h, cloud, q, allowSelfMatch) && KSmallest(h, cloud, q, allowSelfMatch)
    ensures Answers(Sort(h), cloud, q, allowSelfMatch) && KSmallest(Sort(h), cloud, q, allowSelfMatch)
  {
    var r := Sort(h);
    ValueBagPermutation(h, r);
    forall e | e in r
      ensures AnswerEntry(e, cloud, q, allowSelfMatch)
    {
      assert e in multiset(r);
    }
  }

  /** No two columns lie at the same squared distance from the query. */
  ghost predicate DistinctDists(cloud: Cloud, q: Vector)
    requires IsCloud(cloud, |q|)
  {
    forall i, j :: 0 <= i < j < |cloud| ==> Dist2(cloud[i], q) != Dist2(cloud[j], q)
  }

  /** Under distinct distances a distance names its column. */
  lemma SameDistSameColumn(cloud: Cloud, q: Vector, i: nat, j: nat)
    requires IsCloud(cloud, |q|) && DistinctDists(cloud, q)
    requires i < |cloud| && j < |cloud| && Dist2(cloud[i], q) == Dist2(cloud[j], q)
    ensures i == j
  {
  }

  /** Two answers of the same size that both hold k smallest candidates
      hold the same distances. */
  lemma SameValueBags(a: seq<Entry>, b: seq<Entry>, cloud: Cloud, q: Vector, allowSelfMatch: bool)
    requires IsCloud(cloud, |q|) && |a| == |b|
    requires KSmallest(a, cloud, q, allowSelfMatch) && KSmallest(b, cloud, q, allowSelfMatch)
    ensures ValueBag(a) == ValueBag(b)
  {
    assert |ValueBag(a)| == |Values(a)| == |a|;
    assert |ValueBag(b)| == |Values(b)| == |b|;
    SmallestUnique(ValueBag(a), ValueBag(b), Candidates(cloud, q, allowSelfMatch, |a|));
  }

  /** Two sorted answers of the same size that both hold k smallest
      candidates agree distance by distance, rank by rank; when no two
      columns are equidistant from the query they are the same entries, so
      they name the same columns in the same order. */
  lemma SameAnswers(a: seq<Entry>, b: seq<Entry>, cloud: Cloud, q: Vector, allowSelfMatch: bool)
    requires IsCloud(cloud, |q|) && |a| == |b|
    requires Sorted(a) && KSmallest(a, cloud, q, allowSelfMatch)
    requires Sorted(b) && KSmallest(b, cloud, q, allowSelfMatch)
    ensures Values(a) == Values(b)
    ensures (Answers(a, cloud, q, allowSelfMatch) && Answers(b, cloud, q, allowSelfMatch)
             && DistinctDists(cloud, q)) ==> a == b
  {
    SmallestUnique(ValueBag(a), ValueBag(b), Candidates(cloud, q, allowSelfMatch, |a|));
    SortedValuesUnique(a, b);
    if Answers(a, cloud, q, allowSelfMatch) && Answers(b, cloud, q, allowSelfMatch) && DistinctDists(cloud, q) {
      forall i | 0 <= i < |a|
        ensures a[i] == b[i]
      {
        assert a[i].value == Values(a)[i] == Values(b)[i] == b[i].value;
        assert AnswerEntry(a[i], cloud, q, allowSelfMatch);
        assert AnswerEntry(b[i], cloud, q, allowSelfMatch);
        if a[i].value.Finite? {
          SameDistSameColumn(cloud, q, a[i].index, b[i].index);
        }
      }
    }
  }
}
