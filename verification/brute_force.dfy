/** `BruteForceSearch`: every column is offered, in column order, to a heap
    of `k` slots. It is the reference the tree searches are measured
    against. */
module BruteForce {
  import opened Scalar
  import opened Nabo
  import opened HeapEntries
  import opened Selection
  import opened IndexHeap
  import opened Results

  /** The heap after the scan has offered the columns before `n`. */
  ghost function Scan(cloud: Cloud, q: Vector, allowSelfMatch: bool, h: seq<Entry>, n: nat): (r: seq<Entry>)
    requires IsCloud(cloud, |q|) && n <= |cloud| && IsMaxHeap(h) && |h| > 0
    ensures |r| == |h| && IsMaxHeap(r)
    decreases n
  {
    if n == 0 then h
    else Offer(Scan(cloud, q, allowSelfMatch, h, n - 1), n - 1, Dist2(cloud[n - 1], q), allowSelfMatch)
  }

  /** After the first `n` columns the heap holds k smallest of the seeds
      and the eligible distances of those columns. */
  lemma {:induction false} ScanSelects(cloud: Cloud, q: Vector, allowSelfMatch: bool, k: nat, n: nat)
    requires IsCloud(cloud, |q|) && n <= |cloud| && k > 0
    ensures Within(ValueBag(Scan(cloud, q, allowSelfMatch, Create(k), n)),
                   ValueBag(Seeds(k)) + multiset(EligibleDists(cloud[..n], q, allowSelfMatch)), 1.0)
    ensures AllNonNeg(ValueBag(Seeds(k)) + multiset(EligibleDists(cloud[..n], q, allowSelfMatch)))
    decreases n
  {
    if n == 0 {
      CreateIsSeeds(k);
      SeedBag(k, 1.0);
      assert cloud[..0] == [];
    } else {
      ScanSelects(cloud, q, allowSelfMatch, k, n - 1);
      ScanStep(cloud, q, allowSelfMatch, k, n);
    }
  }

  /** Offering column `n - 1` extends the relation from the first `n - 1`
      columns to the first `n`. */
  lemma ScanStep(cloud: Cloud, q: Vector, allowSelfMatch: bool, k: nat, n: nat)
    requires IsCloud(cloud, |q|) && 0 < n <= |cloud| && k > 0
    requires Within(ValueBag(Scan(cloud, q, allowSelfMatch, Create(k), n - 1)),
                    ValueBag(Seeds(k)) + multiset(EligibleDists(cloud[..n - 1], q, allowSelfMatch)), 1.0)
    requires AllNonNeg(ValueBag(Seeds(k)) + multiset(EligibleDists(cloud[..n - 1], q, allowSelfMatch)))
    ensures Within(ValueBag(Scan(cloud, q, allowSelfMatch, Create(k), n)),
                   ValueBag(Seeds(k)) + multiset(EligibleDists(cloud[..n], q, allowSelfMatch)), 1.0)
    ensures AllNonNeg(ValueBag(Seeds(k)) + multiset(EligibleDists(cloud[..n], q, allowSelfMatch)))
  {
    var h := Scan(cloud, q, allowSelfMatch, Create(k), n - 1);
    var d := Dist2(cloud[n - 1], q);
    var a := ValueBag(Seeds(k)) + multiset(EligibleDists(cloud[..n - 1], q, allowSelfMatch));
    PrefixBag(cloud, q, allowSelfMatch, n);
    BagShift(ValueBag(Seeds(k)), multiset(EligibleDists(cloud[..n - 1], q, allowSelfMatch)),
             multiset(EligibleDists(cloud[..n], q, allowSelfMatch)), Offered(d, allowSelfMatch));
    OfferWithin(h, n - 1, d, allowSelfMatch, a, 1.0);
    assert Scan(cloud, q, allowSelfMatch, Create(k), n) == Offer(h, n - 1, d, allowSelfMatch);
  }

  /** Adding one more column's offer to the candidates seen so far. */
  lemma BagShift(seeds: multiset<Dist>, before: multiset<Dist>, after: multiset<Dist>, offered: multiset<Dist>)
    requires after == before + offered
    ensures (seeds + before) + offered == seeds + after
  {
  }

  /** Every slot of the heap after the first `n` columns is a seed or names
      one of the columns at its distance. */
  lemma {:induction false} ScanAnswers(cloud: Cloud, q: Vector, allowSelfMatch: bool, k: nat, n: nat)
    requires IsCloud(cloud, |q|) && n <= |cloud| && k > 0
    ensures Answers(Scan(cloud, q, allowSelfMatch, Create(k), n), cloud, q, allowSelfMatch)
    decreases n
  {
    if n == 0 {
      CreateIsSeeds(k);
      SeedsAnswer(k, cloud, q, allowSelfMatch);
    } else {
      ScanAnswers(cloud, q, allowSelfMatch, k, n - 1);
      OfferAnswers(Scan(cloud, q, allowSelfMatch, Create(k), n - 1), cloud, q, allowSelfMatch, n - 1);
    }
  }

  /** The eligible distances of the first `n` columns are those of the
      first `n - 1` and column `n - 1`'s, if eligible. */
  lemma PrefixBag(cloud: Cloud, q: Vector, allowSelfMatch: bool, n: nat)
    requires IsCloud(cloud, |q|) && 0 < n <= |cloud|
    ensures multiset(EligibleDists(cloud[..n], q, allowSelfMatch))
         == multiset(EligibleDists(cloud[..n - 1], q, allowSelfMatch)) + Offered(Dist2(cloud[n - 1], q), allowSelfMatch)
  {
    assert cloud[..n] == cloud[..n - 1] + [cloud[n - 1]];
    EligibleDistsConcat(cloud[..n - 1], [cloud[n - 1]], q, allowSelfMatch);
  }

  /** The whole scan selects k smallest candidates. */
  lemma FullScan(cloud: Cloud, q: Vector, allowSelfMatch: bool, k: nat)
    requires IsCloud(cloud, |q|) && k > 0
    ensures KSmallest(Scan(cloud, q, allowSelfMatch, Create(k), |cloud|), cloud, q, allowSelfMatch)
    ensures Answers(Scan(cloud, q, allowSelfMatch, Create(k), |cloud|), cloud, q, allowSelfMatch)
  {
    ScanSelects(cloud, q, allowSelfMatch, k, |cloud|);
    ScanAnswers(cloud, q, allowSelfMatch, k, |cloud|);
    assert cloud[..|cloud|] == cloud;
  }

  /** `knn(query, k, epsilon, optionFlags)`: the scan, then a sort when
      `SORT_RESULTS` is set; `lastQueryVisitCount` becomes the column count
      and the total grows by it. `epsilon` is accepted and not used. */
  ghost function Knn(cloud: Cloud, q: Vector, k: nat, epsilon: real, optionFlags: bv32, stats: Statistics): (r: Reply)
    requires k > 0 && IsCloud(cloud, |q|)
    ensures |r.entries| == k
    ensures Answers(r.entries, cloud, q, HasFlag(optionFlags, AllowSelfMatch))
    ensures KSmallest(r.entries, cloud, q, HasFlag(optionFlags, AllowSelfMatch))
    ensures HasFlag(optionFlags, SortResults) ==> Sorted(r.entries)
    ensures r.stats.lastQueryVisitCount == |cloud|
    ensures r.stats.totalVisitCount == stats.totalVisitCount + |cloud|
  {
    var allowSelfMatch := HasFlag(optionFlags, AllowSelfMatch);
    var h := Scan(cloud, q, allowSelfMatch, Create(k), |cloud|);
    FullScan(cloud, q, allowSelfMatch, k);
    var entries := if HasFlag(optionFlags, SortResults) then SortKeeps(h, cloud, q, allowSelfMatch); Sort(h) else h;
    Reply(entries, RecordQuery(stats, |cloud|))
  }

  /** Every candidate is at least distance 0. */
  lemma ZeroIsLeast(cloud: Cloud, q: Vector, allowSelfMatch: bool, k: nat)
    requires IsCloud(cloud, |q|)
    ensures forall y :: y in Candidates(cloud, q, allowSelfMatch, k) ==> Le(Finite(0.0), y)
  {
    EligibleDistsMembers(cloud, q, allowSelfMatch);
    forall y | y in Candidates(cloud, q, allowSelfMatch, k)
      ensures Le(Finite(0.0), y)
    {
      if y in ValueBag(Seeds(k)) {
        var i :| 0 <= i < k && Values(Seeds(k))[i] == y;
      } else {
        assert y in EligibleDists(cloud, q, allowSelfMatch);
        var i :| 0 <= i < |cloud| && y == Finite(Dist2(cloud[i], q)) && Eligible(Dist2(cloud[i], q), allowSelfMatch);
      }
    }
  }

  /** With `ALLOW_SELF_MATCH | SORT_RESULTS`, a query equal to some column
      gets first a column at distance 0, i.e. a copy of itself. */
  lemma SelfMatchFirst(cloud: Cloud, q: Vector, k: nat, epsilon: real, optionFlags: bv32, stats: Statistics, j: nat)
    requires k > 0 && IsCloud(cloud, |q|)
    requires HasFlag(optionFlags, AllowSelfMatch) && HasFlag(optionFlags, SortResults)
    requires j < |cloud| && cloud[j] == q
    ensures var e := Knn(cloud, q, k, epsilon, optionFlags, stats).entries[0];
            e.value == Finite(0.0) && 0 <= e.index < |cloud| && cloud[e.index] == q
  {
    SortedSelfMatchFirst(Knn(cloud, q, k, epsilon, optionFlags, stats).entries, cloud, q, j);
  }

  /** Sorted k smallest answers with self matches allowed, for a query
      equal to column `j`, start with a column at distance 0. */
  lemma SortedSelfMatchFirst(es: seq<Entry>, cloud: Cloud, q: Vector, j: nat)
    requires |es| > 0 && IsCloud(cloud, |q|) && j < |cloud| && cloud[j] == q
    requires Sorted(es) && Answers(es, cloud, q, true) && KSmallest(es, cloud, q, true)
    ensures es[0].value == Finite(0.0) && 0 <= es[0].index < |cloud| && cloud[es[0].index] == q
  {
    Dist2ZeroIffEqual(cloud[j], q);
    EligibleDistsMembers(cloud, q, true);
    ZeroIsLeast(cloud, q, true, |es|);
    SmallestKeepsMinimum(ValueBag(es), Candidates(cloud, q, true, |es|), Finite(0.0));
    var i :| 0 <= i < |es| && Values(es)[i] == Finite(0.0);
    assert Le(es[0].value, es[i].value);
    assert AnswerEntry(es[0], cloud, q, true);
    Dist2ZeroIffEqual(cloud[es[0].index], q);
  }

  /** Without `ALLOW_SELF_MATCH` every returned column lies farther than
      epsilon from the query; in particular none equals it. */
  lemma NoSelfMatch(cloud: Cloud, q: Vector, k: nat, epsilon: real, optionFlags: bv32, stats: Statistics)
    requires k > 0 && IsCloud(cloud, |q|) && !HasFlag(optionFlags, AllowSelfMatch)
    ensures forall e :: e in Knn(cloud, q, k, epsilon, optionFlags, stats).entries && e.value.Finite? ==>
              0 <= e.index < |cloud| && e.value.r > Epsilon && cloud[e.index] != q
  {
    var es := Knn(cloud, q, k, epsilon, optionFlags, stats).entries;
    forall e | e in es && e.value.Finite?
      ensures 0 <= e.index < |cloud| && e.value.r > Epsilon && cloud[e.index] != q
    {
      assert AnswerEntry(e, cloud, q, false);
      Dist2ZeroIffEqual(cloud[e.index], q);
    }
  }

  /** The older `knn(query, k, allowSelfMatch)`: the same scan with a bool
      flag, always sorted. */
  ghost function RootKnn(cloud: Cloud, q: Vector, k: nat, allowSelfMatch: bool, stats: Statistics): (r: Reply)
    requires k > 0 && IsCloud(cloud, |q|)
    ensures |r.entries| == k && Sorted(r.entries)
    ensures Answers(r.entries, cloud, q, allowSelfMatch)
    ensures KSmallest(r.entries, cloud, q, allowSelfMatch)
    ensures r.stats.lastQueryVisitCount == |cloud|
    ensures r.stats.totalVisitCount == stats.totalVisitCount + |cloud|
  {
    var h := Scan(cloud, q, allowSelfMatch, Create(k), |cloud|);
    FullScan(cloud, q, allowSelfMatch, k);
    SortKeeps(h, cloud, q, allowSelfMatch);
    Reply(Sort(h), RecordQuery(stats, |cloud|))
  }

  /** The older search returns, rank by rank, the distances of the newer
      one run with `SORT_RESULTS` and the same self-match choice. */
  lemma RootKnnAgrees(cloud: Cloud, q: Vector, k: nat, allowSelfMatch: bool, stats: Statistics)
    requires k > 0 && IsCloud(cloud, |q|)
    ensures var flags := if allowSelfMatch then AllowSelfMatch | SortResults else SortResults;
            Values(RootKnn(cloud, q, k, allowSelfMatch, stats).entries)
            == Values(Knn(cloud, q, k, 0.0, flags, stats).entries)
  {
    var flags := if allowSelfMatch then AllowSelfMatch | SortResults else SortResults;
    FlagsIndependent(flags);
    FlagsIndependent(0);
    assert HasFlag(flags, AllowSelfMatch) == allowSelfMatch;
    SameAnswers(RootKnn(cloud, q, k, allowSelfMatch, stats).entries, Knn(cloud, q, k, 0.0, flags, stats).entries,
                cloud, q, allowSelfMatch);
  }
}
