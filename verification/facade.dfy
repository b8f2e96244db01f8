/** `nabo/nabo.cpp`: the base constructor every search runs, the batch
    query `knnM` that answers one query column after another, and the
    `create` factory that picks a search by its type. */
module Facade {
  import opened Scalar
  import opened Nabo
  import opened Wrappers
  import opened HeapEntries
  import opened Results
  import opened Bounds
  import BruteForce

  /** What the base class `NearestNeighborSearch` holds: the cloud, `dim`
      and the bounding box. */
  datatype SearchBase = SearchBase(cloud: Cloud, dim: nat, bounds: Box)

  /** `NearestNeighborSearch(cloud)`: `dim` is the row count, `minBound`
      starts at `numeric_limits<T>::max()` and `maxBound` at
      `numeric_limits<T>::min()`, the smallest positive value. */
  function NewBase(cloud: Cloud, rows: nat, p: Precision): (r: SearchBase)
    requires IsCloud(cloud, rows)
    ensures r.cloud == cloud && r.dim == rows && IsBox(r.bounds, rows)
    ensures forall d :: 0 <= d < rows ==> r.bounds.minB[d] == MaxValue(p) && r.bounds.maxB[d] == MinPositive(p)
  {
    SearchBase(cloud, rows, SeedBox(rows, p))
  }

  /** `BruteForceSearch(cloud)`: the base constructor, then every column
      folded into the bounds. */
  function NewBruteForce(cloud: Cloud, rows: nat, p: Precision): (r: SearchBase)
    requires IsCloud(cloud, rows)
    ensures r.cloud == cloud && r.dim == rows && IsBox(r.bounds, rows)
  {
    var b := NewBase(cloud, rows, p);
    SearchBase(cloud, rows, Fold(cloud, b.bounds, |cloud|))
  }

  /** The brute-force bounds hold every column of a cloud of finite values;
      `minBound` is the exact lower corner, and `maxBound` is the exact
      upper corner raised to at least the smallest positive value. */
  lemma NewBruteForceBounds(cloud: Cloud, rows: nat, p: Precision)
    requires IsCloud(cloud, rows) && Representable(cloud, p)
    ensures Contains(NewBruteForce(cloud, rows, p).bounds, cloud)
    ensures NewBruteForce(cloud, rows, p).bounds.minB == CorrectedBounds(cloud, rows, p).minB
    ensures forall d :: 0 <= d < rows ==>
              NewBruteForce(cloud, rows, p).bounds.maxB[d] == Max(MinPositive(p), CorrectedBounds(cloud, rows, p).maxB[d])
  {
    var b := NewBruteForce(cloud, rows, p).bounds;
    assert b == CloudBounds(cloud, rows, p);
    AsWrittenBounds(cloud, rows, p);
    if |cloud| > 0 {
      CorrectedBoundsTight(cloud, rows, p);
    }
  }

  /** The search types `create` knows, and any other value of the enum. */
  datatype SearchType = BruteForceType | KdTreeLinearHeap | KdTreeTreeHeap | OtherType(code: int)

  /** The heap a tree search is instantiated with: `IndexHeapBruteForceVector`
      or `IndexHeapSTL`. */
  datatype HeapKind = LinearHeap | TreeHeap

  /** The object `create` returns: a brute-force search, or the unbalanced
      points-in-leaves tree with the chosen heap. */
  datatype Search = BruteForceSearch(base: SearchBase) | UnbalancedTreeSearch(base: SearchBase, heap: HeapKind)

  /** The type a search object was created for. */
  function TypeOf(s: Search): (t: SearchType)
    ensures !t.OtherType?
  {
    match s
    case BruteForceSearch(_) => BruteForceType
    case UnbalancedTreeSearch(_, LinearHeap) => KdTreeLinearHeap
    case UnbalancedTreeSearch(_, TreeHeap) => KdTreeTreeHeap
  }

  const UnknownSearchType: string := "Unknown search type"

  /** `create(cloud, preferedType)`: the three known types build their
      search; any other throws `runtime_error("Unknown search type")`. */
  function Create(cloud: Cloud, rows: nat, t: SearchType, p: Precision): (r: Result<Search, string>)
    requires IsCloud(cloud, rows)
    ensures r.Success? <==> !t.OtherType?
    ensures r.Failure? ==> r.error == UnknownSearchType
    ensures r.Success? ==> TypeOf(r.value) == t && r.value.base.cloud == cloud && r.value.base.dim == rows
  {
    match t
    case BruteForceType => Success(BruteForceSearch(NewBruteForce(cloud, rows, p)))
    case KdTreeLinearHeap => Success(UnbalancedTreeSearch(NewBase(cloud, rows, p), LinearHeap))
    case KdTreeTreeHeap => Success(UnbalancedTreeSearch(NewBase(cloud, rows, p), TreeHeap))
    case OtherType(_) => Failure(UnknownSearchType)
  }

  /** Searches created for two known types are equal exactly when the
      types are. */
  lemma CreateDistinguishes(cloud: Cloud, rows: nat, t1: SearchType, t2: SearchType, p: Precision)
    requires IsCloud(cloud, rows)
    requires !t1.OtherType? && !t2.OtherType?
    ensures Create(cloud, rows, t1, p) == Create(cloud, rows, t2, p) <==> t1 == t2
  {
    if Create(cloud, rows, t1, p) == Create(cloud, rows, t2, p) {
      assert TypeOf(Create(cloud, rows, t1, p).value) == TypeOf(Create(cloud, rows, t2, p).value);
    }
  }

  /** The brute-force object `create` returns has the constructor's bounds. */
  lemma CreateBruteForce(cloud: Cloud, rows: nat, p: Precision)
    requires IsCloud(cloud, rows) && Representable(cloud, p)
    ensures Create(cloud, rows, BruteForceType, p).value.base.bounds.minB == CorrectedBounds(cloud, rows, p).minB
    ensures Contains(Create(cloud, rows, BruteForceType, p).value.base.bounds, cloud)
  {
    NewBruteForceBounds(cloud, rows, p);
  }

  /** The `k x cols` index matrix, one column per query column, and the
      visit counters after the last query. */
  datatype Batch = Batch(columns: seq<seq<int>>, stats: Statistics)

  /** `knnM(query, k, epsilon, optionFlags)`: the loop over the query
      columns in order, each answered by the search's `knn`, which also
      updates the counters. */
  function KnnM(queries: seq<Vector>, knn: (Vector, Statistics) --> Reply, stats: Statistics): (r: Batch)
    requires forall i, s :: 0 <= i < |queries| ==> knn.requires(queries[i], s)
    ensures |r.columns| == |queries|
    decreases |queries|
  {
    if |queries| == 0 then Batch([], stats)
    else
      var n := |queries| - 1;
      assert forall i :: 0 <= i < n ==> queries[..n][i] == queries[i];
      var b := KnnM(queries[..n], knn, stats);
      var rep := knn(queries[n], b.stats);
      Batch(b.columns + [GetIndexes(rep.entries)], rep.stats)
  }

  /** The counters `knnM` hands to the query of column `i`: those left by
      the columns before it. */
  function CountersBefore(queries: seq<Vector>, knn: (Vector, Statistics) --> Reply, stats: Statistics, i: nat): Statistics
    requires forall i, s :: 0 <= i < |queries| ==> knn.requires(queries[i], s)
    requires i <= |queries|
  {
    assert forall j :: 0 <= j < i ==> queries[..i][j] == queries[j];
    KnnM(queries[..i], knn, stats).stats
  }

  /** Column `i` of `knnM` is `knn` of query column `i`, run after the
      columns before it: the columns are filled in order and each reads
      only its own query column. */
  lemma {:induction false} KnnMColumns(queries: seq<Vector>, knn: (Vector, Statistics) --> Reply, stats: Statistics)
    requires forall i, s :: 0 <= i < |queries| ==> knn.requires(queries[i], s)
    ensures forall i :: 0 <= i < |queries| ==>
              KnnM(queries, knn, stats).columns[i]
              == GetIndexes(knn(queries[i], CountersBefore(queries, knn, stats, i)).entries)
    decreases |queries|
  {
    if |queries| > 0 {
      var n := |queries| - 1;
      var pre := queries[..n];
      assert forall j :: 0 <= j < n ==> pre[j] == queries[j];
      KnnMColumns(pre, knn, stats);
      forall i | 0 <= i < |queries|
        ensures KnnM(queries, knn, stats).columns[i]
                == GetIndexes(knn(queries[i], CountersBefore(queries, knn, stats, i)).entries)
      {
        if i == n {
          assert queries[..i] == pre;
        } else {
          assert pre[..i] == queries[..i];
          assert CountersBefore(pre, knn, stats, i) == CountersBefore(queries, knn, stats, i);
        }
      }
    }
  }

  /** When every query adds `c` visits, `knnM` adds `c` per column. */
  lemma {:induction false} KnnMVisits(queries: seq<Vector>, knn: (Vector, Statistics) --> Reply, stats: Statistics, c: int)
    requires forall i, s :: 0 <= i < |queries| ==> knn.requires(queries[i], s)
    requires forall i, s :: 0 <= i < |queries| ==> knn(queries[i], s).stats.totalVisitCount == s.totalVisitCount + c
    ensures KnnM(queries, knn, stats).stats.totalVisitCount == stats.totalVisitCount + |queries| * c
    decreases |queries|
  {
    if |queries| > 0 {
      var n := |queries| - 1;
      assert forall i :: 0 <= i < n ==> queries[..n][i] == queries[i];
      KnnMVisits(queries[..n], knn, stats, c);
      assert |queries| * c == n * c + c;
    }
  }

  /** `knnM` of the brute-force search: column `i` holds the `k` indexes
      brute force finds for query column `i`, and each column adds the
      cloud's column count to the total visits. */
  ghost function BruteForceKnnM(cloud: Cloud, queries: seq<Vector>, k: nat, epsilon: real, optionFlags: bv32,
                                stats: Statistics): (r: Batch)
    requires k > 0 && forall i :: 0 <= i < |queries| ==> IsCloud(cloud, |queries[i]|)
    ensures |r.columns| == |queries|
    ensures forall i :: 0 <= i < |queries| ==>
              |r.columns[i]| == k
              && r.columns[i] == GetIndexes(BruteForce.Knn(cloud, queries[i], k, epsilon, optionFlags, stats).entries)
    ensures r.stats.totalVisitCount == stats.totalVisitCount + |queries| * |cloud|
  {
    var knn := (q: Vector, s: Statistics) requires k > 0 && IsCloud(cloud, |q|) =>
                 BruteForce.Knn(cloud, q, k, epsilon, optionFlags, s);
    KnnMVisits(queries, knn, stats, |cloud|);
    KnnMColumns(queries, knn, stats);
    KnnM(queries, knn, stats)
  }
}
