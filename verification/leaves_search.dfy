/** The stack search over a points-in-leaves tree, `recurseKnn` of
    `KDTreeItInLeavesStack` and of `KDTreeBalancedPtInLeavesStackOpenCL`:
    an invalid node ends the visit, a leaf offers its column, and a split
    node descends the near side first and the far side only while the
    squared distance `rd` to the far side's slab, times `maxError`, is
    below the heap's head. The OpenCL search passes `maxError = 1 +
    epsilon`; the CPU search compares `rd` itself, which is `maxError = 1`.
    `off[d]` is the query's offset to the slab on axis `d`, so `rd` is
    always the squared norm of `off`. */
module LeavesSearch {
  import opened Scalar
  import opened Nabo
  import opened HeapEntries
  import opened Selection
  import opened IndexHeap
  import opened Results
  import opened SeqUtil
  import opened PtInLeaves
  import NodesSearch

  /** `recurseKnn(query, n, rd, heap, off, maxError, allowSelfMatch)`: the
      visit is counted, an invalid node ends it, a leaf offers the column
      it decodes to at `dist2(query, cloud.col(index))`, and a split node
      goes on to its children. */
  ghost function Recurse(nodes: seq<LeafNode>, cloud: Cloud, q: Vector, n: nat, rd: real, w: NodesSearch.Walk,
                         maxError: real, allowSelfMatch: bool): (r: NodesSearch.Walk)
    requires Valid(nodes, n, cloud, |q|) && IsCloud(cloud, |q|)
    requires IsMaxHeap(w.heap) && |w.heap| > 0 && |w.off| == |q|
    ensures |r.heap| == |w.heap| && IsMaxHeap(r.heap)
    ensures r.off == w.off
    ensures r.visits > w.visits
    decreases |nodes| - n, 3
  {
    var node := nodes[n];
    var w1 := w.(visits := w.visits + 1);
    if node.dim == -1 then w1
    else if node.dim <= -2 then
      w1.(heap := Offer(w1.heap, DecodeIndex(node.dim), Dist2(q, cloud[DecodeIndex(node.dim)]), allowSelfMatch))
    else RecurseChildren(nodes, cloud, q, n, rd, w1, maxError, allowSelfMatch)
  }

  /** The query's offset from the cut of split node `n`. */
  function NewOff(nodes: seq<LeafNode>, q: Vector, n: nat): real
    requires n < |nodes| && 0 <= nodes[n].dim < |q|
  {
    q[nodes[n].dim] - nodes[n].cutVal
  }

  /** The child on the query's side of split node `n`, and the other one. */
  function Near(nodes: seq<LeafNode>, q: Vector, n: nat): nat
    requires n < |nodes| && 0 <= nodes[n].dim < |q|
  {
    if NewOff(nodes, q, n) > 0.0 then ChildRight(n) else ChildLeft(n)
  }

  function Far(nodes: seq<LeafNode>, q: Vector, n: nat): nat
    requires n < |nodes| && 0 <= nodes[n].dim < |q|
  {
    if NewOff(nodes, q, n) > 0.0 then ChildLeft(n) else ChildRight(n)
  }

  /** The split-node part of `recurseKnn`: the near side with the same `rd`
      and `off`, then the far side with `rd` updated for its slab. */
  ghost function RecurseChildren(nodes: seq<LeafNode>, cloud: Cloud, q: Vector, n: nat, rd: real, w: NodesSearch.Walk,
                                 maxError: real, allowSelfMatch: bool): (r: NodesSearch.Walk)
    requires Valid(nodes, n, cloud, |q|) && IsCloud(cloud, |q|) && nodes[n].dim >= 0
    requires IsMaxHeap(w.heap) && |w.heap| > 0 && |w.off| == |q|
    ensures |r.heap| == |w.heap| && IsMaxHeap(r.heap)
    ensures r.off == w.off
    ensures r.visits > w.visits
    decreases |nodes| - n, 2
  {
    var w3 := Recurse(nodes, cloud, q, Near(nodes, q, n), rd, w, maxError, allowSelfMatch);
    AfterNear(nodes, cloud, q, n, rd - Sq(w.off[nodes[n].dim]) + Sq(NewOff(nodes, q, n)), w3, maxError, allowSelfMatch)
  }

  /** After the near side: the far side is searched only if its slab's
      squared distance `rd`, times `maxError`, is below the heap's head. */
  ghost function AfterNear(nodes: seq<LeafNode>, cloud: Cloud, q: Vector, n: nat, rd: real, w: NodesSearch.Walk,
                           maxError: real, allowSelfMatch: bool): (r: NodesSearch.Walk)
    requires Valid(nodes, n, cloud, |q|) && IsCloud(cloud, |q|) && nodes[n].dim >= 0
    requires IsMaxHeap(w.heap) && |w.heap| > 0 && |w.off| == |q|
    ensures |r.heap| == |w.heap| && IsMaxHeap(r.heap)
    ensures r.off == w.off
    ensures r.visits >= w.visits
    decreases |nodes| - n, 1
  {
    if Lt(Finite(rd * maxError), Head(w.heap).value) then RecurseFar(nodes, cloud, q, n, rd, w, maxError, allowSelfMatch)
    else w
  }

  /** The far side, searched with `off[cd]` set to the new offset, which is
      put back afterwards. */
  ghost function RecurseFar(nodes: seq<LeafNode>, cloud: Cloud, q: Vector, n: nat, rd: real, w: NodesSearch.Walk,
                            maxError: real, allowSelfMatch: bool): (r: NodesSearch.Walk)
    requires Valid(nodes, n, cloud, |q|) && IsCloud(cloud, |q|) && nodes[n].dim >= 0
    requires IsMaxHeap(w.heap) && |w.heap| > 0 && |w.off| == |q|
    ensures |r.heap| == |w.heap| && IsMaxHeap(r.heap)
    ensures r.off == w.off
    ensures r.visits > w.visits
    decreases |nodes| - n, 0
  {
    var cd := nodes[n].dim;
    var w4 := Recurse(nodes, cloud, q, Far(nodes, q, n), rd, w.(off := w.off[cd := NewOff(nodes, q, n)]), maxError, allowSelfMatch);
    assert w4.off[cd := w.off[cd]] == w.off;
    w4.(off := w4.off[cd := w.off[cd]])
  }

  /** The eligible distances of the columns the subtree at `p` holds,
      gathered leaf by leaf. */
  ghost function SubtreeDists(nodes: seq<LeafNode>, p: nat, cloud: Cloud, q: Vector, allowSelfMatch: bool): multiset<Dist>
    decreases |nodes| - p
  {
    if p >= |nodes| || nodes[p].dim == -1 then multiset{}
    else if nodes[p].dim <= -2 then
      var i := DecodeIndex(nodes[p].dim);
      if i < |cloud| && |cloud[i]| == |q| then Offered(Dist2(q, cloud[i]), allowSelfMatch) else multiset{}
    else SubtreeDists(nodes, ChildLeft(p), cloud, q, allowSelfMatch) + SubtreeDists(nodes, ChildRight(p), cloud, q, allowSelfMatch)
  }

  /** The column of index `i`, when there is one. */
  function ColumnOf(cloud: Cloud): nat -> Vector
  {
    i => if 0 <= i < |cloud| then cloud[i] else []
  }

  /** The columns named by `ids`, in order. */
  function Columns(cloud: Cloud, ids: seq<nat>): (r: seq<Vector>)
    ensures |r| == |ids|
    ensures forall j :: 0 <= j < |ids| && ids[j] < |cloud| ==> r[j] == cloud[ids[j]]
  {
    Map(ColumnOf(cloud), ids)
  }

  /** Gathered leaf by leaf, a valid subtree's distances are those of the
      columns it holds. */
  lemma {:induction false} SubtreeDistsContents(nodes: seq<LeafNode>, p: nat, cloud: Cloud, q: Vector, allowSelfMatch: bool)
    requires Valid(nodes, p, cloud, |q|) && IsCloud(cloud, |q|)
    ensures IsCloud(Columns(cloud, Contents(nodes, p)), |q|)
    ensures SubtreeDists(nodes, p, cloud, q, allowSelfMatch)
         == multiset(EligibleDists(Columns(cloud, Contents(nodes, p)), q, allowSelfMatch))
    decreases |nodes| - p
  {
    ContentsInCloud(nodes, p, cloud, |q|);
    var ids := Contents(nodes, p);
    assert forall j :: 0 <= j < |ids| ==> ids[j] in ids;
    if nodes[p].dim == -1 {
    } else if nodes[p].dim <= -2 {
      var i := DecodeIndex(nodes[p].dim);
      assert Columns(cloud, ids) == [cloud[i]];
      Dist2Symmetric(q, cloud[i]);
      assert [cloud[i]][1..] == [];
    } else {
      var l, r := Contents(nodes, ChildLeft(p)), Contents(nodes, ChildRight(p));
      SubtreeDistsContents(nodes, ChildLeft(p), cloud, q, allowSelfMatch);
      SubtreeDistsContents(nodes, ChildRight(p), cloud, q, allowSelfMatch);
      MapConcat(ColumnOf(cloud), l, r);
      EligibleDistsConcat(Columns(cloud, l), Columns(cloud, r), q, allowSelfMatch);
    }
  }

  /** A split node's distances are its near side's and its far side's. */
  lemma SubtreeDistsNearFar(nodes: seq<LeafNode>, p: nat, cloud: Cloud, q: Vector, allowSelfMatch: bool)
    requires Valid(nodes, p, cloud, |q|) && 0 <= nodes[p].dim < |q|
    ensures SubtreeDists(nodes, p, cloud, q, allowSelfMatch)
         == SubtreeDists(nodes, Near(nodes, q, p), cloud, q, allowSelfMatch)
          + SubtreeDists(nodes, Far(nodes, q, p), cloud, q, allowSelfMatch)
  {
  }

  /** Every column under `p` is separated from the query by `off`, axis by
      axis. */
  ghost predicate SeparatedAll(nodes: seq<LeafNode>, p: nat, cloud: Cloud, q: Vector, off: Vector)
  {
    |off| == |q|
    && forall i :: i in Contents(nodes, p) ==> i < |cloud| && |cloud[i]| == |q| && Separated(q, off, cloud[i])
  }

  /** A zero offset vector separates every column from the query. */
  lemma ZeroOffsetSeparates(nodes: seq<LeafNode>, p: nat, cloud: Cloud, q: Vector)
    requires Valid(nodes, p, cloud, |q|) && IsCloud(cloud, |q|)
    ensures SeparatedAll(nodes, p, cloud, q, Zeros(|q|))
  {
    ContentsInCloud(nodes, p, cloud, |q|);
  }

  /** The children hold part of what their parent holds. */
  lemma ChildContents(nodes: seq<LeafNode>, n: nat, cloud: Cloud, q: Vector)
    requires Valid(nodes, n, cloud, |q|) && nodes[n].dim >= 0
    ensures forall i :: i in Contents(nodes, ChildLeft(n)) ==> i in Contents(nodes, n)
    ensures forall i :: i in Contents(nodes, ChildRight(n)) ==> i in Contents(nodes, n)
  {
  }

  /** Crossing the cut of node `n` to its far side: every column there is
      beyond the cut value, so the offset on the node's axis may grow to
      the query's distance from the cut. */
  lemma FarSeparated(nodes: seq<LeafNode>, n: nat, cloud: Cloud, q: Vector, off: Vector)
    requires Valid(nodes, n, cloud, |q|) && nodes[n].dim >= 0
    requires SeparatedAll(nodes, n, cloud, q, off)
    ensures SeparatedAll(nodes, Far(nodes, q, n), cloud, q, off[nodes[n].dim := NewOff(nodes, q, n)])
    ensures SeparatedAll(nodes, Near(nodes, q, n), cloud, q, off)
  {
    var cd := nodes[n].dim;
    var o := NewOff(nodes, q, n);
    var off' := off[cd := o];
    ChildContents(nodes, n, cloud, q);
    forall i | i in Contents(nodes, Far(nodes, q, n))
      ensures i < |cloud| && |cloud[i]| == |q| && Separated(q, off', cloud[i])
    {
      assert i in Contents(nodes, n);
      assert SepCoord(q[cd], o, cloud[i][cd]) by {
        if o > 0.0 {
          assert CoordOf(cloud, i, cd) <= nodes[n].cutVal;
        } else {
          assert nodes[n].cutVal <= CoordOf(cloud, i, cd);
        }
      }
      forall d | 0 <= d < |q|
        ensures SepCoord(q[d], off'[d], cloud[i][d])
      {
      }
    }
  }

  /** Left-out distances of a skipped far side: every column there lies at
      least `rd` away, and `rd` times `f` is not below the head. */
  lemma PruneBound(nodes: seq<LeafNode>, p: nat, cloud: Cloud, q: Vector, off: Vector, allowSelfMatch: bool,
                   head: Dist, f: real)
    requires Valid(nodes, p, cloud, |q|) && IsCloud(cloud, |q|) && SeparatedAll(nodes, p, cloud, q, off)
    requires f >= 0.0 && Le(head, Scale(Finite(SumSq(off)), f))
    ensures forall y :: y in SubtreeDists(nodes, p, cloud, q, allowSelfMatch) ==> Le(head, Scale(y, f))
  {
    var ids := Contents(nodes, p);
    var ps := Columns(cloud, ids);
    SubtreeDistsContents(nodes, p, cloud, q, allowSelfMatch);
    forall j | 0 <= j < |ps|
      ensures Le(Finite(SumSq(off)), Finite(Dist2(ps[j], q)))
    {
      assert ids[j] in ids;
      SeparatedLowerBound(q, off, cloud[ids[j]]);
      Dist2Symmetric(q, cloud[ids[j]]);
    }
    EligibleDistsAbove(ps, q, allowSelfMatch, Finite(SumSq(off)));
    forall y | y in SubtreeDists(nodes, p, cloud, q, allowSelfMatch)
      ensures Le(head, Scale(y, f))
    {
      ScaleMonotone(Finite(SumSq(off)), y, f);
      LeTotalOrder(head, Scale(Finite(SumSq(off)), f), Scale(y, f));
    }
  }

  /** Distances of a subtree are never negative. */
  lemma AllNonNegSubtree(nodes: seq<LeafNode>, p: nat, cloud: Cloud, q: Vector, allowSelfMatch: bool, a: multiset<Dist>)
    requires Valid(nodes, p, cloud, |q|) && IsCloud(cloud, |q|) && AllNonNeg(a)
    ensures AllNonNeg(a + SubtreeDists(nodes, p, cloud, q, allowSelfMatch))
  {
    var ps := Columns(cloud, Contents(nodes, p));
    SubtreeDistsContents(nodes, p, cloud, q, allowSelfMatch);
    EligibleDistsMembers(ps, q, allowSelfMatch);
    forall y | y in a + SubtreeDists(nodes, p, cloud, q, allowSelfMatch)
      ensures NonNeg(y)
    {
      if y !in a {
        assert y in EligibleDists(ps, q, allowSelfMatch);
      }
    }
  }

  /** Skipping a side whose slab, times `f`, is not closer than the head
      keeps the relation, as if all of its columns had been offered. */
  lemma PruneFarSide(nodes: seq<LeafNode>, p: nat, cloud: Cloud, q: Vector, off: Vector, rd: real,
                     h: seq<Entry>, allowSelfMatch: bool, a: multiset<Dist>, f: real)
    requires Valid(nodes, p, cloud, |q|) && IsCloud(cloud, |q|) && SeparatedAll(nodes, p, cloud, q, off)
    requires rd == SumSq(off)
    requires IsMaxHeap(h) && |h| > 0 && f >= 1.0 && !Lt(Finite(rd * f), Head(h).value)
    requires Within(ValueBag(h), a, f) && AllNonNeg(a)
    ensures Within(ValueBag(h), a + SubtreeDists(nodes, p, cloud, q, allowSelfMatch), f)
    ensures AllNonNeg(a + SubtreeDists(nodes, p, cloud, q, allowSelfMatch))
  {
    HeadIsMax(h);
    ScaleEqual(SumSq(off), rd, f);
    PruneBound(nodes, p, cloud, q, off, allowSelfMatch, Head(h).value, f);
    Prune(ValueBag(h), a, f, Head(h).value, SubtreeDists(nodes, p, cloud, q, allowSelfMatch));
    AllNonNegSubtree(nodes, p, cloud, q, allowSelfMatch, a);
  }

  /** A skip under the factor `m` is a skip under any larger factor `f`:
      `rd` is never negative. */
  lemma SkipUnderLargerFactor(rd: real, m: real, f: real, head: Dist)
    requires rd >= 0.0 && m <= f && !Lt(Finite(rd * m), head)
    ensures !Lt(Finite(rd * f), head)
  {
    NonNegativeProduct(rd, f - m, rd * (f - m));
  }

  lemma ScaleEqual(x: real, rd: real, f: real)
    requires rd == x
    ensures Scale(Finite(x), f) == Finite(rd * f)
  {
  }

  /** What the state of a search promises: smallest candidates of `a` up
      to the factor `f`, every slot an answer over the cloud. */
  ghost predicate Holds(h: seq<Entry>, a: multiset<Dist>, f: real, cloud: Cloud, q: Vector, allowSelfMatch: bool)
  {
    Within(ValueBag(h), a, f) && AllNonNeg(a) && Answers(h, cloud, q, allowSelfMatch)
  }

  /** What `recurseKnn` at `n` establishes: given a heap holding smallest
      candidates of `a` up to the factor `f` and the offset invariant
      (`rd` is the squared norm of `off`, and `off` separates every column
      under `n` from the query), it returns a heap holding smallest
      candidates of `a` and everything under `n`, up to `f`. */
  lemma {:induction false} RecurseSelects(nodes: seq<LeafNode>, cloud: Cloud, q: Vector, n: nat, rd: real, w: NodesSearch.Walk,
                                          maxError: real, f: real, allowSelfMatch: bool, a: multiset<Dist>)
    requires Valid(nodes, n, cloud, |q|) && IsCloud(cloud, |q|) && IsMaxHeap(w.heap) && |w.heap| > 0 && maxError <= f && f >= 1.0
    requires rd == SumSq(w.off) && SeparatedAll(nodes, n, cloud, q, w.off)
    requires Holds(w.heap, a, f, cloud, q, allowSelfMatch)
    ensures Holds(Recurse(nodes, cloud, q, n, rd, w, maxError, allowSelfMatch).heap,
                  a + SubtreeDists(nodes, n, cloud, q, allowSelfMatch), f, cloud, q, allowSelfMatch)
    decreases |nodes| - n, 4
  {
    if nodes[n].dim == -1 {
      assert a + SubtreeDists(nodes, n, cloud, q, allowSelfMatch) == a;
    } else if nodes[n].dim <= -2 {
      LeafSelects(nodes, cloud, q, n, rd, w, maxError, f, allowSelfMatch, a);
    } else {
      ChildrenSelects(nodes, cloud, q, n, rd, w.(visits := w.visits + 1), maxError, f, allowSelfMatch, a);
      SubtreeDistsNearFar(nodes, n, cloud, q, allowSelfMatch);
      SplitUnfold(nodes, cloud, q, n, rd, w, maxError, allowSelfMatch);
      HoldsSame(RecurseChildren(nodes, cloud, q, n, rd, w.(visits := w.visits + 1), maxError, allowSelfMatch).heap,
                Recurse(nodes, cloud, q, n, rd, w, maxError, allowSelfMatch).heap,
                a + SubtreeDists(nodes, Near(nodes, q, n), cloud, q, allowSelfMatch) + SubtreeDists(nodes, Far(nodes, q, n), cloud, q, allowSelfMatch),
                a + SubtreeDists(nodes, n, cloud, q, allowSelfMatch), f, cloud, q, allowSelfMatch);
    }
  }

  /** What holds of one heap and bag holds of equal ones. */
  lemma HoldsSame(h: seq<Entry>, h': seq<Entry>, a: multiset<Dist>, a': multiset<Dist>, f: real,
                  cloud: Cloud, q: Vector, allowSelfMatch: bool)
    requires h == h' && a == a'
    requires Holds(h, a, f, cloud, q, allowSelfMatch)
    ensures Holds(h', a', f, cloud, q, allowSelfMatch)
  {
  }

  /** One step of `Recurse` at a split node: the visit is counted and the
      children are searched. */
  lemma SplitUnfold(nodes: seq<LeafNode>, cloud: Cloud, q: Vector, n: nat, rd: real, w: NodesSearch.Walk,
                    maxError: real, allowSelfMatch: bool)
    requires Valid(nodes, n, cloud, |q|) && IsCloud(cloud, |q|) && nodes[n].dim >= 0
    requires IsMaxHeap(w.heap) && |w.heap| > 0 && |w.off| == |q|
    ensures Recurse(nodes, cloud, q, n, rd, w, maxError, allowSelfMatch)
         == RecurseChildren(nodes, cloud, q, n, rd, w.(visits := w.visits + 1), maxError, allowSelfMatch)
  {
  }

  /** One step of `RecurseChildren`: the near side, then `AfterNear`. */
  lemma ChildrenUnfold(nodes: seq<LeafNode>, cloud: Cloud, q: Vector, n: nat, rd: real, w: NodesSearch.Walk,
                       maxError: real, allowSelfMatch: bool)
    requires Valid(nodes, n, cloud, |q|) && IsCloud(cloud, |q|) && nodes[n].dim >= 0
    requires IsMaxHeap(w.heap) && |w.heap| > 0 && |w.off| == |q|
    ensures RecurseChildren(nodes, cloud, q, n, rd, w, maxError, allowSelfMatch).heap
         == AfterNear(nodes, cloud, q, n, rd - Sq(w.off[nodes[n].dim]) + Sq(NewOff(nodes, q, n)),
                      Recurse(nodes, cloud, q, Near(nodes, q, n), rd, w, maxError, allowSelfMatch), maxError, allowSelfMatch).heap
  {
  }

  /** A leaf offers its column. */
  lemma LeafSelects(nodes: seq<LeafNode>, cloud: Cloud, q: Vector, n: nat, rd: real, w: NodesSearch.Walk,
                    maxError: real, f: real, allowSelfMatch: bool, a: multiset<Dist>)
    requires Valid(nodes, n, cloud, |q|) && IsCloud(cloud, |q|) && nodes[n].dim <= -2
    requires IsMaxHeap(w.heap) && |w.heap| > 0 && |w.off| == |q| && maxError <= f && f >= 1.0
    requires Holds(w.heap, a, f, cloud, q, allowSelfMatch)
    ensures Holds(Recurse(nodes, cloud, q, n, rd, w, maxError, allowSelfMatch).heap,
                  a + SubtreeDists(nodes, n, cloud, q, allowSelfMatch), f, cloud, q, allowSelfMatch)
  {
    var i := DecodeIndex(nodes[n].dim);
    OfferWithin(w.heap, i, Dist2(q, cloud[i]), allowSelfMatch, a, f);
    Dist2Symmetric(q, cloud[i]);
    OfferAnswers(w.heap, cloud, q, allowSelfMatch, i);
  }

  /** The split-node part: near side, then the far side or its pruning. */
  lemma {:induction false} ChildrenSelects(nodes: seq<LeafNode>, cloud: Cloud, q: Vector, n: nat, rd: real, w: NodesSearch.Walk,
                                           maxError: real, f: real, allowSelfMatch: bool, a: multiset<Dist>)
    requires Valid(nodes, n, cloud, |q|) && IsCloud(cloud, |q|) && nodes[n].dim >= 0
    requires IsMaxHeap(w.heap) && |w.heap| > 0 && maxError <= f && f >= 1.0
    requires rd == SumSq(w.off) && SeparatedAll(nodes, n, cloud, q, w.off)
    requires Holds(w.heap, a, f, cloud, q, allowSelfMatch)
    ensures Holds(RecurseChildren(nodes, cloud, q, n, rd, w, maxError, allowSelfMatch).heap,
                  a + SubtreeDists(nodes, Near(nodes, q, n), cloud, q, allowSelfMatch)
                    + SubtreeDists(nodes, Far(nodes, q, n), cloud, q, allowSelfMatch), f, cloud, q, allowSelfMatch)
    decreases |nodes| - n, 2
  {
    NearSelects(nodes, cloud, q, n, rd, w, maxError, f, allowSelfMatch, a);
    AfterNearSelects(nodes, cloud, q, n, rd - Sq(w.off[nodes[n].dim]) + Sq(NewOff(nodes, q, n)),
                     Recurse(nodes, cloud, q, Near(nodes, q, n), rd, w, maxError, allowSelfMatch), maxError, f, allowSelfMatch,
                     a + SubtreeDists(nodes, Near(nodes, q, n), cloud, q, allowSelfMatch));
    ChildrenUnfold(nodes, cloud, q, n, rd, w, maxError, allowSelfMatch);
    HoldsSame(AfterNear(nodes, cloud, q, n, rd - Sq(w.off[nodes[n].dim]) + Sq(NewOff(nodes, q, n)),
                        Recurse(nodes, cloud, q, Near(nodes, q, n), rd, w, maxError, allowSelfMatch), maxError, allowSelfMatch).heap,
              RecurseChildren(nodes, cloud, q, n, rd, w, maxError, allowSelfMatch).heap,
              a + SubtreeDists(nodes, Near(nodes, q, n), cloud, q, allowSelfMatch) + SubtreeDists(nodes, Far(nodes, q, n), cloud, q, allowSelfMatch),
              a + SubtreeDists(nodes, Near(nodes, q, n), cloud, q, allowSelfMatch) + SubtreeDists(nodes, Far(nodes, q, n), cloud, q, allowSelfMatch),
              f, cloud, q, allowSelfMatch);
  }

  /** The near side, searched with the same offsets, leaves the far side's
      invariant in place for the grown offset. */
  lemma NearSelects(nodes: seq<LeafNode>, cloud: Cloud, q: Vector, n: nat, rd: real, w: NodesSearch.Walk,
                    maxError: real, f: real, allowSelfMatch: bool, a: multiset<Dist>)
    requires Valid(nodes, n, cloud, |q|) && IsCloud(cloud, |q|) && nodes[n].dim >= 0
    requires IsMaxHeap(w.heap) && |w.heap| > 0 && maxError <= f && f >= 1.0
    requires rd == SumSq(w.off) && SeparatedAll(nodes, n, cloud, q, w.off)
    requires Holds(w.heap, a, f, cloud, q, allowSelfMatch)
    ensures Holds(Recurse(nodes, cloud, q, Near(nodes, q, n), rd, w, maxError, allowSelfMatch).heap,
                  a + SubtreeDists(nodes, Near(nodes, q, n), cloud, q, allowSelfMatch), f, cloud, q, allowSelfMatch)
    ensures SeparatedAll(nodes, Far(nodes, q, n), cloud, q, w.off[nodes[n].dim := NewOff(nodes, q, n)])
    ensures rd - Sq(w.off[nodes[n].dim]) + Sq(NewOff(nodes, q, n)) == SumSq(w.off[nodes[n].dim := NewOff(nodes, q, n)])
    decreases |nodes| - n, 1
  {
    FarSeparated(nodes, n, cloud, q, w.off);
    RecurseSelects(nodes, cloud, q, Near(nodes, q, n), rd, w, maxError, f, allowSelfMatch, a);
    SumSqUpdate(w.off, nodes[n].dim, NewOff(nodes, q, n));
  }

  /** After the near side: the far side, or its pruning. */
  lemma {:induction false} AfterNearSelects(nodes: seq<LeafNode>, cloud: Cloud, q: Vector, n: nat, rd: real, w: NodesSearch.Walk,
                                            maxError: real, f: real, allowSelfMatch: bool, a: multiset<Dist>)
    requires Valid(nodes, n, cloud, |q|) && IsCloud(cloud, |q|) && nodes[n].dim >= 0
    requires IsMaxHeap(w.heap) && |w.heap| > 0 && |w.off| == |q| && maxError <= f && f >= 1.0
    requires rd == SumSq(w.off[nodes[n].dim := NewOff(nodes, q, n)])
    requires SeparatedAll(nodes, Far(nodes, q, n), cloud, q, w.off[nodes[n].dim := NewOff(nodes, q, n)])
    requires Holds(w.heap, a, f, cloud, q, allowSelfMatch)
    ensures Holds(AfterNear(nodes, cloud, q, n, rd, w, maxError, allowSelfMatch).heap,
                  a + SubtreeDists(nodes, Far(nodes, q, n), cloud, q, allowSelfMatch), f, cloud, q, allowSelfMatch)
    decreases |nodes| - n, 1
  {
    AfterNearUnfold(nodes, cloud, q, n, rd, w, maxError, allowSelfMatch);
    if Lt(Finite(rd * maxError), Head(w.heap).value) {
      FarSelects(nodes, cloud, q, n, rd, w, maxError, f, allowSelfMatch, a);
      HoldsSame(RecurseFar(nodes, cloud, q, n, rd, w, maxError, allowSelfMatch).heap, AfterNear(nodes, cloud, q, n, rd, w, maxError, allowSelfMatch).heap,
                a + SubtreeDists(nodes, Far(nodes, q, n), cloud, q, allowSelfMatch),
                a + SubtreeDists(nodes, Far(nodes, q, n), cloud, q, allowSelfMatch), f, cloud, q, allowSelfMatch);
    } else {
      SkipUnderLargerFactor(rd, maxError, f, Head(w.heap).value);
      PruneFarSide(nodes, Far(nodes, q, n), cloud, q, w.off[nodes[n].dim := NewOff(nodes, q, n)], rd, w.heap,
                   allowSelfMatch, a, f);
      HoldsSame(w.heap, AfterNear(nodes, cloud, q, n, rd, w, maxError, allowSelfMatch).heap,
                a + SubtreeDists(nodes, Far(nodes, q, n), cloud, q, allowSelfMatch),
                a + SubtreeDists(nodes, Far(nodes, q, n), cloud, q, allowSelfMatch), f, cloud, q, allowSelfMatch);
    }
  }

  /** One step of `AfterNear`: the far side is searched, or skipped. */
  lemma AfterNearUnfold(nodes: seq<LeafNode>, cloud: Cloud, q: Vector, n: nat, rd: real, w: NodesSearch.Walk,
                        maxError: real, allowSelfMatch: bool)
    requires Valid(nodes, n, cloud, |q|) && IsCloud(cloud, |q|) && nodes[n].dim >= 0
    requires IsMaxHeap(w.heap) && |w.heap| > 0 && |w.off| == |q|
    ensures Lt(Finite(rd * maxError), Head(w.heap).value)
        ==> AfterNear(nodes, cloud, q, n, rd, w, maxError, allowSelfMatch) == RecurseFar(nodes, cloud, q, n, rd, w, maxError, allowSelfMatch)
    ensures !Lt(Finite(rd * maxError), Head(w.heap).value)
        ==> AfterNear(nodes, cloud, q, n, rd, w, maxError, allowSelfMatch) == w
  {
  }

  /** The far side, searched with the grown offset. */
  lemma {:induction false} FarSelects(nodes: seq<LeafNode>, cloud: Cloud, q: Vector, n: nat, rd: real, w: NodesSearch.Walk,
                                      maxError: real, f: real, allowSelfMatch: bool, a: multiset<Dist>)
    requires Valid(nodes, n, cloud, |q|) && IsCloud(cloud, |q|) && nodes[n].dim >= 0
    requires IsMaxHeap(w.heap) && |w.heap| > 0 && |w.off| == |q| && maxError <= f && f >= 1.0
    requires rd == SumSq(w.off[nodes[n].dim := NewOff(nodes, q, n)])
    requires SeparatedAll(nodes, Far(nodes, q, n), cloud, q, w.off[nodes[n].dim := NewOff(nodes, q, n)])
    requires Holds(w.heap, a, f, cloud, q, allowSelfMatch)
    ensures Holds(RecurseFar(nodes, cloud, q, n, rd, w, maxError, allowSelfMatch).heap,
                  a + SubtreeDists(nodes, Far(nodes, q, n), cloud, q, allowSelfMatch), f, cloud, q, allowSelfMatch)
    decreases |nodes| - n, 0
  {
    RecurseSelects(nodes, cloud, q, Far(nodes, q, n), rd, w.(off := w.off[nodes[n].dim := NewOff(nodes, q, n)]), maxError, f, allowSelfMatch, a);
  }
}
