/** The stack search of `KDTreePtInNodesStack`: `recurseKnn` offers each
    node's own point, descends the near side first and the far side only
    while the squared distance `rd` to the far side's slab is below the
    heap's head. `off[d]` is the query's offset to the slab on axis `d`,
    so `rd` is always the squared norm of `off`. */
module NodesSearch {
  import opened Scalar
  import opened SeqUtil
  import opened Nabo
  import opened HeapEntries
  import opened Selection
  import opened IndexHeap
  import opened Results
  import opened BuildPoints
  import opened PtInNodes

  /** The state `recurseKnn` threads through the recursion: the heap, the
      offset vector and `lastQueryVisitCount`. */
  datatype Walk = Walk(heap: seq<Entry>, off: Vector, visits: nat)

  /** `recurseKnn(query, n, rd, heap, off, allowSelfMatch)`: the visit is
      counted, an invalid node ends it, any other node offers its point,
      and a split node goes on to its children. */
  ghost function Recurse(nodes: seq<Node>, q: Vector, n: nat, rd: real, w: Walk, allowSelfMatch: bool): (r: Walk)
    requires Valid(nodes, n, |q|)
    requires IsMaxHeap(w.heap) && |w.heap| > 0 && |w.off| == |q|
    ensures |r.heap| == |w.heap| && IsMaxHeap(r.heap)
    ensures r.off == w.off
    ensures r.visits > w.visits
    decreases |nodes| - n, 3
  {
    var node := nodes[n];
    var w1 := w.(visits := w.visits + 1);
    if node.dim == -2 then w1
    else
      var w2 := w1.(heap := Offer(w1.heap, n, Dist2(node.pos, q), allowSelfMatch));
      if node.dim == -1 then w2
      else RecurseChildren(nodes, q, n, rd, w2, allowSelfMatch)
  }

  /** The query's offset from split node `n` on its axis. */
  function NewOff(nodes: seq<Node>, q: Vector, n: nat): real
    requires n < |nodes| && 0 <= nodes[n].dim < |q| && |nodes[n].pos| == |q|
  {
    q[nodes[n].dim] - nodes[n].pos[nodes[n].dim]
  }

  /** The child on the query's side of split node `n`, and the other one. */
  function Near(nodes: seq<Node>, q: Vector, n: nat): nat
    requires n < |nodes| && 0 <= nodes[n].dim < |q| && |nodes[n].pos| == |q|
  {
    if NewOff(nodes, q, n) > 0.0 then ChildRight(n) else ChildLeft(n)
  }

  function Far(nodes: seq<Node>, q: Vector, n: nat): nat
    requires n < |nodes| && 0 <= nodes[n].dim < |q| && |nodes[n].pos| == |q|
  {
    if NewOff(nodes, q, n) > 0.0 then ChildLeft(n) else ChildRight(n)
  }

  /** The split-node part of `recurseKnn`: the near side with the same `rd`
      and `off`, then the far side with `rd` updated for its slab. */
  ghost function RecurseChildren(nodes: seq<Node>, q: Vector, n: nat, rd: real, w: Walk, allowSelfMatch: bool): (r: Walk)
    requires Valid(nodes, n, |q|) && nodes[n].dim >= 0
    requires IsMaxHeap(w.heap) && |w.heap| > 0 && |w.off| == |q|
    ensures |r.heap| == |w.heap| && IsMaxHeap(r.heap)
    ensures r.off == w.off
    ensures r.visits > w.visits
    decreases |nodes| - n, 2
  {
    var w3 := Recurse(nodes, q, Near(nodes, q, n), rd, w, allowSelfMatch);
    AfterNear(nodes, q, n, rd - Sq(w.off[nodes[n].dim]) + Sq(NewOff(nodes, q, n)), w3, allowSelfMatch)
  }

  /** After the near side: the far side is searched only if its slab's
      squared distance `rd` is below the heap's head. */
  ghost function AfterNear(nodes: seq<Node>, q: Vector, n: nat, rd: real, w: Walk, allowSelfMatch: bool): (r: Walk)
    requires Valid(nodes, n, |q|) && nodes[n].dim >= 0
    requires IsMaxHeap(w.heap) && |w.heap| > 0 && |w.off| == |q|
    ensures |r.heap| == |w.heap| && IsMaxHeap(r.heap)
    ensures r.off == w.off
    ensures r.visits >= w.visits
    decreases |nodes| - n, 1
  {
    if Lt(Finite(rd), Head(w.heap).value) then RecurseFar(nodes, q, n, rd, w, allowSelfMatch) else w
  }

  /** The far side, searched with `off[cd]` set to the new offset, which is
      put back afterwards. */
  ghost function RecurseFar(nodes: seq<Node>, q: Vector, n: nat, rd: real, w: Walk, allowSelfMatch: bool): (r: Walk)
    requires Valid(nodes, n, |q|) && nodes[n].dim >= 0
    requires IsMaxHeap(w.heap) && |w.heap| > 0 && |w.off| == |q|
    ensures |r.heap| == |w.heap| && IsMaxHeap(r.heap)
    ensures r.off == w.off
    ensures r.visits > w.visits
    decreases |nodes| - n, 0
  {
    var cd := nodes[n].dim;
    var w4 := Recurse(nodes, q, Far(nodes, q, n), rd, w.(off := w.off[cd := NewOff(nodes, q, n)]), allowSelfMatch);
    assert w4.off[cd := w.off[cd]] == w.off;
    w4.(off := w4.off[cd := w.off[cd]])
  }

  /** The eligible distances of the points the subtree at `p` holds,
      gathered node by node. */
  ghost function SubtreeDists(nodes: seq<Node>, p: nat, q: Vector, allowSelfMatch: bool): multiset<Dist>
    decreases |nodes| - p
  {
    if p >= |nodes| || nodes[p].dim == -2 then multiset{}
    else
      var own := if |nodes[p].pos| == |q| then Offered(Dist2(nodes[p].pos, q), allowSelfMatch) else multiset{};
      if nodes[p].dim < 0 then own
      else SubtreeDists(nodes, ChildLeft(p), q, allowSelfMatch) + own + SubtreeDists(nodes, ChildRight(p), q, allowSelfMatch)
  }

  /** Gathered node by node, a valid subtree's distances are those of the
      points it holds. */
  lemma {:induction false} SubtreeDistsContents(nodes: seq<Node>, p: nat, q: Vector, allowSelfMatch: bool)
    requires Valid(nodes, p, |q|)
    ensures HasDim(Contents(nodes, p), |q|)
    ensures SubtreeDists(nodes, p, q, allowSelfMatch)
         == multiset(EligibleDists(Positions(Contents(nodes, p)), q, allowSelfMatch))
    decreases |nodes| - p
  {
    ContentsDim(nodes, p, |q|);
    if nodes[p].dim == -2 {
    } else if nodes[p].dim < 0 {
      assert Positions(Contents(nodes, p)) == [nodes[p].pos];
    } else {
      SubtreeDistsContents(nodes, ChildLeft(p), q, allowSelfMatch);
      SubtreeDistsContents(nodes, ChildRight(p), q, allowSelfMatch);
      SplitPositions(nodes, p);
      DistsAround(Positions(Contents(nodes, ChildLeft(p))), nodes[p].pos, Positions(Contents(nodes, ChildRight(p))), q, allowSelfMatch);
    }
  }

  /** The positions a split node holds, in order. */
  lemma SplitPositions(nodes: seq<Node>, p: nat)
    requires p < |nodes| && nodes[p].dim >= 0
    ensures Positions(Contents(nodes, p))
         == Positions(Contents(nodes, ChildLeft(p))) + [nodes[p].pos] + Positions(Contents(nodes, ChildRight(p)))
  {
    assert Contents(nodes, p) == Contents(nodes, ChildLeft(p)) + [BuildPoint(nodes[p].pos, nodes[p].index)] + Contents(nodes, ChildRight(p));
    SplitPositionsOf(Contents(nodes, ChildLeft(p)), BuildPoint(nodes[p].pos, nodes[p].index), Contents(nodes, ChildRight(p)));
  }

  lemma SplitPositionsOf(l: seq<BuildPoint>, pt: BuildPoint, r: seq<BuildPoint>)
    ensures Positions(l + [pt] + r) == Positions(l) + [pt.pos] + Positions(r)
  {
    MapConcat(PosOf, l + [pt], r);
    MapConcat(PosOf, l, [pt]);
  }

  /** The eligible distances of `pl + [x] + pr`. */
  lemma DistsAround(pl: seq<Vector>, x: Vector, pr: seq<Vector>, q: Vector, allowSelfMatch: bool)
    requires IsCloud(pl, |q|) && |x| == |q| && IsCloud(pr, |q|)
    ensures IsCloud(pl + [x] + pr, |q|)
    ensures multiset(EligibleDists(pl + [x] + pr, q, allowSelfMatch))
         == multiset(EligibleDists(pl, q, allowSelfMatch)) + Offered(Dist2(x, q), allowSelfMatch)
          + multiset(EligibleDists(pr, q, allowSelfMatch))
  {
    EligibleDistsConcat(pl + [x], pr, q, allowSelfMatch);
    EligibleDistsConcat(pl, [x], q, allowSelfMatch);
    assert multiset(EligibleDists([x], q, allowSelfMatch)) == Offered(Dist2(x, q), allowSelfMatch);
  }

  /** A split node's distances are its children's and its own. */
  lemma SubtreeDistsSplit(nodes: seq<Node>, p: nat, q: Vector, allowSelfMatch: bool)
    requires Valid(nodes, p, |q|) && nodes[p].dim >= 0
    ensures SubtreeDists(nodes, p, q, allowSelfMatch)
         == SubtreeDists(nodes, ChildLeft(p), q, allowSelfMatch)
          + Offered(Dist2(nodes[p].pos, q), allowSelfMatch)
          + SubtreeDists(nodes, ChildRight(p), q, allowSelfMatch)
  {
  }

  /** A leaf's distances are its own; an invalid node has none. */
  lemma SubtreeDistsLeaf(nodes: seq<Node>, p: nat, q: Vector, allowSelfMatch: bool)
    requires Valid(nodes, p, |q|) && nodes[p].dim < 0
    ensures nodes[p].dim == -1 ==> SubtreeDists(nodes, p, q, allowSelfMatch) == Offered(Dist2(nodes[p].pos, q), allowSelfMatch)
    ensures nodes[p].dim == -2 ==> SubtreeDists(nodes, p, q, allowSelfMatch) == multiset{}
  {
  }

  /** Every point under `p` is separated from the query by `off`, axis by
      axis. */
  ghost predicate SeparatedAll(nodes: seq<Node>, p: nat, q: Vector, off: Vector)
  {
    |off| == |q|
    && forall x :: x in Contents(nodes, p) ==> |x.pos| == |q| && Separated(q, off, x.pos)
  }

  /** A slot is an unused seed or names a node of the tree holding one of
      the points `all`, at its squared distance, eligible. */
  ghost predicate NodeEntry(e: Entry, nodes: seq<Node>, q: Vector, allowSelfMatch: bool, all: seq<BuildPoint>)
  {
    e == Sentinel
    || (0 <= e.index < |nodes|
        && BuildPoint(nodes[e.index].pos, nodes[e.index].index) in all
        && |nodes[e.index].pos| == |q|
        && e.value == Finite(Dist2(nodes[e.index].pos, q))
        && Eligible(Dist2(nodes[e.index].pos, q), allowSelfMatch))
  }

  ghost predicate NodeAnswers(h: seq<Entry>, nodes: seq<Node>, q: Vector, allowSelfMatch: bool, all: seq<BuildPoint>)
  {
    forall e :: e in h ==> NodeEntry(e, nodes, q, allowSelfMatch, all)
  }

  /** Offering node `n` keeps every slot an answer. */
  lemma NodeOfferAnswers(h: seq<Entry>, nodes: seq<Node>, q: Vector, allowSelfMatch: bool, all: seq<BuildPoint>, n: nat)
    requires IsMaxHeap(h) && |h| > 0 && NodeAnswers(h, nodes, q, allowSelfMatch, all)
    requires n < |nodes| && |nodes[n].pos| == |q| && BuildPoint(nodes[n].pos, nodes[n].index) in all
    ensures NodeAnswers(Offer(h, n, Dist2(nodes[n].pos, q), allowSelfMatch), nodes, q, allowSelfMatch, all)
  {
    var d := Dist2(nodes[n].pos, q);
    var r := Offer(h, n, d, allowSelfMatch);
    if Lt(Finite(d), Head(h).value) && Eligible(d, allowSelfMatch) {
      assert r == ReplaceHead(h, n, d);
      forall e | e in r
        ensures NodeEntry(e, nodes, q, allowSelfMatch, all)
      {
        assert e in multiset(r);
        if e != Entry(n, Finite(d)) {
          assert e in multiset(h);
        }
      }
    }
  }

  /** The children hold part of what their parent holds. */
  lemma ChildContents(nodes: seq<Node>, n: nat, q: Vector)
    requires Valid(nodes, n, |q|) && nodes[n].dim >= 0
    ensures forall x :: x in Contents(nodes, ChildLeft(n)) ==> x in Contents(nodes, n)
    ensures forall x :: x in Contents(nodes, ChildRight(n)) ==> x in Contents(nodes, n)
    ensures BuildPoint(nodes[n].pos, nodes[n].index) in Contents(nodes, n)
  {
  }

  /** A node that is not invalid holds its own point. */
  lemma OwnPoint(nodes: seq<Node>, n: nat, q: Vector)
    requires Valid(nodes, n, |q|) && nodes[n].dim != -2
    ensures BuildPoint(nodes[n].pos, nodes[n].index) in Contents(nodes, n)
    ensures |nodes[n].pos| == |q|
  {
  }

  /** Crossing the split of node `n` to its far side: every point there is
      beyond the node's coordinate, so the offset on the node's axis may
      grow to the query's distance from that coordinate. */
  lemma FarSeparated(nodes: seq<Node>, n: nat, q: Vector, off: Vector)
    requires Valid(nodes, n, |q|) && nodes[n].dim >= 0
    requires SeparatedAll(nodes, n, q, off)
    ensures SeparatedAll(nodes, Far(nodes, q, n), q, off[nodes[n].dim := NewOff(nodes, q, n)])
    ensures SeparatedAll(nodes, Near(nodes, q, n), q, off)
  {
    var cd := nodes[n].dim;
    var o := NewOff(nodes, q, n);
    var off' := off[cd := o];
    ChildContents(nodes, n, q);
    forall x | x in Contents(nodes, Far(nodes, q, n))
      ensures |x.pos| == |q| && Separated(q, off', x.pos)
    {
      assert x in Contents(nodes, n);
      assert SepCoord(q[cd], o, x.pos[cd]) by {
        if o > 0.0 {
          assert Coord(x, cd) <= nodes[n].pos[cd];
        } else {
          assert nodes[n].pos[cd] <= Coord(x, cd);
        }
      }
      forall d | 0 <= d < |q|
        ensures SepCoord(q[d], off'[d], x.pos[d])
      {
      }
    }
  }

  /** Left-out distances of a skipped far side: all of its points lie at
      least `rd` away, and `rd` is not below the head. */
  lemma PruneBound(nodes: seq<Node>, p: nat, q: Vector, off: Vector, allowSelfMatch: bool, head: Dist)
    requires Valid(nodes, p, |q|) && SeparatedAll(nodes, p, q, off)
    requires Le(head, Finite(SumSq(off)))
    ensures forall y :: y in SubtreeDists(nodes, p, q, allowSelfMatch) ==> Le(head, Scale(y, 1.0))
  {
    var c := Contents(nodes, p);
    SubtreeDistsContents(nodes, p, q, allowSelfMatch);
    HasDimPositions(c, |q|);
    var ps := Positions(c);
    forall i | 0 <= i < |ps|
      ensures Le(head, Finite(Dist2(ps[i], q)))
    {
      assert c[i] in c;
      SeparatedLowerBound(q, off, c[i].pos);
      Dist2Symmetric(q, c[i].pos);
    }
    EligibleDistsAbove(ps, q, allowSelfMatch, head);
    forall y | y in SubtreeDists(nodes, p, q, allowSelfMatch)
      ensures Le(head, Scale(y, 1.0))
    {
      ScaleOne(y);
    }
  }

  /** What `recurseKnn` at `n` establishes: given a heap holding smallest
      candidates of `a`, the offset invariant (`rd` is the squared norm of
      `off` and `off` separates every point under `n` from the query), it
      returns a heap holding smallest candidates of `a` and everything
      under `n`, each slot naming a node of the tree. */
  lemma {:induction false} RecurseSelects(nodes: seq<Node>, q: Vector, n: nat, rd: real, w: Walk, allowSelfMatch: bool,
                                          a: multiset<Dist>, all: seq<BuildPoint>)
    requires Valid(nodes, n, |q|) && IsMaxHeap(w.heap) && |w.heap| > 0
    requires rd == SumSq(w.off) && SeparatedAll(nodes, n, q, w.off)
    requires Within(ValueBag(w.heap), a, 1.0) && AllNonNeg(a)
    requires NodeAnswers(w.heap, nodes, q, allowSelfMatch, all)
    requires forall x :: x in Contents(nodes, n) ==> x in all
    ensures Within(ValueBag(Recurse(nodes, q, n, rd, w, allowSelfMatch).heap), a + SubtreeDists(nodes, n, q, allowSelfMatch), 1.0)
    ensures AllNonNeg(a + SubtreeDists(nodes, n, q, allowSelfMatch))
    ensures NodeAnswers(Recurse(nodes, q, n, rd, w, allowSelfMatch).heap, nodes, q, allowSelfMatch, all)
    decreases |nodes| - n, 4
  {
    if nodes[n].dim == -2 {
      SubtreeDistsLeaf(nodes, n, q, allowSelfMatch);
      assert a + SubtreeDists(nodes, n, q, allowSelfMatch) == a;
    } else {
      VisitSelects(nodes, q, n, rd, w, allowSelfMatch, a, all);
    }
  }

  /** The walk after a valid node's own point has been offered. */
  ghost function Visited(nodes: seq<Node>, q: Vector, n: nat, w: Walk, allowSelfMatch: bool): (r: Walk)
    requires n < |nodes| && |nodes[n].pos| == |q| && IsMaxHeap(w.heap) && |w.heap| > 0
    ensures |r.heap| == |w.heap| && IsMaxHeap(r.heap) && r.off == w.off
  {
    w.(visits := w.visits + 1).(heap := Offer(w.heap, n, Dist2(nodes[n].pos, q), allowSelfMatch))
  }

  /** One step of `Recurse` at a node that is not invalid. */
  lemma VisitUnfold(nodes: seq<Node>, q: Vector, n: nat, rd: real, w: Walk, allowSelfMatch: bool)
    requires Valid(nodes, n, |q|) && nodes[n].dim != -2
    requires IsMaxHeap(w.heap) && |w.heap| > 0 && |w.off| == |q|
    ensures nodes[n].dim == -1 ==> Recurse(nodes, q, n, rd, w, allowSelfMatch) == Visited(nodes, q, n, w, allowSelfMatch)
    ensures nodes[n].dim >= 0 ==> Recurse(nodes, q, n, rd, w, allowSelfMatch)
                                  == RecurseChildren(nodes, q, n, rd, Visited(nodes, q, n, w, allowSelfMatch), allowSelfMatch)
  {
  }

  /** Offering a node's own point keeps the relation, with the point's
      distance added to what was offered. */
  lemma VisitedSelects(nodes: seq<Node>, q: Vector, n: nat, w: Walk, allowSelfMatch: bool,
                       a: multiset<Dist>, all: seq<BuildPoint>)
    requires Valid(nodes, n, |q|) && nodes[n].dim != -2 && IsMaxHeap(w.heap) && |w.heap| > 0
    requires Within(ValueBag(w.heap), a, 1.0) && AllNonNeg(a)
    requires NodeAnswers(w.heap, nodes, q, allowSelfMatch, all)
    requires forall x :: x in Contents(nodes, n) ==> x in all
    ensures Within(ValueBag(Visited(nodes, q, n, w, allowSelfMatch).heap), a + Offered(Dist2(nodes[n].pos, q), allowSelfMatch), 1.0)
    ensures AllNonNeg(a + Offered(Dist2(nodes[n].pos, q), allowSelfMatch))
    ensures NodeAnswers(Visited(nodes, q, n, w, allowSelfMatch).heap, nodes, q, allowSelfMatch, all)
  {
    OfferWithin(w.heap, n, Dist2(nodes[n].pos, q), allowSelfMatch, a, 1.0);
    OwnPoint(nodes, n, q);
    NodeOfferAnswers(w.heap, nodes, q, allowSelfMatch, all, n);
  }

  /** A node that is not invalid: its own point is offered, then a split
      node goes on to its children. */
  lemma {:induction false} VisitSelects(nodes: seq<Node>, q: Vector, n: nat, rd: real, w: Walk, allowSelfMatch: bool,
                                        a: multiset<Dist>, all: seq<BuildPoint>)
    requires Valid(nodes, n, |q|) && nodes[n].dim != -2 && IsMaxHeap(w.heap) && |w.heap| > 0
    requires rd == SumSq(w.off) && SeparatedAll(nodes, n, q, w.off)
    requires Within(ValueBag(w.heap), a, 1.0) && AllNonNeg(a)
    requires NodeAnswers(w.heap, nodes, q, allowSelfMatch, all)
    requires forall x :: x in Contents(nodes, n) ==> x in all
    ensures Within(ValueBag(Recurse(nodes, q, n, rd, w, allowSelfMatch).heap), a + SubtreeDists(nodes, n, q, allowSelfMatch), 1.0)
    ensures AllNonNeg(a + SubtreeDists(nodes, n, q, allowSelfMatch))
    ensures NodeAnswers(Recurse(nodes, q, n, rd, w, allowSelfMatch).heap, nodes, q, allowSelfMatch, all)
    decreases |nodes| - n, 3
  {
    var w2 := Visited(nodes, q, n, w, allowSelfMatch);
    var a2 := a + Offered(Dist2(nodes[n].pos, q), allowSelfMatch);
    VisitedSelects(nodes, q, n, w, allowSelfMatch, a, all);
    VisitUnfold(nodes, q, n, rd, w, allowSelfMatch);
    if nodes[n].dim >= 0 {
      ChildContents(nodes, n, q);
      ChildrenSelects(nodes, q, n, rd, w2, allowSelfMatch, a2, all);
      SubtreeDistsNearFar(nodes, q, n, allowSelfMatch);
    } else {
      SubtreeDistsLeaf(nodes, n, q, allowSelfMatch);
    }
  }

  /** One step of `RecurseChildren`: the near side, then `AfterNear`. */
  lemma ChildrenUnfold(nodes: seq<Node>, q: Vector, n: nat, rd: real, w: Walk, allowSelfMatch: bool)
    requires Valid(nodes, n, |q|) && nodes[n].dim >= 0
    requires IsMaxHeap(w.heap) && |w.heap| > 0 && |w.off| == |q|
    ensures RecurseChildren(nodes, q, n, rd, w, allowSelfMatch).heap
            == AfterNear(nodes, q, n, rd - Sq(w.off[nodes[n].dim]) + Sq(NewOff(nodes, q, n)),
                         Recurse(nodes, q, Near(nodes, q, n), rd, w, allowSelfMatch), allowSelfMatch).heap
  {
  }

  /** What holds of one heap holds of an equal one. */
  lemma SameHeap(h: seq<Entry>, h': seq<Entry>, b: multiset<Dist>, nodes: seq<Node>, q: Vector, allowSelfMatch: bool, all: seq<BuildPoint>)
    requires h == h'
    requires Within(ValueBag(h), b, 1.0) && NodeAnswers(h, nodes, q, allowSelfMatch, all)
    ensures Within(ValueBag(h'), b, 1.0) && NodeAnswers(h', nodes, q, allowSelfMatch, all)
  {
  }

  /** A split node's distances are its own, its near side's and its far
      side's. */
  lemma SubtreeDistsNearFar(nodes: seq<Node>, q: Vector, n: nat, allowSelfMatch: bool)
    requires Valid(nodes, n, |q|) && nodes[n].dim >= 0
    ensures SubtreeDists(nodes, n, q, allowSelfMatch)
         == Offered(Dist2(nodes[n].pos, q), allowSelfMatch)
          + SubtreeDists(nodes, Near(nodes, q, n), q, allowSelfMatch)
          + SubtreeDists(nodes, Far(nodes, q, n), q, allowSelfMatch)
  {
  }

  /** The near side, searched with the same offsets, leaves the far side's
      invariant in place for the grown offset. */
  lemma NearSelects(nodes: seq<Node>, q: Vector, n: nat, rd: real, w: Walk, allowSelfMatch: bool,
                    a: multiset<Dist>, all: seq<BuildPoint>)
    requires Valid(nodes, n, |q|) && nodes[n].dim >= 0 && IsMaxHeap(w.heap) && |w.heap| > 0
    requires rd == SumSq(w.off) && SeparatedAll(nodes, n, q, w.off)
    requires Within(ValueBag(w.heap), a, 1.0) && AllNonNeg(a)
    requires NodeAnswers(w.heap, nodes, q, allowSelfMatch, all)
    requires forall x :: x in Contents(nodes, n) ==> x in all
    ensures Within(ValueBag(Recurse(nodes, q, Near(nodes, q, n), rd, w, allowSelfMatch).heap),
                   a + SubtreeDists(nodes, Near(nodes, q, n), q, allowSelfMatch), 1.0)
    ensures AllNonNeg(a + SubtreeDists(nodes, Near(nodes, q, n), q, allowSelfMatch))
    ensures NodeAnswers(Recurse(nodes, q, Near(nodes, q, n), rd, w, allowSelfMatch).heap, nodes, q, allowSelfMatch, all)
    ensures SeparatedAll(nodes, Far(nodes, q, n), q, w.off[nodes[n].dim := NewOff(nodes, q, n)])
    ensures rd - Sq(w.off[nodes[n].dim]) + Sq(NewOff(nodes, q, n)) == SumSq(w.off[nodes[n].dim := NewOff(nodes, q, n)])
    decreases |nodes| - n, 1
  {
    ChildContents(nodes, n, q);
    FarSeparated(nodes, n, q, w.off);
    RecurseSelects(nodes, q, Near(nodes, q, n), rd, w, allowSelfMatch, a, all);
    SumSqUpdate(w.off, nodes[n].dim, NewOff(nodes, q, n));
  }

  /** The split-node part: near side, then the far side or its pruning. */
  lemma {:induction false} ChildrenSelects(nodes: seq<Node>, q: Vector, n: nat, rd: real, w: Walk, allowSelfMatch: bool,
                                           a: multiset<Dist>, all: seq<BuildPoint>)
    requires Valid(nodes, n, |q|) && nodes[n].dim >= 0 && IsMaxHeap(w.heap) && |w.heap| > 0
    requires rd == SumSq(w.off) && SeparatedAll(nodes, n, q, w.off)
    requires Within(ValueBag(w.heap), a, 1.0) && AllNonNeg(a)
    requires NodeAnswers(w.heap, nodes, q, allowSelfMatch, all)
    requires forall x :: x in Contents(nodes, n) ==> x in all
    ensures Within(ValueBag(RecurseChildren(nodes, q, n, rd, w, allowSelfMatch).heap),
                   a + SubtreeDists(nodes, Near(nodes, q, n), q, allowSelfMatch) + SubtreeDists(nodes, Far(nodes, q, n), q, allowSelfMatch), 1.0)
    ensures AllNonNeg(a + SubtreeDists(nodes, Near(nodes, q, n), q, allowSelfMatch) + SubtreeDists(nodes, Far(nodes, q, n), q, allowSelfMatch))
    ensures NodeAnswers(RecurseChildren(nodes, q, n, rd, w, allowSelfMatch).heap, nodes, q, allowSelfMatch, all)
    decreases |nodes| - n, 2
  {
    NearSelects(nodes, q, n, rd, w, allowSelfMatch, a, all);
    AfterNearSelects(nodes, q, n, rd - Sq(w.off[nodes[n].dim]) + Sq(NewOff(nodes, q, n)),
                     Recurse(nodes, q, Near(nodes, q, n), rd, w, allowSelfMatch), allowSelfMatch,
                     a + SubtreeDists(nodes, Near(nodes, q, n), q, allowSelfMatch), all);
    ChildrenUnfold(nodes, q, n, rd, w, allowSelfMatch);
    SameHeap(AfterNear(nodes, q, n, rd - Sq(w.off[nodes[n].dim]) + Sq(NewOff(nodes, q, n)),
                       Recurse(nodes, q, Near(nodes, q, n), rd, w, allowSelfMatch), allowSelfMatch).heap,
             RecurseChildren(nodes, q, n, rd, w, allowSelfMatch).heap,
             a + SubtreeDists(nodes, Near(nodes, q, n), q, allowSelfMatch) + SubtreeDists(nodes, Far(nodes, q, n), q, allowSelfMatch),
             nodes, q, allowSelfMatch, all);
  }

  /** After the near side: the far side, or its pruning. */
  lemma {:induction false} AfterNearSelects(nodes: seq<Node>, q: Vector, n: nat, rd: real, w: Walk, allowSelfMatch: bool,
                                            a: multiset<Dist>, all: seq<BuildPoint>)
    requires Valid(nodes, n, |q|) && nodes[n].dim >= 0 && IsMaxHeap(w.heap) && |w.heap| > 0 && |w.off| == |q|
    requires rd == SumSq(w.off[nodes[n].dim := NewOff(nodes, q, n)])
    requires SeparatedAll(nodes, Far(nodes, q, n), q, w.off[nodes[n].dim := NewOff(nodes, q, n)])
    requires Within(ValueBag(w.heap), a, 1.0) && AllNonNeg(a)
    requires NodeAnswers(w.heap, nodes, q, allowSelfMatch, all)
    requires forall x :: x in Contents(nodes, n) ==> x in all
    ensures Within(ValueBag(AfterNear(nodes, q, n, rd, w, allowSelfMatch).heap),
                   a + SubtreeDists(nodes, Far(nodes, q, n), q, allowSelfMatch), 1.0)
    ensures AllNonNeg(a + SubtreeDists(nodes, Far(nodes, q, n), q, allowSelfMatch))
    ensures NodeAnswers(AfterNear(nodes, q, n, rd, w, allowSelfMatch).heap, nodes, q, allowSelfMatch, all)
    decreases |nodes| - n, 1
  {
    ChildContents(nodes, n, q);
    if Lt(Finite(rd), Head(w.heap).value) {
      FarSelects(nodes, q, n, rd, w, allowSelfMatch, a, all);
    } else {
      PruneFarSide(nodes, Far(nodes, q, n), q, w.off[nodes[n].dim := NewOff(nodes, q, n)], w.heap, allowSelfMatch, a);
    }
  }

  /** Skipping a side whose slab is not closer than the head keeps the
      relation, as if all of its points had been offered. */
  lemma PruneFarSide(nodes: seq<Node>, p: nat, q: Vector, off: Vector, h: seq<Entry>, allowSelfMatch: bool, a: multiset<Dist>)
    requires Valid(nodes, p, |q|) && SeparatedAll(nodes, p, q, off)
    requires IsMaxHeap(h) && |h| > 0 && !Lt(Finite(SumSq(off)), Head(h).value)
    requires Within(ValueBag(h), a, 1.0) && AllNonNeg(a)
    ensures Within(ValueBag(h), a + SubtreeDists(nodes, p, q, allowSelfMatch), 1.0)
    ensures AllNonNeg(a + SubtreeDists(nodes, p, q, allowSelfMatch))
  {
    var head := Head(h).value;
    HeadIsMax(h);
    PruneBound(nodes, p, q, off, allowSelfMatch, head);
    Prune(ValueBag(h), a, 1.0, head, SubtreeDists(nodes, p, q, allowSelfMatch));
    AllNonNegSubtree(nodes, p, q, allowSelfMatch, a);
  }

  /** The far side, searched with the grown offset. */
  lemma {:induction false} FarSelects(nodes: seq<Node>, q: Vector, n: nat, rd: real, w: Walk, allowSelfMatch: bool,
                                      a: multiset<Dist>, all: seq<BuildPoint>)
    requires Valid(nodes, n, |q|) && nodes[n].dim >= 0 && IsMaxHeap(w.heap) && |w.heap| > 0 && |w.off| == |q|
    requires rd == SumSq(w.off[nodes[n].dim := NewOff(nodes, q, n)])
    requires SeparatedAll(nodes, Far(nodes, q, n), q, w.off[nodes[n].dim := NewOff(nodes, q, n)])
    requires Within(ValueBag(w.heap), a, 1.0) && AllNonNeg(a)
    requires NodeAnswers(w.heap, nodes, q, allowSelfMatch, all)
    requires forall x :: x in Contents(nodes, n) ==> x in all
    ensures Within(ValueBag(RecurseFar(nodes, q, n, rd, w, allowSelfMatch).heap),
                   a + SubtreeDists(nodes, Far(nodes, q, n), q, allowSelfMatch), 1.0)
    ensures AllNonNeg(a + SubtreeDists(nodes, Far(nodes, q, n), q, allowSelfMatch))
    ensures NodeAnswers(RecurseFar(nodes, q, n, rd, w, allowSelfMatch).heap, nodes, q, allowSelfMatch, all)
    decreases |nodes| - n, 0
  {
    ChildContents(nodes, n, q);
    var cd := nodes[n].dim;
    RecurseSelects(nodes, q, Far(nodes, q, n), rd, w.(off := w.off[cd := NewOff(nodes, q, n)]), allowSelfMatch, a, all);
  }

  /** Distances of a subtree are never negative. */
  lemma AllNonNegSubtree(nodes: seq<Node>, p: nat, q: Vector, allowSelfMatch: bool, a: multiset<Dist>)
    requires Valid(nodes, p, |q|) && AllNonNeg(a)
    ensures AllNonNeg(a + SubtreeDists(nodes, p, q, allowSelfMatch))
  {
    var c := Contents(nodes, p);
    SubtreeDistsContents(nodes, p, q, allowSelfMatch);
    HasDimPositions(c, |q|);
    EligibleDistsMembers(Positions(c), q, allowSelfMatch);
    forall y | y in a + SubtreeDists(nodes, p, q, allowSelfMatch)
      ensures NonNeg(y)
    {
      if y !in a {
        assert y in EligibleDists(Positions(c), q, allowSelfMatch);
      }
    }
  }
}
