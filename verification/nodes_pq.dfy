/** `KDTreePtInNodesPQ`: the points-in-nodes tree searched best first. A
    priority queue holds subtrees still to explore, each with a lower bound
    on the squared distances of its points. The element of smallest bound
    is popped; unless that bound already exceeds the head, the search dives
    from it down the query's side, offering every node it passes and
    queueing the other side whenever its slab is closer than the head. */
module NodesPq {
  import opened Scalar
  import opened SeqUtil
  import opened Nabo
  import opened HeapEntries
  import opened Selection
  import opened IndexHeap
  import opened Results
  import opened BuildPoints
  import opened Layout
  import opened TreeSize
  import opened PtInNodes
  import opened NodesSearch
  import opened CloudIndexes
  import NodesKnn
  import BruteForce

  /** `SearchElement(index, minDist)`: a subtree still to explore and a lower
      bound on the squared distances of its points. */
  datatype SearchElement = SearchElement(index: nat, minDist: real)

  /** The search state: the result heap, the queue and the count of
      descents so far (`lastQueryVisitCount`). */
  datatype Probe = Probe(heap: seq<Entry>, queue: seq<SearchElement>, visits: nat)

  /** `queue.top()`: the queue's comparison is reversed, so its top is an
      element of smallest bound; among equal bounds the first is taken. */
  function Top(queue: seq<SearchElement>): (i: nat)
    requires |queue| > 0
    ensures i < |queue|
    ensures forall j :: 0 <= j < |queue| ==> queue[i].minDist <= queue[j].minDist
    decreases |queue|
  {
    if |queue| == 1 then 0
    else
      var j := 1 + Top(queue[1..]);
      assert forall t :: 1 <= t < |queue| ==> queue[t] == queue[1..][t - 1];
      if queue[0].minDist <= queue[j].minDist then 0 else j
  }

  /** The queue once element `i` is popped. */
  function Without(queue: seq<SearchElement>, i: nat): (r: seq<SearchElement>)
    requires i < |queue|
    ensures |r| == |queue| - 1
    ensures multiset(r) + multiset{queue[i]} == multiset(queue)
  {
    assert queue == queue[..i] + [queue[i]] + queue[i + 1..];
    queue[..i] + queue[i + 1..]
  }

  /** Popping leaves only elements that were queued. */
  lemma WithoutMembers(queue: seq<SearchElement>, i: nat)
    requires i < |queue|
    ensures forall e :: e in Without(queue, i) ==> e in queue
  {
    forall e | e in Without(queue, i)
      ensures e in queue
    {
      assert e in multiset(Without(queue, i));
    }
  }

  /** The slots of all queued subtrees: what the search may still visit. */
  function PendingSize(size: nat, queue: seq<SearchElement>): nat
    decreases |queue|
  {
    if |queue| == 0 then 0
    else PendingSize(size, queue[..|queue| - 1]) + SubtreeSize(queue[|queue| - 1].index, size)
  }

  /** The eligible distances of all queued subtrees. */
  ghost function PendingDists(nodes: seq<Node>, q: Vector, allowSelfMatch: bool, queue: seq<SearchElement>): multiset<Dist>
    decreases |queue|
  {
    if |queue| == 0 then multiset{}
    else PendingDists(nodes, q, allowSelfMatch, queue[..|queue| - 1])
         + SubtreeDists(nodes, queue[|queue| - 1].index, q, allowSelfMatch)
  }

  lemma {:induction false} PendingSizeConcat(size: nat, a: seq<SearchElement>, b: seq<SearchElement>)
    ensures PendingSize(size, a + b) == PendingSize(size, a) + PendingSize(size, b)
    decreases |b|
  {
    if |b| == 0 {
      assert a + b == a;
    } else {
      assert (a + b)[..|a + b| - 1] == a + b[..|b| - 1];
      PendingSizeConcat(size, a, b[..|b| - 1]);
    }
  }

  lemma {:induction false} PendingDistsConcat(nodes: seq<Node>, q: Vector, allowSelfMatch: bool,
                                              a: seq<SearchElement>, b: seq<SearchElement>)
    ensures PendingDists(nodes, q, allowSelfMatch, a + b)
         == PendingDists(nodes, q, allowSelfMatch, a) + PendingDists(nodes, q, allowSelfMatch, b)
    decreases |b|
  {
    if |b| == 0 {
      assert a + b == a;
    } else {
      assert (a + b)[..|a + b| - 1] == a + b[..|b| - 1];
      PendingDistsConcat(nodes, q, allowSelfMatch, a, b[..|b| - 1]);
    }
  }

  /** Popping element `i` removes exactly its subtree from what is pending. */
  lemma PendingWithout(nodes: seq<Node>, q: Vector, allowSelfMatch: bool, queue: seq<SearchElement>, i: nat)
    requires i < |queue|
    ensures PendingSize(|nodes|, queue) == PendingSize(|nodes|, Without(queue, i)) + SubtreeSize(queue[i].index, |nodes|)
    ensures PendingDists(nodes, q, allowSelfMatch, queue)
         == PendingDists(nodes, q, allowSelfMatch, Without(queue, i)) + SubtreeDists(nodes, queue[i].index, q, allowSelfMatch)
  {
    var one := [queue[i]];
    assert queue == (queue[..i] + one) + queue[i + 1..];
    assert PendingSize(|nodes|, one) == SubtreeSize(queue[i].index, |nodes|) by {
      assert one[..0] == [];
    }
    assert PendingDists(nodes, q, allowSelfMatch, one) == SubtreeDists(nodes, queue[i].index, q, allowSelfMatch) by {
      assert one[..0] == [];
    }
    PendingSizeConcat(|nodes|, queue[..i] + one, queue[i + 1..]);
    PendingSizeConcat(|nodes|, queue[..i], one);
    PendingSizeConcat(|nodes|, queue[..i], queue[i + 1..]);
    PendingDistsConcat(nodes, q, allowSelfMatch, queue[..i] + one, queue[i + 1..]);
    PendingDistsConcat(nodes, q, allowSelfMatch, queue[..i], one);
    PendingDistsConcat(nodes, q, allowSelfMatch, queue[..i], queue[i + 1..]);
  }

  /** Every pending distance belongs to one queued subtree. */
  lemma {:induction false} PendingMembers(nodes: seq<Node>, q: Vector, allowSelfMatch: bool, queue: seq<SearchElement>, y: Dist)
    requires y in PendingDists(nodes, q, allowSelfMatch, queue)
    ensures exists j :: 0 <= j < |queue| && y in SubtreeDists(nodes, queue[j].index, q, allowSelfMatch)
    decreases |queue|
  {
    var last := |queue| - 1;
    if y !in SubtreeDists(nodes, queue[last].index, q, allowSelfMatch) {
      PendingMembers(nodes, q, allowSelfMatch, queue[..last], y);
      var j :| 0 <= j < last && y in SubtreeDists(nodes, queue[..last][j].index, q, allowSelfMatch);
      assert queue[..last][j] == queue[j];
    }
  }

  /** A queued subtree: well formed and not an invalid slot, as the code
      asserts of every node it reaches. */
  ghost predicate Enqueued(nodes: seq<Node>, q: Vector, e: SearchElement)
  {
    Valid(nodes, e.index, |q|) && nodes[e.index].dim != -2
  }

  ghost predicate QueueValid(nodes: seq<Node>, q: Vector, queue: seq<SearchElement>)
  {
    forall e :: e in queue ==> Enqueued(nodes, q, e)
  }

  /** The element's bound is a true lower bound of its subtree's distances,
      and the subtree holds points of `all` only. */
  ghost predicate Bounded(nodes: seq<Node>, q: Vector, allowSelfMatch: bool, all: seq<BuildPoint>, e: SearchElement)
  {
    (forall y :: y in SubtreeDists(nodes, e.index, q, allowSelfMatch) ==> Le(Finite(e.minDist), y))
    && (forall x :: x in Contents(nodes, e.index) ==> x in all)
  }

  ghost predicate BoundedAll(nodes: seq<Node>, q: Vector, allowSelfMatch: bool, all: seq<BuildPoint>, queue: seq<SearchElement>)
  {
    forall e :: e in queue ==> Bounded(nodes, q, allowSelfMatch, all, e)
  }

  /** A prefix of a prefix, and the tail split at the middle. */
  lemma Extends(a: seq<SearchElement>, b: seq<SearchElement>, c: seq<SearchElement>)
    requires |a| <= |b| <= |c| && b[..|a|] == a && c[..|b|] == b
    ensures c[..|a|] == a
    ensures c[|a|..] == b[|a|..] + c[|b|..]
  {
    assert c[..|a|] == c[..|b|][..|a|];
  }

  /** The offside step of a split node: its child is queued, with the
      squared offset as bound, when that bound is below the head and the
      child is a real node. */
  ghost function PushFar(nodes: seq<Node>, q: Vector, n: nat, h: seq<Entry>, queue: seq<SearchElement>): (r: seq<SearchElement>)
    requires Valid(nodes, n, |q|) && nodes[n].dim >= 0 && IsMaxHeap(h) && |h| > 0
    ensures |r| >= |queue| && r[..|queue|] == queue
    ensures QueueValid(nodes, q, r[|queue|..])
    ensures PendingSize(|nodes|, r) <= PendingSize(|nodes|, queue) + SubtreeSize(Far(nodes, q, n), |nodes|)
  {
    var o := NewOff(nodes, q, n);
    if Lt(Finite(Sq(o)), Head(h).value) && nodes[Far(nodes, q, n)].dim != -2 then
      var r := queue + [SearchElement(Far(nodes, q, n), Sq(o))];
      assert r[..|queue|] == queue && r[|queue|..] == [SearchElement(Far(nodes, q, n), Sq(o))];
      PendingSizeConcat(|nodes|, queue, [SearchElement(Far(nodes, q, n), Sq(o))]);
      assert [SearchElement(Far(nodes, q, n), Sq(o))][..0] == [];
      r
    else
      assert queue[..|queue|] == queue && queue[|queue|..] == [];
      queue
  }

  /** The inner `while (1)` loop from node `n`: offer the node, then go on
      below it. */
  ghost function Dive(nodes: seq<Node>, q: Vector, n: nat, s: Probe, allowSelfMatch: bool): (r: Probe)
    requires Valid(nodes, n, |q|) && nodes[n].dim != -2
    requires IsMaxHeap(s.heap) && |s.heap| > 0
    ensures |r.heap| == |s.heap| && IsMaxHeap(r.heap) && r.visits >= s.visits
    ensures |r.queue| >= |s.queue| && r.queue[..|s.queue|] == s.queue
    ensures QueueValid(nodes, q, r.queue[|s.queue|..])
    ensures PendingSize(|nodes|, r.queue) < PendingSize(|nodes|, s.queue) + SubtreeSize(n, |nodes|)
    decreases |nodes| - n, 1
  {
    Descend(nodes, q, n, Probe(Offer(s.heap, n, Dist2(nodes[n].pos, q), allowSelfMatch), s.queue, s.visits), allowSelfMatch)
  }

  /** The rest of the inner loop once node `n` is offered: stop at a leaf,
      otherwise queue the offside child when worth it and move to the
      onside child unless it is an invalid slot. Each move counts a visit. */
  ghost function Descend(nodes: seq<Node>, q: Vector, n: nat, s: Probe, allowSelfMatch: bool): (r: Probe)
    requires Valid(nodes, n, |q|) && nodes[n].dim != -2
    requires IsMaxHeap(s.heap) && |s.heap| > 0
    ensures |r.heap| == |s.heap| && IsMaxHeap(r.heap) && r.visits >= s.visits
    ensures |r.queue| >= |s.queue| && r.queue[..|s.queue|] == s.queue
    ensures QueueValid(nodes, q, r.queue[|s.queue|..])
    ensures PendingSize(|nodes|, r.queue) < PendingSize(|nodes|, s.queue) + SubtreeSize(n, |nodes|)
    decreases |nodes| - n, 0
  {
    if nodes[n].dim < 0 then
      assert s.queue[..|s.queue|] == s.queue && s.queue[|s.queue|..] == [];
      s
    else if nodes[Near(nodes, q, n)].dim != -2 then
      var r := Dive(nodes, q, Near(nodes, q, n), Onside(nodes, q, n, s), allowSelfMatch);
      Extends(s.queue, Onside(nodes, q, n, s).queue, r.queue);
      r
    else
      Onside(nodes, q, n, s).(visits := s.visits)
  }

  /** The state in which the dive moves to the onside child of split node
      `n`: the offside child queued if worth it, one more visit. */
  ghost function Onside(nodes: seq<Node>, q: Vector, n: nat, s: Probe): (r: Probe)
    requires Valid(nodes, n, |q|) && nodes[n].dim >= 0
    requires IsMaxHeap(s.heap) && |s.heap| > 0
  {
    Probe(s.heap, PushFar(nodes, q, n, s.heap, s.queue), s.visits + 1)
  }

  /** Popping element `i` leaves a valid queue of fewer slots. */
  lemma PopKeepsValid(nodes: seq<Node>, q: Vector, queue: seq<SearchElement>, i: nat)
    requires QueueValid(nodes, q, queue) && i < |queue|
    ensures Enqueued(nodes, q, queue[i])
    ensures QueueValid(nodes, q, Without(queue, i))
    ensures PendingSize(|nodes|, queue) == PendingSize(|nodes|, Without(queue, i)) + SubtreeSize(queue[i].index, |nodes|)
  {
    assert queue[i] in queue;
    PendingWithout(nodes, q, false, queue, i);
    forall e | e in Without(queue, i)
      ensures Enqueued(nodes, q, e)
    {
      assert e in multiset(Without(queue, i));
    }
  }

  /** A dive over a valid queue leaves a valid queue, grown by fewer slots
      than the subtree it started from. */
  lemma DiveKeepsValid(nodes: seq<Node>, q: Vector, n: nat, s: Probe, allowSelfMatch: bool)
    requires Valid(nodes, n, |q|) && nodes[n].dim != -2
    requires IsMaxHeap(s.heap) && |s.heap| > 0 && QueueValid(nodes, q, s.queue)
    ensures QueueValid(nodes, q, Dive(nodes, q, n, s, allowSelfMatch).queue)
    ensures PendingSize(|nodes|, Dive(nodes, q, n, s, allowSelfMatch).queue)
          < PendingSize(|nodes|, s.queue) + SubtreeSize(n, |nodes|)
  {
    var r := Dive(nodes, q, n, s, allowSelfMatch).queue;
    assert r == s.queue + r[|s.queue|..];
  }

  /** One round of the outer loop past the check: the top element is
      popped and the search dives from it. */
  ghost function Resume(nodes: seq<Node>, q: Vector, s: Probe, allowSelfMatch: bool): (r: Probe)
    requires QueueValid(nodes, q, s.queue) && |s.queue| > 0 && IsMaxHeap(s.heap) && |s.heap| > 0
    ensures |r.heap| == |s.heap| && IsMaxHeap(r.heap) && r.visits >= s.visits
    ensures QueueValid(nodes, q, r.queue)
    ensures PendingSize(|nodes|, r.queue) < PendingSize(|nodes|, s.queue)
  {
    PopKeepsValid(nodes, q, s.queue, Top(s.queue));
    DiveKeepsValid(nodes, q, s.queue[Top(s.queue)].index,
                   Probe(s.heap, Without(s.queue, Top(s.queue)), s.visits), allowSelfMatch);
    Dive(nodes, q, s.queue[Top(s.queue)].index, Probe(s.heap, Without(s.queue, Top(s.queue)), s.visits), allowSelfMatch)
  }

  /** The outer loop: pop the closest element; stop if its bound exceeds
      the head, else dive from it and go on. The measure is the number of
      slots still queued, which every dive strictly lowers. */
  ghost function Drain(nodes: seq<Node>, q: Vector, s: Probe, allowSelfMatch: bool): (r: Probe)
    requires QueueValid(nodes, q, s.queue) && IsMaxHeap(s.heap) && |s.heap| > 0
    ensures |r.heap| == |s.heap| && IsMaxHeap(r.heap) && r.visits >= s.visits
    decreases PendingSize(|nodes|, s.queue)
  {
    if |s.queue| == 0 then s
    else if Lt(Head(s.heap).value, Finite(s.queue[Top(s.queue)].minDist)) then
      Probe(s.heap, Without(s.queue, Top(s.queue)), s.visits)
    else Drain(nodes, q, Resume(nodes, q, s, allowSelfMatch), allowSelfMatch)
  }

  /** `knn` up to the translation: a fresh heap of `k` slots, the queue
      holding the root with bound 0, and no visit counted. */
  ghost function PqWalk(nodes: seq<Node>, q: Vector, k: nat, allowSelfMatch: bool): (r: Probe)
    requires Valid(nodes, 0, |q|) && nodes[0].dim != -2 && k > 0
    ensures |r.heap| == k && IsMaxHeap(r.heap)
  {
    Drain(nodes, q, Probe(Create(k), [SearchElement(0, 0.0)], 0), allowSelfMatch)
  }

  /** A zero offset vector separates every point of any subtree. */
  lemma ZeroSeparates(nodes: seq<Node>, p: nat, q: Vector)
    requires Valid(nodes, p, |q|)
    ensures SeparatedAll(nodes, p, q, Zeros(|q|))
  {
    ContentsDim(nodes, p, |q|);
  }

  /** Every point across the cut of split node `n` is at least the squared
      offset away: the bound the queue records for the offside child. */
  lemma FarBound(nodes: seq<Node>, q: Vector, n: nat)
    requires Valid(nodes, n, |q|) && nodes[n].dim >= 0
    ensures SeparatedAll(nodes, Far(nodes, q, n), q, Zeros(|q|)[nodes[n].dim := NewOff(nodes, q, n)])
    ensures SumSq(Zeros(|q|)[nodes[n].dim := NewOff(nodes, q, n)]) == Sq(NewOff(nodes, q, n))
  {
    ZeroSeparates(nodes, n, q);
    FarSeparated(nodes, n, q, Zeros(|q|));
    SumSqUpdate(Zeros(|q|), nodes[n].dim, NewOff(nodes, q, n));
    SumSqZeros(|q|);
  }

  /** The offside child's distances are all at least the squared offset. */
  lemma FarBounded(nodes: seq<Node>, q: Vector, n: nat, allowSelfMatch: bool, all: seq<BuildPoint>)
    requires Valid(nodes, n, |q|) && nodes[n].dim >= 0
    requires forall x :: x in Contents(nodes, n) ==> x in all
    ensures Bounded(nodes, q, allowSelfMatch, all, SearchElement(Far(nodes, q, n), Sq(NewOff(nodes, q, n))))
  {
    FarBound(nodes, q, n);
    ChildContents(nodes, n, q);
    PruneBound(nodes, Far(nodes, q, n), q, Zeros(|q|)[nodes[n].dim := NewOff(nodes, q, n)], allowSelfMatch,
               Finite(Sq(NewOff(nodes, q, n))));
    forall y | y in SubtreeDists(nodes, Far(nodes, q, n), q, allowSelfMatch)
      ensures Le(Finite(Sq(NewOff(nodes, q, n))), y)
    {
      ScaleOne(y);
    }
  }

  /** The offside step keeps the relation: what is not queued is either
      empty or lies no closer than the head, so it counts as offered. */
  lemma PushFarSelects(nodes: seq<Node>, q: Vector, n: nat, h: seq<Entry>, queue: seq<SearchElement>,
                       allowSelfMatch: bool, a: multiset<Dist>, all: seq<BuildPoint>) returns (b: multiset<Dist>)
    requires Valid(nodes, n, |q|) && nodes[n].dim >= 0 && IsMaxHeap(h) && |h| > 0
    requires Within(ValueBag(h), a, 1.0) && AllNonNeg(a)
    requires forall x :: x in Contents(nodes, n) ==> x in all
    ensures Within(ValueBag(h), b, 1.0) && AllNonNeg(b)
    ensures b + PendingDists(nodes, q, allowSelfMatch, PushFar(nodes, q, n, h, queue)[|queue|..])
         == a + SubtreeDists(nodes, Far(nodes, q, n), q, allowSelfMatch)
    ensures BoundedAll(nodes, q, allowSelfMatch, all, PushFar(nodes, q, n, h, queue)[|queue|..])
  {
    var far := Far(nodes, q, n);
    var e := SearchElement(far, Sq(NewOff(nodes, q, n)));
    if Lt(Finite(Sq(NewOff(nodes, q, n))), Head(h).value) && nodes[far].dim != -2 {
      assert PushFar(nodes, q, n, h, queue)[|queue|..] == [e];
      assert [e][..0] == [];
      FarBounded(nodes, q, n, allowSelfMatch, all);
      b := a;
    } else {
      assert PushFar(nodes, q, n, h, queue)[|queue|..] == [];
      if nodes[far].dim == -2 {
        SubtreeDistsLeaf(nodes, far, q, allowSelfMatch);
        b := a;
      } else {
        FarBound(nodes, q, n);
        PruneFarSide(nodes, far, q, Zeros(|q|)[nodes[n].dim := NewOff(nodes, q, n)], h, allowSelfMatch, a);
        b := a + SubtreeDists(nodes, far, q, allowSelfMatch);
      }
    }
  }

  /** Offering node `n` keeps the relation and every slot an answer. */
  lemma OfferSelects(nodes: seq<Node>, q: Vector, n: nat, h: seq<Entry>, allowSelfMatch: bool,
                     a: multiset<Dist>, all: seq<BuildPoint>)
    requires Valid(nodes, n, |q|) && nodes[n].dim != -2 && IsMaxHeap(h) && |h| > 0
    requires Within(ValueBag(h), a, 1.0) && AllNonNeg(a)
    requires NodeAnswers(h, nodes, q, allowSelfMatch, all)
    requires forall x :: x in Contents(nodes, n) ==> x in all
    ensures Within(ValueBag(Offer(h, n, Dist2(nodes[n].pos, q), allowSelfMatch)),
                   a + Offered(Dist2(nodes[n].pos, q), allowSelfMatch), 1.0)
    ensures AllNonNeg(a + Offered(Dist2(nodes[n].pos, q), allowSelfMatch))
    ensures NodeAnswers(Offer(h, n, Dist2(nodes[n].pos, q), allowSelfMatch), nodes, q, allowSelfMatch, all)
  {
    OwnPoint(nodes, n, q);
    OfferWithin(h, n, Dist2(nodes[n].pos, q), allowSelfMatch, a, 1.0);
    NodeOfferAnswers(h, nodes, q, allowSelfMatch, all, n);
  }

  /** The eligible distances strictly below node `n`: none for a leaf,
      both children's for a split node, in the order near side, far side. */
  ghost function BelowDists(nodes: seq<Node>, n: nat, q: Vector, allowSelfMatch: bool): multiset<Dist>
    requires Valid(nodes, n, |q|) && nodes[n].dim != -2
  {
    if nodes[n].dim < 0 then multiset{}
    else SubtreeDists(nodes, Near(nodes, q, n), q, allowSelfMatch) + SubtreeDists(nodes, Far(nodes, q, n), q, allowSelfMatch)
  }

  /** A subtree's distances are its root's and those below it. */
  lemma BelowDistsSplit(nodes: seq<Node>, n: nat, q: Vector, allowSelfMatch: bool)
    requires Valid(nodes, n, |q|) && nodes[n].dim != -2
    ensures SubtreeDists(nodes, n, q, allowSelfMatch)
         == Offered(Dist2(nodes[n].pos, q), allowSelfMatch) + BelowDists(nodes, n, q, allowSelfMatch)
  {
    if nodes[n].dim < 0 {
      SubtreeDistsLeaf(nodes, n, q, allowSelfMatch);
    } else {
      SubtreeDistsNearFar(nodes, q, n, allowSelfMatch);
    }
  }

  /** Multiset bookkeeping: two accounts chained. */
  lemma BagShuffle(a: multiset<Dist>, c: multiset<Dist>, b: multiset<Dist>, x: multiset<Dist>, y: multiset<Dist>,
                   near: multiset<Dist>, far: multiset<Dist>)
    requires c + x == a + far && b + y == c + near
    ensures b + (x + y) == a + near + far
  {
    assert forall d :: (b + (x + y))[d] == (a + near + far)[d] by {
      forall d ensures (b + (x + y))[d] == (a + near + far)[d] {
        assert (c + x)[d] == (a + far)[d] && (b + y)[d] == (c + near)[d];
      }
    }
  }

  /** The queue bookkeeping of one step: what a split node queued and what
      the dive below it queued together make up both sides. */
  lemma SplitCombine(nodes: seq<Node>, q: Vector, allowSelfMatch: bool, all: seq<BuildPoint>,
                     qs: seq<SearchElement>, pq: seq<SearchElement>, dq: seq<SearchElement>,
                     a: multiset<Dist>, c: multiset<Dist>, b: multiset<Dist>, near: multiset<Dist>, far: multiset<Dist>)
    requires |qs| <= |pq| <= |dq| && pq[..|qs|] == qs && dq[..|pq|] == pq
    requires c + PendingDists(nodes, q, allowSelfMatch, pq[|qs|..]) == a + far
    requires b + PendingDists(nodes, q, allowSelfMatch, dq[|pq|..]) == c + near
    requires BoundedAll(nodes, q, allowSelfMatch, all, pq[|qs|..])
    requires BoundedAll(nodes, q, allowSelfMatch, all, dq[|pq|..])
    ensures b + PendingDists(nodes, q, allowSelfMatch, dq[|qs|..]) == a + near + far
    ensures BoundedAll(nodes, q, allowSelfMatch, all, dq[|qs|..])
  {
    Extends(qs, pq, dq);
    PendingDistsConcat(nodes, q, allowSelfMatch, pq[|qs|..], dq[|pq|..]);
    BagShuffle(a, c, b, PendingDists(nodes, q, allowSelfMatch, pq[|qs|..]), PendingDists(nodes, q, allowSelfMatch, dq[|pq|..]), near, far);
    forall e | e in dq[|qs|..]
      ensures Bounded(nodes, q, allowSelfMatch, all, e)
    {
      assert e in pq[|qs|..] || e in dq[|pq|..];
    }
  }

  /** What one dive from `n` establishes: given a heap holding smallest
      candidates of `a`, it returns a heap holding smallest candidates of
      some `b`, where `b` and the subtrees it queued together make up `a`
      and everything under `n`; each queued bound is a true lower bound. */
  lemma {:induction false} DiveSelects(nodes: seq<Node>, q: Vector, n: nat, s: Probe, allowSelfMatch: bool,
                                       a: multiset<Dist>, all: seq<BuildPoint>) returns (b: multiset<Dist>)
    requires Valid(nodes, n, |q|) && nodes[n].dim != -2 && IsMaxHeap(s.heap) && |s.heap| > 0
    requires Within(ValueBag(s.heap), a, 1.0) && AllNonNeg(a)
    requires NodeAnswers(s.heap, nodes, q, allowSelfMatch, all)
    requires forall x :: x in Contents(nodes, n) ==> x in all
    ensures Within(ValueBag(Dive(nodes, q, n, s, allowSelfMatch).heap), b, 1.0) && AllNonNeg(b)
    ensures NodeAnswers(Dive(nodes, q, n, s, allowSelfMatch).heap, nodes, q, allowSelfMatch, all)
    ensures b + PendingDists(nodes, q, allowSelfMatch, Dive(nodes, q, n, s, allowSelfMatch).queue[|s.queue|..])
         == a + SubtreeDists(nodes, n, q, allowSelfMatch)
    ensures BoundedAll(nodes, q, allowSelfMatch, all, Dive(nodes, q, n, s, allowSelfMatch).queue[|s.queue|..])
    decreases |nodes| - n, 2
  {
    OfferSelects(nodes, q, n, s.heap, allowSelfMatch, a, all);
    BelowDistsSplit(nodes, n, q, allowSelfMatch);
    b := DescendSelects(nodes, q, n, Probe(Offer(s.heap, n, Dist2(nodes[n].pos, q), allowSelfMatch), s.queue, s.visits),
                        allowSelfMatch, a + Offered(Dist2(nodes[n].pos, q), allowSelfMatch), all);
  }

  /** Below an offered node `n`, the dive accounts for the rest of the
      subtree: `a` grows by the subtree less the node itself. */
  lemma {:induction false} DescendSelects(nodes: seq<Node>, q: Vector, n: nat, s: Probe, allowSelfMatch: bool,
                                          a: multiset<Dist>, all: seq<BuildPoint>) returns (b: multiset<Dist>)
    requires Valid(nodes, n, |q|) && nodes[n].dim != -2 && IsMaxHeap(s.heap) && |s.heap| > 0
    requires Within(ValueBag(s.heap), a, 1.0) && AllNonNeg(a)
    requires NodeAnswers(s.heap, nodes, q, allowSelfMatch, all)
    requires forall x :: x in Contents(nodes, n) ==> x in all
    ensures Within(ValueBag(Descend(nodes, q, n, s, allowSelfMatch).heap), b, 1.0) && AllNonNeg(b)
    ensures NodeAnswers(Descend(nodes, q, n, s, allowSelfMatch).heap, nodes, q, allowSelfMatch, all)
    ensures b + PendingDists(nodes, q, allowSelfMatch, Descend(nodes, q, n, s, allowSelfMatch).queue[|s.queue|..])
         == a + BelowDists(nodes, n, q, allowSelfMatch)
    ensures BoundedAll(nodes, q, allowSelfMatch, all, Descend(nodes, q, n, s, allowSelfMatch).queue[|s.queue|..])
    decreases |nodes| - n, 1
  {
    if nodes[n].dim < 0 {
      assert s.queue[|s.queue|..] == [];
      b := a;
    } else if nodes[Near(nodes, q, n)].dim != -2 {
      b := OnsideSelects(nodes, q, n, s, allowSelfMatch, a, all);
    } else {
      b := StopSelects(nodes, q, n, s, allowSelfMatch, a, all);
    }
  }

  /** The dive goes on to the onside child. */
  lemma {:induction false} OnsideSelects(nodes: seq<Node>, q: Vector, n: nat, s: Probe, allowSelfMatch: bool,
                                         a: multiset<Dist>, all: seq<BuildPoint>) returns (b: multiset<Dist>)
    requires Valid(nodes, n, |q|) && nodes[n].dim >= 0 && IsMaxHeap(s.heap) && |s.heap| > 0
    requires Within(ValueBag(s.heap), a, 1.0) && AllNonNeg(a)
    requires NodeAnswers(s.heap, nodes, q, allowSelfMatch, all)
    requires forall x :: x in Contents(nodes, n) ==> x in all
    requires nodes[Near(nodes, q, n)].dim != -2
    ensures Within(ValueBag(Descend(nodes, q, n, s, allowSelfMatch).heap), b, 1.0) && AllNonNeg(b)
    ensures NodeAnswers(Descend(nodes, q, n, s, allowSelfMatch).heap, nodes, q, allowSelfMatch, all)
    ensures b + PendingDists(nodes, q, allowSelfMatch, Descend(nodes, q, n, s, allowSelfMatch).queue[|s.queue|..])
         == a + BelowDists(nodes, n, q, allowSelfMatch)
    ensures BoundedAll(nodes, q, allowSelfMatch, all, Descend(nodes, q, n, s, allowSelfMatch).queue[|s.queue|..])
    decreases |nodes| - n, 0
  {
    ChildContents(nodes, n, q);
    var c := PushFarSelects(nodes, q, n, s.heap, s.queue, allowSelfMatch, a, all);
    b := DiveSelects(nodes, q, Near(nodes, q, n), Onside(nodes, q, n, s), allowSelfMatch, c, all);
    SplitCombine(nodes, q, allowSelfMatch, all, s.queue, Onside(nodes, q, n, s).queue,
                 Dive(nodes, q, Near(nodes, q, n), Onside(nodes, q, n, s), allowSelfMatch).queue,
                 a, c, b, SubtreeDists(nodes, Near(nodes, q, n), q, allowSelfMatch),
                 SubtreeDists(nodes, Far(nodes, q, n), q, allowSelfMatch));
  }

  /** The onside child is an invalid slot: the dive stops after the
      offside step. */
  lemma StopSelects(nodes: seq<Node>, q: Vector, n: nat, s: Probe, allowSelfMatch: bool,
                    a: multiset<Dist>, all: seq<BuildPoint>) returns (b: multiset<Dist>)
    requires Valid(nodes, n, |q|) && nodes[n].dim >= 0 && IsMaxHeap(s.heap) && |s.heap| > 0
    requires Within(ValueBag(s.heap), a, 1.0) && AllNonNeg(a)
    requires NodeAnswers(s.heap, nodes, q, allowSelfMatch, all)
    requires forall x :: x in Contents(nodes, n) ==> x in all
    requires nodes[Near(nodes, q, n)].dim == -2
    ensures Within(ValueBag(Descend(nodes, q, n, s, allowSelfMatch).heap), b, 1.0) && AllNonNeg(b)
    ensures NodeAnswers(Descend(nodes, q, n, s, allowSelfMatch).heap, nodes, q, allowSelfMatch, all)
    ensures b + PendingDists(nodes, q, allowSelfMatch, Descend(nodes, q, n, s, allowSelfMatch).queue[|s.queue|..])
         == a + BelowDists(nodes, n, q, allowSelfMatch)
    ensures BoundedAll(nodes, q, allowSelfMatch, all, Descend(nodes, q, n, s, allowSelfMatch).queue[|s.queue|..])
  {
    ChildContents(nodes, n, q);
    b := PushFarSelects(nodes, q, n, s.heap, s.queue, allowSelfMatch, a, all);
    SubtreeDistsLeaf(nodes, Near(nodes, q, n), q, allowSelfMatch);
  }

  /** Multiset bookkeeping: a common part added on both sides. */
  lemma BagMove(a: multiset<Dist>, b: multiset<Dist>, w: multiset<Dist>, x: multiset<Dist>, t: multiset<Dist>)
    requires b + x == a + t
    ensures b + (w + x) == a + (w + t)
  {
    assert forall d :: (b + (w + x))[d] == (a + (w + t))[d] by {
      forall d ensures (b + (w + x))[d] == (a + (w + t))[d] {
        assert (b + x)[d] == (a + t)[d];
      }
    }
  }

  /** Every element left after a pop keeps its bound. */
  lemma BoundedWithout(nodes: seq<Node>, q: Vector, allowSelfMatch: bool, all: seq<BuildPoint>, queue: seq<SearchElement>, i: nat)
    requires BoundedAll(nodes, q, allowSelfMatch, all, queue) && i < |queue|
    ensures Bounded(nodes, q, allowSelfMatch, all, queue[i])
    ensures BoundedAll(nodes, q, allowSelfMatch, all, Without(queue, i))
  {
    assert queue[i] in queue;
    forall e | e in Without(queue, i)
      ensures Bounded(nodes, q, allowSelfMatch, all, e)
    {
      assert e in multiset(Without(queue, i));
    }
  }

  /** A queue grown at its end keeps every bound. */
  lemma BoundedConcat(nodes: seq<Node>, q: Vector, allowSelfMatch: bool, all: seq<BuildPoint>, w: seq<SearchElement>, x: seq<SearchElement>)
    requires BoundedAll(nodes, q, allowSelfMatch, all, w) && BoundedAll(nodes, q, allowSelfMatch, all, x)
    ensures BoundedAll(nodes, q, allowSelfMatch, all, w + x)
  {
    forall e | e in w + x
      ensures Bounded(nodes, q, allowSelfMatch, all, e)
    {
      assert e in w || e in x;
    }
  }

  /** One round of the loop that does not stop keeps the relation: the
      popped subtree moves from the queue into what the heap has seen,
      except for what the dive queued again. */
  lemma ResumeSelects(nodes: seq<Node>, q: Vector, s: Probe, allowSelfMatch: bool,
                      a: multiset<Dist>, all: seq<BuildPoint>) returns (b: multiset<Dist>)
    requires QueueValid(nodes, q, s.queue) && BoundedAll(nodes, q, allowSelfMatch, all, s.queue) && |s.queue| > 0
    requires IsMaxHeap(s.heap) && |s.heap| > 0
    requires Within(ValueBag(s.heap), a, 1.0) && AllNonNeg(a)
    requires NodeAnswers(s.heap, nodes, q, allowSelfMatch, all)
    ensures Within(ValueBag(Resume(nodes, q, s, allowSelfMatch).heap), b, 1.0) && AllNonNeg(b)
    ensures NodeAnswers(Resume(nodes, q, s, allowSelfMatch).heap, nodes, q, allowSelfMatch, all)
    ensures b + PendingDists(nodes, q, allowSelfMatch, Resume(nodes, q, s, allowSelfMatch).queue)
         == a + PendingDists(nodes, q, allowSelfMatch, s.queue)
    ensures BoundedAll(nodes, q, allowSelfMatch, all, Resume(nodes, q, s, allowSelfMatch).queue)
  {
    PopKeepsValid(nodes, q, s.queue, Top(s.queue));
    PendingWithout(nodes, q, allowSelfMatch, s.queue, Top(s.queue));
    BoundedWithout(nodes, q, allowSelfMatch, all, s.queue, Top(s.queue));
    b := DiveSelects(nodes, q, s.queue[Top(s.queue)].index, Probe(s.heap, Without(s.queue, Top(s.queue)), s.visits),
                     allowSelfMatch, a, all);
    ResumeBags(nodes, q, s, allowSelfMatch, all, a, b);
  }

  /** The bookkeeping of `ResumeSelects`, given what the dive established. */
  lemma ResumeBags(nodes: seq<Node>, q: Vector, s: Probe, allowSelfMatch: bool, all: seq<BuildPoint>,
                   a: multiset<Dist>, b: multiset<Dist>)
    requires QueueValid(nodes, q, s.queue) && |s.queue| > 0 && IsMaxHeap(s.heap) && |s.heap| > 0
    requires Enqueued(nodes, q, s.queue[Top(s.queue)])
    requires BoundedAll(nodes, q, allowSelfMatch, all, Without(s.queue, Top(s.queue)))
    requires PendingDists(nodes, q, allowSelfMatch, s.queue)
          == PendingDists(nodes, q, allowSelfMatch, Without(s.queue, Top(s.queue)))
           + SubtreeDists(nodes, s.queue[Top(s.queue)].index, q, allowSelfMatch)
    requires b + PendingDists(nodes, q, allowSelfMatch,
                              Resume(nodes, q, s, allowSelfMatch).queue[|Without(s.queue, Top(s.queue))|..])
          == a + SubtreeDists(nodes, s.queue[Top(s.queue)].index, q, allowSelfMatch)
    requires BoundedAll(nodes, q, allowSelfMatch, all,
                        Resume(nodes, q, s, allowSelfMatch).queue[|Without(s.queue, Top(s.queue))|..])
    ensures b + PendingDists(nodes, q, allowSelfMatch, Resume(nodes, q, s, allowSelfMatch).queue)
         == a + PendingDists(nodes, q, allowSelfMatch, s.queue)
    ensures BoundedAll(nodes, q, allowSelfMatch, all, Resume(nodes, q, s, allowSelfMatch).queue)
  {
    assert Resume(nodes, q, s, allowSelfMatch).queue
        == Without(s.queue, Top(s.queue)) + Resume(nodes, q, s, allowSelfMatch).queue[|Without(s.queue, Top(s.queue))|..];
    PendingDistsConcat(nodes, q, allowSelfMatch, Without(s.queue, Top(s.queue)),
                       Resume(nodes, q, s, allowSelfMatch).queue[|Without(s.queue, Top(s.queue))|..]);
    BagMove(a, b, PendingDists(nodes, q, allowSelfMatch, Without(s.queue, Top(s.queue))),
            PendingDists(nodes, q, allowSelfMatch, Resume(nodes, q, s, allowSelfMatch).queue[|Without(s.queue, Top(s.queue))|..]),
            SubtreeDists(nodes, s.queue[Top(s.queue)].index, q, allowSelfMatch));
    BoundedConcat(nodes, q, allowSelfMatch, all, Without(s.queue, Top(s.queue)),
                  Resume(nodes, q, s, allowSelfMatch).queue[|Without(s.queue, Top(s.queue))|..]);
  }

  /** The loop stops when the closest bound exceeds the head: then every
      queued distance exceeds it too, so the heap already holds smallest
      candidates of everything, queued subtrees included. */
  lemma StopPrunes(nodes: seq<Node>, q: Vector, s: Probe, allowSelfMatch: bool, a: multiset<Dist>, all: seq<BuildPoint>)
    requires |s.queue| > 0 && IsMaxHeap(s.heap) && |s.heap| > 0
    requires Lt(Head(s.heap).value, Finite(s.queue[Top(s.queue)].minDist))
    requires BoundedAll(nodes, q, allowSelfMatch, all, s.queue)
    requires Within(ValueBag(s.heap), a, 1.0)
    ensures Within(ValueBag(s.heap), a + PendingDists(nodes, q, allowSelfMatch, s.queue), 1.0)
  {
    HeadIsMax(s.heap);
    forall y | y in PendingDists(nodes, q, allowSelfMatch, s.queue)
      ensures Le(Head(s.heap).value, Scale(y, 1.0))
    {
      PendingMembers(nodes, q, allowSelfMatch, s.queue, y);
      var j :| 0 <= j < |s.queue| && y in SubtreeDists(nodes, s.queue[j].index, q, allowSelfMatch);
      assert s.queue[j] in s.queue;
      LeTotalOrder(Head(s.heap).value, Finite(s.queue[j].minDist), y);
      ScaleOne(y);
    }
    Prune(ValueBag(s.heap), a, 1.0, Head(s.heap).value, PendingDists(nodes, q, allowSelfMatch, s.queue));
  }

  /** What the whole loop establishes: starting from a heap holding
      smallest candidates of `a`, it ends with a heap holding smallest
      candidates of `a` and every queued subtree, each slot an answer. */
  lemma {:induction false} DrainSelects(nodes: seq<Node>, q: Vector, s: Probe, allowSelfMatch: bool,
                                        a: multiset<Dist>, all: seq<BuildPoint>)
    requires QueueValid(nodes, q, s.queue) && BoundedAll(nodes, q, allowSelfMatch, all, s.queue)
    requires IsMaxHeap(s.heap) && |s.heap| > 0
    requires Within(ValueBag(s.heap), a, 1.0) && AllNonNeg(a)
    requires NodeAnswers(s.heap, nodes, q, allowSelfMatch, all)
    ensures Within(ValueBag(Drain(nodes, q, s, allowSelfMatch).heap), a + PendingDists(nodes, q, allowSelfMatch, s.queue), 1.0)
    ensures NodeAnswers(Drain(nodes, q, s, allowSelfMatch).heap, nodes, q, allowSelfMatch, all)
    decreases PendingSize(|nodes|, s.queue), 1
  {
    if |s.queue| == 0 {
      assert a + PendingDists(nodes, q, allowSelfMatch, s.queue) == a;
    } else if Lt(Head(s.heap).value, Finite(s.queue[Top(s.queue)].minDist)) {
      StopPrunes(nodes, q, s, allowSelfMatch, a, all);
      assert Drain(nodes, q, s, allowSelfMatch).heap == s.heap;
    } else {
      DrainGoesOn(nodes, q, s, allowSelfMatch, a, all);
    }
  }

  /** A round that does not stop, then the rest of the loop. */
  lemma {:induction false} DrainGoesOn(nodes: seq<Node>, q: Vector, s: Probe, allowSelfMatch: bool,
                                       a: multiset<Dist>, all: seq<BuildPoint>)
    requires QueueValid(nodes, q, s.queue) && BoundedAll(nodes, q, allowSelfMatch, all, s.queue)
    requires IsMaxHeap(s.heap) && |s.heap| > 0
    requires Within(ValueBag(s.heap), a, 1.0) && AllNonNeg(a)
    requires NodeAnswers(s.heap, nodes, q, allowSelfMatch, all)
    requires |s.queue| > 0 && !Lt(Head(s.heap).value, Finite(s.queue[Top(s.queue)].minDist))
    ensures Within(ValueBag(Drain(nodes, q, s, allowSelfMatch).heap), a + PendingDists(nodes, q, allowSelfMatch, s.queue), 1.0)
    ensures NodeAnswers(Drain(nodes, q, s, allowSelfMatch).heap, nodes, q, allowSelfMatch, all)
    decreases PendingSize(|nodes|, s.queue), 0
  {
    var b := ResumeSelects(nodes, q, s, allowSelfMatch, a, all);
    DrainSelects(nodes, q, Resume(nodes, q, s, allowSelfMatch), allowSelfMatch, b, all);
    assert Drain(nodes, q, s, allowSelfMatch) == Drain(nodes, q, Resume(nodes, q, s, allowSelfMatch), allowSelfMatch);
    WithinSame(ValueBag(Drain(nodes, q, Resume(nodes, q, s, allowSelfMatch), allowSelfMatch).heap),
               ValueBag(Drain(nodes, q, s, allowSelfMatch).heap),
               b + PendingDists(nodes, q, allowSelfMatch, Resume(nodes, q, s, allowSelfMatch).queue),
               a + PendingDists(nodes, q, allowSelfMatch, s.queue), 1.0);
  }

  /** From the root with bound 0, the best-first search selects k smallest
      of the seeds and every eligible point of the tree, each slot naming a
      node of the tree: the stop on a too-large bound loses nothing. */
  lemma PqWalkSelects(nodes: seq<Node>, q: Vector, k: nat, allowSelfMatch: bool)
    requires Valid(nodes, 0, |q|) && nodes[0].dim != -2 && k > 0
    ensures Smallest(ValueBag(PqWalk(nodes, q, k, allowSelfMatch).heap),
                     ValueBag(Seeds(k)) + SubtreeDists(nodes, 0, q, allowSelfMatch))
    ensures NodeAnswers(PqWalk(nodes, q, k, allowSelfMatch).heap, nodes, q, allowSelfMatch, Contents(nodes, 0))
  {
    RootQueued(nodes, q, allowSelfMatch);
    CreateIsSeeds(k);
    SeedBag(k, 1.0);
    DrainSelects(nodes, q, Probe(Create(k), [SearchElement(0, 0.0)], 0), allowSelfMatch,
                 ValueBag(Seeds(k)), Contents(nodes, 0));
  }

  /** The initial queue: the root with bound 0, a valid element whose bound
      holds, and whose pending distances are the whole tree's. */
  lemma RootQueued(nodes: seq<Node>, q: Vector, allowSelfMatch: bool)
    requires Valid(nodes, 0, |q|) && nodes[0].dim != -2
    ensures QueueValid(nodes, q, [SearchElement(0, 0.0)])
    ensures BoundedAll(nodes, q, allowSelfMatch, Contents(nodes, 0), [SearchElement(0, 0.0)])
    ensures PendingDists(nodes, q, allowSelfMatch, [SearchElement(0, 0.0)]) == SubtreeDists(nodes, 0, q, allowSelfMatch)
  {
    AllNonNegSubtree(nodes, 0, q, allowSelfMatch, multiset{});
    RootPending(nodes, q, allowSelfMatch);
  }

  /** The root alone pends its whole subtree. */
  lemma RootPending(nodes: seq<Node>, q: Vector, allowSelfMatch: bool)
    ensures PendingDists(nodes, q, allowSelfMatch, [SearchElement(0, 0.0)]) == SubtreeDists(nodes, 0, q, allowSelfMatch)
  {
    assert [SearchElement(0, 0.0)][..0] == [];
    assert multiset{} + SubtreeDists(nodes, 0, q, allowSelfMatch) == SubtreeDists(nodes, 0, q, allowSelfMatch);
  }

  /** The heap `knn` reads its indexes from: the search's heap, sorted when
      `SORT_RESULTS` is set. */
  ghost function FinalHeap(cloud: Cloud, q: Vector, k: nat, optionFlags: bv32): (r: seq<Entry>)
    requires 0 < |cloud| < Pow2(31) && |q| > 0 && IsCloud(cloud, |q|) && k > 0
    ensures BuildTree(cloud, |q|)[0].dim != -2
    ensures multiset(r) == multiset(PqWalk(BuildTree(cloud, |q|), q, k, HasFlag(optionFlags, AllowSelfMatch)).heap)
    ensures HasFlag(optionFlags, SortResults) ==> Sorted(r)
  {
    NodesKnn.RootHoldsColumn(cloud, q);
    var h := PqWalk(BuildTree(cloud, |q|), q, k, HasFlag(optionFlags, AllowSelfMatch)).heap;
    if HasFlag(optionFlags, SortResults) then Sort(h) else h
  }

  /** Whatever arrangement of the search's heap is translated, it answers
      the query over the cloud and holds k smallest candidates. */
  lemma FinalHeapSelects(cloud: Cloud, q: Vector, k: nat, optionFlags: bv32)
    requires 0 < |cloud| < Pow2(31) && |q| > 0 && IsCloud(cloud, |q|) && k > 0
    ensures NodeAnswers(FinalHeap(cloud, q, k, optionFlags), BuildTree(cloud, |q|), q,
                        HasFlag(optionFlags, AllowSelfMatch), Contents(BuildTree(cloud, |q|), 0))
    ensures Translatable(FinalHeap(cloud, q, k, optionFlags), BuildTree(cloud, |q|))
    ensures Answers(CloudEntries(BuildTree(cloud, |q|), FinalHeap(cloud, q, k, optionFlags)), cloud, q,
                    HasFlag(optionFlags, AllowSelfMatch))
    ensures KSmallest(CloudEntries(BuildTree(cloud, |q|), FinalHeap(cloud, q, k, optionFlags)), cloud, q,
                      HasFlag(optionFlags, AllowSelfMatch))
  {
    NodesKnn.RootHoldsColumn(cloud, q);
    PqWalkSelects(BuildTree(cloud, |q|), q, k, HasFlag(optionFlags, AllowSelfMatch));
    NodesKnn.TranslateTreeHeap(cloud, q, k, HasFlag(optionFlags, AllowSelfMatch),
                               PqWalk(BuildTree(cloud, |q|), q, k, HasFlag(optionFlags, AllowSelfMatch)).heap,
                               FinalHeap(cloud, q, k, optionFlags));
  }

  /** `knn(query, k, optionFlags)` of the best-first tree, with the
      corrected index translation. */
  ghost function Knn(cloud: Cloud, q: Vector, k: nat, optionFlags: bv32, stats: Statistics): (r: Reply)
    requires 0 < |cloud| < Pow2(31) && |q| > 0 && IsCloud(cloud, |q|) && k > 0
    ensures |r.entries| == k
    ensures Answers(r.entries, cloud, q, HasFlag(optionFlags, AllowSelfMatch))
    ensures KSmallest(r.entries, cloud, q, HasFlag(optionFlags, AllowSelfMatch))
    ensures HasFlag(optionFlags, SortResults) ==> Sorted(r.entries)
    ensures r.stats.lastQueryVisitCount >= 0
    ensures r.stats.totalVisitCount == stats.totalVisitCount + r.stats.lastQueryVisitCount
  {
    FinalHeapSelects(cloud, q, k, optionFlags);
    TranslateKeepsValues(FinalHeap(cloud, q, k, optionFlags), BuildTree(cloud, |q|));
    Reply(CloudEntries(BuildTree(cloud, |q|), FinalHeap(cloud, q, k, optionFlags)),
          RecordQuery(stats, PqWalk(BuildTree(cloud, |q|), q, k, HasFlag(optionFlags, AllowSelfMatch)).visits))
  }

  /** `knn` as written: every slot of the final heap, seeds included, is
      looked up in the node array, exactly as in the stack search. */
  ghost function KnnAsWritten(cloud: Cloud, q: Vector, k: nat, optionFlags: bv32): (r: seq<int>)
    requires 0 < |cloud| < Pow2(31) && |q| > 0 && IsCloud(cloud, |q|) && k > 0
    ensures |r| == k
    ensures forall i :: 0 <= i < k ==> 0 <= r[i] < |cloud|
  {
    FinalHeapInRange(cloud, q, k, optionFlags);
    CloudIndexesAsWritten(BuildTree(cloud, |q|), GetIndexes(FinalHeap(cloud, q, k, optionFlags)))
  }

  /** Every slot of the final heap names a node, and the column the code
      reads from that node is a column of the cloud. */
  lemma FinalHeapInRange(cloud: Cloud, q: Vector, k: nat, optionFlags: bv32)
    requires 0 < |cloud| < Pow2(31) && |q| > 0 && IsCloud(cloud, |q|) && k > 0
    ensures forall i :: 0 <= i < k ==> 0 <= GetIndexes(FinalHeap(cloud, q, k, optionFlags))[i] < |BuildTree(cloud, |q|)|
    ensures forall i :: 0 <= i < k ==>
              CloudIndexesAsWritten(BuildTree(cloud, |q|), GetIndexes(FinalHeap(cloud, q, k, optionFlags)))[i] < |cloud|
  {
    var h := FinalHeap(cloud, q, k, optionFlags);
    FinalHeapSelects(cloud, q, k, optionFlags);
    NodesKnn.AsWrittenInRange(cloud, q, HasFlag(optionFlags, AllowSelfMatch), h);
  }

  /** The best-first search and the brute-force search hold the same
      distances; sorted, they agree rank by rank, and when no two columns
      lie at the same distance from the query they return the same
      entries. */
  lemma KnnMatchesBruteForce(cloud: Cloud, q: Vector, k: nat, epsilon: real, optionFlags: bv32, stats: Statistics)
    requires 0 < |cloud| < Pow2(31) && |q| > 0 && IsCloud(cloud, |q|) && k > 0
    ensures ValueBag(Knn(cloud, q, k, optionFlags, stats).entries)
         == ValueBag(BruteForce.Knn(cloud, q, k, epsilon, optionFlags, stats).entries)
    ensures HasFlag(optionFlags, SortResults) ==>
              Values(Knn(cloud, q, k, optionFlags, stats).entries)
              == Values(BruteForce.Knn(cloud, q, k, epsilon, optionFlags, stats).entries)
    ensures HasFlag(optionFlags, SortResults) && DistinctDists(cloud, q) ==>
              Knn(cloud, q, k, optionFlags, stats).entries
              == BruteForce.Knn(cloud, q, k, epsilon, optionFlags, stats).entries
  {
    SameValueBags(Knn(cloud, q, k, optionFlags, stats).entries, BruteForce.Knn(cloud, q, k, epsilon, optionFlags, stats).entries,
                  cloud, q, HasFlag(optionFlags, AllowSelfMatch));
    if HasFlag(optionFlags, SortResults) {
      SameAnswers(Knn(cloud, q, k, optionFlags, stats).entries, BruteForce.Knn(cloud, q, k, epsilon, optionFlags, stats).entries,
                  cloud, q, HasFlag(optionFlags, AllowSelfMatch));
    }
  }

  /** The best-first search and the stack search hold the same distances,
      whatever order they visit the tree in. */
  lemma KnnMatchesStack(cloud: Cloud, q: Vector, k: nat, epsilon: real, optionFlags: bv32, stats: Statistics)
    requires 0 < |cloud| < Pow2(31) && |q| > 0 && IsCloud(cloud, |q|) && k > 0
    ensures ValueBag(Knn(cloud, q, k, optionFlags, stats).entries)
         == ValueBag(NodesKnn.Knn(cloud, q, k, epsilon, optionFlags, stats).entries)
  {
    SameValueBags(Knn(cloud, q, k, optionFlags, stats).entries, NodesKnn.Knn(cloud, q, k, epsilon, optionFlags, stats).entries,
                  cloud, q, HasFlag(optionFlags, AllowSelfMatch));
  }
}
