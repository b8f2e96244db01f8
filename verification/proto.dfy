/** The prototype in `knn.cpp`: a points-in-nodes tree whose nodes keep a
    position and an axis but no column index, a best-first `nn` over a
    `priority_queue`, and the brute-force `bfnn` it is compared with. Both
    searches start from `numeric_limits<float>::max()`.

    `SearchElement::operator<` compares `minDist` directly, so the queue
    pops the element of LARGEST bound first, and the `break` on a popped
    bound above `bestDist` looks unsafe. It never fires: the queue holds at
    most one element with a positive bound, that bound was below `bestDist`
    when pushed, and it is popped before `bestDist` can change. The far side
    is still pruned soundly, so `nn` is exact in distance. */
module Proto {
  import opened Scalar
  import opened SeqUtil
  import opened Nabo
  import opened BuildPoints
  import opened Layout
  import opened TreeSize
  import opened PtInNodes
  import opened NodesPq
  import Bounds

  /** `numeric_limits<float>::max()`, the seed of `bestDist` in `nn` and
      `bfnn`. */
  const FloatMax: real := Bounds.MaxValue(Bounds.Float)

  /** The prototype's `Node(pos, dim)`: `dim >= 0` splits on that axis,
      `-1` is a leaf, `-2` an invalid slot. */
  datatype ProtoNode = ProtoNode(pos: Vector, dim: int)

  /** The library's points-in-nodes array with the column indexes dropped. */
  function Strip(t: seq<Node>): (r: seq<ProtoNode>)
    ensures |r| == |t| && forall j :: 0 <= j < |t| ==> r[j] == ProtoNode(t[j].pos, t[j].dim)
  {
    seq(|t|, j requires 0 <= j < |t| => ProtoNode(t[j].pos, t[j].dim))
  }

  /** `KDTree(cloud)`: `buildNodes` of the prototype is the library's
      points-in-nodes builder (same median split, same two-point case)
      without the column index, so the tree is the library's one,
      stripped. The cut axis is taken from the library's `argMax`; the
      prototype's own leaves it undetermined when no variance is positive
      (`ArgMax.ProtoArgMax`). */
  ghost function ProtoTree(cloud: Cloud, dim: nat): (r: seq<ProtoNode>)
    requires 0 < |cloud| < Pow2(31) && dim > 0 && IsCloud(cloud, dim)
    ensures |r| == NodesSize(|cloud|)
    ensures ProtoValid(r, 0, dim)
  {
    StripValid(BuildTree(cloud, dim), 0, dim);
    Strip(BuildTree(cloud, dim))
  }

  /** The subtree at `p` is well formed: codes in range, positions of
      `dim` coordinates, both children of a split inside the array. */
  ghost predicate ProtoValid(nodes: seq<ProtoNode>, p: nat, dim: nat)
    decreases |nodes| - p
  {
    p < |nodes| && nodes[p].dim >= -2
    && (nodes[p].dim != -2 ==> |nodes[p].pos| == dim)
    && (nodes[p].dim >= 0 ==>
          nodes[p].dim < dim && ChildRight(p) < |nodes|
          && ProtoValid(nodes, ChildLeft(p), dim) && ProtoValid(nodes, ChildRight(p), dim))
  }

  lemma {:induction false} StripValid(t: seq<Node>, p: nat, dim: nat)
    requires Valid(t, p, dim)
    ensures ProtoValid(Strip(t), p, dim)
    decreases |t| - p
  {
    if t[p].dim >= 0 {
      StripValid(t, ChildLeft(p), dim);
      StripValid(t, ChildRight(p), dim);
    }
  }

  /** The smaller of two distances. */
  function DMin(a: Dist, b: Dist): (r: Dist)
    ensures Le(r, a) && Le(r, b) && (r == a || r == b)
  {
    if Lt(b, a) then b else a
  }

  /** The smallest squared distance from `q` to a point of the subtree at
      `p`, +infinity for an empty one. */
  ghost function SubMin(nodes: seq<ProtoNode>, p: nat, q: Vector): Dist
    requires ProtoValid(nodes, p, |q|)
    decreases |nodes| - p
  {
    var n := nodes[p];
    if n.dim == -2 then Infinity
    else if n.dim < 0 then Finite(Dist2(n.pos, q))
    else DMin(Finite(Dist2(n.pos, q)), DMin(SubMin(nodes, ChildLeft(p), q), SubMin(nodes, ChildRight(p), q)))
  }

  /** `SubMin` is the least squared distance of the points the library's
      tree holds there: below or equal to each, and attained by one unless
      the subtree is empty. */
  lemma {:induction false} SubMinIsLeast(t: seq<Node>, p: nat, q: Vector)
    requires Valid(t, p, |q|) && ProtoValid(Strip(t), p, |q|)
    ensures forall x :: x in Contents(t, p) ==> |x.pos| == |q| && Le(SubMin(Strip(t), p, q), Finite(Dist2(x.pos, q)))
    ensures SubMin(Strip(t), p, q) == Infinity
            || exists x :: x in Contents(t, p) && |x.pos| == |q| && SubMin(Strip(t), p, q) == Finite(Dist2(x.pos, q))
    decreases |t| - p
  {
    var n := t[p];
    if n.dim >= 0 {
      SubMinIsLeast(t, ChildLeft(p), q);
      SubMinIsLeast(t, ChildRight(p), q);
      var mid := BuildPoint(n.pos, n.index);
      assert Contents(t, p) == Contents(t, ChildLeft(p)) + [mid] + Contents(t, ChildRight(p));
      assert mid in Contents(t, p);
      forall x | x in Contents(t, ChildLeft(p)) || x in Contents(t, ChildRight(p))
        ensures x in Contents(t, p)
      {
      }
    } else if n.dim == -1 {
      assert Contents(t, p) == [BuildPoint(n.pos, n.index)];
    }
  }

  /** Every point of a subtree is at least `b` away: so is its minimum. */
  lemma {:induction false} SubMinAbove(t: seq<Node>, p: nat, q: Vector, b: real)
    requires Valid(t, p, |q|) && ProtoValid(Strip(t), p, |q|)
    requires forall x :: x in Contents(t, p) ==> |x.pos| == |q| && b <= Dist2(x.pos, q)
    ensures Le(Finite(b), SubMin(Strip(t), p, q))
  {
    SubMinIsLeast(t, p, q);
  }

  /** `queue.top()` of the prototype's queue: an element of largest bound;
      among equal bounds the first is taken. */
  function TopMax(queue: seq<SearchElement>): (i: nat)
    requires |queue| > 0
    ensures i < |queue|
    ensures forall j :: 0 <= j < |queue| ==> queue[j].minDist <= queue[i].minDist
    decreases |queue|
  {
    if |queue| == 1 then 0
    else
      var j := 1 + TopMax(queue[1..]);
      assert forall t :: 1 <= t < |queue| ==> queue[t] == queue[1..][t - 1];
      if queue[0].minDist >= queue[j].minDist then 0 else j
  }

  /** The search state: the queue, `bestDist` and `bestIndex`. */
  datatype NnState = NnState(queue: seq<SearchElement>, bestDist: real, bestIndex: nat)

  /** Every queued subtree is well formed. */
  ghost predicate Queued(nodes: seq<ProtoNode>, q: Vector, queue: seq<SearchElement>)
  {
    forall e :: e in queue ==> ProtoValid(nodes, e.index, |q|)
  }

  /** `bestDist` is still the seed with `bestIndex` 0, or it is the squared
      distance of the valid node at `bestIndex`, below the seed. */
  ghost predicate BestHolds(nodes: seq<ProtoNode>, q: Vector, s: NnState)
  {
    s.bestIndex < |nodes|
    && ((s.bestDist == FloatMax && s.bestIndex == 0)
        || (s.bestDist < FloatMax && nodes[s.bestIndex].dim != -2 && |nodes[s.bestIndex].pos| == |q|
            && s.bestDist == Dist2(nodes[s.bestIndex].pos, q)))
  }

  /** The children a split node queues: with `offset = q[dim] - pos[dim]`,
      the near child with bound 0 and, when `offset^2 < bestDist`, the far
      child with bound `offset^2`; left first. */
  function Pushes(nodes: seq<ProtoNode>, q: Vector, p: nat, bestDist: real): (r: seq<SearchElement>)
    requires ProtoValid(nodes, p, |q|) && nodes[p].dim >= 0
    ensures 1 <= |r| <= 2
    ensures forall e :: e in r ==> e.index == ChildLeft(p) || e.index == ChildRight(p)
    ensures forall i, j :: 0 <= i < j < |r| ==> r[i].index == ChildLeft(p) && r[j].index == ChildRight(p)
    ensures forall j :: 0 <= j < |r| ==> 0.0 <= r[j].minDist && (r[j].minDist == 0.0 || r[j].minDist < bestDist)
    ensures forall i, j :: 0 <= i < |r| && 0 <= j < |r| && r[i].minDist > 0.0 && r[j].minDist > 0.0 ==> i == j
  {
    var d := nodes[p].dim;
    var offset := q[d] - nodes[p].pos[d];
    var offset2 := Sq(offset);
    if offset > 0.0 then
      (if offset2 < bestDist then [SearchElement(ChildLeft(p), offset2)] else []) + [SearchElement(ChildRight(p), 0.0)]
    else
      [SearchElement(ChildLeft(p), 0.0)] + (if offset2 < bestDist then [SearchElement(ChildRight(p), offset2)] else [])
  }

  /** The slots pending before and after one pop, `PendingSize` being
      the room left to explore. */
  lemma PopSize(size: nat, queue: seq<SearchElement>, i: nat)
    requires i < |queue|
    ensures PendingSize(size, queue) == PendingSize(size, Without(queue, i)) + SubtreeSize(queue[i].index, size)
  {
    var one := [queue[i]];
    assert queue == (queue[..i] + one) + queue[i + 1..];
    assert PendingSize(size, one) == SubtreeSize(queue[i].index, size) by {
      assert one[..0] == [];
    }
    PendingSizeConcat(size, queue[..i] + one, queue[i + 1..]);
    PendingSizeConcat(size, queue[..i], one);
    PendingSizeConcat(size, queue[..i], queue[i + 1..]);
  }

  /** Popping keeps every other element queued and frees the popped
      slot's subtree, which holds at least that slot. */
  lemma {:induction false} Pop(nodes: seq<ProtoNode>, q: Vector, queue: seq<SearchElement>, i: nat)
    requires i < |queue| && Queued(nodes, q, queue)
    ensures queue[i] in queue && Queued(nodes, q, Without(queue, i))
    ensures PendingSize(|nodes|, Without(queue, i)) < PendingSize(|nodes|, queue)
    ensures PendingSize(|nodes|, queue) == PendingSize(|nodes|, Without(queue, i)) + SubtreeSize(queue[i].index, |nodes|)
  {
    PopSize(|nodes|, queue, i);
    assert queue[i] in queue;
    forall e | e in Without(queue, i)
      ensures e in queue
    {
      assert e in multiset(Without(queue, i));
    }
  }

  /** The queued children of a slot inside the array take less room than
      the slot's own subtree. */
  lemma {:induction false} PushesSize(nodes: seq<ProtoNode>, q: Vector, p: nat, bestDist: real)
    requires ProtoValid(nodes, p, |q|) && nodes[p].dim >= 0
    ensures PendingSize(|nodes|, Pushes(nodes, q, p, bestDist)) < SubtreeSize(p, |nodes|)
  {
    var r := Pushes(nodes, q, p, bestDist);
    var size := |nodes|;
    assert SubtreeSize(p, size) == 1 + SubtreeSize(ChildLeft(p), size) + SubtreeSize(ChildRight(p), size);
    assert r[0] in r;
    if |r| == 1 {
      assert r[..0] == [];
    } else {
      assert |r| == 2 && r[0].index == ChildLeft(p) && r[1].index == ChildRight(p);
      assert r[..1][..0] == [];
      assert PendingSize(size, r[..1]) == SubtreeSize(ChildLeft(p), size);
      assert PendingSize(size, r) == PendingSize(size, r[..1]) + SubtreeSize(ChildRight(p), size);
    }
  }

  /** Queuing a split node's children in place of the node keeps every
      queued slot valid and takes less room than the node's subtree. */
  lemma QueueChildren(nodes: seq<ProtoNode>, q: Vector, rest: seq<SearchElement>, p: nat, bestDist: real)
    requires Queued(nodes, q, rest) && ProtoValid(nodes, p, |q|) && nodes[p].dim >= 0
    ensures Queued(nodes, q, rest + Pushes(nodes, q, p, bestDist))
    ensures PendingSize(|nodes|, rest + Pushes(nodes, q, p, bestDist))
            < PendingSize(|nodes|, rest) + SubtreeSize(p, |nodes|)
  {
    PushesSize(nodes, q, p, bestDist);
    PendingSizeConcat(|nodes|, rest, Pushes(nodes, q, p, bestDist));
  }

  /** One turn of the `while` loop past the `break` test: pop the top,
      skip an invalid slot, offer the node's distance, and queue the
      children of a split node. */
  function Step(nodes: seq<ProtoNode>, q: Vector, s: NnState): (r: NnState)
    requires |s.queue| > 0 && Queued(nodes, q, s.queue) && BestHolds(nodes, q, s)
    ensures Queued(nodes, q, r.queue) && BestHolds(nodes, q, r)
    ensures PendingSize(|nodes|, r.queue) < PendingSize(|nodes|, s.queue)
    ensures r.bestDist <= s.bestDist
  {
    var i := TopMax(s.queue);
    var el := s.queue[i];
    var rest := Without(s.queue, i);
    Pop(nodes, q, s.queue, i);
    var n := nodes[el.index];
    if n.dim == -2 then NnState(rest, s.bestDist, s.bestIndex)
    else
      var dist := Dist2(n.pos, q);
      var bestDist := if dist < s.bestDist then dist else s.bestDist;
      var bestIndex := if dist < s.bestDist then el.index else s.bestIndex;
      if n.dim < 0 then NnState(rest, bestDist, bestIndex)
      else
        QueueChildren(nodes, q, rest, el.index, bestDist);
        NnState(rest + Pushes(nodes, q, el.index, bestDist), bestDist, bestIndex)
  }

  /** The `while (!queue.empty())` loop: stop when the queue is empty or
      when the popped bound is above `bestDist` (the `break`). */
  function Search(nodes: seq<ProtoNode>, q: Vector, s: NnState): (r: NnState)
    requires Queued(nodes, q, s.queue) && BestHolds(nodes, q, s)
    ensures BestHolds(nodes, q, r)
    ensures r.bestDist <= s.bestDist
    decreases PendingSize(|nodes|, s.queue)
  {
    if |s.queue| == 0 then s
    else if s.queue[TopMax(s.queue)].minDist > s.bestDist then
      NnState(Without(s.queue, TopMax(s.queue)), s.bestDist, s.bestIndex)
    else Search(nodes, q, Step(nodes, q, s))
  }

  /** `nn(query)`: search from the root with bound 0, and return the
      position of the node at `bestIndex`. */
  function Nn(nodes: seq<ProtoNode>, q: Vector): (r: Vector)
    requires ProtoValid(nodes, 0, |q|)
    ensures exists j :: 0 <= j < |nodes| && r == nodes[j].pos
  {
    var s := Search(nodes, q, NnState([SearchElement(0, 0.0)], FloatMax, 0));
    nodes[s.bestIndex].pos
  }

  /** The smallest squared distance of all queued subtrees. */
  ghost function PendMin(nodes: seq<ProtoNode>, q: Vector, queue: seq<SearchElement>): Dist
    requires Queued(nodes, q, queue)
    decreases |queue|
  {
    if |queue| == 0 then Infinity
    else
      assert forall e :: e in queue[..|queue| - 1] ==> e in queue;
      assert queue[|queue| - 1] in queue;
      DMin(PendMin(nodes, q, queue[..|queue| - 1]), SubMin(nodes, queue[|queue| - 1].index, q))
  }

  lemma DMinFacts(a: Dist, b: Dist, c: Dist)
    ensures DMin(a, b) == DMin(b, a)
    ensures DMin(DMin(a, b), c) == DMin(a, DMin(b, c))
    ensures DMin(a, Infinity) == a && DMin(Infinity, a) == a
    ensures Le(a, b) ==> DMin(a, b) == a
  {
  }

  lemma {:induction false} PendMinConcat(nodes: seq<ProtoNode>, q: Vector, a: seq<SearchElement>, b: seq<SearchElement>)
    requires Queued(nodes, q, a) && Queued(nodes, q, b)
    ensures Queued(nodes, q, a + b)
    ensures PendMin(nodes, q, a + b) == DMin(PendMin(nodes, q, a), PendMin(nodes, q, b))
    decreases |b|
  {
    if |b| == 0 {
      assert a + b == a;
      DMinFacts(PendMin(nodes, q, a), Infinity, Infinity);
    } else {
      var l := |b| - 1;
      assert (a + b)[..|a + b| - 1] == a + b[..l];
      assert forall e :: e in b[..l] ==> e in b;
      assert b[l] in b;
      PendMinConcat(nodes, q, a, b[..l]);
      DMinFacts(PendMin(nodes, q, a), PendMin(nodes, q, b[..l]), SubMin(nodes, b[l].index, q));
    }
  }

  /** Popping element `i` takes exactly its subtree's minimum out of the
      pending one. */
  lemma {:induction false} PopMin(nodes: seq<ProtoNode>, q: Vector, queue: seq<SearchElement>, i: nat)
    requires i < |queue| && Queued(nodes, q, queue)
    ensures Queued(nodes, q, Without(queue, i)) && queue[i] in queue
    ensures PendMin(nodes, q, queue) == DMin(PendMin(nodes, q, Without(queue, i)), SubMin(nodes, queue[i].index, q))
  {
    var one := [queue[i]];
    assert queue == (queue[..i] + one) + queue[i + 1..];
    assert forall e :: e in queue[..i] ==> e in queue;
    assert forall e :: e in queue[i + 1..] ==> e in queue;
    assert queue[i] in queue;
    assert PendMin(nodes, q, one) == SubMin(nodes, queue[i].index, q) by {
      assert one[..0] == [];
      DMinFacts(Infinity, SubMin(nodes, queue[i].index, q), Infinity);
    }
    PendMinConcat(nodes, q, queue[..i], one);
    PendMinConcat(nodes, q, queue[..i] + one, queue[i + 1..]);
    PendMinConcat(nodes, q, queue[..i], queue[i + 1..]);
    DMinFacts(PendMin(nodes, q, queue[..i]), SubMin(nodes, queue[i].index, q), PendMin(nodes, q, queue[i + 1..]));
    DMinFacts(PendMin(nodes, q, queue[..i]), PendMin(nodes, q, queue[i + 1..]), SubMin(nodes, queue[i].index, q));
  }

  /** The loop invariant: every queued subtree is a well-formed subtree of
      the library's tree `t`; bounds lie between 0 and `bestDist` and at
      most one is positive; and the smaller of `bestDist` and the pending
      minimum is `target`. */
  ghost predicate Inv(t: seq<Node>, q: Vector, s: NnState, target: Dist)
  {
    Queued(Strip(t), q, s.queue) && BestHolds(Strip(t), q, s)
    && (forall e :: e in s.queue ==> Valid(t, e.index, |q|))
    && (forall j :: 0 <= j < |s.queue| ==> 0.0 <= s.queue[j].minDist <= s.bestDist)
    && (forall i, j :: 0 <= i < |s.queue| && 0 <= j < |s.queue| && s.queue[i].minDist > 0.0 && s.queue[j].minDist > 0.0 ==> i == j)
    && DMin(Finite(s.bestDist), PendMin(Strip(t), q, s.queue)) == target
  }

  /** The far child of a split node is at least `offset^2` away: its
      points lie across the cut from the query on the cut axis. */
  lemma {:induction false} FarAbove(t: seq<Node>, p: nat, q: Vector)
    requires Valid(t, p, |q|) && t[p].dim >= 0
    ensures Valid(t, ChildLeft(p), |q|) && Valid(t, ChildRight(p), |q|)
    ensures q[t[p].dim] - t[p].pos[t[p].dim] > 0.0 ==>
              forall x :: x in Contents(t, ChildLeft(p)) ==> |x.pos| == |q| && Sq(q[t[p].dim] - t[p].pos[t[p].dim]) <= Dist2(x.pos, q)
    ensures q[t[p].dim] - t[p].pos[t[p].dim] <= 0.0 ==>
              forall x :: x in Contents(t, ChildRight(p)) ==> |x.pos| == |q| && Sq(q[t[p].dim] - t[p].pos[t[p].dim]) <= Dist2(x.pos, q)
  {
    var d := t[p].dim;
    var offset := q[d] - t[p].pos[d];
    var off := Zeros(|q|)[d := offset];
    SumSqZeros(|q|);
    SumSqUpdate(Zeros(|q|), d, offset);
    ContentsDim(t, ChildLeft(p), |q|);
    ContentsDim(t, ChildRight(p), |q|);
    var side := if offset > 0.0 then ChildLeft(p) else ChildRight(p);
    forall x | x in Contents(t, side)
      ensures |x.pos| == |q| && Sq(offset) <= Dist2(x.pos, q)
    {
      assert Separated(q, off, x.pos) by {
        forall e | 0 <= e < |q|
          ensures SepCoord(q[e], off[e], x.pos[e])
        {
          if e == d {
            assert Coord(x, d) == x.pos[d];
          }
        }
      }
      SeparatedLowerBound(q, off, x.pos);
      Dist2Symmetric(q, x.pos);
    }
  }

  /** After popping the top, every remaining bound is 0: at most one
      bound was positive, and the top is the largest. */
  lemma RestZero(queue: seq<SearchElement>, i: nat)
    requires |queue| > 0 && i == TopMax(queue)
    requires forall j :: 0 <= j < |queue| ==> 0.0 <= queue[j].minDist
    requires forall a, b :: 0 <= a < |queue| && 0 <= b < |queue| && queue[a].minDist > 0.0 && queue[b].minDist > 0.0 ==> a == b
    ensures forall j :: 0 <= j < |Without(queue, i)| ==> Without(queue, i)[j].minDist == 0.0
  {
    var rest := Without(queue, i);
    forall j | 0 <= j < |rest|
      ensures rest[j].minDist == 0.0
    {
      var k := if j < i then j else j + 1;
      assert rest[j] == queue[k];
    }
  }

  /** The bounds part of the invariant for the queue after a step: zeros
      followed by the children's bounds. */
  lemma BoundsConcat(rest: seq<SearchElement>, pushes: seq<SearchElement>, bestDist: real)
    requires bestDist >= 0.0
    requires forall j :: 0 <= j < |rest| ==> rest[j].minDist == 0.0
    requires forall j :: 0 <= j < |pushes| ==> 0.0 <= pushes[j].minDist && (pushes[j].minDist == 0.0 || pushes[j].minDist < bestDist)
    requires forall a, b :: 0 <= a < |pushes| && 0 <= b < |pushes| && pushes[a].minDist > 0.0 && pushes[b].minDist > 0.0 ==> a == b
    ensures forall j :: 0 <= j < |rest + pushes| ==> 0.0 <= (rest + pushes)[j].minDist <= bestDist
    ensures forall a, b :: (0 <= a < |rest + pushes| && 0 <= b < |rest + pushes|
                            && (rest + pushes)[a].minDist > 0.0 && (rest + pushes)[b].minDist > 0.0) ==> a == b
  {
    var c := rest + pushes;
    forall a, b | 0 <= a < |c| && 0 <= b < |c| && c[a].minDist > 0.0 && c[b].minDist > 0.0
      ensures a == b
    {
      assert a >= |rest| && b >= |rest|;
      assert c[a] == pushes[a - |rest|] && c[b] == pushes[b - |rest|];
    }
  }

  /** A slot's minimum when it is a split: its own distance and both
      children's minima. */
  lemma MinOfMins(x: real, y: real, p: Dist, a: Dist, b: Dist, z: real)
    requires z == (if y < x then y else x)
    ensures DMin(Finite(x), DMin(p, DMin(Finite(y), DMin(a, b)))) == DMin(Finite(z), DMin(p, DMin(a, b)))
    ensures DMin(Finite(x), DMin(p, Finite(y))) == DMin(Finite(z), p)
  {
  }

  /** A far child at least `x` away drops out of the minimum. */
  lemma Absorb(x: Dist, p: Dist, near: Dist, far: Dist)
    requires Le(x, far)
    ensures DMin(x, DMin(p, DMin(near, far))) == DMin(x, DMin(p, near))
    ensures DMin(x, DMin(p, DMin(far, near))) == DMin(x, DMin(p, near))
  {
  }

  /** The pending minimum of what a split node queues. */
  lemma {:induction false} PushesMin(nodes: seq<ProtoNode>, q: Vector, p: nat, bestDist: real)
    requires ProtoValid(nodes, p, |q|) && nodes[p].dim >= 0
    ensures Queued(nodes, q, Pushes(nodes, q, p, bestDist))
    ensures |Pushes(nodes, q, p, bestDist)| == 2 ==>
              PendMin(nodes, q, Pushes(nodes, q, p, bestDist))
              == DMin(SubMin(nodes, ChildLeft(p), q), SubMin(nodes, ChildRight(p), q))
    ensures |Pushes(nodes, q, p, bestDist)| == 1 ==>
              PendMin(nodes, q, Pushes(nodes, q, p, bestDist))
              == SubMin(nodes, Pushes(nodes, q, p, bestDist)[0].index, q)
  {
    var r := Pushes(nodes, q, p, bestDist);
    assert r[0] in r;
    if |r| == 1 {
      assert r[..0] == [];
      DMinFacts(SubMin(nodes, r[0].index, q), Infinity, Infinity);
    } else {
      assert |r| == 2 && r[0].index == ChildLeft(p) && r[1].index == ChildRight(p);
      assert r[1] in r;
      assert r[..1][..0] == [];
      DMinFacts(SubMin(nodes, ChildLeft(p), q), Infinity, Infinity);
      assert PendMin(nodes, q, r[..1]) == SubMin(nodes, ChildLeft(p), q);
      assert PendMin(nodes, q, r) == DMin(PendMin(nodes, q, r[..1]), SubMin(nodes, ChildRight(p), q));
    }
  }

  /** What popping the top leaves: the other elements, all queued, all
      with bound 0, and a pending minimum that together with the popped
      subtree's is the old one. */
  lemma {:induction false} PopKeeps(t: seq<Node>, nodes: seq<ProtoNode>, q: Vector, s: NnState, target: Dist, i: nat)
    requires nodes == Strip(t)
    requires Inv(t, q, s, target) && |s.queue| > 0 && i == TopMax(s.queue)
    ensures s.queue[i].minDist <= s.bestDist && s.bestDist >= 0.0
    ensures Valid(t, s.queue[i].index, |q|) && ProtoValid(nodes, s.queue[i].index, |q|)
    ensures Queued(nodes, q, Without(s.queue, i))
    ensures forall e :: e in Without(s.queue, i) ==> Valid(t, e.index, |q|)
    ensures forall j :: 0 <= j < |Without(s.queue, i)| ==> Without(s.queue, i)[j].minDist == 0.0
    ensures target == DMin(Finite(s.bestDist),
                           DMin(PendMin(nodes, q, Without(s.queue, i)), SubMin(nodes, s.queue[i].index, q)))
  {
    var rest := Without(s.queue, i);
    assert s.queue[i] in s.queue;
    PopMin(nodes, q, s.queue, i);
    RestZero(s.queue, i);
    WithoutMembers(s.queue, i);
  }

  /** One step keeps the invariant, and the `break` does not fire: the
      popped bound is at most `bestDist`. */
  lemma {:induction false} StepKeeps(t: seq<Node>, nodes: seq<ProtoNode>, q: Vector, s: NnState, target: Dist)
    requires nodes == Strip(t)
    requires Inv(t, q, s, target) && |s.queue| > 0
    ensures s.queue[TopMax(s.queue)].minDist <= s.bestDist
    ensures Inv(t, q, Step(nodes, q, s), target)
  {
    var i := TopMax(s.queue);
    var p := s.queue[i].index;
    var rest := Without(s.queue, i);
    PopKeeps(t, nodes, q, s, target, i);
    var pm := PendMin(nodes, q, rest);
    var r := Step(nodes, q, s);
    if nodes[p].dim == -2 {
      assert r == NnState(rest, s.bestDist, s.bestIndex);
      FlatKeeps(t, nodes, q, rest, pm, s.bestDist, Infinity, r, target);
    } else {
      var dist := Dist2(nodes[p].pos, q);
      var bd := if dist < s.bestDist then dist else s.bestDist;
      if nodes[p].dim < 0 {
        assert r == NnState(rest, bd, r.bestIndex);
        MinOfMins(s.bestDist, dist, pm, Infinity, Infinity, bd);
        FlatKeeps(t, nodes, q, rest, pm, s.bestDist, Finite(dist), r, target);
      } else {
        assert r == NnState(rest + Pushes(nodes, q, p, bd), bd, r.bestIndex);
        SplitKeeps(t, nodes, q, p, rest, pm, s.bestDist, bd, r.bestIndex, target);
      }
    }
  }

  /** The invalid and leaf cases of `StepKeeps`: nothing is queued, and
      the popped slot's minimum `own` moves into `bestDist`. */
  lemma {:induction false} FlatKeeps(t: seq<Node>, nodes: seq<ProtoNode>, q: Vector, rest: seq<SearchElement>, pm: Dist,
                                     bestDist: real, own: Dist, r: NnState, target: Dist)
    requires nodes == Strip(t) && r.queue == rest && BestHolds(nodes, q, r) && r.bestDist <= bestDist
    requires Queued(nodes, q, rest) && (forall e :: e in rest ==> Valid(t, e.index, |q|))
    requires forall j :: 0 <= j < |rest| ==> rest[j].minDist == 0.0
    requires pm == PendMin(nodes, q, rest) && r.bestDist >= 0.0
    requires target == DMin(Finite(bestDist), DMin(pm, own))
    requires DMin(Finite(bestDist), DMin(pm, own)) == DMin(Finite(r.bestDist), pm)
    ensures Inv(t, q, r, target)
  {
  }

  /** The split case of `StepKeeps`: the node's distance is offered and
      its children queued. */
  lemma {:induction false} SplitKeeps(t: seq<Node>, nodes: seq<ProtoNode>, q: Vector, p: nat, rest: seq<SearchElement>, pm: Dist,
                                      bestDist: real, bd: real, bi: nat, target: Dist)
    requires nodes == Strip(t) && Valid(t, p, |q|) && ProtoValid(nodes, p, |q|) && nodes[p].dim >= 0
    requires Queued(nodes, q, rest) && (forall e :: e in rest ==> Valid(t, e.index, |q|))
    requires forall j :: 0 <= j < |rest| ==> rest[j].minDist == 0.0
    requires pm == PendMin(nodes, q, rest) && bestDist >= 0.0
    requires bd == (if Dist2(nodes[p].pos, q) < bestDist then Dist2(nodes[p].pos, q) else bestDist)
    requires BestHolds(nodes, q, NnState(rest + Pushes(nodes, q, p, bd), bd, bi))
    requires target == DMin(Finite(bestDist), DMin(pm, SubMin(nodes, p, q)))
    ensures Inv(t, q, NnState(rest + Pushes(nodes, q, p, bd), bd, bi), target)
  {
    var pushes := Pushes(nodes, q, p, bd);
    SplitMin(t, nodes, q, p, pm, bestDist, bd, target);
    PendMinConcat(nodes, q, rest, pushes);
    BoundsConcat(rest, pushes, bd);
    ChildrenValid(t, q, p, rest, bd);
  }

  /** The children a split node queues are valid subtrees, as is every
      slot already queued. */
  lemma ChildrenValid(t: seq<Node>, q: Vector, p: nat, rest: seq<SearchElement>, bd: real)
    requires Valid(t, p, |q|) && ProtoValid(Strip(t), p, |q|) && Strip(t)[p].dim >= 0
    requires forall e :: e in rest ==> Valid(t, e.index, |q|)
    ensures forall e :: e in rest + Pushes(Strip(t), q, p, bd) ==> Valid(t, e.index, |q|)
  {
    FarAbove(t, p, q);
    forall e | e in rest + Pushes(Strip(t), q, p, bd)
      ensures Valid(t, e.index, |q|)
    {
    }
  }

  /** After a split, `bestDist` and the pending minimum still come to
      `target`: a far child left out is no nearer than the new
      `bestDist`. */
  lemma {:induction false} SplitMin(t: seq<Node>, nodes: seq<ProtoNode>, q: Vector, p: nat, pm: Dist,
                                    bestDist: real, bd: real, target: Dist)
    requires nodes == Strip(t) && Valid(t, p, |q|) && ProtoValid(nodes, p, |q|) && nodes[p].dim >= 0
    requires bd == (if Dist2(nodes[p].pos, q) < bestDist then Dist2(nodes[p].pos, q) else bestDist)
    requires target == DMin(Finite(bestDist), DMin(pm, SubMin(nodes, p, q)))
    ensures Queued(nodes, q, Pushes(nodes, q, p, bd))
    ensures DMin(Finite(bd), DMin(pm, PendMin(nodes, q, Pushes(nodes, q, p, bd)))) == target
  {
    var pushes := Pushes(nodes, q, p, bd);
    PushesMin(nodes, q, p, bd);
    var sl := SubMin(nodes, ChildLeft(p), q);
    var sr := SubMin(nodes, ChildRight(p), q);
    assert SubMin(nodes, p, q) == DMin(Finite(Dist2(nodes[p].pos, q)), DMin(sl, sr));
    MinOfMins(bestDist, Dist2(nodes[p].pos, q), pm, sl, sr, bd);
    if |pushes| == 1 {
      OneSideMin(t, nodes, q, p, pm, bd);
    }
  }

  /** When only the near child is queued, the far child cannot hold
      anything below `bd`, so leaving it out keeps the minimum. */
  lemma OneSideMin(t: seq<Node>, nodes: seq<ProtoNode>, q: Vector, p: nat, pm: Dist, bd: real)
    requires nodes == Strip(t) && Valid(t, p, |q|) && ProtoValid(nodes, p, |q|) && nodes[p].dim >= 0
    requires |Pushes(nodes, q, p, bd)| == 1
    requires PendMin(nodes, q, Pushes(nodes, q, p, bd)) == SubMin(nodes, Pushes(nodes, q, p, bd)[0].index, q)
    ensures DMin(Finite(bd), DMin(pm, PendMin(nodes, q, Pushes(nodes, q, p, bd))))
            == DMin(Finite(bd), DMin(pm, DMin(SubMin(nodes, ChildLeft(p), q), SubMin(nodes, ChildRight(p), q))))
  {
    var sl := SubMin(nodes, ChildLeft(p), q);
    var sr := SubMin(nodes, ChildRight(p), q);
    FarSkipped(t, q, p, bd);
    if q[t[p].dim] - t[p].pos[t[p].dim] > 0.0 {
      Absorb(Finite(bd), pm, sr, sl);
    } else {
      Absorb(Finite(bd), pm, sl, sr);
    }
  }

  /** A split node queues one child only when the far bound is not
      below `bd`, and that child is the near one. */
  lemma PushesOne(nodes: seq<ProtoNode>, q: Vector, p: nat, bd: real)
    requires ProtoValid(nodes, p, |q|) && nodes[p].dim >= 0
    requires |Pushes(nodes, q, p, bd)| == 1
    ensures bd <= Sq(q[nodes[p].dim] - nodes[p].pos[nodes[p].dim])
    ensures Pushes(nodes, q, p, bd)[0].index
            == if q[nodes[p].dim] - nodes[p].pos[nodes[p].dim] > 0.0 then ChildRight(p) else ChildLeft(p)
  {
  }

  /** A split node that queues one child queues the near one; the far
      child's points are all at least `bd` away. */
  lemma FarSkipped(t: seq<Node>, q: Vector, p: nat, bd: real)
    requires Valid(t, p, |q|) && ProtoValid(Strip(t), p, |q|) && Strip(t)[p].dim >= 0
    requires |Pushes(Strip(t), q, p, bd)| == 1
    ensures q[t[p].dim] - t[p].pos[t[p].dim] > 0.0 ==>
              Pushes(Strip(t), q, p, bd)[0].index == ChildRight(p) && Le(Finite(bd), SubMin(Strip(t), ChildLeft(p), q))
    ensures q[t[p].dim] - t[p].pos[t[p].dim] <= 0.0 ==>
              Pushes(Strip(t), q, p, bd)[0].index == ChildLeft(p) && Le(Finite(bd), SubMin(Strip(t), ChildRight(p), q))
  {
    var nodes := Strip(t);
    PushesOne(nodes, q, p, bd);
    FarAbove(t, p, q);
    var offset := q[t[p].dim] - t[p].pos[t[p].dim];
    assert nodes[p].dim == t[p].dim && nodes[p].pos == t[p].pos;
    if offset > 0.0 {
      SubMinAbove(t, ChildLeft(p), q, Sq(offset));
    } else {
      SubMinAbove(t, ChildRight(p), q, Sq(offset));
    }
  }

  /** From any state keeping the invariant, the search ends with
      `bestDist` equal to `target`. */
  lemma {:induction false} SearchFinds(t: seq<Node>, q: Vector, s: NnState, target: Dist)
    requires Inv(t, q, s, target)
    ensures Finite(Search(Strip(t), q, s).bestDist) == target
    decreases PendingSize(|t|, s.queue)
  {
    if |s.queue| == 0 {
      DMinFacts(Finite(s.bestDist), Infinity, Infinity);
    } else {
      StepKeeps(t, Strip(t), q, s, target);
      SearchFinds(t, q, Step(Strip(t), q, s), target);
    }
  }

  /** `bfnn` has found something below the seed: some column is closer
      than `numeric_limits<float>::max()`. */
  ghost predicate Closer(cloud: Cloud, q: Vector)
  {
    exists i :: 0 <= i < |cloud| && |cloud[i]| == |q| && Dist2(cloud[i], q) < FloatMax
  }

  /** Column `r` is nearest to `q`, and no column before it is as near. */
  ghost predicate IsFirstNearest(cloud: Cloud, q: Vector, r: nat)
    requires IsCloud(cloud, |q|)
  {
    r < |cloud|
    && (forall j :: 0 <= j < |cloud| ==> Dist2(cloud[r], q) <= Dist2(cloud[j], q))
    && (forall j :: 0 <= j < r ==> Dist2(cloud[r], q) < Dist2(cloud[j], q))
  }

  /** What the scan keeps over the first `i` columns. */
  ghost predicate ScanHolds(cloud: Cloud, q: Vector, i: nat, bestDist: real, bestIndex: nat)
  {
    IsCloud(cloud, |q|) && i <= |cloud|
    && ((bestDist == FloatMax && bestIndex == 0 && forall j :: 0 <= j < i ==> FloatMax <= Dist2(cloud[j], q))
        || (bestIndex < i && bestDist < FloatMax && bestDist == Dist2(cloud[bestIndex], q)
            && (forall j :: 0 <= j < i ==> bestDist <= Dist2(cloud[j], q))
            && (forall j :: 0 <= j < bestIndex ==> bestDist < Dist2(cloud[j], q))))
  }

  /** The loop of `bfnn` from column `i` on: a strictly closer column
      takes over `bestIndex`. */
  function BfScan(cloud: Cloud, q: Vector, i: nat, bestDist: real, bestIndex: nat): (r: nat)
    requires ScanHolds(cloud, q, i, bestDist, bestIndex)
    ensures Closer(cloud, q) ==> IsFirstNearest(cloud, q, r)
    ensures !Closer(cloud, q) ==> r == 0
    ensures |cloud| > 0 ==> r < |cloud|
    decreases |cloud| - i
  {
    if i == |cloud| then bestIndex
    else
      var dist := Dist2(cloud[i], q);
      if dist < bestDist then BfScan(cloud, q, i + 1, dist, i)
      else BfScan(cloud, q, i + 1, bestDist, bestIndex)
  }

  /** `bfnn(query, data)`: the first column of least squared distance, or
      column 0 when none is below the seed. */
  function Bfnn(cloud: Cloud, q: Vector): (r: Vector)
    requires |cloud| > 0 && IsCloud(cloud, |q|)
    ensures r in cloud && |r| == |q|
    ensures Closer(cloud, q) ==> forall j :: 0 <= j < |cloud| ==> Dist2(r, q) <= Dist2(cloud[j], q)
  {
    cloud[BfScan(cloud, q, 0, FloatMax, 0)]
  }

  /** When some column lies below the seed, `nn` on the prototype's tree
      returns a point at the same squared distance from the query as
      `bfnn` does. The points themselves may differ on ties
      (`NnTieSplits`); `NnIsBfnn` gives the equality `knn.cpp` asserts. */
  lemma {:induction false} NnMatchesBfnn(cloud: Cloud, q: Vector)
    requires 0 < |cloud| < Pow2(31) && |q| > 0 && IsCloud(cloud, |q|)
    requires exists i :: 0 <= i < |cloud| && Dist2(cloud[i], q) < FloatMax
    ensures |Nn(ProtoTree(cloud, |q|), q)| == |q|
    ensures Dist2(Nn(ProtoTree(cloud, |q|), q), q) == Dist2(Bfnn(cloud, q), q)
  {
    var t := BuildTree(cloud, |q|);
    RootMinIsBfnn(cloud, q, t);
    NnFinds(t, q, Dist2(Bfnn(cloud, q), q));
    assert ProtoTree(cloud, |q|) == Strip(t);
  }

  /** On a valid tree whose least distance `d` is below the seed, `nn`
      returns a point at squared distance `d`. */
  lemma NnFinds(t: seq<Node>, q: Vector, d: real)
    requires Valid(t, 0, |q|) && ProtoValid(Strip(t), 0, |q|) && d < FloatMax
    requires DMin(Finite(FloatMax), SubMin(Strip(t), 0, q)) == Finite(d)
    ensures |Nn(Strip(t), q)| == |q| && Dist2(Nn(Strip(t), q), q) == d
  {
    var s0 := NnState([SearchElement(0, 0.0)], FloatMax, 0);
    InitKeeps(t, q, s0, Finite(d));
    SearchFinds(t, q, s0, Finite(d));
    NnAt(Strip(t), q, d);
  }

  /** When the search from the root ends below the seed, `nn` returns the
      point of the node at that squared distance. */
  lemma NnAt(nodes: seq<ProtoNode>, q: Vector, d: real)
    requires ProtoValid(nodes, 0, |q|) && d < FloatMax
    requires Search(nodes, q, NnState([SearchElement(0, 0.0)], FloatMax, 0)).bestDist == d
    ensures |Nn(nodes, q)| == |q| && Dist2(Nn(nodes, q), q) == d
  {
  }

  /** Every point of the subtree at `p` is a point of the whole tree. */
  ghost predicate Inside(t: seq<Node>, p: nat)
  {
    forall x :: x in Contents(t, p) ==> x in Contents(t, 0)
  }

  /** What the search reaches: every queued subtree lies inside the tree,
      and once `bestDist` is below the seed the node at `bestIndex` holds
      one of the tree's points. */
  ghost predicate Reached(t: seq<Node>, s: NnState)
  {
    s.bestIndex < |t|
    && (forall e :: e in s.queue ==> Inside(t, e.index))
    && (s.bestDist < FloatMax ==> BuildPoint(t[s.bestIndex].pos, t[s.bestIndex].index) in Contents(t, 0))
  }

  /** A node that is not an invalid slot holds the first point of its own
      subtree's contents, and a split node's children lie inside it. */
  lemma NodeInside(t: seq<Node>, p: nat)
    requires p < |t| && t[p].dim != -2 && Inside(t, p)
    ensures BuildPoint(t[p].pos, t[p].index) in Contents(t, 0)
    ensures t[p].dim >= 0 ==> Inside(t, ChildLeft(p)) && Inside(t, ChildRight(p))
  {
    assert BuildPoint(t[p].pos, t[p].index) in Contents(t, p);
    if t[p].dim >= 0 {
      forall x | x in Contents(t, ChildLeft(p)) || x in Contents(t, ChildRight(p))
        ensures x in Contents(t, p)
      {
      }
    }
  }

  /** One turn of the loop keeps what the search reaches inside the tree. */
  lemma StepReached(t: seq<Node>, q: Vector, s: NnState)
    requires |s.queue| > 0 && Queued(Strip(t), q, s.queue) && BestHolds(Strip(t), q, s) && Reached(t, s)
    ensures Reached(t, Step(Strip(t), q, s))
  {
    var i := TopMax(s.queue);
    var el := s.queue[i];
    WithoutMembers(s.queue, i);
    assert el in s.queue;
    if t[el.index].dim != -2 {
      NodeInside(t, el.index);
    }
  }

  /** The whole loop keeps what the search reaches inside the tree. */
  lemma {:induction false} SearchReached(t: seq<Node>, q: Vector, s: NnState)
    requires Queued(Strip(t), q, s.queue) && BestHolds(Strip(t), q, s) && Reached(t, s)
    ensures Reached(t, Search(Strip(t), q, s))
    decreases PendingSize(|t|, s.queue)
  {
    if |s.queue| > 0 {
      if s.queue[TopMax(s.queue)].minDist > s.bestDist {
        WithoutMembers(s.queue, TopMax(s.queue));
      } else {
        StepReached(t, q, s);
        SearchReached(t, q, Step(Strip(t), q, s));
      }
    }
  }

  /** When some column lies below the seed, `nn` returns a column of the
      cloud, at the same squared distance from the query as `bfnn`'s. */
  lemma NnIsColumn(cloud: Cloud, q: Vector)
    requires 0 < |cloud| < Pow2(31) && |q| > 0 && IsCloud(cloud, |q|)
    requires exists i :: 0 <= i < |cloud| && Dist2(cloud[i], q) < FloatMax
    ensures exists i :: 0 <= i < |cloud| && Nn(ProtoTree(cloud, |q|), q) == cloud[i]
    ensures Dist2(Nn(ProtoTree(cloud, |q|), q), q) == Dist2(Bfnn(cloud, q), q)
  {
    var t := BuildTree(cloud, |q|);
    RootMinIsBfnn(cloud, q, t);
    NnFinds(t, q, Dist2(Bfnn(cloud, q), q));
    NnInTree(t, q, Dist2(Bfnn(cloud, q), q));
    TreeHoldsEachColumnOnce(cloud, |q|);
    assert ProtoTree(cloud, |q|) == Strip(t);
    var x :| x in Contents(t, 0) && Nn(Strip(t), q) == x.pos;
    assert x.pos == cloud[x.index];
  }

  /** On a valid tree whose least distance is below the seed, `nn` returns
      the position of one of the tree's points. */
  lemma NnInTree(t: seq<Node>, q: Vector, d: real)
    requires Valid(t, 0, |q|) && ProtoValid(Strip(t), 0, |q|) && d < FloatMax
    requires DMin(Finite(FloatMax), SubMin(Strip(t), 0, q)) == Finite(d)
    ensures exists x :: x in Contents(t, 0) && Nn(Strip(t), q) == x.pos
  {
    var s0 := NnState([SearchElement(0, 0.0)], FloatMax, 0);
    InitKeeps(t, q, s0, Finite(d));
    SearchFinds(t, q, s0, Finite(d));
    SearchReached(t, q, s0);
    var s := Search(Strip(t), q, s0);
    assert BuildPoint(t[s.bestIndex].pos, t[s.bestIndex].index) in Contents(t, 0);
  }

  /** `knn.cpp` asserts that `nn` and `bfnn` return the same point. That
      holds whenever every column at the least squared distance is
      `bfnn`'s point, so in particular when the nearest point is unique. */
  lemma NnIsBfnn(cloud: Cloud, q: Vector)
    requires 0 < |cloud| < Pow2(31) && |q| > 0 && IsCloud(cloud, |q|)
    requires exists i :: 0 <= i < |cloud| && Dist2(cloud[i], q) < FloatMax
    requires forall i :: 0 <= i < |cloud| && Dist2(cloud[i], q) == Dist2(Bfnn(cloud, q), q) ==> cloud[i] == Bfnn(cloud, q)
    ensures Nn(ProtoTree(cloud, |q|), q) == Bfnn(cloud, q)
  {
    NnIsColumn(cloud, q);
  }

  /** A tie: the columns `[0]` and `[1]` are both at squared distance 0.25
      from the query `[0.5]`. `bfnn` keeps the first, column 0; `nn` keeps
      the root of the tree, which holds column 1, and the leaf at the same
      distance does not replace it. So the two returned points differ,
      and the assert of `knn.cpp` comparing them fails on this input. */
  lemma NnTieSplits()
    ensures Bfnn([[0.0], [1.0]], [0.5]) == [0.0]
    ensures Nn(ProtoTree([[0.0], [1.0]], 1), [0.5]) == [1.0]
  {
    TieBfnn();
    var nodes := [ProtoNode([1.0], 0), ProtoNode([0.0], -1), ProtoNode([], -2)];
    TieTree();
    TieSearch(nodes, [0.5]);
  }

  lemma TieBfnn()
    ensures Bfnn([[0.0], [1.0]], [0.5]) == [0.0]
  {
    var cloud: Cloud := [[0.0], [1.0]];
    var q: Vector := [0.5];
    Bounds.MaxValueAbove(Bounds.Float);
    assert Dist2(cloud[0], q) == 0.25 && Dist2(cloud[1], q) == 0.25;
    assert BfScan(cloud, q, 2, 0.25, 0) == 0;
    assert BfScan(cloud, q, 1, 0.25, 0) == 0;
  }

  lemma TieTree()
    ensures ProtoTree([[0.0], [1.0]], 1) == [ProtoNode([1.0], 0), ProtoNode([0.0], -1), ProtoNode([], -2)]
  {
    TwoColumnTree();
    StripTwoColumnTree();
  }

  lemma StripTwoColumnTree()
    ensures Strip([Node([1.0], 0, 1), Node([0.0], -1, 0), InvalidNode])
            == [ProtoNode([1.0], 0), ProtoNode([0.0], -1), ProtoNode([], -2)]
  {
  }

  lemma TieSearch(nodes: seq<ProtoNode>, q: Vector)
    requires nodes == [ProtoNode([1.0], 0), ProtoNode([0.0], -1), ProtoNode([], -2)] && q == [0.5]
    ensures ProtoValid(nodes, 0, |q|) && Nn(nodes, q) == [1.0]
  {
    TieValid(nodes, q);
    var s0 := NnState([SearchElement(0, 0.0)], FloatMax, 0);
    var s1 := NnState([SearchElement(1, 0.0)], 0.25, 0);
    var s2 := NnState([], 0.25, 0);
    TieFirstStep(nodes, q);
    TieSecondStep(nodes, q);
    assert Search(nodes, q, s1) == Search(nodes, q, s2) == s2;
    assert Search(nodes, q, s0) == Search(nodes, q, s1);
  }

  lemma TieValid(nodes: seq<ProtoNode>, q: Vector)
    requires nodes == [ProtoNode([1.0], 0), ProtoNode([0.0], -1), ProtoNode([], -2)] && q == [0.5]
    ensures ProtoValid(nodes, 0, |q|) && ProtoValid(nodes, 1, |q|)
    ensures Dist2(nodes[0].pos, q) == 0.25 && Dist2(nodes[1].pos, q) == 0.25
    ensures 0.25 < FloatMax
  {
    Bounds.MaxValueAbove(Bounds.Float);
    assert ProtoValid(nodes, 1, 1) && ProtoValid(nodes, 2, 1);
  }

  /** Popping the root: `bestDist` drops to 0.25 at node 0, and only the
      near (left) child is queued, since 0.25 is not below 0.25. */
  lemma TieFirstStep(nodes: seq<ProtoNode>, q: Vector)
    requires nodes == [ProtoNode([1.0], 0), ProtoNode([0.0], -1), ProtoNode([], -2)] && q == [0.5]
    ensures Queued(nodes, q, [SearchElement(0, 0.0)]) && BestHolds(nodes, q, NnState([SearchElement(0, 0.0)], FloatMax, 0))
    ensures Step(nodes, q, NnState([SearchElement(0, 0.0)], FloatMax, 0)) == NnState([SearchElement(1, 0.0)], 0.25, 0)
  {
    TieValid(nodes, q);
    var queue := [SearchElement(0, 0.0)];
    assert TopMax(queue) == 0;
    assert Without(queue, 0) == [];
    assert Pushes(nodes, q, 0, 0.25) == [SearchElement(1, 0.0)];
  }

  /** Popping the leaf: its distance 0.25 is not below `bestDist`, so node 0
      stays the best. */
  lemma TieSecondStep(nodes: seq<ProtoNode>, q: Vector)
    requires nodes == [ProtoNode([1.0], 0), ProtoNode([0.0], -1), ProtoNode([], -2)] && q == [0.5]
    ensures Queued(nodes, q, [SearchElement(1, 0.0)]) && BestHolds(nodes, q, NnState([SearchElement(1, 0.0)], 0.25, 0))
    ensures Step(nodes, q, NnState([SearchElement(1, 0.0)], 0.25, 0)) == NnState([], 0.25, 0)
  {
    TieValid(nodes, q);
    var queue := [SearchElement(1, 0.0)];
    assert TopMax(queue) == 0;
    assert Without(queue, 0) == [];
  }

  /** The least squared distance the built tree holds is below the seed
      and is that of `bfnn`'s column. */
  lemma {:induction false} RootMinIsBfnn(cloud: Cloud, q: Vector, t: seq<Node>)
    requires 0 < |cloud| < Pow2(31) && |q| > 0 && IsCloud(cloud, |q|)
    requires exists i :: 0 <= i < |cloud| && Dist2(cloud[i], q) < FloatMax
    requires t == BuildTree(cloud, |q|)
    ensures ProtoValid(Strip(t), 0, |q|)
    ensures DMin(Finite(FloatMax), SubMin(Strip(t), 0, q)) == Finite(Dist2(Bfnn(cloud, q), q))
    ensures Dist2(Bfnn(cloud, q), q) < FloatMax
  {
    var b := BfScan(cloud, q, 0, FloatMax, 0);
    BfnnNearest(cloud, q);
    assert Valid(t, 0, |q|);
    StripValid(t, 0, |q|);
    TreeHolds(cloud, |q|, b);
    RootMinIs(cloud, q, t, b);
    var d := Dist2(cloud[b], q);
    assert SubMin(Strip(t), 0, q) == Finite(d) && d < FloatMax;
  }

  /** The built tree holds column `b`, and only columns of the cloud. */
  lemma TreeHolds(cloud: Cloud, dim: nat, b: nat)
    requires 0 < |cloud| < Pow2(31) && dim > 0 && IsCloud(cloud, dim) && b < |cloud|
    ensures BuildPoint(cloud[b], b) in Contents(BuildTree(cloud, dim), 0)
    ensures forall x :: x in Contents(BuildTree(cloud, dim), 0) ==> x.index < |cloud| && x.pos == cloud[x.index]
  {
    TreeHoldsEachColumnOnce(cloud, dim);
    assert multiset(Contents(BuildTree(cloud, dim), 0))[BuildPoint(cloud[b], b)] == 1;
  }

  /** When some column is below the seed, `bfnn` returns the column its
      scan keeps, which is nearest and below the seed. */
  lemma BfnnNearest(cloud: Cloud, q: Vector)
    requires |cloud| > 0 && IsCloud(cloud, |q|)
    requires exists i :: 0 <= i < |cloud| && Dist2(cloud[i], q) < FloatMax
    ensures BfScan(cloud, q, 0, FloatMax, 0) < |cloud|
    ensures Bfnn(cloud, q) == cloud[BfScan(cloud, q, 0, FloatMax, 0)]
    ensures forall j :: 0 <= j < |cloud| ==> Dist2(Bfnn(cloud, q), q) <= Dist2(cloud[j], q)
    ensures Dist2(Bfnn(cloud, q), q) < FloatMax
  {
    var b := BfScan(cloud, q, 0, FloatMax, 0);
    var i0 :| 0 <= i0 < |cloud| && Dist2(cloud[i0], q) < FloatMax;
    assert Closer(cloud, q);
    assert IsFirstNearest(cloud, q, b);
    assert Dist2(cloud[b], q) <= Dist2(cloud[i0], q);
  }

  /** A tree holding only columns of the cloud, among them a nearest one
      `b`, has that column's squared distance as its minimum. */
  lemma {:induction false} RootMinIs(cloud: Cloud, q: Vector, t: seq<Node>, b: nat)
    requires IsCloud(cloud, |q|) && b < |cloud|
    requires Valid(t, 0, |q|) && ProtoValid(Strip(t), 0, |q|)
    requires BuildPoint(cloud[b], b) in Contents(t, 0)
    requires forall x :: x in Contents(t, 0) ==> x.index < |cloud| && x.pos == cloud[x.index]
    requires forall j :: 0 <= j < |cloud| ==> Dist2(cloud[b], q) <= Dist2(cloud[j], q)
    ensures SubMin(Strip(t), 0, q) == Finite(Dist2(cloud[b], q))
  {
    var root := SubMin(Strip(t), 0, q);
    SubMinIsLeast(t, 0, q);
    assert Le(root, Finite(Dist2(cloud[b], q)));
    var x :| x in Contents(t, 0) && |x.pos| == |q| && root == Finite(Dist2(x.pos, q));
    assert x.pos == cloud[x.index];
  }

  /** The search starts from the invariant: the root queued with bound 0
      and `bestDist` at the seed. */
  lemma {:induction false} InitKeeps(t: seq<Node>, q: Vector, s: NnState, target: Dist)
    requires Valid(t, 0, |q|) && s == NnState([SearchElement(0, 0.0)], FloatMax, 0)
    requires ProtoValid(Strip(t), 0, |q|)
    requires target == DMin(Finite(FloatMax), SubMin(Strip(t), 0, q))
    ensures Inv(t, q, s, target)
  {
    assert s.queue[..0] == [];
    DMinFacts(SubMin(Strip(t), 0, q), Infinity, Infinity);
  }
}
