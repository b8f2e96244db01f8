/** The implicit array layout of both trees: the children of slot `p` are
    `childLeft(p) = 2p + 1` and `childRight(p) = 2p + 2`, so the subtree of a
    slot is the set of slots whose chain of parents reaches it. */
module Layout {
  import opened Nabo

  /** Slot `i` lies in the subtree rooted at slot `p`. */
  predicate InSubtree(i: nat, p: nat)
    decreases i
  {
    i == p || (i > p && InSubtree((i - 1) / 2, p))
  }

  lemma {:induction false} InSubtreeAbove(i: nat, p: nat)
    requires InSubtree(i, p)
    ensures i >= p
  {
  }

  /** The subtree of a child lies inside the subtree of its parent. */
  lemma {:induction false} ChildSubtree(i: nat, p: nat)
    requires InSubtree(i, ChildLeft(p)) || InSubtree(i, ChildRight(p))
    ensures InSubtree(i, p)
    decreases i
  {
    if i != ChildLeft(p) && i != ChildRight(p) {
      if InSubtree(i, ChildLeft(p)) {
        ChildSubtree((i - 1) / 2, p);
      } else {
        ChildSubtree((i - 1) / 2, p);
      }
    }
  }

  /** Two roots of subtrees sharing a slot lie one inside the other's. */
  lemma {:induction false} NestedRoots(i: nat, a: nat, b: nat)
    requires InSubtree(i, a) && InSubtree(i, b) && a <= b
    ensures InSubtree(b, a)
    decreases i
  {
    if i != b {
      InSubtreeAbove(i, b);
      NestedRoots((i - 1) / 2, a, b);
    }
  }

  /** The two subtrees below a slot share no slot, and neither holds the
      slot itself. */
  lemma SiblingsDisjoint(i: nat, p: nat)
    ensures !(InSubtree(i, ChildLeft(p)) && InSubtree(i, ChildRight(p)))
    ensures !InSubtree(p, ChildLeft(p)) && !InSubtree(p, ChildRight(p))
  {
    if InSubtree(i, ChildLeft(p)) && InSubtree(i, ChildRight(p)) {
      NestedRoots(i, ChildLeft(p), ChildRight(p));
      assert false;
    }
  }

  /** The number of slots below `size` in the subtree of `p`. */
  function SubtreeSize(p: nat, size: nat): nat
    decreases size - p
  {
    if p >= size then 0 else 1 + SubtreeSize(ChildLeft(p), size) + SubtreeSize(ChildRight(p), size)
  }

  /** The right side is built after the left one and writes only inside its
      own subtree, so it leaves the left subtree as it was. */
  lemma LeftIntact<N>(pos: nat, l: seq<N>, r: seq<N>)
    requires |l| == |r|
    requires forall i :: 0 <= i < |l| && !InSubtree(i, ChildRight(pos)) ==> r[i] == l[i]
    ensures forall i :: 0 <= i < |r| && InSubtree(i, ChildLeft(pos)) ==> l[i] == r[i]
  {
    forall i | 0 <= i < |r| && InSubtree(i, ChildLeft(pos))
      ensures l[i] == r[i]
    {
      SiblingsDisjoint(i, pos);
    }
  }

  /** Writes below the children leave the rest of the array and the node
      itself alone. */
  lemma SplitFrame<N>(pos: nat, nodes: seq<N>, withNode: seq<N>, l: seq<N>, r: seq<N>)
    requires pos < |nodes| == |withNode| == |l| == |r|
    requires forall i :: 0 <= i < |nodes| && i != pos ==> withNode[i] == nodes[i]
    requires forall i :: 0 <= i < |nodes| && !InSubtree(i, ChildLeft(pos)) ==> l[i] == withNode[i]
    requires forall i :: 0 <= i < |nodes| && !InSubtree(i, ChildRight(pos)) ==> r[i] == l[i]
    ensures forall i :: 0 <= i < |nodes| && !InSubtree(i, pos) ==> r[i] == nodes[i]
    ensures r[pos] == withNode[pos]
  {
    forall i | 0 <= i < |nodes| && !InSubtree(i, pos)
      ensures r[i] == nodes[i]
    {
      if InSubtree(i, ChildLeft(pos)) || InSubtree(i, ChildRight(pos)) {
        ChildSubtree(i, pos);
      }
    }
    SiblingsDisjoint(pos, pos);
  }
}
