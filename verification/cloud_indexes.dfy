/** `cloudIndexesFromNodesIndexes`: the heap of a points-in-nodes search
    holds node indexes, and the reply names columns. The code looks every
    slot up in the node array, seeds included; the translation the rest of
    the model uses keeps a seed a seed. */
module CloudIndexes {
  import opened Scalar
  import opened Nabo
  import opened HeapEntries
  import opened Results
  import opened BuildPoints
  import opened PtInNodes
  import opened NodesSearch

  /** Every slot is a seed or names a node of the array. */
  predicate Translatable(h: seq<Entry>, nodes: seq<Node>)
  {
    forall e :: e in h ==> e == Sentinel || 0 <= e.index < |nodes|
  }

  /** The loop as written: slot `i` reports `nodes[indexes[i]].index`. */
  function CloudIndexesAsWritten(nodes: seq<Node>, indexes: seq<int>): (r: seq<int>)
    requires forall i :: 0 <= i < |indexes| ==> 0 <= indexes[i] < |nodes|
    ensures |r| == |indexes|
    ensures forall i :: 0 <= i < |indexes| ==> r[i] == nodes[indexes[i]].index
  {
    seq(|indexes|, i requires 0 <= i < |indexes| => nodes[indexes[i]].index)
  }

  /** The corrected translation of one slot: a seed stays a seed, any
      other slot names the column stored in its node. */
  function CloudEntry(nodes: seq<Node>, e: Entry): Entry
    requires e == Sentinel || 0 <= e.index < |nodes|
  {
    if e == Sentinel then Sentinel else Entry(nodes[e.index].index, e.value)
  }

  /** The corrected translation of a heap: slot by slot, distances kept. */
  function CloudEntries(nodes: seq<Node>, h: seq<Entry>): (r: seq<Entry>)
    requires Translatable(h, nodes)
    ensures |r| == |h|
    ensures Values(r) == Values(h)
    ensures forall i :: 0 <= i < |h| ==> r[i] == CloudEntry(nodes, h[i])
  {
    seq(|h|, i requires 0 <= i < |h| => CloudEntry(nodes, h[i]))
  }

  /** Heap slots that name nodes holding points of the cloud become slots
      naming those columns, at the same distances. */
  lemma TranslateAnswers(h: seq<Entry>, nodes: seq<Node>, cloud: Cloud, q: Vector, allowSelfMatch: bool,
                         all: seq<BuildPoint>)
    requires NodeAnswers(h, nodes, q, allowSelfMatch, all)
    requires forall x :: x in all ==> x.index < |cloud| && x.pos == cloud[x.index]
    ensures Translatable(h, nodes)
    ensures Answers(CloudEntries(nodes, h), cloud, q, allowSelfMatch)
  {
    var r := CloudEntries(nodes, h);
    forall e | e in r
      ensures AnswerEntry(e, cloud, q, allowSelfMatch)
    {
      var i :| 0 <= i < |r| && r[i] == e;
      assert NodeEntry(h[i], nodes, q, allowSelfMatch, all);
      if h[i] != Sentinel {
        var x := BuildPoint(nodes[h[i].index].pos, nodes[h[i].index].index);
        assert x in all;
      }
    }
  }

  /** The translation keeps the distances, hence the value bag and the
      order. */
  lemma TranslateKeepsValues(h: seq<Entry>, nodes: seq<Node>)
    requires Translatable(h, nodes)
    ensures ValueBag(CloudEntries(nodes, h)) == ValueBag(h)
    ensures Sorted(h) ==> Sorted(CloudEntries(nodes, h))
  {
    var r := CloudEntries(nodes, h);
    if Sorted(h) {
      forall i, j | 0 <= i < j < |r|
        ensures Le(r[i].value, r[j].value)
      {
        assert r[i].value == Values(r)[i] == Values(h)[i] == h[i].value;
        assert r[j].value == Values(r)[j] == Values(h)[j] == h[j].value;
      }
    }
  }

  /** The code and the corrected translation agree on every slot a point
      filled; on a slot still holding its seed the code reports the column
      of node 0, the root, where the corrected translation keeps the seed's
      index 0. */
  lemma AsWrittenVersusCorrected(h: seq<Entry>, nodes: seq<Node>)
    requires Translatable(h, nodes) && |nodes| > 0
    ensures forall i :: 0 <= i < |h| ==> 0 <= GetIndexes(h)[i] < |nodes|
    ensures forall i :: 0 <= i < |h| && h[i] != Sentinel ==>
              CloudIndexesAsWritten(nodes, GetIndexes(h))[i] == GetIndexes(CloudEntries(nodes, h))[i]
    ensures forall i :: 0 <= i < |h| && h[i] == Sentinel ==>
              CloudIndexesAsWritten(nodes, GetIndexes(h))[i] == nodes[0].index
              && GetIndexes(CloudEntries(nodes, h))[i] == 0
  {
    forall i | 0 <= i < |h|
      ensures 0 <= GetIndexes(h)[i] < |nodes|
    {
      assert h[i] in h;
    }
  }

  /** Two slots whose corrected translation is column 1 and then a seed,
      in a tree whose root holds column 1: the corrected translation
      reports columns 1 and 0, the code column 1 twice. */
  lemma AsWrittenPair(h: seq<Entry>, nodes: seq<Node>)
    requires |h| == 2 && |nodes| > 0 && Translatable(h, nodes)
    requires forall e :: e in h ==> e == Sentinel || e.value.Finite?
    requires nodes[0].index == 1
    requires CloudEntries(nodes, h) == [Entry(1, Finite(1.0)), Sentinel]
    ensures forall i :: 0 <= i < |h| ==> 0 <= GetIndexes(h)[i] < |nodes|
    ensures GetIndexes(CloudEntries(nodes, h)) == [1, 0]
    ensures CloudIndexesAsWritten(nodes, GetIndexes(h)) == [1, 1]
  {
    AsWrittenVersusCorrected(h, nodes);
    assert CloudEntry(nodes, h[0]) == Entry(1, Finite(1.0));
    assert CloudEntry(nodes, h[1]) == Sentinel;
    assert h[0] in h && h[1] in h;
    assert h[1] == Sentinel;
  }
}
