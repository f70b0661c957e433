/** Inputs that the algorithms cannot tell apart: other representations of a weight, and relationships to absent
    nodes. */
module InputForms {
  import opened Graphs
  import opened NewmanModularity
  import opened LouvainWeights
  import opened LabelPropagation

  // ---------- representations of a weight ----------

  /** The same relationship with its weight as a float64, or without a weight if that is not a number. */
  function AsFloat(r: Relationship): Relationship
  {
    if "weight" !in r.properties then r
    else
      match r.properties["weight"]
      case Float64(_) => r
      case Int64(i) => r.(properties := r.properties["weight" := Float64(i as real)])
      case Int(i) => r.(properties := r.properties["weight" := Float64(i as real)])
      case Other => r.(properties := r.properties - {"weight"})
  }

  lemma FloatWeight(r: Relationship)
    ensures RelWeight(AsFloat(r)) == RelWeight(r)
    ensures "weight" in AsFloat(r).properties ==> AsFloat(r).properties["weight"] == Float64(RelWeight(r))
    ensures AsFloat(r).startNode == r.startNode && AsFloat(r).endNode == r.endNode
  {}

  function AllFloat(rels: seq<Relationship>): (floats: seq<Relationship>)
    ensures |floats| == |rels| && forall k :: 0 <= k < |rels| ==> floats[k] == AsFloat(rels[k])
  {
    seq(|rels|, k requires 0 <= k < |rels| => AsFloat(rels[k]))
  }

  /** The same endpoints and weights, one by one. */
  ghost predicate SameReading(rels: seq<Relationship>, sels: seq<Relationship>)
  {
    |rels| == |sels| && forall k :: 0 <= k < |rels| ==>
      rels[k].startNode == sels[k].startNode && rels[k].endNode == sels[k].endNode &&
        RelWeight(rels[k]) == RelWeight(sels[k])
  }

  lemma {:induction false} SameGraph(nodes: seq<int>, rels: seq<Relationship>, sels: seq<Relationship>)
    requires SameReading(rels, sels)
    ensures Edges(nodes, rels) == Edges(nodes, sels) && PresentEdges(nodes, rels) == PresentEdges(nodes, sels)
    ensures PresentDegrees(nodes, rels) == PresentDegrees(nodes, sels)
    ensures BothLists(nodes, rels) == BothLists(nodes, sels) && BothWeights(nodes, rels) == BothWeights(nodes, sels)
  {
    if |rels| > 0 { SameGraph(nodes, rels[..|rels| - 1], sels[..|rels| - 1]); }
  }

  /** So the graphs of all algorithms are those of the same numbers as floats. */
  lemma FloatGraph(nodes: seq<int>, rels: seq<Relationship>)
    ensures Edges(nodes, AllFloat(rels)) == Edges(nodes, rels)
    ensures PresentEdges(nodes, AllFloat(rels)) == PresentEdges(nodes, rels)
    ensures PresentDegrees(nodes, AllFloat(rels)) == PresentDegrees(nodes, rels)
    ensures BothWeights(nodes, AllFloat(rels)) == BothWeights(nodes, rels)
  {
    forall k | 0 <= k < |rels|
      ensures RelWeight(AsFloat(rels[k])) == RelWeight(rels[k])
    {
      FloatWeight(rels[k]);
    }
    SameGraph(nodes, AllFloat(rels), rels);
  }

  // ---------- relationships to absent nodes ----------

  function Present(nodes: seq<int>, rels: seq<Relationship>): (kept: seq<Relationship>)
    ensures EndpointsPresent(nodes, kept)
  {
    if |rels| == 0 then []
    else
      var kept, r := Present(nodes, rels[..|rels| - 1]), rels[|rels| - 1];
      if r.startNode in nodes && r.endNode in nodes then kept + [r] else kept
  }

  /** They do not count, except in the degrees of FastGreedy. */
  lemma {:induction false} AbsentDropped(nodes: seq<int>, rels: seq<Relationship>)
    ensures BothLists(nodes, Present(nodes, rels)) == BothLists(nodes, rels)
    ensures OutLists(nodes, Present(nodes, rels)) == OutLists(nodes, rels)
    ensures BothWeights(nodes, Present(nodes, rels)) == BothWeights(nodes, rels)
    ensures PresentEdges(nodes, Present(nodes, rels)) == PresentEdges(nodes, rels)
  {
    if |rels| > 0 {
      var before, r := rels[..|rels| - 1], rels[|rels| - 1];
      AbsentDropped(nodes, before);
      assert (Present(nodes, before) + [r])[..|Present(nodes, before)|] == Present(nodes, before);
    }
  }

  lemma PresentMore(idx: map<int, int>, deg: seq<real>, more: seq<real>, id: int, r: Relationship, i: int)
    requires forall x :: x in idx ==> 0 <= idx[x] < |deg|
    requires |more| == |deg| + 1 && id !in idx && 0 <= i < |deg| && forall k :: 0 <= k < |deg| ==> more[k] == deg[k]
    ensures AddPresent(idx[id := |deg|], more, r)[i] == AddPresent(idx, deg, r)[i]
  {}

  /** There a node that is added to the list leaves the degrees of the others alone, so each present endpoint counts. */
  lemma {:induction false} DegreesOfMore(nodes: seq<int>, id: int, rels: seq<Relationship>)
    requires id !in nodes
    ensures forall i :: 0 <= i < |nodes| ==> PresentDegrees(nodes + [id], rels)[i] == PresentDegrees(nodes, rels)[i]
  {
    if |rels| > 0 {
      var before, r := rels[..|rels| - 1], rels[|rels| - 1];
      DegreesOfMore(nodes, id, before);
      MoreIndex(nodes, id);
      forall i | 0 <= i < |nodes|
        ensures PresentDegrees(nodes + [id], rels)[i] == PresentDegrees(nodes, rels)[i]
      {
        PresentMore(NodeIndex(nodes), PresentDegrees(nodes, before), PresentDegrees(nodes + [id], before), id, r, i);
      }
    }
  }

  lemma MoreIndex(nodes: seq<int>, id: int)
    requires id !in nodes
    ensures NodeIndex(nodes + [id]) == NodeIndex(nodes)[id := |nodes|]
  {
    assert (nodes + [id])[..|nodes|] == nodes;
  }

  /** An absent endpoint is read as the first position. */
  function AtFirst(nodes: seq<int>, r: Relationship): Relationship
    requires |nodes| > 0
  {
    r.(startNode := if r.startNode in nodes then r.startNode else nodes[0],
       endNode := if r.endNode in nodes then r.endNode else nodes[0])
  }

  lemma FirstLook(nodes: seq<int>, id: int)
    requires |nodes| > 0 && nodes[0] in nodes && NodeIndex(nodes)[nodes[0]] == 0
    ensures Look(NodeIndex(nodes), id) == Look(NodeIndex(nodes), if id in nodes then id else nodes[0])
  {}

  lemma AbsentIsFirst(nodes: seq<int>, r: Relationship)
    requires |nodes| > 0 && nodes[0] in nodes && NodeIndex(nodes)[nodes[0]] == 0
    ensures EdgeOf(nodes, r) == EdgeOf(nodes, AtFirst(nodes, r))
    ensures AtFirst(nodes, r).startNode in nodes && AtFirst(nodes, r).endNode in nodes
  {
    FirstLook(nodes, r.startNode);
    FirstLook(nodes, r.endNode);
  }
}
