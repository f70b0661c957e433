/** Node and relationship lists, and the index graphs that the community functions build from them. */
module Graphs {
  import opened Counting
  import opened Walks

  datatype Value = Float64(r: real) | Int64(i: int) | Int(n: int) | Other

  /** The end of a call that may panic. */
  datatype Outcome<T> = Panic | Done(value: T)

  /** A nil property map is modelled as the empty one. */
  datatype Relationship = Relationship(startNode: int, endNode: int, properties: map<string, Value>)

  /** A relationship without properties. */
  function Link(a: int, b: int): Relationship
  {
    Relationship(a, b, map[])
  }

  datatype NodeResult = NodeResult(node: int, number: int)

  function RelWeight(r: Relationship): (w: real)
    ensures w != 1.0 ==> "weight" in r.properties && !r.properties["weight"].Other?
  {
    if "weight" !in r.properties then 1.0
    else
      match r.properties["weight"]
      case Float64(x) => x
      case Int64(i) => i as real
      case Int(i) => i as real
      case Other => 1.0
  }

  /** Maps an ID to the last position that holds it. */
  function NodeIndex(nodes: seq<int>): (m: map<int, int>)
    ensures forall id :: id in m <==> id in nodes
    ensures forall id :: id in m ==> 0 <= m[id] < |nodes| && nodes[m[id]] == id
    ensures forall id, j :: id in m && m[id] < j < |nodes| ==> nodes[j] != id
  {
    if |nodes| == 0 then map[]
    else
      var last := |nodes| - 1;
      assert nodes == nodes[..last] + [nodes[last]];
      NodeIndex(nodes[..last])[nodes[last] := last]
  }

  lemma DistinctIndex(nodes: seq<int>, i: int)
    requires NoRepeats(nodes) && 0 <= i < |nodes|
    ensures nodes[i] in NodeIndex(nodes) && NodeIndex(nodes)[nodes[i]] == i
  {
    var j := NodeIndex(nodes)[nodes[i]];
    assert nodes[j] == nodes[i];
  }

  /** r runs from position i to position j. */
  ghost predicate Joins(nodes: seq<int>, r: Relationship, i: int, j: int)
  {
    && r.startNode in nodes && r.endNode in nodes
    && NodeIndex(nodes)[r.startNode] == i && NodeIndex(nodes)[r.endNode] == j
  }

  ghost predicate EndpointsPresent(nodes: seq<int>, rels: seq<Relationship>)
  {
    forall r :: r in rels ==> r.startNode in nodes && r.endNode in nodes
  }

  /** No relationship is a self-loop and no two join the same two nodes. */
  ghost predicate SimpleRels(nodes: seq<int>, rels: seq<Relationship>)
  {
    && (forall a, i :: 0 <= a < |rels| ==> !Joins(nodes, rels[a], i, i))
    && (forall a, b, i, j :: 0 <= a < b < |rels| && Joins(nodes, rels[a], i, j) ==>
          !Joins(nodes, rels[b], i, j) && !Joins(nodes, rels[b], j, i))
  }

  lemma SimplePrefix(nodes: seq<int>, rels: seq<Relationship>)
    requires SimpleRels(nodes, rels) && |rels| > 0
    ensures SimpleRels(nodes, rels[..|rels| - 1])
  {
    var before := rels[..|rels| - 1];
    forall a, i | 0 <= a < |before|
      ensures !Joins(nodes, before[a], i, i)
    {
      assert before[a] == rels[a];
    }
    forall a, b, i, j | 0 <= a < b < |before| && Joins(nodes, before[a], i, j)
      ensures !Joins(nodes, before[b], i, j) && !Joins(nodes, before[b], j, i)
    {
      assert before[a] == rels[a] && before[b] == rels[b];
    }
  }

  lemma PresentPrefix(nodes: seq<int>, rels: seq<Relationship>)
    requires EndpointsPresent(nodes, rels) && |rels| > 0
    ensures EndpointsPresent(nodes, rels[..|rels| - 1])
    ensures rels[|rels| - 1].startNode in nodes && rels[|rels| - 1].endNode in nodes
  {
    assert rels[|rels| - 1] in rels;
  }

  ghost predicate Arc(nodes: seq<int>, rels: seq<Relationship>, i: int, j: int)
  {
    exists r :: r in rels && Joins(nodes, r, i, j)
  }

  function AddArc<T>(g: seq<seq<T>>, i: int, x: T): seq<seq<T>>
    requires 0 <= i < |g|
  {
    g[i := g[i] + [x]]
  }

  /** The lists of successors, in the order of the relationships; one with a missing endpoint is skipped. */
  function OutLists(nodes: seq<int>, rels: seq<Relationship>): (g: seq<seq<int>>)
    ensures |g| == |nodes|
  {
    if |rels| == 0 then seq(|nodes|, _ => [])
    else
      var g := OutLists(nodes, rels[..|rels| - 1]);
      var r, idx := rels[|rels| - 1], NodeIndex(nodes);
      if r.startNode in idx && r.endNode in idx then AddArc(g, idx[r.startNode], idx[r.endNode]) else g
  }

  /** The lists of neighbours in either direction. */
  function BothLists(nodes: seq<int>, rels: seq<Relationship>): (g: seq<seq<int>>)
    ensures |g| == |nodes|
  {
    if |rels| == 0 then seq(|nodes|, _ => [])
    else
      var g := BothLists(nodes, rels[..|rels| - 1]);
      var r, idx := rels[|rels| - 1], NodeIndex(nodes);
      if r.startNode in idx && r.endNode in idx then
        AddArc(AddArc(g, idx[r.startNode], idx[r.endNode]), idx[r.endNode], idx[r.startNode])
      else g
  }

  lemma ArcLast(nodes: seq<int>, rels: seq<Relationship>, i: int, j: int)
    requires |rels| > 0
    ensures Arc(nodes, rels, i, j) <==>
            Arc(nodes, rels[..|rels| - 1], i, j) || Joins(nodes, rels[|rels| - 1], i, j)
  {
    var last := |rels| - 1;
    assert rels == rels[..last] + [rels[last]];
    if Arc(nodes, rels[..last], i, j) {
      var r :| r in rels[..last] && Joins(nodes, r, i, j);
      assert r in rels;
    }
    if Joins(nodes, rels[last], i, j) {
      assert rels[last] in rels;
    }
  }

  lemma {:induction false} OutListsArcs(nodes: seq<int>, rels: seq<Relationship>)
    ensures WellFormed(OutLists(nodes, rels))
    ensures forall i, j :: 0 <= i < |nodes| ==> (j in OutLists(nodes, rels)[i] <==> Arc(nodes, rels, i, j))
  {
    var g := OutLists(nodes, rels);
    if |rels| > 0 {
      OutListsArcs(nodes, rels[..|rels| - 1]);
    }
    forall i, j | 0 <= i < |nodes|
      ensures j in g[i] <==> Arc(nodes, rels, i, j)
    {
      if |rels| > 0 { ArcLast(nodes, rels, i, j); }
    }
  }

  lemma AddBothMembers(g: seq<seq<int>>, a: int, b: int, i: int, j: int)
    requires 0 <= a < |g| && 0 <= b < |g| && 0 <= i < |g|
    ensures j in AddArc(AddArc(g, a, b), b, a)[i] <==> j in g[i] || (i == a && j == b) || (i == b && j == a)
  {
    var once := AddArc(g, a, b);
    assert j in once[i] <==> j in g[i] || (i == a && j == b);
    assert AddArc(once, b, a)[i] == if i == b then once[i] + [a] else once[i];
  }

  lemma BothListsLast(nodes: seq<int>, rels: seq<Relationship>, i: int, j: int)
    requires |rels| > 0 && 0 <= i < |nodes|
    ensures j in BothLists(nodes, rels)[i] <==>
            || j in BothLists(nodes, rels[..|rels| - 1])[i]
            || Joins(nodes, rels[|rels| - 1], i, j) || Joins(nodes, rels[|rels| - 1], j, i)
  {
    var r, idx := rels[|rels| - 1], NodeIndex(nodes);
    if r.startNode in idx && r.endNode in idx {
      AddBothMembers(BothLists(nodes, rels[..|rels| - 1]), idx[r.startNode], idx[r.endNode], i, j);
    }
  }

  lemma {:induction false} BothListsMembers(nodes: seq<int>, rels: seq<Relationship>, i: int, j: int)
    requires 0 <= i < |nodes|
    ensures j in BothLists(nodes, rels)[i] <==> Arc(nodes, rels, i, j) || Arc(nodes, rels, j, i)
  {
    if |rels| > 0 {
      BothListsMembers(nodes, rels[..|rels| - 1], i, j);
      BothListsLast(nodes, rels, i, j);
      ArcLast(nodes, rels, i, j);
      ArcLast(nodes, rels, j, i);
    }
  }

  lemma ArcInRange(nodes: seq<int>, rels: seq<Relationship>, i: int, j: int)
    requires Arc(nodes, rels, i, j)
    ensures 0 <= i < |nodes| && 0 <= j < |nodes|
  {}

  lemma BothListsArcs(nodes: seq<int>, rels: seq<Relationship>)
    ensures WellFormed(BothLists(nodes, rels)) && Symmetric(Adj(BothLists(nodes, rels)))
    ensures forall i, j :: 0 <= i < |nodes| ==>
              (j in BothLists(nodes, rels)[i] <==> Arc(nodes, rels, i, j) || Arc(nodes, rels, j, i))
  {
    var g := BothLists(nodes, rels);
    forall i, j {:trigger j in g[i]} | 0 <= i < |nodes|
      ensures j in g[i] <==> Arc(nodes, rels, i, j) || Arc(nodes, rels, j, i)
      ensures j in g[i] ==> 0 <= j < |nodes|
    {
      BothListsMembers(nodes, rels, i, j);
      if Arc(nodes, rels, i, j) { ArcInRange(nodes, rels, i, j); }
      if Arc(nodes, rels, j, i) { ArcInRange(nodes, rels, j, i); }
    }
  }

  // ---------- the loops that build them ----------

  method BuildNodeIndex(nodes: seq<int>) returns (m: map<int, int>)
    ensures m == NodeIndex(nodes)
  {
    m := map[];
    for i := 0 to |nodes|
      invariant m == NodeIndex(nodes[..i])
    {
      assert nodes[..i + 1][..i] == nodes[..i];
      m := m[nodes[i] := i];
    }
    assert nodes[..|nodes|] == nodes;
  }

  method BuildOutNeighbors(nodes: seq<int>, rels: seq<Relationship>) returns (g: seq<seq<int>>)
    ensures g == OutLists(nodes, rels)
  {
    var nodeIndex := BuildNodeIndex(nodes);
    g := seq(|nodes|, _ => []);
    for k := 0 to |rels|
      invariant g == OutLists(nodes, rels[..k])
    {
      assert rels[..k + 1][..k] == rels[..k];
      var rel := rels[k];
      if rel.startNode !in nodeIndex || rel.endNode !in nodeIndex { continue; }
      var startIdx, endIdx := nodeIndex[rel.startNode], nodeIndex[rel.endNode];
      g := g[startIdx := g[startIdx] + [endIdx]];
    }
    assert rels[..|rels|] == rels;
  }

  method BuildNeighbors(nodes: seq<int>, rels: seq<Relationship>) returns (g: seq<seq<int>>)
    ensures g == BothLists(nodes, rels)
  {
    var nodeIndex := BuildNodeIndex(nodes);
    g := seq(|nodes|, _ => []);
    for k := 0 to |rels|
      invariant g == BothLists(nodes, rels[..k])
    {
      assert rels[..k + 1][..k] == rels[..k];
      var rel := rels[k];
      if rel.startNode !in nodeIndex || rel.endNode !in nodeIndex { continue; }
      var startIdx, endIdx := nodeIndex[rel.startNode], nodeIndex[rel.endNode];
      g := g[startIdx := g[startIdx] + [endIdx]];
      g := g[endIdx := g[endIdx] + [startIdx]];
    }
    assert rels[..|rels|] == rels;
  }

  function Numbers(result: seq<NodeResult>): seq<int>
  {
    seq(|result|, i requires 0 <= i < |result| => result[i].number)
  }

  /** Pairs every node with its number. */
  method Label(nodes: seq<int>, ids: seq<int>) returns (result: seq<NodeResult>)
    requires |nodes| == |ids|
    ensures |result| == |nodes| && Numbers(result) == ids
    ensures forall i :: 0 <= i < |nodes| ==> result[i].node == nodes[i]
  {
    result := [];
    for i := 0 to |nodes|
      invariant |result| == i
      invariant forall k :: 0 <= k < i ==> result[k] == NodeResult(nodes[k], ids[k])
    {
      result := result + [NodeResult(nodes[i], ids[i])];
    }
  }

  ghost predicate NonNegativeWeights(rels: seq<Relationship>)
  {
    forall r :: r in rels ==> RelWeight(r) >= 0.0
  }
}
