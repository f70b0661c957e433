/** Graphs given by a few edges: the relationships that make them, and sums over the edges. */
module SmallGraphs {
  import opened Graphs
  import opened Counting
  import opened Partitions
  import opened LouvainWeights

  function Weighted(a: int, b: int, w: real): (r: Relationship)
    ensures RelWeight(r) == w
  {
    Relationship(a, b, map["weight" := Float64(w)])
  }

  /** The relationships that give these edges. */
  function RelsOf(nodes: seq<int>, es: seq<Edge>): (rels: seq<Relationship>)
    requires forall k :: 0 <= k < |es| ==> 0 <= es[k].a < |nodes| && 0 <= es[k].b < |nodes|
    ensures |rels| == |es|
    ensures forall k :: 0 <= k < |es| ==> rels[k] == Weighted(nodes[es[k].a], nodes[es[k].b], es[k].w)
  {
    seq(|es|, k requires 0 <= k < |es| => Weighted(nodes[es[k].a], nodes[es[k].b], es[k].w))
  }

  lemma OneEdge(nodes: seq<int>, e: Edge)
    requires NoRepeats(nodes) && 0 <= e.a < |nodes| && 0 <= e.b < |nodes|
    ensures nodes[e.a] in nodes && nodes[e.b] in nodes
    ensures NewmanModularity.EdgeOf(nodes, Weighted(nodes[e.a], nodes[e.b], e.w)) == e
  {
    DistinctIndex(nodes, e.a);
    DistinctIndex(nodes, e.b);
  }

  lemma PresentAdd(nodes: seq<int>, rels: seq<Relationship>, r: Relationship)
    requires r.startNode in nodes && r.endNode in nodes
    ensures PresentEdges(nodes, rels + [r]) == PresentEdges(nodes, rels) + [NewmanModularity.EdgeOf(nodes, r)]
  {
    assert (rels + [r])[..|rels|] == rels;
  }

  lemma RelsOfLast(nodes: seq<int>, es: seq<Edge>, e: Edge)
    requires InRange(es, |nodes|) && 0 <= e.a < |nodes| && 0 <= e.b < |nodes|
    ensures RelsOf(nodes, es + [e]) == RelsOf(nodes, es) + [Weighted(nodes[e.a], nodes[e.b], e.w)]
  {}

  lemma RelsOfNext(nodes: seq<int>, es: seq<Edge>, e: Edge)
    requires NoRepeats(nodes) && InRange(es, |nodes|) && 0 <= e.a < |nodes| && 0 <= e.b < |nodes|
    requires PresentEdges(nodes, RelsOf(nodes, es)) == es
    ensures PresentEdges(nodes, RelsOf(nodes, es + [e])) == es + [e]
  {
    OneEdge(nodes, e);
    RelsOfLast(nodes, es, e);
    PresentAdd(nodes, RelsOf(nodes, es), Weighted(nodes[e.a], nodes[e.b], e.w));
  }

  lemma {:induction false} RelsOfEdges(nodes: seq<int>, es: seq<Edge>)
    requires NoRepeats(nodes) && InRange(es, |nodes|)
    ensures PresentEdges(nodes, RelsOf(nodes, es)) == es
  {
    if |es| > 0 {
      var before, e := es[..|es| - 1], es[|es| - 1];
      assert es == before + [e];
      RelsOfEdges(nodes, before);
      RelsOfNext(nodes, before, e);
    }
  }

  /** The sum of f over the edges. */
  ghost function Tally(es: seq<Edge>, f: Edge -> real): real
  {
    if |es| == 0 then 0.0 else Tally(es[..|es| - 1], f) + f(es[|es| - 1])
  }

  ghost function DegreeOf(i: int): Edge -> real
  {
    (e: Edge) => (if e.a == i then e.w else 0.0) + (if e.b == i then e.w else 0.0)
  }

  ghost function LoopOf(i: int): Edge -> real
  {
    (e: Edge) => if e.a == i && e.b == i then e.w else 0.0
  }

  ghost predicate Holds(c: seq<int>, i: int, l: int)
  {
    0 <= i < |c| && c[i] == l
  }

  ghost function VolumeOf(c: seq<int>, l: int): Edge -> real
  {
    (e: Edge) => (if Holds(c, e.a, l) then e.w else 0.0) + (if Holds(c, e.b, l) then e.w else 0.0)
  }

  ghost function LinksOf(c: seq<int>, i: int, l: int): Edge -> real
  {
    (e: Edge) => (if e.a == i && e.b != i && Holds(c, e.b, l) then e.w else 0.0)
               + (if e.b == i && e.a != i && Holds(c, e.a, l) then e.w else 0.0)
  }

  lemma {:induction false} Tallies(es: seq<Edge>, c: seq<int>, i: int, l: int)
    requires InRange(es, |c|)
    ensures Total(es) == Tally(es, (e: Edge) => e.w) && Degree(es, i) == Tally(es, DegreeOf(i)) &&
            Loops(es, i) == Tally(es, LoopOf(i))
    ensures Volume(es, c, l) == Tally(es, VolumeOf(c, l)) && Links(es, c, i, l) == Tally(es, LinksOf(c, i, l))
  {
    if |es| > 0 { Tallies(es[..|es| - 1], c, i, l); }
  }

  lemma TallyNext(es: seq<Edge>, n: nat, f: Edge -> real)
    requires n < |es|
    ensures Tally(es[..n + 1], f) == Tally(es[..n], f) + f(es[n])
  {
    assert es[..n + 1][..n] == es[..n];
  }

  lemma TallyThree(es: seq<Edge>, f: Edge -> real)
    requires |es| == 3
    ensures Tally(es, f) == f(es[0]) + f(es[1]) + f(es[2])
  {
    TallyNext(es, 0, f);
    TallyNext(es, 1, f);
    TallyNext(es, 2, f);
    assert es[..0] == [] && es[..3] == es;
  }

  lemma TallyFive(es: seq<Edge>, f: Edge -> real)
    requires |es| == 5
    ensures Tally(es, f) == f(es[0]) + f(es[1]) + f(es[2]) + f(es[3]) + f(es[4])
  {
    TallyThree(es[..3], f);
    TallyNext(es, 3, f);
    TallyNext(es, 4, f);
    assert es[..5] == es;
  }

  lemma {:induction false} AdjacentIff(es: seq<Edge>, i: int, j: int)
    ensures Adjacent(es, i, j) <==> exists k :: 0 <= k < |es| && Meets(es[k], i, j)
  {
    if |es| > 0 {
      var before := es[..|es| - 1];
      AdjacentIff(before, i, j);
      if Adjacent(before, i, j) {
        var k :| 0 <= k < |before| && Meets(before[k], i, j);
        assert Meets(es[k], i, j);
      }
      if k :| 0 <= k < |es| && Meets(es[k], i, j) {
        if k < |before| { assert Meets(before[k], i, j); }
      }
    }
  }
}
