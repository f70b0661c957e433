/** The weighted graph as FastGreedy reads it, Newman's modularity, and what a merge does to it. */
module NewmanModularity {
  import opened Graphs
  import opened Partitions

  // ---------- the weighted graph as the code reads it ----------

  /** Looking up a missing ID in nodeIndex gives 0. */
  function Look(m: map<int, int>, id: int): int
  {
    if id in m then m[id] else 0
  }

  function EdgeOf(nodes: seq<int>, r: Relationship): Edge
  {
    Edge(Look(NodeIndex(nodes), r.startNode), Look(NodeIndex(nodes), r.endNode), RelWeight(r))
  }

  function Edges(nodes: seq<int>, rels: seq<Relationship>): (es: seq<Edge>)
    ensures |es| == |rels| && forall k :: 0 <= k < |rels| ==> es[k] == EdgeOf(nodes, rels[k])
    ensures |nodes| > 0 ==> InRange(es, |nodes|)
  {
    seq(|rels|, k requires 0 <= k < |rels| => EdgeOf(nodes, rels[k]))
  }

  lemma EdgesLast(nodes: seq<int>, rels: seq<Relationship>)
    requires |rels| > 0
    ensures Edges(nodes, rels)[..|rels| - 1] == Edges(nodes, rels[..|rels| - 1])
    ensures Edges(nodes, rels)[|rels| - 1] == EdgeOf(nodes, rels[|rels| - 1])
  {}

  ghost predicate HasWeight(r: Relationship)
  {
    "weight" in r.properties && !r.properties["weight"].Other?
  }

  /** Without a number called weight every relationship counts once, so the total weight is their number. */
  lemma {:induction false} UnitWeights(nodes: seq<int>, rels: seq<Relationship>)
    requires forall r :: r in rels ==> !HasWeight(r)
    ensures Total(Edges(nodes, rels)) == |rels| as real
  {
    if |rels| > 0 {
      var before, r := rels[..|rels| - 1], rels[|rels| - 1];
      assert r in rels && forall q :: q in before ==> q in rels;
      UnitWeights(nodes, before);
      EdgesLast(nodes, rels);
    }
  }

  function AddAt(deg: seq<real>, i: int, w: real): seq<real>
    requires 0 <= i < |deg|
  {
    deg[i := deg[i] + w]
  }

  /** A relationship counts at those of its endpoints that are present. */
  function AddPresent(idx: map<int, int>, deg: seq<real>, r: Relationship): (after: seq<real>)
    requires forall id :: id in idx ==> 0 <= idx[id] < |deg|
    ensures |after| == |deg|
  {
    var deg1 := if r.startNode in idx then AddAt(deg, idx[r.startNode], RelWeight(r)) else deg;
    if r.endNode in idx then AddAt(deg1, idx[r.endNode], RelWeight(r)) else deg1
  }

  function PresentDegrees(nodes: seq<int>, rels: seq<Relationship>): (deg: seq<real>)
    ensures |deg| == |nodes|
  {
    if |rels| == 0 then seq(|nodes|, _ => 0.0)
    else AddPresent(NodeIndex(nodes), PresentDegrees(nodes, rels[..|rels| - 1]), rels[|rels| - 1])
  }

  /** One step of either accumulation. */
  function AddEdge(deg: seq<real>, e: Edge): seq<real>
    requires 0 <= e.a < |deg| && 0 <= e.b < |deg|
  {
    var deg1 := deg[e.a := deg[e.a] + e.w];
    deg1[e.b := deg1[e.b] + e.w]
  }

  lemma DegreesStep(es: seq<Edge>, n: nat)
    requires InRange(es, n) && |es| > 0
    ensures Degrees(es, n) == AddEdge(Degrees(es[..|es| - 1], n), es[|es| - 1])
  {}

  lemma PresentStep(nodes: seq<int>, rels: seq<Relationship>)
    requires |rels| > 0 && rels[|rels| - 1].startNode in nodes && rels[|rels| - 1].endNode in nodes
    ensures PresentDegrees(nodes, rels) ==
            AddEdge(PresentDegrees(nodes, rels[..|rels| - 1]), EdgeOf(nodes, rels[|rels| - 1]))
  {}

  lemma {:induction false} PresentDegreesAre(nodes: seq<int>, rels: seq<Relationship>)
    requires EndpointsPresent(nodes, rels) && |nodes| > 0
    ensures PresentDegrees(nodes, rels) == Degrees(Edges(nodes, rels), |nodes|)
  {
    if |rels| > 0 {
      PresentPrefix(nodes, rels);
      PresentDegreesAre(nodes, rels[..|rels| - 1]);
      EdgesLast(nodes, rels);
      PresentStep(nodes, rels);
      DegreesStep(Edges(nodes, rels), |nodes|);
    }
  }

  lemma PresentPrefix(nodes: seq<int>, rels: seq<Relationship>)
    requires EndpointsPresent(nodes, rels) && |rels| > 0
    ensures EndpointsPresent(nodes, rels[..|rels| - 1])
    ensures rels[|rels| - 1].startNode in nodes && rels[|rels| - 1].endNode in nodes
  {
    assert rels[|rels| - 1] in rels && forall x :: x in rels[..|rels| - 1] ==> x in rels;
  }

  // ---------- modularity ----------

  /** Newman's modularity from the weight inside communities and the volumes v(0), ..., v(n - 1), where T is
      twice the total weight: the sum over communities of (weight inside) / (T / 2) - (volume / T)^2. */
  ghost function Newman(inside: real, v: int -> real, n: nat, T: real): real
    requires T != 0.0
  {
    2.0 * inside / T - Spread(v, SquaredShare(T), n)
  }

  ghost function SquaredShare(T: real): real -> real
    requires T != 0.0
  {
    volume => (volume / T) * (volume / T)
  }

  /** The modularity of a partition whose labels are positions. */
  ghost function Modularity(es: seq<Edge>, c: seq<int>, T: real): real
    requires InRange(es, |c|) && T != 0.0
  {
    Newman(Intra(es, c), Volumes(es, c), |c|, T)
  }

  /** The deltaQ of the code. */
  function Delta(between: real, volumeI: real, volumeJ: real, T: real): real
    requires T != 0.0
  {
    2.0 * (between / T - (volumeI / T) * (volumeJ / T))
  }

  lemma SquareOfSum(x: real, y: real)
    ensures (x + y) * (x + y) - x * x - y * y == 2.0 * (x * y)
  {}

  lemma DivideSum(x: real, y: real, T: real)
    requires T != 0.0
    ensures (x + y) / T == x / T + y / T
  {}

  lemma TwiceQuotient(x: real, T: real)
    requires T != 0.0
    ensures 2.0 * x / T == 2.0 * (x / T)
  {}

  lemma ShareOfSum(x: real, y: real, T: real)
    requires T != 0.0
    ensures SquaredShare(T)(x + y) - SquaredShare(T)(x) - SquaredShare(T)(y) == 2.0 * ((x / T) * (y / T))
    ensures SquaredShare(T)(0.0) == 0.0
  {
    DivideSum(x, y, T);
    SquareOfSum(x / T, y / T);
  }

  lemma InsideGain(inside: real, between: real, both: real, T: real)
    requires T != 0.0 && both == inside + between
    ensures 2.0 * both / T - 2.0 * inside / T == 2.0 * (between / T)
  {
    TwiceQuotient(both, T);
    TwiceQuotient(inside, T);
    DivideSum(inside, between, T);
  }

  /** The effect of a merge on modularity, from its effect on the weight inside and on the volumes. */
  lemma NewmanGain(inside': real, inside: real, between: real, v': int -> real, v: int -> real, n: nat, l: int, m: int,
                   T: real)
    requires T != 0.0 && 0 <= l < n && 0 <= m < n && l != m && inside' == inside + between
    requires v'(l) == v(l) + v(m) && v'(m) == 0.0
    requires forall k :: 0 <= k < n && k != l && k != m ==> v'(k) == v(k)
    ensures Newman(inside', v', n, T) - Newman(inside, v, n, T) == Delta(between, v(l), v(m), T)
  {
    SpreadTwo(v', v, SquaredShare(T), n, l, m);
    ShareOfSum(v(l), v(m), T);
    InsideGain(inside, between, inside', T);
  }

  /** Merging changes modularity by exactly the computed deltaQ. */
  lemma MergeGain(es: seq<Edge>, c: seq<int>, l: int, m: int, T: real)
    requires InRange(es, |c|) && T != 0.0 && 0 <= l < |c| && 0 <= m < |c| && l != m
    ensures Modularity(es, Merge(c, l, m), T) - Modularity(es, c, T) ==
            Delta(Between(es, c, l, m), Volumes(es, c)(l), Volumes(es, c)(m), T)
  {
    var d := Merge(c, l, m);
    MergeIntra(es, c, l, m);
    forall k
      ensures Volumes(es, d)(k) ==
              if k == l then Volumes(es, c)(l) + Volumes(es, c)(m) else if k == m then 0.0 else Volumes(es, c)(k)
    {
      MergeVolume(es, c, l, m, k);
    }
    NewmanGain(Intra(es, d), Intra(es, c), Between(es, c, l, m), Volumes(es, d), Volumes(es, c), |c|, l, m, T);
  }
}
