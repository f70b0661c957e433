/** The local clustering coefficient, and what its degree counts. */
module Clustering {
  import opened Graphs
  import opened Counting
  import opened Triangles

  /** How often an endpoint of a relationship is at position i; the other endpoint need not be present. */
  function Degree(nodes: seq<int>, rels: seq<Relationship>, i: int): nat
  {
    if |rels| == 0 then 0
    else
      var r, idx := rels[|rels| - 1], NodeIndex(nodes);
      Degree(nodes, rels[..|rels| - 1], i)
        + (if r.startNode in idx && idx[r.startNode] == i then 1 else 0)
        + (if r.endNode in idx && idx[r.endNode] == i then 1 else 0)
  }

  ghost predicate IsAt(nodes: seq<int>, id: int, i: int)
  {
    id in nodes && NodeIndex(nodes)[id] == i
  }

  /** The relationships that start at position i, */
  ghost function Starts(nodes: seq<int>, rels: seq<Relationship>, i: int): set<int>
  {
    set k | k in Range(|rels|) && IsAt(nodes, rels[k].startNode, i)
  }

  /** and those that end there. */
  ghost function Ends(nodes: seq<int>, rels: seq<Relationship>, i: int): set<int>
  {
    set k | k in Range(|rels|) && IsAt(nodes, rels[k].endNode, i)
  }

  lemma SplitLast(s: set<int>, t: set<int>, n: int, last: bool)
    requires n !in t && forall k {:trigger k in s} :: k in s <==> k in t || (k == n && last)
    ensures |s| == |t| + if last then 1 else 0
  {
    var more := if last then {n} else {};
    forall k
      ensures k in s <==> k in t + more
    {}
    assert s == t + more;
  }

  /** The degree counts each of them once, so a self-loop twice. */
  lemma {:induction false} DegreeCounts(nodes: seq<int>, rels: seq<Relationship>, i: int)
    ensures Degree(nodes, rels, i) == |Starts(nodes, rels, i)| + |Ends(nodes, rels, i)|
  {
    if |rels| == 0 {
      assert Starts(nodes, rels, i) == {} && Ends(nodes, rels, i) == {};
    } else {
      var n := |rels| - 1;
      DegreeCounts(nodes, rels[..n], i);
      SplitLast(Starts(nodes, rels, i), Starts(nodes, rels[..n], i), n, IsAt(nodes, rels[n].startNode, i));
      SplitLast(Ends(nodes, rels, i), Ends(nodes, rels[..n], i), n, IsAt(nodes, rels[n].endNode, i));
    }
  }

  // ---------- simple graphs ----------

  lemma LastIsNew(nodes: seq<int>, rels: seq<Relationship>, x: int, y: int)
    requires SimpleRels(nodes, rels) && |rels| > 0 && Links(nodes, rels[|rels| - 1], x, y)
    ensures x != y && !Linked(nodes, rels[..|rels| - 1], x, y)
  {
    var before, last, i, j := rels[..|rels| - 1], rels[|rels| - 1], NodeIndex(nodes)[x], NodeIndex(nodes)[y];
    assert Joins(nodes, last, i, j) || Joins(nodes, last, j, i);
    forall r | r in before
      ensures !Links(nodes, r, x, y)
    {
      var a :| 0 <= a < |before| && before[a] == r;
      assert rels[a] == r && !Joins(nodes, r, i, j) && !Joins(nodes, r, j, i);
    }
  }

  /** Without self-loops and parallel relationships the degree is the number of neighbours. */
  lemma {:induction false} SimpleDegree(nodes: seq<int>, rels: seq<Relationship>, i: int)
    requires EndpointsPresent(nodes, rels) && SimpleRels(nodes, rels) && 0 <= i < |nodes|
    ensures Degree(nodes, rels, i) == |Adjacency(nodes, rels)[i]|
  {
    if |rels| > 0 {
      var before, r := rels[..|rels| - 1], rels[|rels| - 1];
      SimplePrefix(nodes, rels);
      PresentPrefix(nodes, rels);
      SimpleDegree(nodes, before, i);
      NewNeighbour(nodes, rels, i);
    }
  }

  lemma NewNeighbour(nodes: seq<int>, rels: seq<Relationship>, i: int)
    requires EndpointsPresent(nodes, rels) && SimpleRels(nodes, rels) && |rels| > 0 && 0 <= i < |nodes|
    ensures var r := rels[|rels| - 1];
            |Adjacency(nodes, rels)[i]| == |Adjacency(nodes, rels[..|rels| - 1])[i]|
              + (if IsAt(nodes, r.startNode, i) then 1 else 0) + (if IsAt(nodes, r.endNode, i) then 1 else 0)
  {
    var before, r := rels[..|rels| - 1], rels[|rels| - 1];
    PresentPrefix(nodes, rels);
    LastIsNew(nodes, rels, r.startNode, r.endNode);
    LastIsNew(nodes, rels, r.endNode, r.startNode);
    AdjacencyLinks(nodes, before, NodeIndex(nodes)[r.startNode], r.endNode);
    AdjacencyLinks(nodes, before, NodeIndex(nodes)[r.endNode], r.startNode);
  }

  lemma {:induction false} AdjacencyWithinDegree(nodes: seq<int>, rels: seq<Relationship>, i: int)
    requires 0 <= i < |nodes|
    ensures |Adjacency(nodes, rels)[i]| <= Degree(nodes, rels, i)
  {
    if |rels| > 0 {
      AdjacencyWithinDegree(nodes, rels[..|rels| - 1], i);
    }
  }

  function Choose2(n: nat): nat
  {
    n * (n - 1) / 2
  }

  lemma Choose2Step(n: nat)
    requires n > 0
    ensures Choose2(n) == Choose2(n - 1) + (n - 1)
  {
    assert n * (n - 1) == (n - 1) * (n - 2) + 2 * (n - 1);
  }

  lemma {:induction false} Choose2Mono(m: nat, n: nat)
    requires m <= n
    ensures Choose2(m) <= Choose2(n)
    decreases n - m
  {
    if m < n {
      Choose2Step(n);
      Choose2Mono(m, n - 1);
    }
  }

  ghost function AllPairs(a: set<int>): set<(int, int)>
  {
    set x, y | x in a && y in a && x < y :: (x, y)
  }

  ghost function PairsOf(m: int, s: set<int>): set<(int, int)>
  {
    set y | y in s :: (m, y)
  }

  lemma PairsOfSize(m: int, s: set<int>)
    ensures |PairsOf(m, s)| == |s|
  {
    forall y | y in s ensures (m, y) in PairsOf(m, s) {}
    BijectionSize(s, PairsOf(m, s), (y: int) => (m, y), (p: (int, int)) => p.1);
  }

  lemma PairsSplit(a: set<int>, m: int, p: (int, int))
    requires m in a && forall y :: y in a ==> m <= y
    ensures p in AllPairs(a) <==> p in AllPairs(a - {m}) || p in PairsOf(m, a - {m})
    ensures !(p in AllPairs(a - {m}) && p in PairsOf(m, a - {m}))
  {}

  lemma PairsWithLeast(a: set<int>, m: int)
    requires m in a && forall y :: y in a ==> m <= y
    ensures |AllPairs(a)| == |AllPairs(a - {m})| + |a| - 1
  {
    PairsOfSize(m, a - {m});
    forall p
      ensures p in AllPairs(a) <==> p in AllPairs(a - {m}) + PairsOf(m, a - {m})
      ensures !(p in AllPairs(a - {m}) && p in PairsOf(m, a - {m}))
    {
      PairsSplit(a, m, p);
    }
    assert AllPairs(a) == AllPairs(a - {m}) + PairsOf(m, a - {m});
    assert AllPairs(a - {m}) !! PairsOf(m, a - {m});
  }

  lemma {:induction false} AllPairsSize(a: set<int>)
    ensures |AllPairs(a)| == Choose2(|a|)
    decreases |a|
  {
    if a == {} {
      assert AllPairs(a) == {};
    } else {
      LeastExists(a);
      var m :| m in a && forall y :: y in a ==> m <= y;
      PairsWithLeast(a, m);
      AllPairsSize(a - {m});
      Choose2Step(|a|);
    }
  }

  lemma CornersAtMost(nodes: seq<int>, rels: seq<Relationship>, i: int)
    requires 0 <= i < |nodes|
    ensures |Corners(nodes, rels, i)| <= Choose2(Degree(nodes, rels, i))
  {
    var a := Adjacency(nodes, rels)[i];
    SubsetSize(Corners(nodes, rels, i), AllPairs(a));
    AllPairsSize(a);
    AdjacencyWithinDegree(nodes, rels, i);
    Choose2Mono(|a|, Degree(nodes, rels, i));
  }

  /** c is t out of p, and 0 where nothing is possible. */
  ghost predicate IsRatio(c: real, t: nat, p: nat)
  {
    0.0 <= c <= 1.0 && c * (p as real) == t as real && (p == 0 ==> c == 0.0)
  }

  lemma RatioWithinUnit(t: nat, p: nat)
    requires t <= p
    ensures IsRatio(if p > 0 then t as real / p as real else 0.0, t, p)
  {
    if p > 0 {
      var c := t as real / p as real;
      assert c * (p as real) == t as real;
    }
  }

  datatype ClusteringResult = ClusteringResult(node: int, coefficient: real)

  method CountDegrees(nodes: seq<int>, rels: seq<Relationship>) returns (degree: seq<int>)
    ensures |degree| == |nodes| && forall i :: 0 <= i < |nodes| ==> degree[i] == Degree(nodes, rels, i)
  {
    var nodeIndex := BuildNodeIndex(nodes);
    degree := seq(|nodes|, _ => 0);
    for k := 0 to |rels|
      invariant |degree| == |nodes| && forall i :: 0 <= i < |nodes| ==> degree[i] == Degree(nodes, rels[..k], i)
    {
      assert rels[..k + 1][..k] == rels[..k];
      var rel := rels[k];
      if rel.startNode in nodeIndex {
        degree := degree[nodeIndex[rel.startNode] := degree[nodeIndex[rel.startNode]] + 1];
      }
      if rel.endNode in nodeIndex {
        degree := degree[nodeIndex[rel.endNode] := degree[nodeIndex[rel.endNode]] + 1];
      }
    }
    assert rels[..|rels|] == rels;
  }

  ghost predicate IsClustering(nodes: seq<int>, rels: seq<Relationship>, i: int, r: ClusteringResult)
    requires 0 <= i < |nodes|
  {
    r.node == nodes[i] && IsRatio(r.coefficient, |Corners(nodes, rels, i)|, Choose2(Degree(nodes, rels, i)))
  }

  /** The triangles of a node with degree k, out of the k choose 2 that are possible. */
  method Coefficient(triangles: nat, k: nat) returns (coefficient: real)
    requires triangles <= Choose2(k)
    ensures IsRatio(coefficient, triangles, Choose2(k))
  {
    var possibleTriangles := (k * (k - 1)) / 2;
    RatioWithinUnit(triangles, possibleTriangles);
    coefficient := 0.0;
    if possibleTriangles > 0 {
      coefficient := triangles as real / possibleTriangles as real;
    }
  }

  method OneCoefficient(nodes: seq<int>, rels: seq<Relationship>, i: int, tc: NodeResult, k: int)
    returns (r: ClusteringResult)
    requires 0 <= i < |nodes| && tc.node == nodes[i] && tc.number == |Corners(nodes, rels, i)|
    requires k == Degree(nodes, rels, i)
    ensures IsClustering(nodes, rels, i, r)
  {
    CornersAtMost(nodes, rels, i);
    var coefficient := Coefficient(tc.number, k);
    r := ClusteringResult(tc.node, coefficient);
  }

  ghost predicate AreClustering(nodes: seq<int>, rels: seq<Relationship>, result: seq<ClusteringResult>)
  {
    |result| <= |nodes| &&
    forall i {:trigger IsClustering(nodes, rels, i, result[i])} ::
      0 <= i < |result| ==> IsClustering(nodes, rels, i, result[i])
  }

  lemma ClusteringNext(nodes: seq<int>, rels: seq<Relationship>, result: seq<ClusteringResult>, r: ClusteringResult)
    requires AreClustering(nodes, rels, result) && |result| < |nodes| && IsClustering(nodes, rels, |result|, r)
    ensures AreClustering(nodes, rels, result + [r])
  {
    var more := result + [r];
    forall i {:trigger IsClustering(nodes, rels, i, more[i])} | 0 <= i < |more|
      ensures IsClustering(nodes, rels, i, more[i])
    {
      if i < |result| { assert more[i] == result[i] && IsClustering(nodes, rels, i, result[i]); }
    }
  }

  method ClusteringCoefficient(nodes: seq<int>, rels: seq<Relationship>) returns (result: seq<ClusteringResult>)
    ensures |result| == |nodes| && AreClustering(nodes, rels, result)
  {
    var triangleCounts := TriangleCount(nodes, rels);
    var degree := CountDegrees(nodes, rels);
    result := [];
    for i := 0 to |triangleCounts|
      invariant |result| == i && AreClustering(nodes, rels, result)
    {
      var r := OneCoefficient(nodes, rels, i, triangleCounts[i], degree[i]);
      ClusteringNext(nodes, rels, result, r);
      result := result + [r];
    }
  }

  // ---------- when the coefficient is 1 ----------

  /** Any two neighbours are linked. */
  ghost predicate NeighboursLinked(nodes: seq<int>, rels: seq<Relationship>, i: int)
    requires 0 <= i < |nodes|
  {
    forall x, y :: x in Adjacency(nodes, rels)[i] && y in Adjacency(nodes, rels)[i] && x < y ==>
      Linked(nodes, rels, x, y)
  }

  lemma Choose2Strict(m: nat, n: nat)
    requires m <= n && n >= 2
    ensures Choose2(m) == Choose2(n) <==> m == n
  {
    if m < n {
      Choose2Step(n);
      Choose2Mono(m, n - 1);
    }
  }

  lemma AllCorners(nodes: seq<int>, rels: seq<Relationship>, i: int)
    requires 0 <= i < |nodes|
    ensures |Corners(nodes, rels, i)| == Choose2(|Adjacency(nodes, rels)[i]|) <==> NeighboursLinked(nodes, rels, i)
  {
    var a := Adjacency(nodes, rels)[i];
    AllPairsSize(a);
    if |Corners(nodes, rels, i)| == |AllPairs(a)| {
      SameSizeSubset(Corners(nodes, rels, i), AllPairs(a));
      forall x, y | x in a && y in a && x < y
        ensures Linked(nodes, rels, x, y)
      {
        assert (x, y) in AllPairs(a);
      }
    }
    if NeighboursLinked(nodes, rels, i) { assert Corners(nodes, rels, i) == AllPairs(a); }
  }

  lemma RatioOne(c: real, t: nat, p: nat)
    requires IsRatio(c, t, p)
    ensures c == 1.0 <==> t == p > 0
  {}

  lemma OneIff(c: real, t: nat, a: nat, k: nat)
    requires t <= Choose2(a) && a <= k && IsRatio(c, t, Choose2(k))
    ensures c == 1.0 <==> a == k >= 2 && t == Choose2(a)
  {
    RatioOne(c, t, Choose2(k));
    Choose2Mono(a, k);
    if k >= 2 {
      Choose2Strict(a, k);
      Choose2Step(k);
    }
  }

  /** The coefficient is 1 exactly for at least two neighbours that are all linked to each other, none of them by a
      self-loop or more than one relationship with the node. */
  lemma CoefficientOne(nodes: seq<int>, rels: seq<Relationship>, i: int, r: ClusteringResult)
    requires 0 <= i < |nodes| && IsClustering(nodes, rels, i, r)
    ensures r.coefficient == 1.0 <==>
            Degree(nodes, rels, i) == |Adjacency(nodes, rels)[i]| >= 2 && NeighboursLinked(nodes, rels, i)
  {
    var a := Adjacency(nodes, rels)[i];
    SubsetSize(Corners(nodes, rels, i), AllPairs(a));
    AllPairsSize(a);
    AdjacencyWithinDegree(nodes, rels, i);
    AllCorners(nodes, rels, i);
    OneIff(r.coefficient, |Corners(nodes, rels, i)|, |a|, Degree(nodes, rels, i));
  }

  /** So on a simple graph it is 1 exactly for at least two neighbours that are all linked to each other. */
  lemma SimpleCoefficientOne(nodes: seq<int>, rels: seq<Relationship>, i: int, r: ClusteringResult)
    requires EndpointsPresent(nodes, rels) && SimpleRels(nodes, rels) && 0 <= i < |nodes| &&
             IsClustering(nodes, rels, i, r)
    ensures r.coefficient == 1.0 <==> |Adjacency(nodes, rels)[i]| >= 2 && NeighboursLinked(nodes, rels, i)
  {
    SimpleDegree(nodes, rels, i);
    CoefficientOne(nodes, rels, i, r);
  }
}
