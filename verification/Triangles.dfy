/** Triangle counts per node, their total, and the local clustering coefficient. */
module Triangles {
  import opened Graphs
  import opened Counting

  /** The IDs adjacent to each position; IDs are kept by the last position that holds them. */
  function Adjacency(nodes: seq<int>, rels: seq<Relationship>): (adj: seq<set<int>>)
    ensures |adj| == |nodes|
  {
    if |rels| == 0 then seq(|nodes|, _ => {})
    else
      var adj := Adjacency(nodes, rels[..|rels| - 1]);
      var r, idx := rels[|rels| - 1], NodeIndex(nodes);
      if r.startNode in idx && r.endNode in idx then
        AddId(AddId(adj, idx[r.startNode], r.endNode), idx[r.endNode], r.startNode)
      else adj
  }

  function AddId(adj: seq<set<int>>, i: int, id: int): seq<set<int>>
    requires 0 <= i < |adj|
  {
    adj[i := adj[i] + {id}]
  }

  ghost predicate Links(nodes: seq<int>, r: Relationship, x: int, y: int)
  {
    && r.startNode in nodes && r.endNode in nodes
    && ((r.startNode == x && r.endNode == y) || (r.startNode == y && r.endNode == x))
  }

  ghost predicate Linked(nodes: seq<int>, rels: seq<Relationship>, x: int, y: int)
  {
    exists r :: r in rels && Links(nodes, r, x, y)
  }

  /** The adjacency sets hold the linked IDs, at the index of the ID. */
  lemma {:induction false} AdjacencyLinks(nodes: seq<int>, rels: seq<Relationship>, i: int, y: int)
    requires 0 <= i < |nodes|
    ensures y in Adjacency(nodes, rels)[i] <==> NodeIndex(nodes)[nodes[i]] == i && Linked(nodes, rels, nodes[i], y)
  {
    if |rels| > 0 {
      AdjacencyLinks(nodes, rels[..|rels| - 1], i, y);
      LinkedLast(nodes, rels, nodes[i], y);
      AdjacencyLast(nodes, rels, i, y);
    }
  }

  lemma AdjacencyLast(nodes: seq<int>, rels: seq<Relationship>, i: int, y: int)
    requires |rels| > 0 && 0 <= i < |nodes|
    ensures y in Adjacency(nodes, rels)[i] <==>
            || y in Adjacency(nodes, rels[..|rels| - 1])[i]
            || (NodeIndex(nodes)[nodes[i]] == i && Links(nodes, rels[|rels| - 1], nodes[i], y))
  {
    var idx, r := NodeIndex(nodes), rels[|rels| - 1];
    if r.startNode in idx && r.endNode in idx {
      assert idx[r.startNode] == i ==> r.startNode == nodes[i];
      assert idx[r.endNode] == i ==> r.endNode == nodes[i];
    }
  }

  lemma LinkedLast(nodes: seq<int>, rels: seq<Relationship>, x: int, y: int)
    requires |rels| > 0
    ensures Linked(nodes, rels, x, y) <==>
            (Linked(nodes, rels[..|rels| - 1], x, y) || Links(nodes, rels[|rels| - 1], x, y))
  {
    var last := |rels| - 1;
    assert rels == rels[..last] + [rels[last]];
    if Linked(nodes, rels[..last], x, y) {
      var r :| r in rels[..last] && Links(nodes, r, x, y);
      assert r in rels;
    }
    assert rels[last] in rels;
  }

  method BuildAdjacency(nodes: seq<int>, rels: seq<Relationship>) returns (adj: seq<set<int>>)
    ensures adj == Adjacency(nodes, rels)
  {
    var nodeIndex := BuildNodeIndex(nodes);
    adj := seq(|nodes|, _ => {});
    for k := 0 to |rels|
      invariant adj == Adjacency(nodes, rels[..k])
    {
      assert rels[..k + 1][..k] == rels[..k];
      var rel := rels[k];
      if rel.startNode !in nodeIndex || rel.endNode !in nodeIndex { continue; }
      var startIdx, endIdx := nodeIndex[rel.startNode], nodeIndex[rel.endNode];
      adj := adj[startIdx := adj[startIdx] + {rel.endNode}];
      adj := adj[endIdx := adj[endIdx] + {rel.startNode}];
    }
    assert rels[..|rels|] == rels;
  }

  lemma {:induction false} LeastExists(s: set<int>)
    requires s != {}
    ensures exists x :: x in s && forall y :: y in s ==> x <= y
  {
    assert (forall y :: y !in s) ==> s == {};
    var x :| x in s;
    if s - {x} == {} {
      assert s == {x};
    } else {
      LeastExists(s - {x});
      var m :| m in s - {x} && forall y :: y in s - {x} ==> m <= y;
      var best := if x <= m then x else m;
      forall y | y in s
        ensures best <= y
      {
        assert y == x || y in s - {x};
      }
      assert best in s;
    }
  }

  lemma IncreasingAppend(l: seq<int>, m: int)
    requires Increasing(l) && forall x :: x in l ==> x < m
    ensures Increasing(l + [m])
  {
    forall i, j | 0 <= i < j < |l| + 1
      ensures (l + [m])[i] < (l + [m])[j]
    {
      assert l[i] in l;
    }
  }

  /** The keys of an adjacency set, sorted. */
  method SortedList(s: set<int>) returns (l: seq<int>)
    ensures Increasing(l) && forall x :: x in l <==> x in s
  {
    l := [];
    var left := s;
    while left != {}
      invariant left <= s && Increasing(l) && forall x :: x in l <==> x in s && x !in left
      invariant forall x, y :: x in l && y in left ==> x < y
    {
      LeastExists(left);
      var m :| m in left && forall y :: y in left ==> m <= y;
      IncreasingAppend(l, m);
      l := l + [m];
      left := left - {m};
    }
  }

  /** The pairs x < y of neighbours of c that are linked to each other; adj is read through the index. */
  ghost function Corners(nodes: seq<int>, rels: seq<Relationship>, i: int): set<(int, int)>
    requires 0 <= i < |nodes|
  {
    var a := Adjacency(nodes, rels)[i];
    set x, y | x in a && y in a && x < y && Linked(nodes, rels, x, y) :: (x, y)
  }

  /** The pairs of x with the linked members of the list. */
  ghost predicate FoundFrom(x: int, l: seq<int>, linked: set<int>, found: set<(int, int)>)
  {
    forall p {:trigger p in found} :: p in found <==> p.0 == x && p.1 in l && p.1 in linked
  }

  lemma NotBetween(l: seq<int>, i: int, k: int)
    requires Increasing(l) && 0 <= i <= k < |l|
    ensures l[k] !in l[i..k] && l[i..k + 1] == l[i..k] + [l[k]]
  {}

  lemma FoundMore(x: int, ns: seq<int>, y: int, linked: set<int>, found: set<(int, int)>)
    requires FoundFrom(x, ns, linked, found) && y !in ns
    ensures FoundFrom(x, ns + [y], linked, if y in linked then found + {(x, y)} else found)
    ensures |found + {(x, y)}| == |found| + 1
  {
    assert (x, y) !in found;
  }

  lemma FoundFromNext(l: seq<int>, j: int, k: int, linked: set<int>, found: set<(int, int)>)
    requires Increasing(l) && 0 <= j < k < |l| && FoundFrom(l[j], l[j + 1..k], linked, found)
    ensures FoundFrom(l[j], l[j + 1..k + 1], linked, if l[k] in linked then found + {(l[j], l[k])} else found)
    ensures |found + {(l[j], l[k])}| == |found| + 1
  {
    NotBetween(l, j + 1, k);
    FoundMore(l[j], l[j + 1..k], l[k], linked, found);
  }

  lemma LaterMembers(l: seq<int>, j: int, y: int)
    requires Increasing(l) && 0 <= j < |l|
    ensures y in l && l[j] < y <==> y in l[j + 1..]
  {
    if y in l && l[j] < y {
      var b :| 0 <= b < |l| && l[b] == y;
      assert l[j + 1..][b - (j + 1)] == y;
    }
  }

  /** The inner loop: the later neighbours in the sorted list that are linked to the j-th. */
  method CountFrom(l: seq<int>, j: int, linked: set<int>) returns (count: int, ghost found: set<(int, int)>)
    requires Increasing(l) && 0 <= j < |l|
    ensures count == |found| && FoundFrom(l[j], l[j + 1..], linked, found)
  {
    count := 0;
    found := {};
    var neighborJ := l[j];
    for k := j + 1 to |l|
      invariant count == |found| && FoundFrom(neighborJ, l[j + 1..k], linked, found)
    {
      var neighborK := l[k];
      FoundFromNext(l, j, k, linked, found);
      if neighborK in linked {
        found := found + {(neighborJ, neighborK)};
        count := count + 1;
      }
    }
    assert l[j + 1..|l|] == l[j + 1..];
  }

  lemma NotBefore(l: seq<int>, j: int)
    requires Increasing(l) && 0 <= j < |l|
    ensures l[j] !in l[..j]
  {}

  ghost predicate Indexed(l: seq<int>, nodeIndex: map<int, int>, adj: seq<set<int>>)
  {
    forall x :: x in l ==> x in nodeIndex && 0 <= nodeIndex[x] < |adj|
  }

  /** The pairs x < y of the list for which y is adjacent at the index of x. */
  ghost function Pairs(l: seq<int>, nodeIndex: map<int, int>, adj: seq<set<int>>): set<(int, int)>
    requires Indexed(l, nodeIndex, adj)
  {
    set x, y | x in l && y in l && x < y && y in adj[nodeIndex[x]] :: (x, y)
  }

  /** The pairs whose first part is among the first j of the list. */
  ghost predicate FoundBelow(l: seq<int>, nodeIndex: map<int, int>, adj: seq<set<int>>, j: int, found: set<(int, int)>)
    requires Indexed(l, nodeIndex, adj) && 0 <= j <= |l|
  {
    forall p {:trigger p in found} :: p in found <==>
      p.0 in l[..j] && p.1 in l && p.0 < p.1 && p.1 in adj[nodeIndex[p.0]]
  }

  lemma FoundNext(l: seq<int>, nodeIndex: map<int, int>, adj: seq<set<int>>, j: int, found: set<(int, int)>,
                  from: set<(int, int)>)
    requires Increasing(l) && Indexed(l, nodeIndex, adj) && 0 <= j < |l| && FoundBelow(l, nodeIndex, adj, j, found)
    requires l[j] in nodeIndex && 0 <= nodeIndex[l[j]] < |adj|
    requires FoundFrom(l[j], l[j + 1..], adj[nodeIndex[l[j]]], from)
    ensures found !! from && FoundBelow(l, nodeIndex, adj, j + 1, found + from)
  {
    NotBefore(l, j);
    assert l[..j + 1] == l[..j] + [l[j]];
    forall y ensures y in l && l[j] < y <==> y in l[j + 1..] { LaterMembers(l, j, y); }
  }

  lemma FoundAll(l: seq<int>, nodeIndex: map<int, int>, adj: seq<set<int>>, found: set<(int, int)>)
    requires Indexed(l, nodeIndex, adj) && FoundBelow(l, nodeIndex, adj, |l|, found)
    ensures found == Pairs(l, nodeIndex, adj)
  {
    assert l[..|l|] == l;
  }

  /** The double loop over the sorted neighbours of one node. */
  method CountPairs(l: seq<int>, nodeIndex: map<int, int>, adj: seq<set<int>>) returns (count: int)
    requires Increasing(l) && Indexed(l, nodeIndex, adj)
    ensures count == |Pairs(l, nodeIndex, adj)|
  {
    count := 0;
    ghost var found: set<(int, int)> := {};
    for j := 0 to |l|
      invariant count == |found| && FoundBelow(l, nodeIndex, adj, j, found)
    {
      var neighborJ := l[j];
      assert neighborJ in l;
      var more, from := CountFrom(l, j, adj[nodeIndex[neighborJ]]);
      FoundNext(l, nodeIndex, adj, j, found, from);
      found := found + from;
      count := count + more;
    }
    FoundAll(l, nodeIndex, adj, found);
  }

  lemma IndexedLinks(nodes: seq<int>, rels: seq<Relationship>, i: int, x: int)
    requires 0 <= i < |nodes| && x in Adjacency(nodes, rels)[i]
    ensures x in NodeIndex(nodes)
    ensures forall y :: y in Adjacency(nodes, rels)[NodeIndex(nodes)[x]] <==> Linked(nodes, rels, x, y)
  {
    AdjacencyLinks(nodes, rels, i, x);
    forall y
      ensures y in Adjacency(nodes, rels)[NodeIndex(nodes)[x]] <==> Linked(nodes, rels, x, y)
    {
      AdjacencyLinks(nodes, rels, NodeIndex(nodes)[x], y);
    }
  }

  lemma PairsAreCorners(nodes: seq<int>, rels: seq<Relationship>, i: int, l: seq<int>)
    requires 0 <= i < |nodes| && forall x :: x in l <==> x in Adjacency(nodes, rels)[i]
    ensures Indexed(l, NodeIndex(nodes), Adjacency(nodes, rels))
    ensures Pairs(l, NodeIndex(nodes), Adjacency(nodes, rels)) == Corners(nodes, rels, i)
  {
    forall x | x in l
      ensures x in NodeIndex(nodes)
      ensures forall y :: y in Adjacency(nodes, rels)[NodeIndex(nodes)[x]] <==> Linked(nodes, rels, x, y)
    {
      IndexedLinks(nodes, rels, i, x);
    }
  }

  method TriangleCount(nodes: seq<int>, rels: seq<Relationship>) returns (result: seq<NodeResult>)
    ensures |result| == |nodes| && forall i :: 0 <= i < |nodes| ==> result[i].node == nodes[i]
    ensures forall i :: 0 <= i < |nodes| ==> result[i].number == |Corners(nodes, rels, i)|
  {
    if |nodes| == 0 { return []; }
    var nodeIndex := BuildNodeIndex(nodes);
    var adjacency := BuildAdjacency(nodes, rels);
    var triangles := seq(|nodes|, _ => 0);
    for i := 0 to |nodes|
      invariant |triangles| == |nodes| && forall j :: 0 <= j < i ==> triangles[j] == |Corners(nodes, rels, j)|
    {
      var neighborList := SortedList(adjacency[i]);
      PairsAreCorners(nodes, rels, i, neighborList);
      var count := CountPairs(neighborList, nodeIndex, adjacency);
      triangles := triangles[i := count];
    }
    result := Label(nodes, triangles);
    assert forall i :: 0 <= i < |nodes| ==> Numbers(result)[i] == result[i].number;
  }
}
