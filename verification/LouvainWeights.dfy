/** The weighted graph of Louvain: maps from node ID to node ID, and what their sums mean. */
module LouvainWeights {
  import opened Graphs
  import opened Partitions
  import opened Randomness
  import NewmanModularity

  /** The relationships with both endpoints present, as edges between positions. */
  function PresentEdges(nodes: seq<int>, rels: seq<Relationship>): (es: seq<Edge>)
    ensures InRange(es, |nodes|)
  {
    if |rels| == 0 then []
    else
      var es, r := PresentEdges(nodes, rels[..|rels| - 1]), rels[|rels| - 1];
      if r.startNode in nodes && r.endNode in nodes then es + [NewmanModularity.EdgeOf(nodes, r)] else es
  }

  predicate Meets(e: Edge, i: int, j: int)
  {
    (e.a == i && e.b == j) || (e.b == i && e.a == j)
  }

  predicate Adjacent(es: seq<Edge>, i: int, j: int)
  {
    |es| > 0 && (Adjacent(es[..|es| - 1], i, j) || Meets(es[|es| - 1], i, j))
  }

  lemma {:induction false} AdjacentInRange(es: seq<Edge>, n: int, i: int, j: int)
    requires InRange(es, n) && Adjacent(es, i, j)
    ensures 0 <= i < n && 0 <= j < n
  {
    if Adjacent(es[..|es| - 1], i, j) { AdjacentInRange(es[..|es| - 1], n, i, j); }
  }

  /** Neighbours are at the positions that the index gives to their IDs, which matters if an ID is repeated. */
  ghost predicate AtIndex(nodes: seq<int>, es: seq<Edge>)
  {
    forall i, j {:trigger Adjacent(es, i, j)} :: Adjacent(es, i, j) ==>
      0 <= j < |nodes| && NodeIndex(nodes)[nodes[j]] == j
  }

  lemma {:induction false} PresentAtIndex(nodes: seq<int>, rels: seq<Relationship>)
    ensures AtIndex(nodes, PresentEdges(nodes, rels))
  {
    var es := PresentEdges(nodes, rels);
    if |rels| > 0 {
      PresentAtIndex(nodes, rels[..|rels| - 1]);
      forall i, j {:trigger Adjacent(es, i, j)} | Adjacent(es, i, j)
        ensures 0 <= j < |nodes| && NodeIndex(nodes)[nodes[j]] == j
      {
        LastAtIndex(nodes, rels, i, j);
      }
    }
  }

  lemma LastAtIndex(nodes: seq<int>, rels: seq<Relationship>, i: int, j: int)
    requires |rels| > 0 && AtIndex(nodes, PresentEdges(nodes, rels[..|rels| - 1])) &&
             Adjacent(PresentEdges(nodes, rels), i, j)
    ensures 0 <= j < |nodes| && NodeIndex(nodes)[nodes[j]] == j
  {
    var before, r := PresentEdges(nodes, rels[..|rels| - 1]), rels[|rels| - 1];
    var e := NewmanModularity.EdgeOf(nodes, r);
    assert (before + [e])[..|before|] == before;
  }

  /** The weight between position i and the positions in s; a self-loop counts twice. */
  ghost function Flow(es: seq<Edge>, i: int, s: set<int>): real
  {
    if |es| == 0 then 0.0
    else
      var e := es[|es| - 1];
      Flow(es[..|es| - 1], i, s) + (if e.a == i && e.b in s then e.w else 0.0) +
        (if e.b == i && e.a in s then e.w else 0.0)
  }

  lemma {:induction false} FlowAdd(es: seq<Edge>, i: int, s: set<int>, j: int)
    requires j !in s
    ensures Flow(es, i, s + {j}) == Flow(es, i, s) + Flow(es, i, {j})
  {
    if |es| > 0 { FlowAdd(es[..|es| - 1], i, s, j); }
  }

  lemma {:induction false} FlowEmpty(es: seq<Edge>, i: int)
    ensures Flow(es, i, {}) == 0.0
  {
    if |es| > 0 { FlowEmpty(es[..|es| - 1], i); }
  }

  lemma {:induction false} FlowAbsent(es: seq<Edge>, i: int, j: int)
    requires !Adjacent(es, i, j)
    ensures Flow(es, i, {j}) == 0.0
  {
    if |es| > 0 {
      FlowAbsent(es[..|es| - 1], i, j);
      assert !Meets(es[|es| - 1], i, j);
    }
  }

  /** s holds every position adjacent to i. */
  ghost predicate Covers(es: seq<Edge>, i: int, s: set<int>)
  {
    forall j {:trigger Adjacent(es, i, j)} :: Adjacent(es, i, j) ==> j in s
  }

  lemma CoversPrefix(es: seq<Edge>, i: int, s: set<int>)
    requires Covers(es, i, s) && |es| > 0
    ensures Covers(es[..|es| - 1], i, s)
    ensures es[|es| - 1].a == i ==> es[|es| - 1].b in s
    ensures es[|es| - 1].b == i ==> es[|es| - 1].a in s
  {
    var e := es[|es| - 1];
    forall j {:trigger Adjacent(es[..|es| - 1], i, j)} | Adjacent(es[..|es| - 1], i, j)
      ensures j in s
    {
      assert Adjacent(es, i, j);
    }
    if e.a == i { assert Meets(e, i, e.b) && Adjacent(es, i, e.b); }
    if e.b == i { assert Meets(e, i, e.a) && Adjacent(es, i, e.a); }
  }

  /** The weight to all neighbours is the degree. */
  lemma {:induction false} FlowIsDegree(es: seq<Edge>, i: int, s: set<int>)
    requires Covers(es, i, s)
    ensures Flow(es, i, s) == Degree(es, i)
  {
    if |es| > 0 {
      CoversPrefix(es, i, s);
      FlowIsDegree(es[..|es| - 1], i, s);
    }
  }

  ghost function Part(s: set<int>, c: seq<int>, l: int): set<int>
  {
    set j | j in s && 0 <= j < |c| && c[j] == l
  }

  /** The weight to the neighbours in community l; in i's own community its self-loops count twice. */
  ghost function LinksAndLoops(es: seq<Edge>, c: seq<int>, i: int, l: int): real
    requires InRange(es, |c|) && 0 <= i < |c|
  {
    Links(es, c, i, l) + if l == c[i] then 2.0 * Loops(es, i) else 0.0
  }

  lemma {:induction false} FlowIsLinks(es: seq<Edge>, c: seq<int>, i: int, s: set<int>, l: int)
    requires InRange(es, |c|) && 0 <= i < |c| && Covers(es, i, s)
    ensures Flow(es, i, Part(s, c, l)) == LinksAndLoops(es, c, i, l)
  {
    if |es| > 0 {
      CoversPrefix(es, i, s);
      FlowIsLinks(es[..|es| - 1], c, i, s, l);
    }
  }

  // ---------- one row of the weights map ----------

  function AddTo(row: map<int, real>, key: int, w: real): map<int, real>
  {
    row[key := (if key in row then row[key] else 0.0) + w]
  }

  /** idx gives different IDs different positions. */
  ghost predicate Injective(idx: map<int, int>)
  {
    forall x, y :: x in idx && y in idx && idx[x] == idx[y] ==> x == y
  }

  /** The row of position i has the IDs of its neighbours as keys, and the weights to them as values. */
  ghost predicate RowIs(idx: map<int, int>, es: seq<Edge>, i: int, row: map<int, real>)
  {
    && (forall key {:trigger key in row} :: key in row <==> key in idx && Adjacent(es, i, idx[key]))
    && (forall key {:trigger row[key]} :: key in row ==> row[key] == Flow(es, i, {idx[key]}))
  }

  /** The row of i after an edge between the IDs x and y is added. */
  function RowAfter(row: map<int, real>, i: int, e: Edge, x: int, y: int): map<int, real>
  {
    var row1 := if e.a == i then AddTo(row, y, e.w) else row;
    if e.b == i then AddTo(row1, x, e.w) else row1
  }

  lemma RowStep(idx: map<int, int>, es: seq<Edge>, e: Edge, i: int, row: map<int, real>, x: int, y: int)
    requires Injective(idx) && RowIs(idx, es, i, row)
    requires x in idx && y in idx && idx[x] == e.a && idx[y] == e.b
    ensures RowIs(idx, es + [e], i, RowAfter(row, i, e, x, y))
  {
    var more, after := es + [e], RowAfter(row, i, e, x, y);
    assert more[..|es|] == es;
    forall key
      ensures key in after <==> key in idx && Adjacent(more, i, idx[key])
      ensures key in after ==> after[key] == Flow(more, i, {idx[key]})
    {
      if key in idx {
        assert Adjacent(more, i, idx[key]) <==> Adjacent(es, i, idx[key]) || Meets(e, i, idx[key]);
        if key !in row { FlowAbsent(es, i, idx[key]); }
      }
    }
  }

  /** Each ID has the row of the position that the index gives it. */
  ghost predicate WeightsAre(nodes: seq<int>, es: seq<Edge>, weights: map<int, map<int, real>>)
  {
    && (forall id :: id in weights <==> id in nodes)
    && (forall id {:trigger weights[id]} :: id in weights ==>
       RowIs(NodeIndex(nodes), es, NodeIndex(nodes)[id], weights[id]))
  }

  function AddBothWays(weights: map<int, map<int, real>>, x: int, y: int, w: real): (after: map<int, map<int, real>>)
    requires x in weights && y in weights
    ensures after.Keys == weights.Keys
  {
    var once := weights[x := AddTo(weights[x], y, w)];
    once[y := AddTo(once[y], x, w)]
  }

  lemma AddBothRow(weights: map<int, map<int, real>>, x: int, y: int, e: Edge, i: int, id: int)
    requires x in weights && y in weights && id in weights && (id == x <==> e.a == i) && (id == y <==> e.b == i)
    ensures AddBothWays(weights, x, y, e.w)[id] == RowAfter(weights[id], i, e, x, y)
  {}

  /** One relationship added in both directions. */
  lemma AddBothStep(nodes: seq<int>, es: seq<Edge>, weights: map<int, map<int, real>>, x: int, y: int, e: Edge)
    requires WeightsAre(nodes, es, weights) && x in nodes && y in nodes
    requires NodeIndex(nodes)[x] == e.a && NodeIndex(nodes)[y] == e.b
    ensures WeightsAre(nodes, es + [e], AddBothWays(weights, x, y, e.w))
  {
    var idx, after := NodeIndex(nodes), AddBothWays(weights, x, y, e.w);
    forall id {:trigger after[id]} | id in after
      ensures RowIs(idx, es + [e], idx[id], after[id])
    {
      AddBothRow(weights, x, y, e, idx[id], id);
      RowStep(idx, es, e, idx[id], weights[id], x, y);
    }
  }

  lemma NoWeights(nodes: seq<int>, weights: map<int, map<int, real>>)
    requires forall id :: id in weights <==> id in nodes
    requires forall id :: id in weights ==> weights[id] == map[]
    ensures WeightsAre(nodes, [], weights)
  {
    assert forall i, j :: !Adjacent([], i, j);
  }

  lemma PresentLast(nodes: seq<int>, rels: seq<Relationship>, k: int)
    requires 0 <= k < |rels|
    ensures PresentEdges(nodes, rels[..k + 1]) ==
            if rels[k].startNode in nodes && rels[k].endNode in nodes
            then PresentEdges(nodes, rels[..k]) + [NewmanModularity.EdgeOf(nodes, rels[k])]
            else PresentEdges(nodes, rels[..k])
    ensures Total(PresentEdges(nodes, rels[..k + 1])) ==
            Total(PresentEdges(nodes, rels[..k])) +
            if rels[k].startNode in nodes && rels[k].endNode in nodes then RelWeight(rels[k]) else 0.0
  {
    var es, e := PresentEdges(nodes, rels[..k]), NewmanModularity.EdgeOf(nodes, rels[k]);
    assert rels[..k + 1][..k] == rels[..k] && (es + [e])[..|es|] == es;
  }

  method BuildWeights(nodes: seq<int>, rels: seq<Relationship>, nodeIndex: map<int, int>)
    returns (weights: map<int, map<int, real>>, totalWeight: real)
    requires nodeIndex == NodeIndex(nodes)
    ensures WeightsAre(nodes, PresentEdges(nodes, rels), weights)
    ensures totalWeight == 2.0 * Total(PresentEdges(nodes, rels))
  {
    weights := map id | id in nodes :: map[];
    totalWeight := 0.0;
    NoWeights(nodes, weights);
    for k := 0 to |rels|
      invariant WeightsAre(nodes, PresentEdges(nodes, rels[..k]), weights)
      invariant totalWeight == 2.0 * Total(PresentEdges(nodes, rels[..k]))
    {
      var rel := rels[k];
      PresentLast(nodes, rels, k);
      var weight := RelWeight(rel);
      if rel.startNode !in nodeIndex || rel.endNode !in nodeIndex { continue; }
      AddBothStep(nodes, PresentEdges(nodes, rels[..k]), weights, rel.startNode, rel.endNode,
                  NewmanModularity.EdgeOf(nodes, rel));
      weights := weights[rel.startNode := AddTo(weights[rel.startNode], rel.endNode, weight)];
      weights := weights[rel.endNode := AddTo(weights[rel.endNode], rel.startNode, weight)];
      totalWeight := totalWeight + 2.0 * weight;
    }
    assert rels[..|rels|] == rels;
  }

  // ---------- the loops over one row ----------

  /** done holds the positions of the keys that are no longer left. */
  ghost predicate Seen(idx: map<int, int>, es: seq<Edge>, i: int, row: map<int, real>, left: set<int>, done: set<int>)
  {
    && left <= row.Keys
    && (forall key {:trigger key in left} :: key in row && key in idx ==> (key in left <==> idx[key] !in done))
    && (forall j {:trigger j in done} :: j in done ==> Adjacent(es, i, j))
  }

  lemma SeenOne(idx: map<int, int>, es: seq<Edge>, i: int, row: map<int, real>, left: set<int>, done: set<int>,
                key: int)
    requires RowIs(idx, es, i, row) && Seen(idx, es, i, row, left, done) && left == {}
    requires key in idx && Adjacent(es, i, idx[key])
    ensures idx[key] in done
  {
    assert key in row;
    assert key !in left;
  }

  lemma SeenAll(nodes: seq<int>, es: seq<Edge>, i: int, row: map<int, real>, done: set<int>)
    requires AtIndex(nodes, es) && RowIs(NodeIndex(nodes), es, i, row)
    requires Seen(NodeIndex(nodes), es, i, row, {}, done)
    ensures Covers(es, i, done)
  {
    forall j {:trigger Adjacent(es, i, j)} | Adjacent(es, i, j)
      ensures j in done
    {
      assert nodes[j] in nodes;
      SeenOne(NodeIndex(nodes), es, i, row, {}, done, nodes[j]);
    }
  }

  lemma SeenNext(idx: map<int, int>, es: seq<Edge>, i: int, row: map<int, real>, left: set<int>, done: set<int>,
                 key: int)
    requires Injective(idx) && RowIs(idx, es, i, row) && Seen(idx, es, i, row, left, done) && key in left
    ensures key in idx && idx[key] !in done && Seen(idx, es, i, row, left - {key}, done + {idx[key]})
  {}

  method SumRow(ghost nodes: seq<int>, ghost es: seq<Edge>, ghost i: int, row: map<int, real>) returns (sum: real)
    requires AtIndex(nodes, es) && RowIs(NodeIndex(nodes), es, i, row)
    ensures sum == Degree(es, i)
  {
    sum := 0.0;
    var left: set<int> := row.Keys;
    ghost var done: set<int> := {};
    FlowEmpty(es, i);
    while left != {}
      invariant Seen(NodeIndex(nodes), es, i, row, left, done)
      invariant sum == Flow(es, i, done)
    {
      var key := AnyOf(left);
      SeenNext(NodeIndex(nodes), es, i, row, left, done, key);
      FlowAdd(es, i, done, NodeIndex(nodes)[key]);
      sum := sum + row[key];
      left := left - {key};
      done := done + {NodeIndex(nodes)[key]};
    }
    SeenAll(nodes, es, i, row, done);
    FlowIsDegree(es, i, done);
  }

  /** Some neighbour of i is in community l. */
  ghost predicate Neighbours(es: seq<Edge>, c: seq<int>, i: int, l: int)
  {
    exists j :: 0 <= j < |c| && Adjacent(es, i, j) && c[j] == l
  }

  ghost predicate Occurs(s: set<int>, c: seq<int>, l: int)
  {
    exists j :: j in s && 0 <= j < |c| && c[j] == l
  }

  ghost predicate Collected(es: seq<Edge>, c: seq<int>, i: int, done: set<int>, communities: map<int, real>)
  {
    && (forall l {:trigger l in communities} :: l in communities <==> Occurs(done, c, l))
    && (forall l {:trigger communities[l]} :: l in communities ==> communities[l] == Flow(es, i, Part(done, c, l)))
  }

  lemma CollectNext(es: seq<Edge>, c: seq<int>, i: int, done: set<int>, communities: map<int, real>, j: int)
    requires Collected(es, c, i, done, communities) && 0 <= j < |c| && j !in done
    ensures Collected(es, c, i, done + {j}, AddTo(communities, c[j], Flow(es, i, {j})))
  {
    var after := AddTo(communities, c[j], Flow(es, i, {j}));
    forall l
      ensures l in after <==> Occurs(done + {j}, c, l)
      ensures l in after ==> after[l] == Flow(es, i, Part(done + {j}, c, l))
    {
      OccursNext(done, c, l, j);
      if l == c[j] {
        assert Part(done + {j}, c, l) == Part(done, c, l) + {j};
        FlowAdd(es, i, Part(done, c, l), j);
        if l !in communities {
          NotOccurring(done, c, l);
          FlowEmpty(es, i);
        }
      } else {
        assert Part(done + {j}, c, l) == Part(done, c, l);
      }
    }
  }

  lemma OccursNext(done: set<int>, c: seq<int>, l: int, j: int)
    requires 0 <= j < |c|
    ensures Occurs(done + {j}, c, l) <==> Occurs(done, c, l) || c[j] == l
  {
    if c[j] == l { assert j in done + {j}; }
    if Occurs(done, c, l) {
      var k :| k in done && 0 <= k < |c| && c[k] == l;
      assert k in done + {j};
    }
  }

  lemma NotOccurring(s: set<int>, c: seq<int>, l: int)
    requires !Occurs(s, c, l)
    ensures Part(s, c, l) == {}
  {
    forall j ensures j !in Part(s, c, l) {}
  }

  /** neighborCommunities: the communities of the neighbours, with the weight to each. */
  method NeighborCommunities(ghost nodes: seq<int>, ghost es: seq<Edge>, ghost i: int, row: map<int, real>,
                             nodeIndex: map<int, int>, c: seq<int>)
    returns (communities: map<int, real>)
    requires |c| == |nodes| && InRange(es, |nodes|) && AtIndex(nodes, es) && 0 <= i < |nodes|
    requires nodeIndex == NodeIndex(nodes) && RowIs(nodeIndex, es, i, row)
    ensures forall l :: l in communities <==> Neighbours(es, c, i, l)
    ensures forall l :: l in communities ==> communities[l] == LinksAndLoops(es, c, i, l)
  {
    communities := map[];
    var left: set<int> := row.Keys;
    ghost var done: set<int> := {};
    while left != {}
      invariant Seen(nodeIndex, es, i, row, left, done)
      invariant Collected(es, c, i, done, communities)
    {
      var neighborID := AnyOf(left);
      SeenNext(nodeIndex, es, i, row, left, done, neighborID);
      var idx := nodeIndex[neighborID];
      CollectNext(es, c, i, done, communities, idx);
      communities := AddTo(communities, c[idx], row[neighborID]);
      left := left - {neighborID};
      done := done + {idx};
    }
    SeenAll(nodes, es, i, row, done);
    CollectedAll(nodeIndex, es, c, i, row, done, communities);
  }

  lemma CollectedAll(idx: map<int, int>, es: seq<Edge>, c: seq<int>, i: int, row: map<int, real>, done: set<int>,
                     communities: map<int, real>)
    requires InRange(es, |c|) && 0 <= i < |c| && Covers(es, i, done) && Seen(idx, es, i, row, {}, done)
    requires Collected(es, c, i, done, communities)
    ensures forall l :: l in communities <==> Neighbours(es, c, i, l)
    ensures forall l :: l in communities ==> communities[l] == LinksAndLoops(es, c, i, l)
  {
    forall l
      ensures l in communities <==> Neighbours(es, c, i, l)
      ensures l in communities ==> communities[l] == LinksAndLoops(es, c, i, l)
    {
      FlowIsLinks(es, c, i, done, l);
      if Occurs(done, c, l) {
        var j :| j in done && 0 <= j < |c| && c[j] == l;
        assert Adjacent(es, i, j);
      }
      if Neighbours(es, c, i, l) {
        var j :| 0 <= j < |c| && Adjacent(es, i, j) && c[j] == l;
        assert j in done;
      }
    }
  }
}
