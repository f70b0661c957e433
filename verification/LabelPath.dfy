/** Label propagation on the path 0-1-2-3 with the weights 1, 2 and 3: what the allowed number of passes decides. */
module LabelPath {
  import opened Graphs
  import opened Counting
  import opened Partitions
  import opened Randomness
  import opened SmallGraphs
  import opened LabelPropagation
  import opened EdgeVotes

  // ---------- the graph ----------

  ghost const PATH_NODES: seq<int> := [0, 1, 2, 3]

  ghost const PATH: seq<Edge> := [Edge(0, 1, 1.0), Edge(1, 2, 2.0), Edge(2, 3, 3.0)]

  /** The neighbour of i over its heavier relationship, */
  ghost function Heavy(i: int): int
  {
    if i == 0 then 1 else if i == 1 then 2 else if i == 2 then 3 else 2
  }

  /** and the other one, if there is another. */
  ghost function Light(i: int): int
  {
    if i == 1 then 0 else if i == 2 then 1 else Heavy(i)
  }

  ghost function Count(c: seq<int>, i: int, lab: int): real
    requires |c| == 4
  {
    if i == 0 then (if c[1] == lab then 1.0 else 0.0)
    else if i == 1 then (if c[0] == lab then 1.0 else 0.0) + (if c[2] == lab then 2.0 else 0.0)
    else if i == 2 then (if c[1] == lab then 2.0 else 0.0) + (if c[3] == lab then 3.0 else 0.0)
    else (if c[2] == lab then 3.0 else 0.0)
  }

  ghost predicate IsSeen(c: seq<int>, i: int, lab: int)
    requires |c| == 4 && 0 <= i < 4
  {
    lab == c[Heavy(i)] || lab == c[Light(i)]
  }

  ghost predicate CountsAt(g: seq<seq<int>>, ws: seq<seq<real>>, c: seq<int>, i: int, lab: int)
    requires Shape(g, ws) && |g| == |c| == 4 && 0 <= i < 4
  {
    && |g[i]| > 0 && Votes(g[i], ws[i], c, lab) == Count(c, i, lab)
    && (IsNeighbourLabel(g[i], c, lab) <==> IsSeen(c, i, lab))
  }

  /** The path is known by the votes that it gives. */
  ghost predicate IsPath(g: seq<seq<int>>, ws: seq<seq<real>>)
  {
    Shape(g, ws) && |g| == 4 && forall c, i, lab :: |c| == 4 && 0 <= i < 4 ==> CountsAt(g, ws, c, i, lab)
  }

  lemma PathLabels(c: seq<int>, i: int, lab: int)
    requires |c| == 4 && 0 <= i < 4
    ensures SomeGives(PATH, c, i, lab) <==> IsSeen(c, i, lab)
  {
    assert PATH[0] == Edge(0, 1, 1.0) && PATH[1] == Edge(1, 2, 2.0) && PATH[2] == Edge(2, 3, 3.0);
    if IsSeen(c, i, lab) {
      var k := if i == 0 then 0 else if i == 3 then 2 else if lab == c[Heavy(i)] then i else i - 1;
      assert Gives(PATH[k], c, i, lab);
    }
  }

  lemma PathCounts(ns: seq<int>, w: seq<real>, c: seq<int>, i: int, lab: int)
    requires |c| == 4 && 0 <= i < 4 && VotesAre(PATH, ns, w, c, i, lab)
    ensures Votes(ns, w, c, lab) == Count(c, i, lab) && (IsNeighbourLabel(ns, c, lab) <==> IsSeen(c, i, lab))
  {
    TallyThree(PATH, VoteOf(c, i, lab));
    PathLabels(c, i, lab);
  }

  lemma PathCount(g: seq<seq<int>>, ws: seq<seq<real>>, c: seq<int>, i: int, lab: int)
    requires Shape(g, ws) && |g| == |c| == 4 && 0 <= i < 4
    requires VotesAre(PATH, g[i], ws[i], c, i, lab) && VotesAre(PATH, g[i], ws[i], c, i, c[Heavy(i)])
    ensures CountsAt(g, ws, c, i, lab)
  {
    PathCounts(g[i], ws[i], c, i, lab);
    PathCounts(g[i], ws[i], c, i, c[Heavy(i)]);
    assert IsNeighbourLabel(g[i], c, c[Heavy(i)]);
  }

  lemma PathInputCounts(c: seq<int>, i: int, lab: int)
    requires |c| == 4 && 0 <= i < 4 && InRange(PATH, 4) && NoRepeats(PATH_NODES)
    requires Shape(Lists(PATH_NODES, PATH), Weights(PATH_NODES, PATH))
    ensures CountsAt(Lists(PATH_NODES, PATH), Weights(PATH_NODES, PATH), c, i, lab)
  {
    ListsVotes(PATH_NODES, PATH, c, i, lab);
    ListsVotes(PATH_NODES, PATH, c, i, c[Heavy(i)]);
    PathCount(Lists(PATH_NODES, PATH), Weights(PATH_NODES, PATH), c, i, lab);
  }

  lemma PathInRange()
    ensures InRange(PATH, 4) && NoRepeats(PATH_NODES)
  {}

  /** The path as nodes and relationships. */
  lemma PathIsInput()
    ensures InRange(PATH, |PATH_NODES|)
    ensures IsPath(Lists(PATH_NODES, PATH), Weights(PATH_NODES, PATH))
  {
    PathInRange();
    var g, ws := Lists(PATH_NODES, PATH), Weights(PATH_NODES, PATH);
    WeightsShape(PATH_NODES, RelsOf(PATH_NODES, PATH));
    forall c, i, lab | |c| == 4 && 0 <= i < 4
      ensures CountsAt(g, ws, c, i, lab)
    {
      PathInputCounts(c, i, lab);
    }
  }

  // ---------- a visit ----------

  /** A visited node always takes the label over its heavier relationship. */
  lemma PathPicks(g: seq<seq<int>>, ws: seq<seq<real>>, c: seq<int>, i: int)
    requires IsPath(g, ws) && |c| == 4 && 0 <= i < 4
    ensures Picks(g, ws, c, i, c[i := c[Heavy(i)]])
  {
    var lab := c[Heavy(i)];
    assert CountsAt(g, ws, c, i, lab);
    forall other | IsNeighbourLabel(g[i], c, other)
      ensures Votes(g[i], ws[i], c, other) == Count(c, i, other) && IsSeen(c, i, other)
    {
      assert CountsAt(g, ws, c, i, other);
    }
    assert IsTop(g, ws, c, i, lab);
  }

  lemma PathStep(g: seq<seq<int>>, ws: seq<seq<real>>, c: seq<int>, i: int, d: seq<int>)
    requires IsPath(g, ws) && |c| == 4 && 0 <= i < 4 && d == c[i := c[Heavy(i)]]
    ensures VisitStep(g, ws, c, d, i)
  {
    PathPicks(g, ws, c, i);
  }

  /** The last k + 1 nodes share a label, up to all four. */
  ghost predicate Agree(c: seq<int>, k: nat)
  {
    |c| == 4 && (k >= 1 ==> c[2] == c[3]) && (k >= 2 ==> c[1] == c[2]) && (k >= 3 ==> c[0] == c[1])
  }

  /** A visit keeps them together, and a visit of the next node adds it. */
  lemma VisitAgrees(c: seq<int>, i: int, k: nat)
    requires Agree(c, k) && 0 <= i < 4
    ensures Agree(c[i := c[Heavy(i)]], k) && (i == 2 - k ==> Agree(c[i := c[Heavy(i)]], k + 1))
  {}

  lemma {:induction false} VisitsAgree(g: seq<seq<int>>, ws: seq<seq<real>>, c: seq<int>, d: seq<int>, order: seq<int>,
                                       changed: bool, k: nat)
    requires IsPath(g, ws) && Agree(c, k) && Visits(g, ws, c, d, order, changed)
    ensures Agree(d, k) && (2 - k in order ==> Agree(d, k + 1))
    decreases |order|
  {
    if |order| > 0 {
      var before, i := order[..|order| - 1], order[|order| - 1];
      var e, m :| VisitsAndOne(g, ws, c, e, d, order, m, changed);
      VisitsAgree(g, ws, c, e, before, m, k);
      PathPicks(g, ws, e, i);
      assert d == e[i := e[Heavy(i)]];
      VisitAgrees(e, i, k);
      if Agree(e, k + 1) { VisitAgrees(e, i, k + 1); }
      assert order == before + [i];
    }
  }

  // ---------- passes ----------

  /** However the nodes are ordered, a pass brings one more node in. */
  lemma PassAgrees(g: seq<seq<int>>, ws: seq<seq<real>>, c: seq<int>, d: seq<int>, k: nat)
    requires IsPath(g, ws) && Agree(c, k) && ChangingPass(g, ws, c, d)
    ensures Agree(d, k + 1)
  {
    var order :| IsPerm(order, |g|) && Visits(g, ws, c, d, order, true);
    VisitsAgree(g, ws, c, d, order, true, k);
    if k <= 2 { assert 2 - k in order; }
  }

  lemma {:induction false} PassesAgree(g: seq<seq<int>>, ws: seq<seq<real>>, c: seq<int>, d: seq<int>, p: nat)
    requires IsPath(g, ws) && |c| == 4 && ChangingPasses(g, ws, c, d, p)
    ensures Agree(d, p)
    decreases p
  {
    if p > 0 {
      var e :| |e| == |g| && ChangingPasses(g, ws, c, e, p - 1) && ChangingPass(g, ws, e, d);
      PassesAgree(g, ws, c, e, p - 1);
      PassAgrees(g, ws, e, d, p - 1);
    }
  }

  lemma StableNode(g: seq<seq<int>>, ws: seq<seq<real>>, c: seq<int>, i: int)
    requires IsPath(g, ws) && |c| == 4 && 0 <= i < 4 && Content(g, ws, c, i)
    ensures c[i] == c[Heavy(i)]
  {
    assert CountsAt(g, ws, c, i, c[i]) && CountsAt(g, ws, c, i, c[Heavy(i)]);
    assert IsSeen(c, i, c[i]) && Count(c, i, c[Heavy(i)]) <= Count(c, i, c[i]);
  }

  /** Labels that are stable are all the same. */
  lemma StableAgree(g: seq<seq<int>>, ws: seq<seq<real>>, c: seq<int>)
    requires IsPath(g, ws) && |c| == 4 && Stable(g, ws, c)
    ensures Agree(c, 3)
  {
    StableNode(g, ws, c, 0);
    StableNode(g, ws, c, 1);
    StableNode(g, ws, c, 3);
  }

  // ---------- how many passes it takes ----------

  ghost predicate AreOne(ids: seq<int>)
  {
    forall i, j :: 0 <= i < |ids| && 0 <= j < |ids| ==> ids[i] == ids[j]
  }

  /** Whatever the orders, the run ends with one label for all nodes. */
  ghost predicate AlwaysOne(nodes: seq<int>, rels: seq<Relationship>, limit: int)
  {
    forall labels, passes :: IsWholeRun(nodes, rels, limit, labels, passes) ==> AreOne(labels)
  }

  lemma AgreeIsOne(c: seq<int>)
    requires Agree(c, 3)
    ensures AreOne(c)
  {
    forall i | 0 <= i < |c|
      ensures c[i] == c[3]
    {}
  }

  lemma EnoughPasses(g: seq<seq<int>>, ws: seq<seq<real>>, d: seq<int>, p: nat)
    requires IsPath(g, ws) && |d| == 4 && ChangingPasses(g, ws, PATH_NODES, d, p) && (p < 3 ==> Stable(g, ws, d))
    ensures AreOne(d)
  {
    if p < 3 {
      StableAgree(g, ws, d);
    } else {
      PassesAgree(g, ws, PATH_NODES, d, p);
    }
    AgreeIsOne(d);
  }

  lemma ThreePasses(limit: int, labels: seq<int>, passes: nat)
    requires InRange(PATH, |PATH_NODES|) && limit >= 3
    requires IsWholeRun(PATH_NODES, RelsOf(PATH_NODES, PATH), limit, labels, passes)
    ensures AreOne(labels)
  {
    PathIsInput();
    EnoughPasses(Lists(PATH_NODES, PATH), Weights(PATH_NODES, PATH), labels, passes);
  }

  /** The labels after as many passes in the order 0, 1, 2, 3. */
  ghost function Labels(p: nat): (c: seq<int>)
    ensures |c| == 4
  {
    if p == 0 then PATH_NODES else if p == 1 then [1, 2, 3, 3] else [2, 3, 3, 3]
  }

  lemma InOrder(g: seq<seq<int>>, ws: seq<seq<real>>, c: seq<int>)
    requires IsPath(g, ws) && |c| == 4 && c[0] != c[1]
    ensures ChangingPass(g, ws, c, [c[1], c[2], c[3], c[3]])
  {
    var c1, c2, c3 := [c[1], c[1], c[2], c[3]], [c[1], c[2], c[2], c[3]], [c[1], c[2], c[3], c[3]];
    PathStep(g, ws, c, 0, c1);
    PathStep(g, ws, c1, 1, c2);
    PathStep(g, ws, c2, 2, c3);
    PathStep(g, ws, c3, 3, c3);
    var order := [0, 1, 2, 3];
    assert Visits(g, ws, c, c, order[..0], false);
    VisitsNext(g, ws, c, c, c1, order, 0, false);
    VisitsNext(g, ws, c, c1, c2, order, 1, true);
    VisitsNext(g, ws, c, c2, c3, order, 2, true);
    VisitsNext(g, ws, c, c3, c3, order, 3, true);
    assert order[..4] == order && IsPerm(order, 4);
  }

  lemma FewPasses(g: seq<seq<int>>, ws: seq<seq<real>>, p: nat)
    requires IsPath(g, ws) && p <= 2
    ensures ChangingPasses(g, ws, PATH_NODES, Labels(p), p)
  {
    if p > 0 {
      FewPasses(g, ws, p - 1);
      InOrder(g, ws, Labels(p - 1));
      PassesNext(g, ws, PATH_NODES, Labels(p - 1), Labels(p), p - 1);
    }
  }

  lemma TooFewPasses(limit: nat)
    requires InRange(PATH, |PATH_NODES|) && limit <= 2
    ensures IsWholeRun(PATH_NODES, RelsOf(PATH_NODES, PATH), limit, Labels(limit), limit) && !AreOne(Labels(limit))
  {
    PathIsInput();
    FewPasses(Lists(PATH_NODES, PATH), Weights(PATH_NODES, PATH), limit);
    assert Labels(limit)[0] != Labels(limit)[3];
  }

  /** The path always becomes one community exactly if three passes are allowed, as they are by default. */
  lemma OneFromThreePasses(maxIterations: int)
    ensures InRange(PATH, |PATH_NODES|)
    ensures AlwaysOne(PATH_NODES, RelsOf(PATH_NODES, PATH), if maxIterations <= 0 then 10 else maxIterations) <==>
            maxIterations <= 0 || maxIterations >= 3
  {
    PathInRange();
    var limit, rels := if maxIterations <= 0 then 10 else maxIterations, RelsOf(PATH_NODES, PATH);
    if limit >= 3 {
      forall labels, passes | IsWholeRun(PATH_NODES, rels, limit, labels, passes)
        ensures AreOne(labels)
      {
        ThreePasses(limit, labels, passes);
      }
    } else {
      TooFewPasses(limit);
    }
  }
}
