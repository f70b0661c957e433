/** A graph on which it depends on the order of the visits whether label propagation panics. */
module LabelGap {
  import opened Graphs
  import opened Counting
  import opened Partitions
  import opened Randomness
  import opened SmallGraphs
  import opened LabelPropagation
  import opened EdgeVotes

  // ---------- the graph ----------

  ghost const GAP_NODES: seq<int> := [0, 1, 2, 3]

  ghost const GAP: seq<Edge> :=
    [Edge(0, 1, 1.0), Edge(0, 2, -3.0), Edge(0, 3, 2.0), Edge(1, 2, -3.0), Edge(2, 3, 3.0)]

  /** The labels that the neighbours of i hold. */
  ghost function Seen(c: seq<int>, i: int): set<int>
    requires |c| == 4
  {
    if i == 0 then {c[1], c[2], c[3]} else if i == 2 then {c[0], c[1], c[3]} else {c[0], c[2]}
  }

  lemma GapLabels(c: seq<int>, i: int, lab: int)
    requires |c| == 4 && 0 <= i < 4
    ensures SomeGives(GAP, c, i, lab) <==> lab in Seen(c, i)
  {
    assert GAP[0] == Edge(0, 1, 1.0) && GAP[1] == Edge(0, 2, -3.0) && GAP[2] == Edge(0, 3, 2.0);
    assert GAP[3] == Edge(1, 2, -3.0) && GAP[4] == Edge(2, 3, 3.0);
    if lab in Seen(c, i) {
      var k := if i == 0 then (if lab == c[1] then 0 else if lab == c[2] then 1 else 2)
               else if i == 1 then (if lab == c[0] then 0 else 3)
               else if i == 2 then (if lab == c[0] then 1 else if lab == c[1] then 3 else 4)
               else (if lab == c[0] then 2 else 4);
      assert Gives(GAP[k], c, i, lab);
    }
  }

  /** The votes for the label that the neighbours give to i. */
  ghost function Count(c: seq<int>, i: int, lab: int): real
    requires |c| == 4
  {
    if i == 0 then
      (if c[1] == lab then 1.0 else 0.0) + (if c[2] == lab then -3.0 else 0.0) + (if c[3] == lab then 2.0 else 0.0)
    else if i == 1 then (if c[0] == lab then 1.0 else 0.0) + (if c[2] == lab then -3.0 else 0.0)
    else if i == 2 then
      (if c[0] == lab then -3.0 else 0.0) + (if c[1] == lab then -3.0 else 0.0) + (if c[3] == lab then 3.0 else 0.0)
    else (if c[0] == lab then 2.0 else 0.0) + (if c[2] == lab then 3.0 else 0.0)
  }

  ghost predicate CountsAt(g: seq<seq<int>>, ws: seq<seq<real>>, c: seq<int>, i: int, lab: int)
    requires Shape(g, ws) && |g| == |c| == 4 && 0 <= i < 4
  {
    && |g[i]| > 0 && Votes(g[i], ws[i], c, lab) == Count(c, i, lab)
    && (IsNeighbourLabel(g[i], c, lab) <==> lab in Seen(c, i))
  }

  /** The graph is known by the votes that it gives. */
  ghost predicate IsGap(g: seq<seq<int>>, ws: seq<seq<real>>)
  {
    Shape(g, ws) && |g| == 4 && forall c, i, lab :: |c| == 4 && 0 <= i < 4 ==> CountsAt(g, ws, c, i, lab)
  }

  lemma GapCounts(ns: seq<int>, w: seq<real>, c: seq<int>, i: int, lab: int)
    requires |c| == 4 && 0 <= i < 4 && VotesAre(GAP, ns, w, c, i, lab)
    ensures Votes(ns, w, c, lab) == Count(c, i, lab) && (IsNeighbourLabel(ns, c, lab) <==> lab in Seen(c, i))
  {
    TallyFive(GAP, VoteOf(c, i, lab));
    GapLabels(c, i, lab);
  }

  lemma GapCount(g: seq<seq<int>>, ws: seq<seq<real>>, c: seq<int>, i: int, lab: int)
    requires Shape(g, ws) && |g| == |c| == 4 && 0 <= i < 4
    requires forall l :: VotesAre(GAP, g[i], ws[i], c, i, l)
    ensures CountsAt(g, ws, c, i, lab)
  {
    var some := c[if i == 1 || i == 2 then 0 else 2];
    assert VotesAre(GAP, g[i], ws[i], c, i, some) && VotesAre(GAP, g[i], ws[i], c, i, lab);
    GapCounts(g[i], ws[i], c, i, some);
    GapCounts(g[i], ws[i], c, i, lab);
  }

  lemma GapIsGap(g: seq<seq<int>>, ws: seq<seq<real>>)
    requires Shape(g, ws) && |g| == 4
    requires forall c, i, l :: |c| == 4 && 0 <= i < 4 ==> VotesAre(GAP, g[i], ws[i], c, i, l)
    ensures IsGap(g, ws)
  {
    forall c, i, lab | |c| == 4 && 0 <= i < 4
      ensures CountsAt(g, ws, c, i, lab)
    {
      GapCount(g, ws, c, i, lab);
    }
  }

  lemma GapInRange()
    ensures InRange(GAP, 4) && NoRepeats(GAP_NODES)
  {}

  /** The graph as nodes and relationships. */
  lemma GapIsInput()
    ensures InRange(GAP, |GAP_NODES|)
    ensures IsGap(Lists(GAP_NODES, GAP), Weights(GAP_NODES, GAP))
  {
    GapInRange();
    var g, ws := Lists(GAP_NODES, GAP), Weights(GAP_NODES, GAP);
    WeightsShape(GAP_NODES, RelsOf(GAP_NODES, GAP));
    forall c, i, l | |c| == 4 && 0 <= i < 4
      ensures VotesAre(GAP, g[i], ws[i], c, i, l)
    {
      ListsVotes(GAP_NODES, GAP, c, i, l);
    }
    GapIsGap(g, ws);
  }

  // ---------- which visits are possible ----------

  /** The label with the most votes, if they are not negative, is the only one that a visit can pick. */
  lemma PicksTop(g: seq<seq<int>>, ws: seq<seq<real>>, c: seq<int>, i: int, lab: int)
    requires IsGap(g, ws) && |c| == 4 && 0 <= i < 4 && lab in Seen(c, i) && Count(c, i, lab) >= 0.0
    requires forall other :: other in Seen(c, i) && other != lab ==> Count(c, i, other) < Count(c, i, lab)
    ensures Picks(g, ws, c, i, c[i := lab])
  {
    assert CountsAt(g, ws, c, i, lab);
    forall other | IsNeighbourLabel(g[i], c, other)
      ensures Votes(g[i], ws[i], c, other) == Count(c, i, other) && other in Seen(c, i)
    {
      assert CountsAt(g, ws, c, i, other);
    }
    assert IsTop(g, ws, c, i, lab);
  }

  // ---------- two orders ----------

  ghost const STUCK: seq<int> := [3, 3, 2, 3]
  ghost const SETTLED: seq<int> := [3, 3, 2, 2]

  /** Both orders begin alike: nodes 0 and 1 take the label of node 3. */
  lemma FirstTwo(g: seq<seq<int>>, ws: seq<seq<real>>)
    requires IsGap(g, ws)
    ensures Only(g, ws, GAP_NODES, [0, 1], STUCK, true)
  {
    var once := [3, 1, 2, 3];
    PicksTop(g, ws, GAP_NODES, 0, 3);
    PicksTop(g, ws, once, 1, 3);
    assert GAP_NODES[0 := 3] == once && once[1 := 3] == STUCK && GAP_NODES[0] != once[0];
    assert Only(g, ws, GAP_NODES, [], GAP_NODES, false);
    OnlyNext(g, ws, GAP_NODES, [], GAP_NODES, false, 0, once);
    assert [] + [0] == [0] && [0] + [1] == [0, 1];
    OnlyNext(g, ws, GAP_NODES, [0], once, true, 1, STUCK);
  }

  /** If node 2 is visited next, all its neighbours hold the label 3, and its weights sum to -3. */
  lemma ThenStuck(g: seq<seq<int>>, ws: seq<seq<real>>)
    requires IsGap(g, ws)
    ensures IsStuck(g, ws, STUCK, 2)
  {
    assert CountsAt(g, ws, STUCK, 2, 3);
    forall lab | IsNeighbourLabel(g[2], STUCK, lab)
      ensures Votes(g[2], ws[2], STUCK, lab) < 0.0
    {
      assert CountsAt(g, ws, STUCK, 2, lab);
    }
  }

  /** Once node 3 has taken the label of node 2, no visit changes anything. */
  lemma SettledStays(g: seq<seq<int>>, ws: seq<seq<real>>, i: int)
    requires IsGap(g, ws) && 0 <= i < 4
    ensures Picks(g, ws, SETTLED, i, SETTLED)
  {
    PicksTop(g, ws, SETTLED, i, SETTLED[i]);
    assert SETTLED[i := SETTLED[i]] == SETTLED;
  }

  lemma ThenSettled(g: seq<seq<int>>, ws: seq<seq<real>>)
    requires IsGap(g, ws)
    ensures Only(g, ws, GAP_NODES, [0, 1, 3, 2], SETTLED, true)
  {
    FirstTwo(g, ws);
    PicksTop(g, ws, STUCK, 3, 2);
    assert STUCK[3 := 2] == SETTLED && [0, 1] + [3] == [0, 1, 3] && [0, 1, 3] + [2] == [0, 1, 3, 2];
    OnlyNext(g, ws, GAP_NODES, [0, 1], STUCK, true, 3, SETTLED);
    SettledStays(g, ws, 2);
    OnlyNext(g, ws, GAP_NODES, [0, 1, 3], SETTLED, true, 2, SETTLED);
  }

  lemma NodeStuck(g: seq<seq<int>>, ws: seq<seq<real>>, c: seq<int>, i: int)
    requires Shape(g, ws) && |c| == |g| && 0 <= i < |g| && IsStuck(g, ws, c, i)
    ensures !NoNegativeSum(ws)
  {
    assert SomeLabelsStick(g, ws, i);
    StickIffNegative(g, ws, i);
  }

  lemma NotSurely(g: seq<seq<int>>, ws: seq<seq<real>>)
    requires IsGap(g, ws)
    ensures !AlwaysSticks(g, ws)
  {
    forall i | 0 <= i < 4
      ensures !AllLabelsStick(g, ws, i)
    {
      SettledStays(g, ws, i);
      assert |SETTLED| == |g| && !IsStuck(g, ws, SETTLED, i);
    }
  }

  lemma PanicsInOneOrder(g: seq<seq<int>>, ws: seq<seq<real>>)
    requires IsGap(g, ws)
    ensures PanicsFrom(g, ws, GAP_NODES)
  {
    var order := [0, 1, 2, 3];
    FirstTwo(g, ws);
    ThenStuck(g, ws);
    assert order[..2] == [0, 1] && IsPerm(order, 4);
    assert Visits(g, ws, GAP_NODES, STUCK, order[..2], true);
    assert PanicsAt(g, ws, GAP_NODES, order, 2, STUCK, true);
  }

  lemma SettlesInAnother(g: seq<seq<int>>, ws: seq<seq<real>>)
    requires IsGap(g, ws)
    ensures ChangingPass(g, ws, GAP_NODES, SETTLED)
  {
    var order := [0, 1, 3, 2];
    ThenSettled(g, ws);
    assert IsPerm(order, 4) && Visits(g, ws, GAP_NODES, SETTLED, order, true);
  }

  /** So between the two conditions on the weights the order decides: on this graph one order panics in the first pass,
      and another ends in labels that no later visit can change. */
  lemma OrderDecides()
    ensures InRange(GAP, |GAP_NODES|)
    ensures var rels := RelsOf(GAP_NODES, GAP);
            var g, ws := BothLists(GAP_NODES, rels), BothWeights(GAP_NODES, rels);
            && IsGap(g, ws) && !NoNegativeSum(ws) && !SurelyPanics(GAP_NODES, rels)
            && PanicsFrom(g, ws, GAP_NODES) && ChangingPass(g, ws, GAP_NODES, SETTLED)
            && forall i :: 0 <= i < 4 ==> Picks(g, ws, SETTLED, i, SETTLED)
  {
    GapIsInput();
    var g, ws := Lists(GAP_NODES, GAP), Weights(GAP_NODES, GAP);
    ThenStuck(g, ws);
    NodeStuck(g, ws, STUCK, 2);
    NotSurely(g, ws);
    PanicsInOneOrder(g, ws);
    SettlesInAnother(g, ws);
    forall i | 0 <= i < 4
      ensures Picks(g, ws, SETTLED, i, SETTLED)
    {
      SettledStays(g, ws, i);
    }
  }
}
