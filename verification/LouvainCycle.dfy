/** A negative self-loop can keep Louvain moving for ever: every pass moves the same node between two communities. */
module LouvainCycle {
  import opened Counting
  import opened Partitions
  import opened LouvainWeights
  import opened Louvain
  import opened LouvainModularity
  import opened Randomness
  import opened SmallGraphs

  ghost const CYCLE_NODES: seq<int> := [0, 1, 2, 3, 4]

  /** Node 0, with a self-loop of weight -1, between two pairs. */
  ghost const CYCLE: seq<Edge> :=
    [Edge(1, 2, 1.0), Edge(3, 4, 1.0), Edge(0, 1, 1.0), Edge(0, 3, 1.0), Edge(0, 0, -1.0)]

  lemma FiveMeasures(es: seq<Edge>, c: seq<int>, i: int, l: int)
    requires |es| == 5 && InRange(es, |c|)
    ensures var f := LinksOf(c, i, l); Links(es, c, i, l) == f(es[0]) + f(es[1]) + f(es[2]) + f(es[3]) + f(es[4])
    ensures var f := VolumeOf(c, l); Volume(es, c, l) == f(es[0]) + f(es[1]) + f(es[2]) + f(es[3]) + f(es[4])
    ensures var f := LoopOf(i); Loops(es, i) == f(es[0]) + f(es[1]) + f(es[2]) + f(es[3]) + f(es[4])
    ensures var f := DegreeOf(i); Degree(es, i) == f(es[0]) + f(es[1]) + f(es[2]) + f(es[3]) + f(es[4])
    ensures Total(es) == es[0].w + es[1].w + es[2].w + es[3].w + es[4].w
  {
    Tallies(es, c, i, l);
    TallyFive(es, LinksOf(c, i, l));
    TallyFive(es, VolumeOf(c, l));
    TallyFive(es, LoopOf(i));
    TallyFive(es, DegreeOf(i));
    TallyFive(es, (e: Edge) => e.w);
  }

  /** Who is next to whom. */
  ghost function Beside(i: int): set<int>
  {
    if i == 0 then {0, 1, 3} else if i == 1 then {0, 2} else if i == 2 then {1} else if i == 3 then {0, 4} else {3}
  }

  lemma CycleAdjacent(i: int, j: int)
    requires 0 <= i < 5
    ensures Adjacent(CYCLE, i, j) <==> j in Beside(i)
  {
    AdjacentIff(CYCLE, i, j);
    assert CYCLE[0] == Edge(1, 2, 1.0) && CYCLE[1] == Edge(3, 4, 1.0) && CYCLE[2] == Edge(0, 1, 1.0);
    assert CYCLE[3] == Edge(0, 3, 1.0) && CYCLE[4] == Edge(0, 0, -1.0);
    if j in Beside(i) {
      var k := if i == 0 then (if j == 0 then 4 else if j == 1 then 2 else 3)
               else if i == 1 then (if j == 0 then 2 else 0) else if i == 2 then 0
               else if i == 3 then (if j == 0 then 3 else 1) else 1;
      assert Meets(CYCLE[k], i, j);
    }
  }

  lemma CycleNeighbours(c: seq<int>, i: int, m: int)
    requires |c| == 5 && 0 <= i < 5
    ensures Neighbours(CYCLE, c, i, m) <==> exists j :: j in Beside(i) && c[j] == m
  {
    if Neighbours(CYCLE, c, i, m) {
      var j :| 0 <= j < |c| && Adjacent(CYCLE, i, j) && c[j] == m;
      CycleAdjacent(i, j);
    }
    if j :| j in Beside(i) && c[j] == m {
      CycleAdjacent(i, j);
    }
  }

  /** Both pairs are communities, and node 0 belongs to the one named x. */
  ghost function Paired(x: int): seq<int>
  {
    [x, 1, 1, 3, 3]
  }

  /** Node 0 gains by changing sides, as its self-loop counts against the community that it is in, */
  lemma FlipGains(x: int)
    requires x == 1 || x == 3
    ensures MoveGain(CYCLE, Paired(x), 0, 4 - x, 1.0, 6.0) == 2.0
    ensures forall m :: Neighbours(CYCLE, Paired(x), 0, m) <==> m == 1 || m == 3
  {
    var c := Paired(x);
    FiveMeasures(CYCLE, c, 0, 1);
    FiveMeasures(CYCLE, c, 0, 3);
    forall m
      ensures Neighbours(CYCLE, c, 0, m) <==> m == 1 || m == 3
    {
      CycleNeighbours(c, 0, m);
      if m == 1 || m == 3 { assert m in Beside(0) && c[m] == m; }
    }
  }

  /** so a visit moves it, */
  lemma Flips(x: int, d: seq<int>)
    requires x == 1 || x == 3
    ensures VisitStep(CYCLE, Paired(x), d, 0, 1.0, 6.0) <==> d == Paired(4 - x)
  {
    var c := Paired(x);
    FlipGains(x);
    assert c[0 := 4 - x] == Paired(4 - x);
    OnlyMove(CYCLE, c, 0, 4 - x, 1.0, 6.0);
    assert Neighbours(CYCLE, c, 0, 4 - x) && 4 - x != c[0];
  }

  /** Only the node next to 0 in the other pair sees another community, that of 0. */
  lemma StaySees(x: int, i: int, m: int)
    requires (x == 1 || x == 3) && 0 < i < 5 && Neighbours(CYCLE, Paired(x), i, m) && m != Paired(x)[i]
    ensures i == 4 - x && m == x
  {
    CycleNeighbours(Paired(x), i, m);
    var j :| j in Beside(i) && Paired(x)[j] == m;
  }

  lemma StayGains(x: int)
    requires x == 1 || x == 3
    ensures MoveGain(CYCLE, Paired(x), 4 - x, x, 1.0, 6.0) <= 0.0
  {
    FiveMeasures(CYCLE, Paired(x), 4 - x, x);
    FiveMeasures(CYCLE, Paired(x), 4 - x, 4 - x);
  }

  /** and no visit moves another node. */
  lemma Stays(x: int, i: int, d: seq<int>)
    requires (x == 1 || x == 3) && 0 < i < 5
    ensures VisitStep(CYCLE, Paired(x), d, i, 1.0, 6.0) <==> d == Paired(x)
  {
    var c := Paired(x);
    forall m {:trigger Neighbours(CYCLE, c, i, m)} | Neighbours(CYCLE, c, i, m) && m != c[i]
      ensures MoveGain(CYCLE, c, i, m, 1.0, 6.0) <= 0.0
    {
      StaySees(x, i, m);
      StayGains(x);
    }
  }

  /** Where a pass is after some visits. */
  ghost predicate HasFlipped(x: int, order: seq<int>, d: seq<int>, moved: bool)
  {
    d == Paired(if 0 in order then 4 - x else x) && moved == (0 in order)
  }

  lemma FlipNext(x: int, before: seq<int>, i: int, d: seq<int>, moved: bool)
    requires (x == 1 || x == 3) && 0 <= i < 5 && (i == 0 ==> 0 !in before)
    requires forall e, m :: Visits(CYCLE, Paired(x), e, before, m, 1.0, 6.0) <==> HasFlipped(x, before, e, m)
    ensures Visits(CYCLE, Paired(x), d, before + [i], moved, 1.0, 6.0) <==> HasFlipped(x, before + [i], d, moved)
  {
    var c, order, y, m := Paired(x), before + [i], if 0 in before then 4 - x else x, 0 in before;
    assert order[..|order| - 1] == before && (0 in order <==> m || i == 0);
    if i == 0 { Flips(y, d); } else { Stays(y, i, d); }
    assert HasFlipped(x, before, Paired(y), m);
    if Visits(CYCLE, c, d, order, moved, 1.0, 6.0) {
      assert Visits(CYCLE, c, d, order, moved, 1.0, 6.0);
      var e, n :| VisitsAndOne(CYCLE, c, e, d, order, n, moved, 1.0, 6.0);
      assert HasFlipped(x, before, e, n);
    }
    if HasFlipped(x, order, d, moved) {
      assert VisitsAndOne(CYCLE, c, Paired(y), d, order, m, moved, 1.0, 6.0);
    }
  }

  lemma {:induction false} VisitsFlip(x: int, order: seq<int>, d: seq<int>, moved: bool)
    requires (x == 1 || x == 3) && NoRepeats(order) && forall k :: 0 <= k < |order| ==> 0 <= order[k] < 5
    ensures Visits(CYCLE, Paired(x), d, order, moved, 1.0, 6.0) <==> HasFlipped(x, order, d, moved)
    decreases |order|
  {
    if |order| > 0 {
      var before, i := order[..|order| - 1], order[|order| - 1];
      assert order == before + [i];
      forall e, m
        ensures Visits(CYCLE, Paired(x), e, before, m, 1.0, 6.0) <==> HasFlipped(x, before, e, m)
      {
        VisitsFlip(x, before, e, m);
      }
      FlipNext(x, before, i, d, moved);
    }
  }

  /** Whatever the order, a pass moves node 0 to the other side and nothing else. */
  lemma EveryPassFlips(x: int, d: seq<int>, order: seq<int>, moved: bool)
    requires (x == 1 || x == 3) && IsPerm(order, 5)
    ensures Visits(CYCLE, Paired(x), d, order, moved, 1.0, 6.0) <==> d == Paired(4 - x) && moved
  {
    PermNoRepeats(order, 5);
    VisitsFlip(x, order, d, moved);
  }

  lemma FlippingPass(x: int)
    requires x == 1 || x == 3
    ensures ImprovingPass(CYCLE, Paired(x), Paired(4 - x), 1.0, 6.0)
  {
    var order := [0, 1, 2, 3, 4];
    EveryPassFlips(x, Paired(4 - x), order, true);
  }

  // ---------- the first pass forms the pairs ----------

  lemma {:induction false} VisitsAlong(es: seq<Edge>, s: seq<seq<int>>, order: seq<int>, n: nat, R: real, T: real)
    returns (moved: bool)
    requires n <= |order| && |s| == |order| + 1 && T != 0.0 && InRange(es, |s[0]|)
    requires forall k {:trigger s[k]} :: 0 <= k < |s| ==> |s[k]| == |s[0]|
    requires forall k {:trigger order[k]} :: 0 <= k < |order| ==> VisitStep(es, s[k], s[k + 1], order[k], R, T)
    ensures Visits(es, s[0], s[n], order[..n], moved, R, T)
    ensures forall k {:trigger s[k]} :: 0 <= k < n && s[k] != s[k + 1] ==> moved
  {
    if n == 0 { return false; }
    var m := VisitsAlong(es, s, order, n - 1, R, T);
    assert VisitStep(es, s[n - 1], s[n - 1 + 1], order[n - 1], R, T);
    VisitsNext(es, s[0], s[n - 1], s[n], order, n - 1, m, R, T);
    moved := m || s[n - 1] != s[n];
  }

  /** A move to the community of the only neighbour. */
  lemma JoinGains(c: seq<int>, i: int, l: int)
    requires (i == 2 && l == 1 && c == CYCLE_NODES) || (i == 4 && l == 3 && c == CYCLE_NODES[2 := 1])
    ensures MoveGain(CYCLE, c, i, l, 1.0, 6.0) > 0.0
  {
    FiveMeasures(CYCLE, c, i, l);
    FiveMeasures(CYCLE, c, i, i);
  }

  /** Nodes 2 and 4 join their partners. */
  lemma Joins(c: seq<int>, i: int, l: int)
    requires (i == 2 && l == 1 && c == CYCLE_NODES) || (i == 4 && l == 3 && c == CYCLE_NODES[2 := 1])
    ensures VisitStep(CYCLE, c, c[i := l], i, 1.0, 6.0)
  {
    JoinGains(c, i, l);
    forall m
      ensures Neighbours(CYCLE, c, i, m) <==> m == l
    {
      CycleNeighbours(c, i, m);
      if m == l { assert m in Beside(i) && c[m] == m; }
    }
    OnlyMove(CYCLE, c, i, l, 1.0, 6.0);
  }

  lemma SideGains(m: int)
    requires m == 1 || m == 3
    ensures MoveGain(CYCLE, [0, 1, 1, 3, 3], 0, m, 1.0, 6.0) == 3.0
  {
    FiveMeasures(CYCLE, [0, 1, 1, 3, 3], 0, 0);
    FiveMeasures(CYCLE, [0, 1, 1, 3, 3], 0, m);
  }

  /** Node 0 joins the first pair; the second would gain as much. */
  lemma JoinsFirst()
    ensures VisitStep(CYCLE, [0, 1, 1, 3, 3], Paired(1), 0, 1.0, 6.0)
  {
    var c := [0, 1, 1, 3, 3];
    forall m {:trigger Neighbours(CYCLE, c, 0, m)} | Neighbours(CYCLE, c, 0, m) && m != 0
      ensures MoveGain(CYCLE, c, 0, m, 1.0, 6.0) <= 3.0
    {
      CycleNeighbours(c, 0, m);
      SideGains(m);
    }
    CycleNeighbours(c, 0, 1);
    SideGains(1);
    assert 1 in Beside(0) && c[1] == 1 && c[0 := 1] == Paired(1);
    assert IsBestMove(CYCLE, c, Paired(1), 0, 1, 1.0, 6.0);
  }

  /** The labels after the first k visits of the first pass. */
  ghost function Stage(k: int): (c: seq<int>)
    ensures |c| == 5
  {
    if k == 0 then CYCLE_NODES
    else if k == 1 then CYCLE_NODES[2 := 1]
    else if k == 2 then [0, 1, 1, 3, 3]
    else Paired(1)
  }

  ghost const FIRST_ORDER: seq<int> := [2, 4, 0, 1, 3]

  lemma StageNext(k: int)
    requires 0 <= k < 5
    ensures VisitStep(CYCLE, Stage(k), Stage(k + 1), FIRST_ORDER[k], 1.0, 6.0)
  {
    if k == 0 {
      Joins(CYCLE_NODES, 2, 1);
    } else if k == 1 {
      Joins(CYCLE_NODES[2 := 1], 4, 3);
      assert CYCLE_NODES[2 := 1][4 := 3] == [0, 1, 1, 3, 3];
    } else if k == 2 {
      JoinsFirst();
    } else {
      Stays(1, FIRST_ORDER[k], Paired(1));
    }
  }

  lemma FirstPass()
    ensures ImprovingPass(CYCLE, CYCLE_NODES, Paired(1), 1.0, 6.0)
  {
    var s := seq(6, k => Stage(k));
    forall k {:trigger FIRST_ORDER[k]} | 0 <= k < 5
      ensures VisitStep(CYCLE, s[k], s[k + 1], FIRST_ORDER[k], 1.0, 6.0)
    {
      StageNext(k);
    }
    var moved := VisitsAlong(CYCLE, s, FIRST_ORDER, 5, 1.0, 6.0);
    assert Stage(0)[2] == 2 && Stage(1)[2] == 1 && s[0] != s[1];
    assert FIRST_ORDER[..5] == FIRST_ORDER && IsPerm(FIRST_ORDER, 5);
  }

  /** So passes need not end: with the default resolution there can be any number of them, and each one moves a node. */
  lemma {:induction false} NeverEnds(p: nat)
    requires p > 0
    ensures ImprovingPasses(CYCLE, CYCLE_NODES, Paired(if p % 2 == 1 then 1 else 3), p, 1.0, 6.0)
  {
    if p == 1 {
      FirstPass();
      PassesNext(CYCLE, CYCLE_NODES, CYCLE_NODES, Paired(1), 0, 1.0, 6.0);
    } else {
      var x := if (p - 1) % 2 == 1 then 1 else 3;
      NeverEnds(p - 1);
      FlippingPass(x);
      PassesNext(CYCLE, CYCLE_NODES, Paired(x), Paired(4 - x), p - 1, 1.0, 6.0);
    }
  }

  /** The input, on which the condition of NeverRevisits fails. */
  lemma CycleIsInput()
    ensures NoRepeats(CYCLE_NODES) && PresentEdges(CYCLE_NODES, RelsOf(CYCLE_NODES, CYCLE)) == CYCLE
    ensures 2.0 * Total(CYCLE) == 6.0 && !LoopsHelp(CYCLE, 5, 1.0)
  {
    RelsOfEdges(CYCLE_NODES, CYCLE);
    FiveMeasures(CYCLE, CYCLE_NODES, 0, 0);
  }
}
