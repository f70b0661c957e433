/** What Louvain's moves do to Newman's modularity: they always raise it exactly for the resolution 1/2. */
module LouvainModularity {
  import opened Graphs
  import opened Counting
  import opened Partitions
  import opened LouvainWeights
  import opened Louvain
  import opened SmallGraphs

  // ---------- the potential and modularity ----------

  /** Newman's modularity of a partition whose labels are node IDs. */
  ghost function Modularity(es: seq<Edge>, nodes: seq<int>, c: seq<int>, T: real): real
    requires InRange(es, |c|) && T != 0.0
  {
    NewmanModularity.Newman(Intra(es, c), NodeVolumes(es, nodes, c), |nodes|, T)
  }

  lemma SquareIsShare(v: real, T: real)
    requires T != 0.0
    ensures Square(T)(v) == T / 4.0 * NewmanModularity.SquaredShare(T)(v)
  {
    var x := v / T;
    assert v == x * T && NewmanModularity.SquaredShare(T)(v) == x * x;
    ScaledSquare(x, T);
  }

  lemma ScaledSquare(x: real, T: real)
    requires T != 0.0
    ensures (x * T) * (x * T) / (4.0 * T) == T / 4.0 * (x * x)
  {
    var y := T / 4.0 * (x * x);
    assert y * (4.0 * T) == (T * T) * (x * x);
    assert (x * T) * (x * T) == (T * T) * (x * x);
    QuotientIs((x * T) * (x * T), 4.0 * T, y);
  }

  lemma QuotientIs(a: real, q: real, y: real)
    requires q != 0.0 && y * q == a
    ensures a / q == y
  {}

  lemma {:induction false} SpreadScale(v: int -> real, s: real -> real, t: real -> real, k: real, n: nat)
    requires forall x :: s(x) == k * t(x)
    ensures Spread(v, s, n) == k * Spread(v, t, n)
  {
    if n > 0 {
      SpreadScale(v, s, t, k, n - 1);
      Distribute(k, Spread(v, t, n - 1), t(v(n - 1)));
    }
  }

  lemma Distribute(k: real, x: real, y: real)
    ensures k * (x + y) == k * x + k * y
  {}

  lemma Combine(R: real, inside: real, squares: real, shares: real, T: real)
    requires T != 0.0 && squares == T / 4.0 * shares
    ensures R * inside - squares == T / 4.0 * (2.0 * inside / T - shares) + (R - 0.5) * inside
  {
    var x := 2.0 * inside / T;
    assert x * T == 2.0 * inside;
    assert T / 4.0 * x == inside / 2.0;
    Distribute(T / 4.0, x, -shares);
  }

  lemma SquaresAreShares(v: int -> real, n: nat, T: real)
    requires T != 0.0
    ensures Spread(v, Square(T), n) == T / 4.0 * Spread(v, NewmanModularity.SquaredShare(T), n)
  {
    var share := NewmanModularity.SquaredShare(T);
    forall x
      ensures Square(T)(x) == T / 4.0 * share(x)
    {
      SquareIsShare(x, T);
    }
    SpreadScale(v, Square(T), share, T / 4.0, n);
  }

  /** What the moves raise is modularity times T/4, and the weight inside communities times what the resolution
      exceeds 1/2. */
  lemma BalanceIsNewman(R: real, inside: real, v: int -> real, n: nat, T: real, potential: real, modularity: real)
    requires T != 0.0 && potential == Balance(R, inside, v, Square(T), n)
    requires modularity == NewmanModularity.Newman(inside, v, n, T)
    ensures potential == T / 4.0 * modularity + (R - 0.5) * inside
  {
    SquaresAreShares(v, n, T);
    Combine(R, inside, Spread(v, Square(T), n), Spread(v, NewmanModularity.SquaredShare(T), n), T);
  }

  lemma HalfOrder(T: real, x: real, y: real, p: real, q: real)
    requires T > 0.0 && p == T / 4.0 * x && q == T / 4.0 * y
    ensures x < y <==> p < q
  {
    if x < y { assert T * (y - x) > 0.0; }
    if y <= x { assert T * (x - y) >= 0.0; }
  }

  lemma BalanceOrder(inside: real, v: int -> real, inside': real, v': int -> real, n: nat, T: real)
    requires T > 0.0
    ensures NewmanModularity.Newman(inside, v, n, T) < NewmanModularity.Newman(inside', v', n, T) <==>
            Balance(0.5, inside, v, Square(T), n) < Balance(0.5, inside', v', Square(T), n)
  {
    var m, m' := NewmanModularity.Newman(inside, v, n, T), NewmanModularity.Newman(inside', v', n, T);
    var p, p' := Balance(0.5, inside, v, Square(T), n), Balance(0.5, inside', v', Square(T), n);
    BalanceIsNewman(0.5, inside, v, n, T, p, m);
    BalanceIsNewman(0.5, inside', v', n, T, p', m');
    HalfOrder(T, m, m', p, p');
  }

  /** So for the resolution 1/2 the potential and modularity order all partitions alike. */
  lemma SameOrder(es: seq<Edge>, nodes: seq<int>, c: seq<int>, d: seq<int>, T: real)
    requires InRange(es, |c|) && |d| == |c| && T > 0.0
    ensures Modularity(es, nodes, c, T) < Modularity(es, nodes, d, T) <==>
            Potential(es, nodes, c, 0.5, T) < Potential(es, nodes, d, 0.5, T)
  {
    BalanceOrder(Intra(es, c), NodeVolumes(es, nodes, c), Intra(es, d), NodeVolumes(es, nodes, d), |nodes|, T);
  }

  // ---------- moves on small graphs ----------

  /** The facts about position i and the label l that a gain is computed from. */
  ghost predicate Measures(es: seq<Edge>, c: seq<int>, i: int, l: int, links: real, loops: real, degree: real,
                           volume: real)
    requires InRange(es, |c|)
  {
    Links(es, c, i, l) == links && Loops(es, i) == loops && Degree(es, i) == degree && Volume(es, c, l) == volume
  }

  /** A move to the only other community among the neighbours is the best move if it gains. */
  lemma OnlyMove(es: seq<Edge>, c: seq<int>, i: int, l: int, R: real, T: real)
    requires InRange(es, |c|) && 0 <= i < |c| && T != 0.0 && l != c[i] && Neighbours(es, c, i, l)
    requires forall m :: Neighbours(es, c, i, m) ==> m == l || m == c[i]
    requires MoveGain(es, c, i, l, R, T) > 0.0
    ensures IsBestMove(es, c, c[i := l], i, l, R, T)
  {}

  // ---------- a path on which only the resolution 1/2 raises modularity ----------

  ghost const PATH_NODES: seq<int> := [0, 1, 2, 3]
  ghost const PATH: seq<Edge> := [Edge(0, 1, 3.0), Edge(0, 2, 1.0), Edge(1, 3, 2.0)]

  lemma PathTotal()
    ensures Total(PATH) == 6.0
  {
    Tallies(PATH, PATH_NODES, 0, 0);
    TallyThree(PATH, (e: Edge) => e.w);
  }

  /** Node 0 between the two communities. */
  ghost function PathLabels(x: int): seq<int>
  {
    [x, 1, 0, 1]
  }

  lemma PathMeasures(x: int)
    requires x == 0 || x == 1
    ensures Measures(PATH, PathLabels(x), 0, 0, 1.0, 0.0, 4.0, if x == 0 then 5.0 else 1.0)
    ensures Measures(PATH, PathLabels(x), 0, 1, 3.0, 0.0, 4.0, if x == 0 then 7.0 else 11.0)
  {
    for l := 0 to 2
      invariant l > 0 ==> Measures(PATH, PathLabels(x), 0, 0, 1.0, 0.0, 4.0, if x == 0 then 5.0 else 1.0)
      invariant l > 1 ==> Measures(PATH, PathLabels(x), 0, 1, 3.0, 0.0, 4.0, if x == 0 then 7.0 else 11.0)
    {
      Tallies(PATH, PathLabels(x), 0, l);
      TallyThree(PATH, LinksOf(PathLabels(x), 0, l));
      TallyThree(PATH, LoopOf(0));
      TallyThree(PATH, DegreeOf(0));
      TallyThree(PATH, VolumeOf(PathLabels(x), l));
    }
  }

  lemma PathNeighbours(x: int, m: int)
    requires x == 0 || x == 1
    ensures Neighbours(PATH, PathLabels(x), 0, m) <==> m == 0 || m == 1
  {
    forall j
      ensures Adjacent(PATH, 0, j) <==> j == 1 || j == 2
    {
      AdjacentIff(PATH, 0, j);
      assert Meets(PATH[0], 0, 1) && Meets(PATH[1], 0, 2);
    }
    assert PathLabels(x)[1] == 1 && PathLabels(x)[2] == 0;
  }

  /** Moving node 0 gains for the resolutions on one side of 1/2, and the way back for those on the other side. */
  lemma PathMove(x: int, R: real)
    requires x == 0 || x == 1
    requires if x == 0 then R > 0.5 else R < 0.5
    ensures IsBestMove(PATH, PathLabels(x), PathLabels(1 - x), 0, 1 - x, R, 12.0)
    ensures MoveGain(PATH, PathLabels(x), 0, 1 - x, 0.5, 12.0) == 0.0 && Loops(PATH, 0) == 0.0
  {
    var c := PathLabels(x);
    PathMeasures(x);
    forall m
      ensures Neighbours(PATH, c, 0, m) <==> m == 0 || m == 1
    {
      PathNeighbours(x, m);
    }
    assert c[0 := 1 - x] == PathLabels(1 - x);
    PathGain(x, R);
    PathGain(x, 0.5);
    OnlyMove(PATH, c, 0, 1 - x, R, 12.0);
  }

  lemma PathGain(x: int, R: real)
    requires x == 0 || x == 1
    ensures MoveGain(PATH, PathLabels(x), 0, 1 - x, R, 12.0) == if x == 0 then 2.0 * R - 1.0 else 1.0 - 2.0 * R
  {
    PathMeasures(x);
  }

  // ---------- exactly when moves raise modularity ----------

  /** Distinct nodes that all carry the ID of some node, and relationships of positive total weight without
      self-loops. */
  ghost predicate IsLoopFree(nodes: seq<int>, rels: seq<Relationship>, c: seq<int>)
  {
    && NoRepeats(nodes) && |c| == |nodes| && AllNamed(nodes, c) && Total(PresentEdges(nodes, rels)) > 0.0
    && forall k :: 0 <= k < |PresentEdges(nodes, rels)| ==>
       PresentEdges(nodes, rels)[k].a != PresentEdges(nodes, rels)[k].b
  }

  /** A best move with this resolution, and the total weight that the code computes. */
  ghost predicate Moves(nodes: seq<int>, rels: seq<Relationship>, c: seq<int>, d: seq<int>, R: real)
    requires IsLoopFree(nodes, rels, c)
  {
    MoveStep(PresentEdges(nodes, rels), c, d, R, 2.0 * Total(PresentEdges(nodes, rels)))
  }

  ghost function ModularityOf(nodes: seq<int>, rels: seq<Relationship>, c: seq<int>): real
    requires |c| == |nodes| && Total(PresentEdges(nodes, rels)) != 0.0
  {
    Modularity(PresentEdges(nodes, rels), nodes, c, 2.0 * Total(PresentEdges(nodes, rels)))
  }

  /** With this resolution every best move on every graph without self-loops raises modularity. */
  ghost predicate AlwaysRaises(R: real)
  {
    forall nodes, rels, c, d :: IsLoopFree(nodes, rels, c) && |d| == |c| && Moves(nodes, rels, c, d, R) ==>
      ModularityOf(nodes, rels, c) < ModularityOf(nodes, rels, d)
  }

  lemma MoveRaisesModularity(es: seq<Edge>, nodes: seq<int>, c: seq<int>, d: seq<int>, T: real)
    requires NoRepeats(nodes) && InRange(es, |c|) && T > 0.0 && AllNamed(nodes, c) && LoopsHelp(es, |c|, 0.5)
    requires |d| == |c| && MoveStep(es, c, d, 0.5, T)
    ensures Modularity(es, nodes, c, T) < Modularity(es, nodes, d, T)
  {
    StepRaises(es, nodes, c, d, 0.5, T);
    SameOrder(es, nodes, c, d, T);
  }



  lemma PathSame(x: int)
    requires x == 0 || x == 1
    ensures Modularity(PATH, PATH_NODES, PathLabels(x), 12.0) == Modularity(PATH, PATH_NODES, PathLabels(1 - x), 12.0)
  {
    var c := PathLabels(x);
    PathGain(x, 0.5);
    PathMeasures(x);
    PathNamed(x);
    assert c[0 := 1 - x] == PathLabels(1 - x);
    assert PATH_NODES[1 - x] == 1 - x;
    MoveRaises(PATH, PATH_NODES, c, PathLabels(1 - x), 0, 1 - x, 0.5, 12.0);
    SameOrder(PATH, PATH_NODES, c, PathLabels(1 - x), 12.0);
    SameOrder(PATH, PATH_NODES, PathLabels(1 - x), c, 12.0);
  }

  lemma IsInput(nodes: seq<int>, es: seq<Edge>, c: seq<int>)
    requires NoRepeats(nodes) && InRange(es, |nodes|) && |c| == |nodes| && AllNamed(nodes, c) && Total(es) > 0.0
    requires forall k :: 0 <= k < |es| ==> es[k].a != es[k].b
    ensures PresentEdges(nodes, RelsOf(nodes, es)) == es && IsLoopFree(nodes, RelsOf(nodes, es), c)
  {
    RelsOfEdges(nodes, es);
  }

  lemma NotAlways(nodes: seq<int>, rels: seq<Relationship>, c: seq<int>, d: seq<int>, R: real)
    requires IsLoopFree(nodes, rels, c) && |d| == |c| && Moves(nodes, rels, c, d, R)
    requires ModularityOf(nodes, rels, c) >= ModularityOf(nodes, rels, d)
    ensures !AlwaysRaises(R)
  {}

  /** On the path a move for any other resolution leaves modularity as it is. */
  lemma PathLeavesModularity(R: real)
    requires R != 0.5
    ensures !AlwaysRaises(R)
  {
    var x := if R > 0.5 then 0 else 1;
    PathTotal();
    PathNamed(x);
    IsInput(PATH_NODES, PATH, PathLabels(x));
    PathMove(x, R);
    PathSame(x);
    NotAlways(PATH_NODES, RelsOf(PATH_NODES, PATH), PathLabels(x), PathLabels(1 - x), R);
  }

  lemma PathNamed(x: int)
    requires x == 0 || x == 1
    ensures NoRepeats(PATH_NODES) && AllNamed(PATH_NODES, PathLabels(x)) && PathLabels(x)[0] in PATH_NODES
  {
    assert PATH_NODES[0] == 0 && PATH_NODES[1] == 1;
  }

  lemma HalfRaises(nodes: seq<int>, rels: seq<Relationship>, c: seq<int>, d: seq<int>)
    requires IsLoopFree(nodes, rels, c) && |d| == |c| && Moves(nodes, rels, c, d, 0.5)
    ensures ModularityOf(nodes, rels, c) < ModularityOf(nodes, rels, d)
  {
    var es := PresentEdges(nodes, rels);
    NoLoopsHelp(es, |c|, 0.5);
    MoveRaisesModularity(es, nodes, c, d, 2.0 * Total(es));
  }

  /** The moves raise Newman's modularity on all graphs without self-loops exactly for the resolution 1/2. */
  lemma RaisesExactlyAtHalf(R: real)
    ensures AlwaysRaises(R) <==> R == 0.5
  {
    if R == 0.5 {
      forall nodes, rels, c, d | IsLoopFree(nodes, rels, c) && |d| == |c| && Moves(nodes, rels, c, d, R)
        ensures ModularityOf(nodes, rels, c) < ModularityOf(nodes, rels, d)
      {
        HalfRaises(nodes, rels, c, d);
      }
    } else {
      PathLeavesModularity(R);
    }
  }

  // ---------- a first move that lowers modularity ----------

  ghost const HUB_NODES: seq<int> := [0, 1, 2, 3, 4, 5]

  /** Node 0 with three leaves, next to a node with a heavy link elsewhere. */
  ghost const HUB: seq<Edge> :=
    [Edge(0, 1, 2.0), Edge(0, 2, 1.0), Edge(0, 3, 1.0), Edge(0, 4, 1.0), Edge(1, 5, 11.0)]

  lemma HubTotal()
    ensures Total(HUB) == 16.0
  {
    Tallies(HUB, HUB_NODES, 0, 0);
    TallyFive(HUB, (e: Edge) => e.w);
  }

  lemma HubMeasures(l: int)
    requires 0 <= l < 5
    ensures Measures(HUB, HUB_NODES, 0, l, if l == 0 then 0.0 else if l == 1 then 2.0 else 1.0, 0.0, 5.0,
                     if l == 0 then 5.0 else if l == 1 then 13.0 else 1.0)
  {
    Tallies(HUB, HUB_NODES, 0, l);
    TallyFive(HUB, LinksOf(HUB_NODES, 0, l));
    TallyFive(HUB, LoopOf(0));
    TallyFive(HUB, DegreeOf(0));
    TallyFive(HUB, VolumeOf(HUB_NODES, l));
  }

  lemma HubNeighbours(m: int)
    ensures Neighbours(HUB, HUB_NODES, 0, m) <==> 1 <= m < 5
  {
    forall j
      ensures Adjacent(HUB, 0, j) <==> 1 <= j < 5
    {
      AdjacentIff(HUB, 0, j);
      assert Meets(HUB[0], 0, 1) && Meets(HUB[1], 0, 2) && Meets(HUB[2], 0, 3) && Meets(HUB[3], 0, 4);
    }
    if 1 <= m < 5 { assert Adjacent(HUB, 0, m) && HUB_NODES[m] == m; }
  }

  lemma HubGain(l: int, R: real)
    requires 1 <= l < 5
    ensures MoveGain(HUB, HUB_NODES, 0, l, R, 32.0) == if l == 1 then 2.0 * R - 65.0 / 64.0 else R - 5.0 / 64.0
  {
    HubMeasures(0);
    HubMeasures(l);
  }

  lemma HubMove()
    ensures IsBestMove(HUB, HUB_NODES, HUB_NODES[0 := 1], 0, 1, 1.0, 32.0)
  {
    forall m {:trigger Neighbours(HUB, HUB_NODES, 0, m)} | Neighbours(HUB, HUB_NODES, 0, m)
      ensures MoveGain(HUB, HUB_NODES, 0, m, 1.0, 32.0) <= 63.0 / 64.0
    {
      HubNeighbours(m);
      HubGain(m, 1.0);
    }
    HubNeighbours(1);
    HubGain(1, 1.0);
  }

  lemma OneMove(es: seq<Edge>, nodes: seq<int>, d: seq<int>, R: real, T: real)
    requires InRange(es, |nodes|) && T != 0.0 && |d| == |nodes| && MoveStep(es, nodes, d, R, T)
    ensures MoveRun(es, nodes, R, T, [nodes, d])
  {
    var trail := [nodes, d];
    forall k {:trigger trail[k]} | 0 < k < |trail|
      ensures MoveStep(es, trail[k - 1], trail[k], R, T)
    {
      assert trail[k - 1] == nodes && trail[k] == d;
    }
  }

  lemma DefaultMoveLowers()
    ensures IsLoopFree(HUB_NODES, RelsOf(HUB_NODES, HUB), HUB_NODES)
    ensures Total(PresentEdges(HUB_NODES, RelsOf(HUB_NODES, HUB))) == 16.0
    ensures MoveRun(PresentEdges(HUB_NODES, RelsOf(HUB_NODES, HUB)), HUB_NODES, 1.0, 32.0,
                    [HUB_NODES, HUB_NODES[0 := 1]])
    ensures ModularityOf(HUB_NODES, RelsOf(HUB_NODES, HUB), HUB_NODES[0 := 1]) <
            ModularityOf(HUB_NODES, RelsOf(HUB_NODES, HUB), HUB_NODES)
  {
    HubTotal();
    IsInput(HUB_NODES, HUB, HUB_NODES);
    HubMove();
    HubLowers();
    OneMove(HUB, HUB_NODES, HUB_NODES[0 := 1], 1.0, 32.0);
  }

  lemma DefaultResolution(config: Config)
    requires config.resolution == 0.0 || config.resolution == 1.0
    ensures Resolution(config) == 1.0
  {}

  lemma HubLowers()
    ensures Modularity(HUB, HUB_NODES, HUB_NODES[0 := 1], 32.0) < Modularity(HUB, HUB_NODES, HUB_NODES, 32.0)
  {
    HubGain(1, 0.5);
    HubMeasures(0);
    assert HUB_NODES[0] == 0 && HUB_NODES[1] == 1;
    MoveRaises(HUB, HUB_NODES, HUB_NODES, HUB_NODES[0 := 1], 0, 1, 0.5, 32.0);
    SameOrder(HUB, HUB_NODES, HUB_NODES[0 := 1], HUB_NODES, 32.0);
  }

  /** With the default resolution even the first move of a run, from every node by itself, can lower modularity. */
  lemma FirstMoveLowers(config: Config)
    requires config.resolution == 0.0 || config.resolution == 1.0
    ensures IsLoopFree(HUB_NODES, RelsOf(HUB_NODES, HUB), HUB_NODES)
    ensures Total(PresentEdges(HUB_NODES, RelsOf(HUB_NODES, HUB))) == 16.0
    ensures MoveRun(PresentEdges(HUB_NODES, RelsOf(HUB_NODES, HUB)), HUB_NODES, Resolution(config), 32.0,
                    [HUB_NODES, HUB_NODES[0 := 1]])
    ensures ModularityOf(HUB_NODES, RelsOf(HUB_NODES, HUB), HUB_NODES[0 := 1]) <
            ModularityOf(HUB_NODES, RelsOf(HUB_NODES, HUB), HUB_NODES)
  {
    DefaultMoveLowers();
    DefaultResolution(config);
  }
}
