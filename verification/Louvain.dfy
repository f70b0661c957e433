/** Louvain's local moving phase: every pass visits the nodes in a random order, and each visit moves the node to
    the neighbouring community with the largest positive gain. */
module Louvain {
  import opened Graphs
  import opened Components
  import opened Counting
  import opened Partitions
  import opened Randomness
  import opened LouvainWeights

  /** A zero field stands for its default. The code never reads the threshold. */
  datatype Config = Config(maxIterations: int, threshold: real, resolution: real)

  function Iterations(config: Config): int
  {
    if config.maxIterations == 0 then 100 else config.maxIterations
  }

  function Resolution(config: Config): real
  {
    if config.resolution == 0.0 then 1.0 else config.resolution
  }

  // ---------- the potential ----------

  /** The part of the gain that the resolution does not scale. */
  function Spill(ki: real, sigmaTot: real, currentTot: real, T: real): real
    requires T != 0.0
  {
    ki * (sigmaTot - (currentTot - ki)) / (2.0 * T)
  }

  function Gain(R: real, kiin: real, currentIn: real, ki: real, sigmaTot: real, currentTot: real, T: real): real
    requires T != 0.0
  {
    R * (kiin - currentIn) - Spill(ki, sigmaTot, currentTot, T)
  }

  ghost function Square(T: real): real -> real
    requires T != 0.0
  {
    v => v * v / (4.0 * T)
  }

  /** The volume of the community that is named after the p-th node. */
  ghost function NodeVolumes(es: seq<Edge>, nodes: seq<int>, c: seq<int>): int -> real
    requires InRange(es, |c|)
  {
    p => if 0 <= p < |nodes| then Volume(es, c, nodes[p]) else 0.0
  }

  /** What a move raises: the resolution times the weight inside communities, less the squares of the volumes
      over 4T. As T is twice the total weight already, this is Newman's modularity only for the resolution 1/2. */
  ghost function Potential(es: seq<Edge>, nodes: seq<int>, c: seq<int>, R: real, T: real): real
    requires InRange(es, |c|) && T != 0.0
  {
    Balance(R, Intra(es, c), NodeVolumes(es, nodes, c), Square(T), |nodes|)
  }

  ghost function Balance(R: real, inside: real, v: int -> real, share: real -> real, n: nat): real
  {
    R * inside - Spread(v, share, n)
  }

  /** The code's gain leaves out what the self-loops of the moved node contribute. */
  ghost function LoopBonus(R: real, loops: real): real
  {
    2.0 * (R * loops)
  }

  /** The gain that the code computes for moving position i to community l. */
  ghost function MoveGain(es: seq<Edge>, c: seq<int>, i: int, l: int, R: real, T: real): real
    requires InRange(es, |c|) && 0 <= i < |c| && T != 0.0
  {
    Gain(R, LinksAndLoops(es, c, i, l), LinksAndLoops(es, c, i, c[i]), Degree(es, i), Volume(es, c, l),
         Volume(es, c, c[i]), T)
  }

  /** The four squares and the spill, given by their values. */
  lemma SquareMoveOf(x: real, x': real, y: real, y': real, k: real, T: real, p: real, q: real, r: real, s: real)
    requires T != 0.0 && x' == x - k && y' == y + k
    requires p == x' * x' / (4.0 * T) && q == x * x / (4.0 * T) && r == y' * y' / (4.0 * T) && s == y * y / (4.0 * T)
    ensures p - q + r - s == Spill(k, y, x, T)
  {
    MoveSquares(x, y, k);
    MoveQuotient(x' * x', x * x, y' * y', y * y, k * (y - (x - k)), T);
  }

  lemma SquareIs(v: real, T: real)
    requires T != 0.0
    ensures Square(T)(v) == v * v / (4.0 * T)
  {}

  lemma SquareMoveAt(x: real, x': real, y: real, y': real, k: real, T: real)
    requires T != 0.0 && x' == x - k && y' == y + k
    ensures Square(T)(x') - Square(T)(x) + Square(T)(y') - Square(T)(y) == Spill(k, y, x, T)
  {
    SquareIs(x', T);
    SquareIs(x, T);
    SquareIs(y', T);
    SquareIs(y, T);
    SquareMoveOf(x, x', y, y', k, T, Square(T)(x'), Square(T)(x), Square(T)(y'), Square(T)(y));
  }

  lemma SquareMove(x: real, y: real, k: real, T: real)
    requires T != 0.0
    ensures Square(T)(x - k) - Square(T)(x) + Square(T)(y + k) - Square(T)(y) == Spill(k, y, x, T)
  {
    SquareMoveAt(x, x - k, y, y + k, k, T);
  }

  lemma MoveQuotient(a: real, b: real, c: real, d: real, m: real, T: real)
    requires T != 0.0 && a - b + c - d == 2.0 * m
    ensures a / (4.0 * T) - b / (4.0 * T) + c / (4.0 * T) - d / (4.0 * T) == m / (2.0 * T)
  {
    QuotientSum(a, b, c, d, 4.0 * T);
    HalveQuotient(m, T);
  }

  lemma MoveSquares(x: real, y: real, k: real)
    ensures (x - k) * (x - k) - x * x + (y + k) * (y + k) - y * y == 2.0 * (k * (y - (x - k)))
  {
    assert (x - k) * (x - k) == x * x - 2.0 * (k * x) + k * k;
    assert (y + k) * (y + k) == y * y + 2.0 * (k * y) + k * k;
    assert k * (y - (x - k)) == k * y - k * x + k * k;
  }

  lemma QuotientSum(a: real, b: real, c: real, d: real, q: real)
    requires q != 0.0
    ensures a / q - b / q + c / q - d / q == (a - b + c - d) / q
  {}

  lemma HalveQuotient(x: real, T: real)
    requires T != 0.0
    ensures 2.0 * x / (4.0 * T) == x / (2.0 * T)
  {
    var y := x / (2.0 * T);
    assert y * (2.0 * T) == x;
    assert y * (4.0 * T) == 2.0 * x;
  }

  lemma Scale(R: real, a: real, b: real, loops: real)
    ensures R * (a + b + 2.0 * loops) - R * a == R * b + 2.0 * (R * loops)
  {}

  lemma ResolutionGain(R: real, inside': real, inside: real, kiin: real, currentIn: real, loops: real)
    requires inside' == inside + kiin - (currentIn - 2.0 * loops)
    ensures R * inside' - R * inside == R * (kiin - currentIn) + 2.0 * (R * loops)
  {
    var b := kiin - currentIn;
    Scale(R, inside, b, loops);
    assert inside' == inside + b + 2.0 * loops;
  }

  /** The effect of a move on the potential, from its effect on the weight inside and on two volumes. */
  lemma BalanceGain(R: real, inside': real, inside: real, kiin: real, currentIn: real, loops: real,
                    v': int -> real, v: int -> real, share: real -> real, n: nat, x: int, y: int, k: real, spill: real)
    requires inside' == inside + kiin - (currentIn - 2.0 * loops) && 0 <= x < n && 0 <= y < n && x != y
    requires v'(x) == v(x) - k && v'(y) == v(y) + k
    requires forall p :: 0 <= p < n && p != x && p != y ==> v'(p) == v(p)
    requires share(v(x) - k) - share(v(x)) + share(v(y) + k) - share(v(y)) == spill
    ensures Balance(R, inside', v', share, n) - Balance(R, inside, v, share, n) ==
            R * (kiin - currentIn) - spill + 2.0 * (R * loops)
  {
    SpreadTwo(v', v, share, n, x, y);
    assert Spread(v', share, n) - Spread(v, share, n) == spill;
    ResolutionGain(R, inside', inside, kiin, currentIn, loops);
    assert Balance(R, inside', v', share, n) == R * inside' - Spread(v', share, n);
    assert Balance(R, inside, v, share, n) == R * inside - Spread(v, share, n);
  }

  lemma SquaresGain(R: real, inside': real, inside: real, kiin: real, currentIn: real, loops: real,
                    v': int -> real, v: int -> real, n: nat, x: int, y: int, k: real, vx: real, vy: real, T: real)
    requires inside' == inside + kiin - (currentIn - 2.0 * loops) && 0 <= x < n && 0 <= y < n && x != y && T != 0.0
    requires v(x) == vx && v(y) == vy && v'(x) == vx - k && v'(y) == vy + k
    requires forall p :: 0 <= p < n && p != x && p != y ==> v'(p) == v(p)
    ensures Balance(R, inside', v', Square(T), n) - Balance(R, inside, v, Square(T), n) ==
            Gain(R, kiin, currentIn, k, vy, vx, T) + LoopBonus(R, loops)
  {
    SquareMove(vx, vy, k, T);
    BalanceGain(R, inside', inside, kiin, currentIn, loops, v', v, Square(T), n, x, y, k, Spill(k, vy, vx, T));
  }

  lemma VolumesOfMove(es: seq<Edge>, nodes: seq<int>, c: seq<int>, i: int, x: int, y: int)
    requires NoRepeats(nodes) && InRange(es, |c|) && 0 <= i < |c|
    requires 0 <= x < |nodes| && 0 <= y < |nodes| && x != y && c[i] == nodes[x]
    ensures forall p :: 0 <= p < |nodes| ==>
              NodeVolumes(es, nodes, c[i := nodes[y]])(p) ==
              if p == y then NodeVolumes(es, nodes, c)(p) + Degree(es, i)
              else if p == x then NodeVolumes(es, nodes, c)(p) - Degree(es, i) else NodeVolumes(es, nodes, c)(p)
  {
    var l, d := nodes[y], c[i := nodes[y]];
    forall p | 0 <= p < |nodes|
      ensures NodeVolumes(es, nodes, d)(p) ==
              if p == y then NodeVolumes(es, nodes, c)(p) + Degree(es, i)
              else if p == x then NodeVolumes(es, nodes, c)(p) - Degree(es, i) else NodeVolumes(es, nodes, c)(p)
    {
      MoveVolume(es, c, i, l, nodes[p]);
    }
  }

  lemma InsideOfMove(es: seq<Edge>, c: seq<int>, i: int, l: int)
    requires InRange(es, |c|) && 0 <= i < |c| && l != c[i]
    ensures Intra(es, c[i := l]) == Intra(es, c) + LinksAndLoops(es, c, i, l) -
            (LinksAndLoops(es, c, i, c[i]) - 2.0 * Loops(es, i))
  {
    MoveIntra(es, c, i, l);
  }

  /** A move raises the potential by its gain and, for a node with self-loops, 2R times their weight. */
  lemma MoveRaises(es: seq<Edge>, nodes: seq<int>, c: seq<int>, d: seq<int>, i: int, l: int, R: real, T: real)
    requires NoRepeats(nodes) && InRange(es, |c|) && 0 <= i < |c| && T != 0.0
    requires c[i] in nodes && l in nodes && l != c[i] && d == c[i := l]
    ensures Potential(es, nodes, d, R, T) - Potential(es, nodes, c, R, T) ==
            MoveGain(es, c, i, l, R, T) + LoopBonus(R, Loops(es, i))
  {
    var x :| 0 <= x < |nodes| && nodes[x] == c[i];
    var y :| 0 <= y < |nodes| && nodes[y] == l;
    VolumesOfMove(es, nodes, c, i, x, y);
    InsideOfMove(es, c, i, l);
    SquaresGain(R, Intra(es, d), Intra(es, c), LinksAndLoops(es, c, i, l), LinksAndLoops(es, c, i, c[i]), Loops(es, i),
                NodeVolumes(es, nodes, d), NodeVolumes(es, nodes, c), |nodes|, x, y, Degree(es, i),
                Volume(es, c, c[i]), Volume(es, c, l), T);
  }

  // ---------- runs ----------

  /** d moves position i to the community l of a neighbour, whose gain is positive and the largest. */
  ghost predicate IsBestMove(es: seq<Edge>, c: seq<int>, d: seq<int>, i: int, l: int, R: real, T: real)
    requires InRange(es, |c|) && T != 0.0
  {
    && 0 <= i < |c| && l != c[i] && Neighbours(es, c, i, l) && d == c[i := l]
    && MoveGain(es, c, i, l, R, T) > 0.0 && NoGainAbove(es, c, i, R, T, MoveGain(es, c, i, l, R, T))
  }

  /** No move of position i to another community of a neighbour gains more than the bound. */
  ghost predicate NoGainAbove(es: seq<Edge>, c: seq<int>, i: int, R: real, T: real, bound: real)
    requires InRange(es, |c|) && 0 <= i < |c| && T != 0.0
  {
    forall m {:trigger Neighbours(es, c, i, m)} :: Neighbours(es, c, i, m) && m != c[i] ==>
      MoveGain(es, c, i, m, R, T) <= bound
  }

  ghost predicate MoveStep(es: seq<Edge>, c: seq<int>, d: seq<int>, R: real, T: real)
    requires InRange(es, |c|) && T != 0.0
  {
    exists i, l :: IsBestMove(es, c, d, i, l, R, T)
  }

  /** From every node in its own community, each assignment follows from the one before by one best move. */
  ghost predicate MoveRun(es: seq<Edge>, nodes: seq<int>, R: real, T: real, trail: seq<seq<int>>)
    requires InRange(es, |nodes|) && T != 0.0
  {
    && |trail| > 0 && trail[0] == nodes && (forall k :: 0 <= k < |trail| ==> |trail[k]| == |nodes|)
    && (forall k {:trigger trail[k]} :: 0 < k < |trail| ==> MoveStep(es, trail[k - 1], trail[k], R, T))
  }

  lemma RunExtends(es: seq<Edge>, nodes: seq<int>, R: real, T: real, trail: seq<seq<int>>, d: seq<int>)
    requires InRange(es, |nodes|) && T != 0.0 && MoveRun(es, nodes, R, T, trail)
    requires |d| == |nodes| && MoveStep(es, trail[|trail| - 1], d, R, T)
    ensures MoveRun(es, nodes, R, T, trail + [d])
  {
    var more := trail + [d];
    forall k {:trigger more[k]} | 0 < k < |more|
      ensures MoveStep(es, more[k - 1], more[k], R, T)
    {
      if k < |trail| { assert more[k - 1] == trail[k - 1] && more[k] == trail[k]; }
    }
  }

  /** One visit of position i: the best move, or none if no move gains. */
  ghost predicate VisitStep(es: seq<Edge>, c: seq<int>, d: seq<int>, i: int, R: real, T: real)
    requires InRange(es, |c|) && T != 0.0
  {
    0 <= i < |c| && ((d == c && NoGainAbove(es, c, i, R, T, 0.0)) || exists l :: IsBestMove(es, c, d, i, l, R, T))
  }

  /** The positions are visited in this order; moved tells whether any visit moved its node. */
  ghost predicate Visits(es: seq<Edge>, c: seq<int>, d: seq<int>, order: seq<int>, moved: bool, R: real, T: real)
    requires InRange(es, |c|) && T != 0.0
    decreases |order|
  {
    if |order| == 0 then d == c && !moved
    else exists e, m :: VisitsAndOne(es, c, e, d, order, m, moved, R, T)
  }

  ghost predicate VisitsAndOne(es: seq<Edge>, c: seq<int>, e: seq<int>, d: seq<int>, order: seq<int>, m: bool,
                               moved: bool, R: real, T: real)
    requires InRange(es, |c|) && T != 0.0 && |order| > 0
    decreases |order|, 0
  {
    && |e| == |c| && Visits(es, c, e, order[..|order| - 1], m, R, T)
    && VisitStep(es, e, d, order[|order| - 1], R, T) && moved == (m || e != d)
  }

  /** A pass in some order that moves some node. */
  ghost predicate ImprovingPass(es: seq<Edge>, c: seq<int>, d: seq<int>, R: real, T: real)
    requires InRange(es, |c|) && T != 0.0
  {
    exists order :: IsPerm(order, |c|) && Visits(es, c, d, order, true, R, T)
  }

  /** p improving passes lead from c to d. */
  ghost predicate ImprovingPasses(es: seq<Edge>, c: seq<int>, d: seq<int>, p: nat, R: real, T: real)
    requires InRange(es, |c|) && T != 0.0
    decreases p
  {
    if p == 0 then d == c else exists e :: PassesAndOne(es, c, e, d, p, R, T)
  }

  ghost predicate PassesAndOne(es: seq<Edge>, c: seq<int>, e: seq<int>, d: seq<int>, p: nat, R: real, T: real)
    requires InRange(es, |c|) && T != 0.0 && p > 0
    decreases p, 0
  {
    |e| == |c| && ImprovingPasses(es, c, e, p - 1, R, T) && ImprovingPass(es, e, d, R, T)
  }

  lemma VisitsNext(es: seq<Edge>, c: seq<int>, e: seq<int>, d: seq<int>, order: seq<int>, n: nat, m: bool, R: real,
                   T: real)
    requires InRange(es, |c|) && T != 0.0 && n < |order| && |e| == |c|
    requires Visits(es, c, e, order[..n], m, R, T) && VisitStep(es, e, d, order[n], R, T)
    ensures Visits(es, c, d, order[..n + 1], m || e != d, R, T)
  {
    var more := order[..n + 1];
    assert more[..|more| - 1] == order[..n];
    assert VisitsAndOne(es, c, e, d, more, m, m || e != d, R, T);
  }

  lemma PassesNext(es: seq<Edge>, c: seq<int>, e: seq<int>, d: seq<int>, p: nat, R: real, T: real)
    requires InRange(es, |c|) && T != 0.0 && |e| == |c|
    requires ImprovingPasses(es, c, e, p, R, T) && ImprovingPass(es, e, d, R, T)
    ensures ImprovingPasses(es, c, d, p + 1, R, T)
  {
    assert PassesAndOne(es, c, e, d, p + 1, R, T);
  }

  ghost predicate AllNamed(nodes: seq<int>, c: seq<int>)
  {
    forall i {:trigger c[i]} :: 0 <= i < |c| ==> c[i] in nodes
  }

  lemma StepNamed(es: seq<Edge>, nodes: seq<int>, c: seq<int>, d: seq<int>, i: int, l: int, R: real, T: real)
    requires InRange(es, |c|) && T != 0.0 && AllNamed(nodes, c) && IsBestMove(es, c, d, i, l, R, T)
    ensures l in nodes && c[i] in nodes && AllNamed(nodes, d)
  {
    var j :| 0 <= j < |c| && Adjacent(es, i, j) && c[j] == l;
  }

  lemma {:induction false} RunNamed(es: seq<Edge>, nodes: seq<int>, R: real, T: real, trail: seq<seq<int>>, k: nat)
    requires InRange(es, |nodes|) && T != 0.0 && MoveRun(es, nodes, R, T, trail) && k < |trail|
    ensures AllNamed(nodes, trail[k])
  {
    if k > 0 {
      RunNamed(es, nodes, R, T, trail, k - 1);
      assert MoveStep(es, trail[k - 1], trail[k], R, T);
      var i, l :| IsBestMove(es, trail[k - 1], trail[k], i, l, R, T);
      StepNamed(es, nodes, trail[k - 1], trail[k], i, l, R, T);
    }
  }

  /** A run that ends in d. */
  ghost predicate RunTo(es: seq<Edge>, nodes: seq<int>, R: real, T: real, trail: seq<seq<int>>, d: seq<int>)
    requires InRange(es, |nodes|) && T != 0.0
  {
    MoveRun(es, nodes, R, T, trail) && trail[|trail| - 1] == d
  }

  lemma RunVisit(es: seq<Edge>, nodes: seq<int>, R: real, T: real, trail: seq<seq<int>>, e: seq<int>, d: seq<int>,
                 i: int)
    returns (more: seq<seq<int>>)
    requires InRange(es, |nodes|) && T != 0.0 && RunTo(es, nodes, R, T, trail, e) && VisitStep(es, e, d, i, R, T)
    ensures RunTo(es, nodes, R, T, more, d) && |more| == if e != d then |trail| + 1 else |trail|
  {
    if e == d { return trail; }
    assert MoveStep(es, e, d, R, T);
    RunExtends(es, nodes, R, T, trail, d);
    more := trail + [d];
  }

  /** The visits are a run of best moves, one for each visit that moves its node; */
  lemma {:induction false} RunOfVisits(es: seq<Edge>, nodes: seq<int>, R: real, T: real, trail: seq<seq<int>>,
                                       c: seq<int>, d: seq<int>, order: seq<int>, moved: bool)
    returns (more: seq<seq<int>>)
    requires InRange(es, |nodes|) && T != 0.0 && RunTo(es, nodes, R, T, trail, c)
    requires |c| == |nodes| && Visits(es, c, d, order, moved, R, T)
    ensures RunTo(es, nodes, R, T, more, d) && |more| >= |trail| && (moved ==> |more| > |trail|)
    decreases |order|
  {
    if |order| == 0 { return trail; }
    assert Visits(es, c, d, order, moved, R, T);
    var e, m :| VisitsAndOne(es, c, e, d, order, m, moved, R, T);
    more := RunOfVisits(es, nodes, R, T, trail, c, e, order[..|order| - 1], m);
    more := RunVisit(es, nodes, R, T, more, e, d, order[|order| - 1]);
  }

  /** and so are all passes together, with at least one move for each. */
  lemma {:induction false} RunOfPasses(es: seq<Edge>, nodes: seq<int>, R: real, T: real, d: seq<int>, p: nat)
    returns (trail: seq<seq<int>>)
    requires InRange(es, |nodes|) && T != 0.0 && ImprovingPasses(es, nodes, d, p, R, T)
    ensures RunTo(es, nodes, R, T, trail, d) && |trail| > p
    decreases p
  {
    if p == 0 { return [nodes]; }
    var e :| PassesAndOne(es, nodes, e, d, p, R, T);
    trail := RunOfPasses(es, nodes, R, T, e, p - 1);
    var order :| IsPerm(order, |e|) && Visits(es, e, d, order, true, R, T);
    trail := RunOfVisits(es, nodes, R, T, trail, e, d, order, true);
  }

  /** Self-loops cannot spoil the gain: there are none, or their weights and the resolution have the same sign. */
  ghost predicate LoopsHelp(es: seq<Edge>, n: int, R: real)
  {
    forall i :: 0 <= i < n ==> R * Loops(es, i) >= 0.0
  }

  lemma StepRaises(es: seq<Edge>, nodes: seq<int>, c: seq<int>, d: seq<int>, R: real, T: real)
    requires NoRepeats(nodes) && InRange(es, |c|) && T != 0.0 && AllNamed(nodes, c) && LoopsHelp(es, |c|, R)
    requires MoveStep(es, c, d, R, T)
    ensures Potential(es, nodes, c, R, T) < Potential(es, nodes, d, R, T)
  {
    var i, l :| IsBestMove(es, c, d, i, l, R, T);
    StepNamed(es, nodes, c, d, i, l, R, T);
    MoveRaises(es, nodes, c, d, i, l, R, T);
  }

  /** So the potential strictly rises along a run, whatever the visiting order. */
  lemma {:induction false} RunRaises(es: seq<Edge>, nodes: seq<int>, R: real, T: real, trail: seq<seq<int>>, i: nat,
                                     j: nat)
    requires NoRepeats(nodes) && InRange(es, |nodes|) && T != 0.0 && LoopsHelp(es, |nodes|, R)
    requires MoveRun(es, nodes, R, T, trail) && i < j < |trail|
    ensures Potential(es, nodes, trail[i], R, T) < Potential(es, nodes, trail[j], R, T)
    decreases j
  {
    RunNamed(es, nodes, R, T, trail, j - 1);
    assert MoveStep(es, trail[j - 1], trail[j], R, T);
    StepRaises(es, nodes, trail[j - 1], trail[j], R, T);
    if i < j - 1 {
      RunRaises(es, nodes, R, T, trail, i, j - 1);
    }
  }

  /** No assignment is visited twice. */
  lemma NeverRevisits(es: seq<Edge>, nodes: seq<int>, R: real, T: real, trail: seq<seq<int>>, i: nat, j: nat)
    requires NoRepeats(nodes) && InRange(es, |nodes|) && T != 0.0 && LoopsHelp(es, |nodes|, R)
    requires MoveRun(es, nodes, R, T, trail) && i < j < |trail|
    ensures trail[i] != trail[j]
  {
    RunRaises(es, nodes, R, T, trail, i, j);
  }

  /** So a run has at most n to the power n assignments of the n node IDs, */
  lemma RunBound(es: seq<Edge>, nodes: seq<int>, R: real, T: real, trail: seq<seq<int>>)
    requires NoRepeats(nodes) && InRange(es, |nodes|) && T != 0.0 && LoopsHelp(es, |nodes|, R)
    requires MoveRun(es, nodes, R, T, trail)
    ensures |trail| <= Pow(|nodes|, |nodes|)
  {
    var ids := set x | x in nodes;
    forall k | 0 <= k < |trail|
      ensures trail[k] in Words(ids, |nodes|)
    {
      RunNamed(es, nodes, R, T, trail, k);
      IsWord(trail[k], ids);
    }
    forall i, j | 0 <= i < j < |trail|
      ensures trail[i] != trail[j]
    {
      NeverRevisits(es, nodes, R, T, trail, i, j);
    }
    DistinctFit(trail, Words(ids, |nodes|));
    WordsSize(ids, |nodes|);
    NoRepeatsSize(nodes);
  }

  /** and there are fewer passes than that, even without a limit. */
  lemma PassesBound(es: seq<Edge>, nodes: seq<int>, R: real, T: real, d: seq<int>, p: nat)
    requires NoRepeats(nodes) && InRange(es, |nodes|) && T != 0.0 && LoopsHelp(es, |nodes|, R)
    requires ImprovingPasses(es, nodes, d, p, R, T)
    ensures p < Pow(|nodes|, |nodes|)
  {
    var trail := RunOfPasses(es, nodes, R, T, d, p);
    RunBound(es, nodes, R, T, trail);
  }

  lemma {:induction false} LoopsSign(es: seq<Edge>, i: int)
    ensures (forall k :: 0 <= k < |es| ==> es[k].a != es[k].b) ==> Loops(es, i) == 0.0
    ensures (forall k :: 0 <= k < |es| ==> es[k].w >= 0.0) ==> Loops(es, i) >= 0.0
  {
    if |es| > 0 { LoopsSign(es[..|es| - 1], i); }
  }

  /** That is so without self-loops, and also with non-negative weights and a non-negative resolution. */
  lemma NoLoopsHelp(es: seq<Edge>, n: int, R: real)
    requires (forall k :: 0 <= k < |es| ==> es[k].a != es[k].b) ||
             (R >= 0.0 && forall k :: 0 <= k < |es| ==> es[k].w >= 0.0)
    ensures LoopsHelp(es, n, R)
  {
    forall i | 0 <= i < n
      ensures R * Loops(es, i) >= 0.0
    {
      LoopsSign(es, i);
      ProductSign(R, Loops(es, i));
    }
  }

  lemma ProductSign(x: real, y: real)
    ensures y == 0.0 || (x >= 0.0 && y >= 0.0) ==> x * y >= 0.0
  {}

  // ---------- the loops ----------

  /** communityWeight holds the volume of every community. */
  ghost predicate VolumesAre(es: seq<Edge>, nodes: seq<int>, c: seq<int>, communityWeight: map<int, real>)
    requires InRange(es, |c|)
  {
    && (forall id :: id in communityWeight <==> id in nodes)
    && (forall id {:trigger communityWeight[id]} :: id in communityWeight ==> communityWeight[id] == Volume(es, c, id))
  }

  function WeightOf(communityWeight: map<int, real>, l: int): real
  {
    if l in communityWeight then communityWeight[l] else 0.0
  }

  /** The gain computed when position i is visited; p is the position that the index gives to its ID. */
  ghost function VisitGain(es: seq<Edge>, c: seq<int>, i: int, p: int, l: int, R: real, T: real,
                           communityWeight: map<int, real>): real
    requires InRange(es, |c|) && 0 <= i < |c| && 0 <= p < |c| && T != 0.0
  {
    Gain(R, LinksAndLoops(es, c, p, l), LinksAndLoops(es, c, p, c[i]), Degree(es, p),
         WeightOf(communityWeight, l), WeightOf(communityWeight, c[i]), T)
  }

  ghost predicate NoneBetter(es: seq<Edge>, c: seq<int>, i: int, p: int, R: real, T: real,
                             communityWeight: map<int, real>, left: set<int>, bound: real)
    requires InRange(es, |c|) && 0 <= i < |c| && 0 <= p < |c| && T != 0.0
  {
    forall m {:trigger Neighbours(es, c, p, m)} ::
      Neighbours(es, c, p, m) && m != c[i] && m !in left ==> VisitGain(es, c, i, p, m, R, T, communityWeight) <= bound
  }

  /** The largest positive gain, or the current community if no gain is positive. */
  ghost predicate IsBest(es: seq<Edge>, c: seq<int>, i: int, p: int, R: real, T: real, communityWeight: map<int, real>,
                         left: set<int>, best: int, bestGain: real)
    requires InRange(es, |c|) && 0 <= i < |c| && 0 <= p < |c| && T != 0.0
  {
    && NoneBetter(es, c, i, p, R, T, communityWeight, left, bestGain)
    && if best == c[i] then bestGain == 0.0
       else Neighbours(es, c, p, best) && bestGain == VisitGain(es, c, i, p, best, R, T, communityWeight) > 0.0
  }

  /** One visit: the best community for position i. */
  method Best(ghost es: seq<Edge>, c: seq<int>, i: int, ghost p: int, R: real, T: real, ki: real,
              neighborCommunities: map<int, real>, communityWeight: map<int, real>) returns (best: int, bestGain: real)
    requires InRange(es, |c|) && 0 <= i < |c| && 0 <= p < |c| && T != 0.0 && ki == Degree(es, p)
    requires forall l :: l in neighborCommunities <==> Neighbours(es, c, p, l)
    requires forall l :: l in neighborCommunities ==> neighborCommunities[l] == LinksAndLoops(es, c, p, l)
    ensures IsBest(es, c, i, p, R, T, communityWeight, {}, best, bestGain)
  {
    var currentCommunity := c[i];
    var currentIn := if currentCommunity in neighborCommunities then neighborCommunities[currentCommunity] else 0.0;
    NoLinks(es, c, p, currentCommunity);
    var currentTot := WeightOf(communityWeight, currentCommunity);
    bestGain := 0.0;
    best := currentCommunity;
    var left: set<int> := neighborCommunities.Keys;
    while left != {}
      invariant left <= neighborCommunities.Keys
      invariant IsBest(es, c, i, p, R, T, communityWeight, left, best, bestGain)
    {
      var comm := AnyOf(left);
      left := left - {comm};
      if comm == currentCommunity { continue; }
      var kiin, sigmaTot := neighborCommunities[comm], WeightOf(communityWeight, comm);
      var gain := Gain(R, kiin, currentIn, ki, sigmaTot, currentTot, T);
      if gain > bestGain {
        bestGain, best := gain, comm;
      }
    }
  }

  /** With distinct IDs and communityWeight holding the volumes, that is the best move. */
  lemma BestIsMove(es: seq<Edge>, nodes: seq<int>, c: seq<int>, i: int, R: real, T: real,
                   communityWeight: map<int, real>, best: int, bestGain: real)
    requires InRange(es, |c|) && 0 <= i < |c| && T != 0.0 && AllNamed(nodes, c) &&
             VolumesAre(es, nodes, c, communityWeight)
    requires IsBest(es, c, i, i, R, T, communityWeight, {}, best, bestGain)
    ensures best == c[i] ==> NoGainAbove(es, c, i, R, T, 0.0)
    ensures best != c[i] ==> IsBestMove(es, c, c[i := best], i, best, R, T)
  {
    forall m {:trigger Neighbours(es, c, i, m)} | Neighbours(es, c, i, m)
      ensures VisitGain(es, c, i, i, m, R, T, communityWeight) == MoveGain(es, c, i, m, R, T)
    {
      NeighbourNamed(es, nodes, c, i, m);
      NamedGain(es, nodes, c, i, m, R, T, communityWeight);
    }
  }

  lemma NamedGain(es: seq<Edge>, nodes: seq<int>, c: seq<int>, i: int, l: int, R: real, T: real,
                  communityWeight: map<int, real>)
    requires InRange(es, |c|) && 0 <= i < |c| && T != 0.0 && AllNamed(nodes, c) &&
             VolumesAre(es, nodes, c, communityWeight)
    requires l in nodes
    ensures VisitGain(es, c, i, i, l, R, T, communityWeight) == MoveGain(es, c, i, l, R, T)
  {
    assert c[i] in nodes;
    assert WeightOf(communityWeight, l) == Volume(es, c, l);
    assert WeightOf(communityWeight, c[i]) == Volume(es, c, c[i]);
  }

  lemma NeighbourNamed(es: seq<Edge>, nodes: seq<int>, c: seq<int>, i: int, l: int)
    requires AllNamed(nodes, c) && Neighbours(es, c, i, l)
    ensures l in nodes
  {}

  lemma NeighboursMore(es: seq<Edge>, c: seq<int>, i: int, l: int)
    requires |es| > 0 && Neighbours(es[..|es| - 1], c, i, l)
    ensures Neighbours(es, c, i, l)
  {
    var j :| 0 <= j < |c| && Adjacent(es[..|es| - 1], i, j) && c[j] == l;
    assert Adjacent(es, i, j);
  }

  /** A community without a neighbour of i has no weight to it. */
  lemma {:induction false} NoLinks(es: seq<Edge>, c: seq<int>, i: int, l: int)
    requires InRange(es, |c|) && 0 <= i < |c|
    ensures !Neighbours(es, c, i, l) ==> LinksAndLoops(es, c, i, l) == 0.0
  {
    if |es| > 0 && !Neighbours(es, c, i, l) {
      var before, e := es[..|es| - 1], es[|es| - 1];
      if Neighbours(before, c, i, l) { NeighboursMore(es, c, i, l); }
      assert Meets(e, e.a, e.b) && Adjacent(es, e.a, e.b) && Adjacent(es, e.b, e.a);
      NoLinks(before, c, i, l);
    }
  }

  /** communityWeight after a node of degree ki has moved. */
  function Moved(communityWeight: map<int, real>, current: int, best: int, ki: real): map<int, real>
  {
    AddTo(AddTo(communityWeight, current, -ki), best, ki)
  }

  lemma VolumesMove(es: seq<Edge>, nodes: seq<int>, c: seq<int>, i: int, l: int, before: map<int, real>)
    requires InRange(es, |c|) && 0 <= i < |c| && l != c[i] && l in nodes && c[i] in nodes
    requires VolumesAre(es, nodes, c, before)
    ensures VolumesAre(es, nodes, c[i := l], Moved(before, c[i], l, Degree(es, i)))
  {
    var after := Moved(before, c[i], l, Degree(es, i));
    forall id {:trigger after[id]} | id in after
      ensures after[id] == Volume(es, c[i := l], id)
    {
      MoveVolume(es, c, i, l, id);
    }
  }

  /** The position of the i-th node, or of the last one with the same ID. */
  function Home(nodes: seq<int>, i: int): (p: int)
    requires 0 <= i < |nodes|
    ensures 0 <= p < |nodes| && nodes[p] == nodes[i]
    ensures NoRepeats(nodes) ==> p == i
  {
    assert nodes[i] in nodes;
    NodeIndex(nodes)[nodes[i]]
  }

  ghost predicate DegreesAre(es: seq<Edge>, nodes: seq<int>, degree: seq<real>)
  {
    |degree| <= |nodes| && forall i :: 0 <= i < |degree| ==> degree[i] == Degree(es, Home(nodes, i))
  }

  /** What holds between any two visits. */
  ghost predicate Inv(es: seq<Edge>, nodes: seq<int>, c: seq<int>, communityWeight: map<int, real>)
    requires InRange(es, |nodes|)
  {
    |c| == |nodes| && AllNamed(nodes, c) && (NoRepeats(nodes) ==> VolumesAre(es, nodes, c, communityWeight))
  }

  lemma MoveKeepsInv(es: seq<Edge>, nodes: seq<int>, R: real, T: real, c: seq<int>, communityWeight: map<int, real>,
                     d: seq<int>, i: int, l: int)
    requires InRange(es, |nodes|) && T != 0.0 && NoRepeats(nodes) && Inv(es, nodes, c, communityWeight)
    requires IsBestMove(es, c, d, i, l, R, T)
    ensures Inv(es, nodes, d, Moved(communityWeight, c[i], l, Degree(es, i)))
  {
    StepNamed(es, nodes, c, d, i, l, R, T);
    VolumesMove(es, nodes, c, i, l, communityWeight);
  }

  lemma {:induction false} EdgeConnects(nodes: seq<int>, rels: seq<Relationship>, i: int, j: int)
    requires Adjacent(PresentEdges(nodes, rels), i, j)
    ensures Arc(nodes, rels, i, j) || Arc(nodes, rels, j, i)
  {
    if |rels| > 0 {
      var before, r := rels[..|rels| - 1], rels[|rels| - 1];
      var es, e := PresentEdges(nodes, before), NewmanModularity.EdgeOf(nodes, r);
      assert (es + [e])[..|es|] == es;
      ArcLast(nodes, rels, i, j);
      ArcLast(nodes, rels, j, i);
      if Adjacent(es, i, j) { EdgeConnects(nodes, before, i, j); }
    }
  }

  /** A move to a neighbour's community keeps every label anchored in the holder's component. */
  lemma MoveAnchored(nodes: seq<int>, rels: seq<Relationship>, c: seq<int>, i: int, l: int)
    requires Anchored(nodes, rels, c) && 0 <= i < |c| && Neighbours(PresentEdges(nodes, rels), c, i, l)
    ensures Anchored(nodes, rels, c[i := l])
  {
    var j :| 0 <= j < |c| && Adjacent(PresentEdges(nodes, rels), i, j) && c[j] == l;
    EdgeConnects(nodes, rels, i, j);
    NeighboursConnected(nodes, rels, i, j);
    AnchorMoves(nodes, rels, c, i, j);
  }

  lemma StepAnchored(nodes: seq<int>, rels: seq<Relationship>, R: real, T: real, c: seq<int>, d: seq<int>)
    requires T != 0.0 && |c| == |nodes| && Anchored(nodes, rels, c) && MoveStep(PresentEdges(nodes, rels), c, d, R, T)
    ensures Anchored(nodes, rels, d)
  {
    var i, l :| IsBestMove(PresentEdges(nodes, rels), c, d, i, l, R, T);
    MoveAnchored(nodes, rels, c, i, l);
  }

  lemma NextAnchored(nodes: seq<int>, rels: seq<Relationship>, R: real, T: real, trail: seq<seq<int>>, k: nat)
    requires T != 0.0 && MoveRun(PresentEdges(nodes, rels), nodes, R, T, trail) && 0 < k < |trail|
    requires Anchored(nodes, rels, trail[k - 1])
    ensures Anchored(nodes, rels, trail[k])
  {
    var c, d := trail[k - 1], trail[k];
    assert MoveStep(PresentEdges(nodes, rels), c, d, R, T);
    StepAnchored(nodes, rels, R, T, c, d);
  }

  lemma {:induction false} RunAnchored(nodes: seq<int>, rels: seq<Relationship>, R: real, T: real, trail: seq<seq<int>>,
                                       k: nat)
    requires T != 0.0 && MoveRun(PresentEdges(nodes, rels), nodes, R, T, trail) && k < |trail|
    ensures Anchored(nodes, rels, trail[k])
  {
    if k == 0 {
      StartAnchored(nodes, rels);
    } else {
      RunAnchored(nodes, rels, R, T, trail, k - 1);
      NextAnchored(nodes, rels, R, T, trail, k);
    }
  }

  lemma PassesAnchored(nodes: seq<int>, rels: seq<Relationship>, R: real, T: real, d: seq<int>, p: nat)
    requires T != 0.0 && ImprovingPasses(PresentEdges(nodes, rels), nodes, d, p, R, T)
    ensures Anchored(nodes, rels, d)
  {
    var trail := RunOfPasses(PresentEdges(nodes, rels), nodes, R, T, d, p);
    RunAnchored(nodes, rels, R, T, trail, |trail| - 1);
  }

  lemma {:induction false} StartVolume(es: seq<Edge>, nodes: seq<int>, i: int)
    requires NoRepeats(nodes) && InRange(es, |nodes|) && 0 <= i < |nodes|
    ensures Volume(es, nodes, nodes[i]) == Degree(es, i)
  {
    if |es| > 0 { StartVolume(es[..|es| - 1], nodes, i); }
  }

  lemma DegreesNext(es: seq<Edge>, nodes: seq<int>, degree: seq<real>, d: real)
    requires DegreesAre(es, nodes, degree) && |degree| < |nodes| && d == Degree(es, Home(nodes, |degree|))
    ensures DegreesAre(es, nodes, degree + [d])
  {}

  method BuildDegrees(nodes: seq<int>, weights: map<int, map<int, real>>, ghost es: seq<Edge>)
    returns (degree: seq<real>)
    requires AtIndex(nodes, es) && WeightsAre(nodes, es, weights)
    ensures |degree| == |nodes| && DegreesAre(es, nodes, degree)
  {
    degree := [];
    for i := 0 to |nodes|
      invariant |degree| == i && DegreesAre(es, nodes, degree)
    {
      var id := nodes[i];
      assert id in nodes;
      var d := SumRow(nodes, es, Home(nodes, i), weights[id]);
      DegreesNext(es, nodes, degree, d);
      degree := degree + [d];
    }
  }

  /** Each ID has the degree of its node, which is the volume of its community at the start. */
  method BuildCommunityWeight(nodes: seq<int>, degree: seq<real>, ghost es: seq<Edge>)
    returns (communityWeight: map<int, real>)
    requires InRange(es, |nodes|) && |degree| == |nodes| && DegreesAre(es, nodes, degree)
    ensures forall id :: id in communityWeight <==> id in nodes
    ensures forall id :: id in communityWeight ==> communityWeight[id] == Degree(es, NodeIndex(nodes)[id])
    ensures Inv(es, nodes, nodes, communityWeight)
  {
    communityWeight := map[];
    for i := 0 to |nodes|
      invariant forall id :: id in communityWeight <==> id in nodes[..i]
      invariant forall id {:trigger communityWeight[id]} :: id in communityWeight ==>
                  id in nodes && communityWeight[id] == Degree(es, NodeIndex(nodes)[id])
    {
      assert nodes[..i + 1] == nodes[..i] + [nodes[i]];
      communityWeight := communityWeight[nodes[i] := degree[i]];
    }
    assert nodes[..|nodes|] == nodes;
    if NoRepeats(nodes) { StartVolumes(es, nodes, communityWeight); }
  }

  lemma StartVolumes(es: seq<Edge>, nodes: seq<int>, communityWeight: map<int, real>)
    requires NoRepeats(nodes) && InRange(es, |nodes|) && forall id :: id in communityWeight <==> id in nodes
    requires forall id :: id in communityWeight ==> communityWeight[id] == Degree(es, NodeIndex(nodes)[id])
    ensures VolumesAre(es, nodes, nodes, communityWeight)
  {
    forall id {:trigger communityWeight[id]} | id in communityWeight
      ensures communityWeight[id] == Volume(es, nodes, id)
    {
      StartVolume(es, nodes, NodeIndex(nodes)[id]);
    }
  }

  /** What no visit changes. */
  datatype Graph = Graph(nodes: seq<int>, nodeIndex: map<int, int>, weights: map<int, map<int, real>>,
                         degree: seq<real>, totalWeight: real)

  ghost predicate IsGraph(g: Graph, es: seq<Edge>)
  {
    && g.nodeIndex == NodeIndex(g.nodes) && |g.degree| == |g.nodes| && g.totalWeight != 0.0
    && InRange(es, |g.nodes|) && AtIndex(g.nodes, es) && WeightsAre(g.nodes, es, g.weights) &&
       DegreesAre(es, g.nodes, g.degree)
  }

  method BestFor(g: Graph, ghost es: seq<Edge>, R: real, c: seq<int>, communityWeight: map<int, real>, i: int)
    returns (best: int, bestGain: real)
    requires IsGraph(g, es) && 0 <= i < |g.nodes| == |c|
    ensures IsBest(es, c, i, Home(g.nodes, i), R, g.totalWeight, communityWeight, {}, best, bestGain)
  {
    var id := g.nodes[i];
    assert id in g.nodes;
    ghost var p := Home(g.nodes, i);
    var neighborCommunities := NeighborCommunities(g.nodes, es, p, g.weights[id], g.nodeIndex, c);
    best, bestGain := Best(es, c, i, p, R, g.totalWeight, g.degree[i], neighborCommunities, communityWeight);
  }

  /** The visit of position i moves it to the best community and keeps communityWeight up to date. */
  ghost predicate IsVisit(g: Graph, es: seq<Edge>, R: real, c: seq<int>, communityWeight: map<int, real>, i: int,
                          d: seq<int>, newWeight: map<int, real>)
    requires IsGraph(g, es) && 0 <= i < |g.nodes| == |c|
  {
    exists best, bestGain
      {:trigger IsBest(es, c, i, Home(g.nodes, i), R, g.totalWeight, communityWeight, {}, best, bestGain)} ::
      && IsBest(es, c, i, Home(g.nodes, i), R, g.totalWeight, communityWeight, {}, best, bestGain)
      && d == c[i := best]
      && newWeight == if best == c[i] then communityWeight
                      else Moved(communityWeight, c[i], best, Degree(es, Home(g.nodes, i)))
  }

  /** With distinct IDs that is the best move, or none if no move gains. */
  lemma VisitIsStep(g: Graph, es: seq<Edge>, R: real, c: seq<int>, communityWeight: map<int, real>, i: int,
                    d: seq<int>, newWeight: map<int, real>)
    requires NoRepeats(g.nodes) && IsGraph(g, es) && 0 <= i < |g.nodes| && Inv(es, g.nodes, c, communityWeight)
    requires IsVisit(g, es, R, c, communityWeight, i, d, newWeight)
    ensures VisitStep(es, c, d, i, R, g.totalWeight) && (c == d ==> NoGainAbove(es, c, i, R, g.totalWeight, 0.0))
    ensures Inv(es, g.nodes, d, newWeight)
  {
    var best, bestGain :| && IsBest(es, c, i, Home(g.nodes, i), R, g.totalWeight, communityWeight, {}, best, bestGain)
                          && d == c[i := best]
                          && newWeight == if best == c[i] then communityWeight
                                          else Moved(communityWeight, c[i], best, Degree(es, Home(g.nodes, i)));
    BestIsMove(es, g.nodes, c, i, R, g.totalWeight, communityWeight, best, bestGain);
    assert d[i] == best;
    if best != c[i] { MoveKeepsInv(es, g.nodes, R, g.totalWeight, c, communityWeight, d, i, best); }
  }

  lemma BestNamed(es: seq<Edge>, nodes: seq<int>, c: seq<int>, i: int, p: int, R: real, T: real,
                  communityWeight: map<int, real>, best: int, bestGain: real)
    requires InRange(es, |c|) && 0 <= i < |c| && 0 <= p < |c| && T != 0.0 && AllNamed(nodes, c)
    requires IsBest(es, c, i, p, R, T, communityWeight, {}, best, bestGain)
    ensures AllNamed(nodes, c[i := best])
  {
    assert c[i] in nodes;
    if best != c[i] { NeighbourNamed(es, nodes, c, p, best); }
  }

  /** One visit. */
  method Visit(g: Graph, ghost es: seq<Edge>, R: real, c: seq<int>, communityWeight: map<int, real>, i: int)
    returns (d: seq<int>, newWeight: map<int, real>, improved: bool)
    requires IsGraph(g, es) && 0 <= i < |g.nodes| && Inv(es, g.nodes, c, communityWeight)
    ensures IsVisit(g, es, R, c, communityWeight, i, d, newWeight) && Inv(es, g.nodes, d, newWeight)
    ensures improved == (c != d) && (!improved ==> newWeight == communityWeight)
  {
    var best, bestGain := BestFor(g, es, R, c, communityWeight, i);
    BestNamed(es, g.nodes, c, i, Home(g.nodes, i), R, g.totalWeight, communityWeight, best, bestGain);
    if best == c[i] {
      assert c == c[i := best];
      return c, communityWeight, false;
    }
    d, newWeight := c[i := best], Moved(communityWeight, c[i], best, g.degree[i]);
    improved := true;
    assert d[i] == best;
    if NoRepeats(g.nodes) { VisitIsStep(g, es, R, c, communityWeight, i, d, newWeight); }
  }

  /** No node would gain by moving to a neighbour's community. */
  ghost predicate Settled(es: seq<Edge>, c: seq<int>, R: real, T: real)
    requires InRange(es, |c|) && T != 0.0
  {
    forall i {:trigger NoGainAbove(es, c, i, R, T, 0.0)} :: 0 <= i < |c| ==> NoGainAbove(es, c, i, R, T, 0.0)
  }

  /** When the passes have settled, moving a node without self-loops to a neighbour's community does not raise the
      potential. */
  lemma SettledIsLocalMaximum(es: seq<Edge>, nodes: seq<int>, c: seq<int>, R: real, T: real, i: int, l: int)
    requires NoRepeats(nodes) && InRange(es, |c|) && T != 0.0 && AllNamed(nodes, c) && Settled(es, c, R, T)
    requires 0 <= i < |c| && l in nodes && Neighbours(es, c, i, l) && l != c[i] && Loops(es, i) == 0.0
    ensures Potential(es, nodes, c[i := l], R, T) <= Potential(es, nodes, c, R, T)
  {
    assert NoGainAbove(es, c, i, R, T, 0.0);
    assert MoveGain(es, c, i, l, R, T) <= 0.0;
    assert c[i] in nodes;
    MoveRaises(es, nodes, c, c[i := l], i, l, R, T);
  }

  /** After the first n visits, with distinct IDs. */
  ghost predicate PassSoFar(g: Graph, es: seq<Edge>, R: real, c: seq<int>, order: seq<int>, n: nat, d: seq<int>,
                            improved: bool)
    requires IsGraph(g, es) && |c| == |g.nodes| && IsPerm(order, |c|) && n <= |order|
  {
    && Visits(es, c, d, order[..n], improved, R, g.totalWeight)
    && (!improved ==> SettledAt(es, c, R, g.totalWeight, order, n))
  }

  lemma PassNext(g: Graph, es: seq<Edge>, R: real, c: seq<int>, order: seq<int>, n: nat, d: seq<int>,
                 communityWeight: map<int, real>, improved: bool, e: seq<int>, newWeight: map<int, real>)
    requires NoRepeats(g.nodes) && IsGraph(g, es) && |c| == |g.nodes| && IsPerm(order, |c|) && n < |order|
    requires Inv(es, g.nodes, d, communityWeight) && PassSoFar(g, es, R, c, order, n, d, improved) &&
             (!improved ==> d == c)
    requires IsVisit(g, es, R, d, communityWeight, order[n], e, newWeight)
    ensures PassSoFar(g, es, R, c, order, n + 1, e, improved || d != e)
  {
    VisitIsStep(g, es, R, d, communityWeight, order[n], e, newWeight);
    VisitsNext(es, c, d, e, order, n, improved, R, g.totalWeight);
    if !improved && d == e { SettledNext(es, c, R, g.totalWeight, order, n); }
  }

  lemma PassDone(g: Graph, es: seq<Edge>, R: real, c: seq<int>, order: seq<int>, d: seq<int>, improved: bool)
    requires IsGraph(g, es) && |c| == |g.nodes| && IsPerm(order, |c|) &&
             PassSoFar(g, es, R, c, order, |order|, d, improved)
    ensures improved ==> ImprovingPass(es, c, d, R, g.totalWeight)
    ensures !improved ==> Settled(es, c, R, g.totalWeight)
  {
    assert order[..|order|] == order;
    if !improved { SettledEverywhere(es, c, R, g.totalWeight, order); }
  }

  /** The n-th visit of a pass that began at c. */
  method NextVisit(g: Graph, ghost es: seq<Edge>, R: real, ghost c: seq<int>, order: seq<int>, n: nat, d: seq<int>,
                   communityWeight: map<int, real>, improved: bool)
    returns (e: seq<int>, newWeight: map<int, real>, better: bool)
    requires IsGraph(g, es) && Inv(es, g.nodes, d, communityWeight) && |c| == |g.nodes| && IsPerm(order, |c|) &&
             n < |order|
    requires NoRepeats(g.nodes) ==> PassSoFar(g, es, R, c, order, n, d, improved)
    requires !improved ==> d == c
    ensures Inv(es, g.nodes, e, newWeight) && (!better ==> !improved && e == d && newWeight == communityWeight)
    ensures NoRepeats(g.nodes) ==> PassSoFar(g, es, R, c, order, n + 1, e, better)
  {
    var moved;
    e, newWeight, moved := Visit(g, es, R, d, communityWeight, order[n]);
    if NoRepeats(g.nodes) { PassNext(g, es, R, c, order, n, d, communityWeight, improved, e, newWeight); }
    better := improved || moved;
  }

  /** One pass over the nodes in a random order. */
  method VisitAll(g: Graph, ghost es: seq<Edge>, R: real, c: seq<int>, communityWeight: map<int, real>)
    returns (d: seq<int>, newWeight: map<int, real>, improved: bool)
    requires IsGraph(g, es) && Inv(es, g.nodes, c, communityWeight)
    ensures Inv(es, g.nodes, d, newWeight) && (!improved ==> d == c && newWeight == communityWeight)
    ensures NoRepeats(g.nodes) && improved ==> ImprovingPass(es, c, d, R, g.totalWeight)
    ensures NoRepeats(g.nodes) && !improved ==> Settled(es, d, R, g.totalWeight)
  {
    d, newWeight, improved := c, communityWeight, false;
    var nodeOrder := Perm(|g.nodes|);
    for n := 0 to |nodeOrder|
      invariant Inv(es, g.nodes, d, newWeight) && (!improved ==> d == c && newWeight == communityWeight)
      invariant NoRepeats(g.nodes) ==> PassSoFar(g, es, R, c, nodeOrder, n, d, improved)
    {
      d, newWeight, improved := NextVisit(g, es, R, c, nodeOrder, n, d, newWeight, improved);
    }
    if NoRepeats(g.nodes) { PassDone(g, es, R, c, nodeOrder, d, improved); }
  }

  ghost predicate SettledAt(es: seq<Edge>, c: seq<int>, R: real, T: real, order: seq<int>, n: nat)
    requires InRange(es, |c|) && T != 0.0 && n <= |order| && forall m :: 0 <= m < n ==> 0 <= order[m] < |c|
  {
    forall m :: 0 <= m < n ==> NoGainAbove(es, c, order[m], R, T, 0.0)
  }

  lemma SettledNext(es: seq<Edge>, c: seq<int>, R: real, T: real, order: seq<int>, n: nat)
    requires InRange(es, |c|) && T != 0.0 && n < |order| && forall m :: 0 <= m < |order| ==> 0 <= order[m] < |c|
    requires SettledAt(es, c, R, T, order, n) && NoGainAbove(es, c, order[n], R, T, 0.0)
    ensures SettledAt(es, c, R, T, order, n + 1)
  {}

  lemma SettledEverywhere(es: seq<Edge>, c: seq<int>, R: real, T: real, order: seq<int>)
    requires InRange(es, |c|) && T != 0.0 && IsPerm(order, |c|) && SettledAt(es, c, R, T, order, |order|)
    ensures Settled(es, c, R, T)
  {
    forall i {:trigger NoGainAbove(es, c, i, R, T, 0.0)} | 0 <= i < |c|
      ensures NoGainAbove(es, c, i, R, T, 0.0)
    {
      assert i in order;
      var m :| 0 <= m < |order| && order[m] == i;
    }
  }

  /** The state after p improving passes. */
  ghost predicate StateAfter(g: Graph, es: seq<Edge>, R: real, c: seq<int>, communityWeight: map<int, real>, p: nat)
    decreases p, 1
  {
    exists before, weight :: StateStep(g, es, R, before, weight, c, communityWeight, p)
  }

  ghost predicate StateStep(g: Graph, es: seq<Edge>, R: real, before: seq<int>, weight: map<int, real>,
                            c: seq<int>, communityWeight: map<int, real>, p: nat)
    decreases p, 0
  {
    && IsGraph(g, es) && Inv(es, g.nodes, c, communityWeight) && |before| == |g.nodes|
    && if p == 0 then c == g.nodes
       else
         && StateAfter(g, es, R, before, weight, p - 1)
         && (NoRepeats(g.nodes) ==> ImprovingPass(es, before, c, R, g.totalWeight))
  }

  lemma StartState(g: Graph, es: seq<Edge>, R: real, communityWeight: map<int, real>)
    requires IsGraph(g, es) && Inv(es, g.nodes, g.nodes, communityWeight)
    ensures StateAfter(g, es, R, g.nodes, communityWeight, 0)
  {
    assert StateStep(g, es, R, g.nodes, communityWeight, g.nodes, communityWeight, 0);
  }

  lemma StateNext(g: Graph, es: seq<Edge>, R: real, before: seq<int>, weight: map<int, real>,
                  c: seq<int>, communityWeight: map<int, real>, p: nat)
    requires p > 0 && StateStep(g, es, R, before, weight, c, communityWeight, p)
    requires NoRepeats(g.nodes) ==> ImprovingPasses(es, g.nodes, before, p - 1, R, g.totalWeight)
    ensures NoRepeats(g.nodes) ==> ImprovingPasses(es, g.nodes, c, p, R, g.totalWeight)
  {
    if NoRepeats(g.nodes) { PassesNext(es, g.nodes, before, c, p - 1, R, g.totalWeight); }
  }

  lemma {:induction false} StateFacts(g: Graph, es: seq<Edge>, R: real, c: seq<int>, communityWeight: map<int, real>,
                                      p: nat)
    requires StateAfter(g, es, R, c, communityWeight, p)
    ensures IsGraph(g, es) && Inv(es, g.nodes, c, communityWeight)
    ensures NoRepeats(g.nodes) ==> ImprovingPasses(es, g.nodes, c, p, R, g.totalWeight)
    decreases p
  {
    var before, weight :| StateStep(g, es, R, before, weight, c, communityWeight, p);
    if p > 0 {
      StateFacts(g, es, R, before, weight, p - 1);
      StateNext(g, es, R, before, weight, c, communityWeight, p);
    }
  }

  ghost predicate SettledGraph(g: Graph, es: seq<Edge>, R: real, c: seq<int>)
  {
    IsGraph(g, es) && |c| == |g.nodes| && (NoRepeats(g.nodes) ==> Settled(es, c, R, g.totalWeight))
  }

  method Pass(g: Graph, ghost es: seq<Edge>, R: real, c: seq<int>, communityWeight: map<int, real>, ghost passes: nat)
    returns (d: seq<int>, newWeight: map<int, real>, improved: bool)
    requires StateAfter(g, es, R, c, communityWeight, passes)
    ensures StateAfter(g, es, R, d, newWeight, if improved then passes + 1 else passes)
    ensures !improved ==> SettledGraph(g, es, R, d)
  {
    StateFacts(g, es, R, c, communityWeight, passes);
    d, newWeight, improved := VisitAll(g, es, R, c, communityWeight);
    if improved {
      assert StateStep(g, es, R, c, communityWeight, d, newWeight, passes + 1);
    }
  }

  /** The passes, until one changes nothing or maxIterations are done. */
  method Passes(g: Graph, ghost es: seq<Edge>, R: real, maxIterations: int, communityWeight: map<int, real>)
    returns (c: seq<int>, weight: map<int, real>, ghost passes: nat)
    requires StateAfter(g, es, R, g.nodes, communityWeight, 0)
    ensures StateAfter(g, es, R, c, weight, passes) && (passes == 0 || passes <= maxIterations)
    ensures passes < maxIterations ==> SettledGraph(g, es, R, c)
  {
    c, weight, passes := g.nodes, communityWeight, 0;
    var iter := 0;
    while iter < maxIterations
      invariant passes == iter && (passes == 0 || passes <= maxIterations)
      invariant StateAfter(g, es, R, c, weight, passes)
    {
      var improved;
      c, weight, improved := Pass(g, es, R, c, weight, passes);
      if !improved { return; }
      iter := iter + 1;
      passes := passes + 1;
    }
  }

  /** ids is the partition after some improving passes; there were as many as the limit, or no further move gains. */
  ghost predicate EndOfRun(es: seq<Edge>, nodes: seq<int>, R: real, limit: int, T: real, c: seq<int>, passes: nat,
                           ids: seq<int>)
    requires InRange(es, |nodes|) && T != 0.0
  {
    && |c| == |nodes| && SamePartition(ids, c) && ImprovingPasses(es, nodes, c, passes, R, T)
    && (passes == 0 || passes <= limit) && (passes < limit ==> Settled(es, c, R, T))
  }

  /** With that many iterations allowed, the passes always end because no further move gains. */
  lemma EndsSettled(es: seq<Edge>, nodes: seq<int>, R: real, limit: int, T: real, c: seq<int>, passes: nat,
                    ids: seq<int>)
    requires NoRepeats(nodes) && InRange(es, |nodes|) && T != 0.0 && LoopsHelp(es, |nodes|, R)
    requires EndOfRun(es, nodes, R, limit, T, c, passes, ids) && limit >= Pow(|nodes|, |nodes|)
    ensures Settled(es, c, R, T)
  {
    PassesBound(es, nodes, R, T, c, passes);
  }

  /** The communities when there is any weight. */
  method Communities(nodes: seq<int>, rels: seq<Relationship>, config: Config, nodeIndex: map<int, int>,
                     weights: map<int, map<int, real>>, totalWeight: real)
    returns (ids: seq<int>, ghost c: seq<int>, ghost passes: nat)
    requires nodeIndex == NodeIndex(nodes) && WeightsAre(nodes, PresentEdges(nodes, rels), weights)
    requires totalWeight != 0.0
    ensures |ids| == |nodes| && ByFirstOccurrence(ids)
    ensures NoRepeats(nodes) ==> WithinComponents(nodes, rels, ids)
    ensures NoRepeats(nodes) ==>
              EndOfRun(PresentEdges(nodes, rels), nodes, Resolution(config), Iterations(config), totalWeight, c, passes,
                       ids)
  {
    ghost var es := PresentEdges(nodes, rels);
    PresentAtIndex(nodes, rels);
    var degree := BuildDegrees(nodes, weights, es);
    var communityWeight := BuildCommunityWeight(nodes, degree, es);
    var g := Graph(nodes, nodeIndex, weights, degree, totalWeight);
    StartState(g, es, Resolution(config), communityWeight);
    var community;
    community, communityWeight, passes := Passes(g, es, Resolution(config), Iterations(config), communityWeight);
    StateFacts(g, es, Resolution(config), community, communityWeight, passes);
    c := community;
    ids := Renumber(community);
    if NoRepeats(nodes) {
      EndWithin(nodes, rels, Resolution(config), Iterations(config), totalWeight, c, passes, ids);
    }
  }

  lemma EndWithin(nodes: seq<int>, rels: seq<Relationship>, R: real, limit: int, T: real, c: seq<int>, passes: nat,
                  ids: seq<int>)
    requires NoRepeats(nodes) && T != 0.0 && EndOfRun(PresentEdges(nodes, rels), nodes, R, limit, T, c, passes, ids)
    ensures WithinComponents(nodes, rels, ids)
  {
    PassesAnchored(nodes, rels, R, T, c, passes);
    AnchoredWithin(nodes, rels, c);
    PartitionWithin(nodes, rels, ids, c);
  }

  /** The numbers are by first occurrence unless the total weight is zero; then they are the node IDs. */
  method Partition(nodes: seq<int>, rels: seq<Relationship>, config: Config)
    returns (ids: seq<int>, ghost c: seq<int>, ghost passes: nat)
    ensures |ids| == |nodes| && (Total(PresentEdges(nodes, rels)) != 0.0 ==> ByFirstOccurrence(ids))
    ensures NoRepeats(nodes) ==> WithinComponents(nodes, rels, ids)
    ensures NoRepeats(nodes) && Total(PresentEdges(nodes, rels)) != 0.0 ==>
              EndOfRun(PresentEdges(nodes, rels), nodes, Resolution(config), Iterations(config),
                       2.0 * Total(PresentEdges(nodes, rels)), c, passes, ids)
    ensures Total(PresentEdges(nodes, rels)) == 0.0 ==> ids == nodes
  {
    var nodeIndex := BuildNodeIndex(nodes);
    var weights, totalWeight := BuildWeights(nodes, rels, nodeIndex);
    if totalWeight == 0.0 {
      if NoRepeats(nodes) {
        StartAnchored(nodes, rels);
        AnchoredWithin(nodes, rels, nodes);
      }
      return nodes, nodes, 0;
    }
    ids, c, passes := Communities(nodes, rels, config, nodeIndex, weights, totalWeight);
  }

  method Louvain(nodes: seq<int>, rels: seq<Relationship>, config: Config)
    returns (result: seq<NodeResult>, ghost c: seq<int>, ghost passes: nat)
    ensures |result| == |nodes| && forall i :: 0 <= i < |nodes| ==> result[i].node == nodes[i]
    ensures Total(PresentEdges(nodes, rels)) != 0.0 ==> ByFirstOccurrence(Numbers(result))
    ensures NoRepeats(nodes) ==> WithinComponents(nodes, rels, Numbers(result))
    ensures NoRepeats(nodes) && Total(PresentEdges(nodes, rels)) != 0.0 ==>
              EndOfRun(PresentEdges(nodes, rels), nodes, if config.resolution == 0.0 then 1.0 else config.resolution,
                       if config.maxIterations == 0 then 100 else config.maxIterations,
                       2.0 * Total(PresentEdges(nodes, rels)), c, passes, Numbers(result))
    ensures Total(PresentEdges(nodes, rels)) == 0.0 ==> Numbers(result) == nodes
  {
    if |nodes| == 0 {
      NoEdges(rels);
      return [], [], 0;
    }
    var ids;
    ids, c, passes := Partition(nodes, rels, config);
    result := Label(nodes, ids);
  }

  lemma {:induction false} NoEdges(rels: seq<Relationship>)
    ensures PresentEdges([], rels) == []
  {
    if |rels| > 0 { NoEdges(rels[..|rels| - 1]); }
  }

  /** The numbers that occur are 0, 1, 2, ... without gaps, in any order. */
  ghost predicate IsDense(ids: seq<int>)
  {
    && (forall i :: 0 <= i < |ids| ==> 0 <= ids[i])
    && (forall i, x {:trigger x in ids, ids[i]} :: 0 <= i < |ids| && 0 <= x < ids[i] ==> x in ids)
  }

  lemma FirstOccurrenceIsDense(ids: seq<int>)
    requires ByFirstOccurrence(ids)
    ensures IsDense(ids)
  {
    forall i, x {:trigger x in ids, ids[i]} | 0 <= i < |ids| && 0 <= x < ids[i]
      ensures x in ids
    {
      OccursAll(ids, i, x);
    }
  }

  /** Without weight the numbers are the IDs, which are dense exactly if they are all below the number of nodes. */
  lemma DenseWithoutWeight(nodes: seq<int>)
    requires NoRepeats(nodes)
    ensures IsDense(nodes) <==> forall i :: 0 <= i < |nodes| ==> 0 <= nodes[i] < |nodes|
  {
    var ids := set x | x in nodes;
    NoRepeatsSize(nodes);
    if IsDense(nodes) {
      forall i | 0 <= i < |nodes|
        ensures nodes[i] < |nodes|
      {
        var m := nodes[i];
        assert forall x :: x in Range(m + 1) ==> x in ids;
        SubsetSize(Range(m + 1), ids);
      }
    }
    if forall i :: 0 <= i < |nodes| ==> 0 <= nodes[i] < |nodes| {
      assert ids <= Range(|nodes|);
      SameSizeSubset(ids, Range(|nodes|));
      forall x | 0 <= x < |nodes|
        ensures x in nodes
      {
        assert x in Range(|nodes|) && x in ids;
      }
    }
  }

  /** They are also numbered by first occurrence exactly if the i-th node has the ID i. */
  lemma FirstOccurrenceWithoutWeight(nodes: seq<int>)
    requires NoRepeats(nodes)
    ensures ByFirstOccurrence(nodes) <==> forall i :: 0 <= i < |nodes| ==> nodes[i] == i
  {
    if ByFirstOccurrence(nodes) {
      for n := 0 to |nodes|
        invariant forall i :: 0 <= i < n ==> nodes[i] == i
        invariant forall v :: 0 <= v < n ==> v in nodes[..n]
      {
        if nodes[n] > 0 { assert HasPredecessor(nodes, n); }
        assert nodes[n] !in nodes[..n];
        assert nodes[..n + 1] == nodes[..n] + [nodes[n]];
      }
    } else if forall i :: 0 <= i < |nodes| ==> nodes[i] == i {
      forall i {:trigger HasPredecessor(nodes, i)} | 0 <= i < |nodes| && nodes[i] > 0
        ensures HasPredecessor(nodes, i)
      {
        assert nodes[i - 1] == nodes[i] - 1;
      }
    }
  }
}
