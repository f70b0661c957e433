/** Double counting of triangles, and what self-loops do to the total. */
module TriangleTotals {
  import opened Graphs
  import opened Counting
  import opened Triangles

  type Triple = (int, int, int)

  /** The unordered triangles: three different nodes, in increasing order, linked pairwise. */
  ghost function TriangleSet(nodes: seq<int>, rels: seq<Relationship>): set<Triple>
  {
    set x, y, z | x in nodes && y in nodes && z in nodes && x < y < z &&
      Linked(nodes, rels, x, y) && Linked(nodes, rels, x, z) && Linked(nodes, rels, y, z) :: (x, y, z)
  }

  ghost function IndexOf(nodes: seq<int>, id: int): int
  {
    if id in nodes then NodeIndex(nodes)[id] else 0
  }

  ghost function First(nodes: seq<int>): Triple -> int { (t: Triple) => IndexOf(nodes, t.0) }
  ghost function Second(nodes: seq<int>): Triple -> int { (t: Triple) => IndexOf(nodes, t.1) }
  ghost function Third(nodes: seq<int>): Triple -> int { (t: Triple) => IndexOf(nodes, t.2) }

  /** What a self-loop at position i adds to its own count: one for every other neighbour. */
  ghost function Excess(nodes: seq<int>, rels: seq<Relationship>, i: int): int
    requires 0 <= i < |nodes|
  {
    var a := Adjacency(nodes, rels)[i];
    if nodes[i] in a then |a| - 1 else 0
  }

  lemma LinkedSymmetric(nodes: seq<int>, rels: seq<Relationship>, x: int, y: int)
    ensures Linked(nodes, rels, x, y) ==> Linked(nodes, rels, y, x) && x in nodes && y in nodes
  {
    if Linked(nodes, rels, x, y) {
      var r :| r in rels && Links(nodes, r, x, y);
      assert Links(nodes, r, y, x);
    }
  }

  // ---------- the corners at one node ----------

  /** The corners at c, split by where c lies; a is the set of c's neighbours. */
  ghost predicate IsCornerSet(nodes: seq<int>, rels: seq<Relationship>, c: int, corners: set<(int, int)>)
  {
    forall p {:trigger p in corners} :: p in corners <==>
      Linked(nodes, rels, c, p.0) && Linked(nodes, rels, c, p.1) && p.0 < p.1 && Linked(nodes, rels, p.0, p.1)
  }

  lemma TriangleLinks(nodes: seq<int>, rels: seq<Relationship>, x: int, y: int, z: int)
    ensures (x, y, z) in TriangleSet(nodes, rels) <==>
            x < y < z && Linked(nodes, rels, x, y) && Linked(nodes, rels, x, z) && Linked(nodes, rels, y, z)
  {
    LinkedSymmetric(nodes, rels, x, y);
    LinkedSymmetric(nodes, rels, y, z);
  }

  lemma CornerLinks(nodes: seq<int>, rels: seq<Relationship>, c: int, corners: set<(int, int)>, p: (int, int))
    requires IsCornerSet(nodes, rels, c, corners)
    ensures p in corners <==>
            p.0 < p.1 && Linked(nodes, rels, p.0, p.1) && Linked(nodes, rels, p.0, c) && Linked(nodes, rels, p.1, c)
    ensures p in corners <==>
            p.0 < p.1 && Linked(nodes, rels, p.0, p.1) && Linked(nodes, rels, c, p.0) && Linked(nodes, rels, c, p.1)
  {
    LinkedSymmetric(nodes, rels, c, p.0);
    LinkedSymmetric(nodes, rels, c, p.1);
    LinkedSymmetric(nodes, rels, p.0, c);
    LinkedSymmetric(nodes, rels, p.1, c);
  }

  lemma SameIndex(nodes: seq<int>, x: int, y: int)
    requires x in nodes && y in nodes
    ensures IndexOf(nodes, x) == IndexOf(nodes, y) <==> x == y
  {
    assert nodes[NodeIndex(nodes)[x]] == x && nodes[NodeIndex(nodes)[y]] == y;
  }

  lemma LowCorners(nodes: seq<int>, rels: seq<Relationship>, i: int, c: int, corners: set<(int, int)>)
    requires IsCornerSet(nodes, rels, c, corners) && c in nodes && IndexOf(nodes, c) == i
    ensures |set p | p in corners && c < p.0| == |Fiber(TriangleSet(nodes, rels), First(nodes), i)|
  {
    var part := set p | p in corners && c < p.0;
    var fiber := Fiber(TriangleSet(nodes, rels), First(nodes), i);
    forall p {:trigger p in part} | p in part
      ensures (c, p.0, p.1) in fiber
    {
      TriangleLinks(nodes, rels, c, p.0, p.1);
      CornerLinks(nodes, rels, c, corners, p);
    }
    forall t {:trigger t in fiber} | t in fiber
      ensures t.0 == c && (t.1, t.2) in part
    {
      SameIndex(nodes, t.0, c);
      TriangleLinks(nodes, rels, t.0, t.1, t.2);
      CornerLinks(nodes, rels, c, corners, (t.1, t.2));
    }
    LowSize(part, fiber, c);
  }

  lemma LowSize(part: set<(int, int)>, fiber: set<Triple>, c: int)
    requires forall p {:trigger p in part} :: p in part ==> (c, p.0, p.1) in fiber
    requires forall t {:trigger t in fiber} :: t in fiber ==> t.0 == c && (t.1, t.2) in part
    ensures |part| == |fiber|
  {
    BijectionSize(part, fiber, (p: (int, int)) => (c, p.0, p.1), (t: Triple) => (t.1, t.2));
  }

  lemma MiddleCorners(nodes: seq<int>, rels: seq<Relationship>, i: int, c: int, corners: set<(int, int)>)
    requires IsCornerSet(nodes, rels, c, corners) && c in nodes && IndexOf(nodes, c) == i
    ensures |set p | p in corners && p.0 < c < p.1| == |Fiber(TriangleSet(nodes, rels), Second(nodes), i)|
  {
    var part := set p | p in corners && p.0 < c < p.1;
    var fiber := Fiber(TriangleSet(nodes, rels), Second(nodes), i);
    forall p {:trigger p in part} | p in part
      ensures (p.0, c, p.1) in fiber
    {
      TriangleLinks(nodes, rels, p.0, c, p.1);
      CornerLinks(nodes, rels, c, corners, p);
    }
    forall t {:trigger t in fiber} | t in fiber
      ensures t.1 == c && (t.0, t.2) in part
    {
      SameIndex(nodes, t.1, c);
      TriangleLinks(nodes, rels, t.0, t.1, t.2);
      CornerLinks(nodes, rels, c, corners, (t.0, t.2));
    }
    MiddleSize(part, fiber, c);
  }

  lemma MiddleSize(part: set<(int, int)>, fiber: set<Triple>, c: int)
    requires forall p {:trigger p in part} :: p in part ==> (p.0, c, p.1) in fiber
    requires forall t {:trigger t in fiber} :: t in fiber ==> t.1 == c && (t.0, t.2) in part
    ensures |part| == |fiber|
  {
    BijectionSize(part, fiber, (p: (int, int)) => (p.0, c, p.1), (t: Triple) => (t.0, t.2));
  }

  lemma HighCorners(nodes: seq<int>, rels: seq<Relationship>, i: int, c: int, corners: set<(int, int)>)
    requires IsCornerSet(nodes, rels, c, corners) && c in nodes && IndexOf(nodes, c) == i
    ensures |set p | p in corners && p.1 < c| == |Fiber(TriangleSet(nodes, rels), Third(nodes), i)|
  {
    var part := set p | p in corners && p.1 < c;
    var fiber := Fiber(TriangleSet(nodes, rels), Third(nodes), i);
    forall p {:trigger p in part} | p in part
      ensures (p.0, p.1, c) in fiber
    {
      TriangleLinks(nodes, rels, p.0, p.1, c);
      CornerLinks(nodes, rels, c, corners, p);
    }
    forall t {:trigger t in fiber} | t in fiber
      ensures t.2 == c && (t.0, t.1) in part
    {
      SameIndex(nodes, t.2, c);
      TriangleLinks(nodes, rels, t.0, t.1, t.2);
      CornerLinks(nodes, rels, c, corners, (t.0, t.1));
    }
    HighSize(part, fiber, c);
  }

  lemma HighSize(part: set<(int, int)>, fiber: set<Triple>, c: int)
    requires forall p {:trigger p in part} :: p in part ==> (p.0, p.1, c) in fiber
    requires forall t {:trigger t in fiber} :: t in fiber ==> t.2 == c && (t.0, t.1) in part
    ensures |part| == |fiber|
  {
    BijectionSize(part, fiber, (p: (int, int)) => (p.0, p.1, c), (t: Triple) => (t.0, t.1));
  }

  /** The corners that use a self-loop of c: one for each other neighbour. */
  lemma LoopCorners(nodes: seq<int>, rels: seq<Relationship>, c: int, corners: set<(int, int)>, a: set<int>)
    requires IsCornerSet(nodes, rels, c, corners) && forall y {:trigger y in a} :: y in a <==> Linked(nodes, rels, c, y)
    ensures |set p | p in corners && (p.0 == c || p.1 == c)| == if c in a then |a| - 1 else 0
  {
    var part := set p | p in corners && (p.0 == c || p.1 == c);
    forall p {:trigger p in part} | p in part
      ensures p.0 in a && p.1 in a && p.0 < p.1 && (p.0 == c || p.1 == c)
    {
      CornerLinks(nodes, rels, c, corners, p);
    }
    if c in a {
      forall y {:trigger y in a} | y in a && y != c
        ensures (if c < y then (c, y) else (y, c)) in part
      {
        CornerLinks(nodes, rels, c, corners, if c < y then (c, y) else (y, c));
        LinkedSymmetric(nodes, rels, c, y);
      }
      LoopSize(part, a, c);
    } else {
      assert forall p {:trigger p in part} :: p !in part;
      assert part == {};
    }
  }

  lemma LoopSize(part: set<(int, int)>, a: set<int>, c: int)
    requires forall p {:trigger p in part} :: p in part ==> p.0 in a && p.1 in a && p.0 < p.1 && (p.0 == c || p.1 == c)
    requires forall y {:trigger y in a} :: y in a && y != c ==> (if c < y then (c, y) else (y, c)) in part
    requires c in a
    ensures |part| == |a| - 1
  {
    BijectionSize(a - {c}, part, (y: int) => if c < y then (c, y) else (y, c),
                  (p: (int, int)) => if p.0 == c then p.1 else p.0);
  }

  lemma SplitFour(corners: set<(int, int)>, c: int)
    requires forall p :: p in corners ==> p.0 < p.1
    ensures |corners| == |set p | p in corners && c < p.0| + |set p | p in corners && p.0 < c < p.1|
              + |set p | p in corners && p.1 < c| + |set p | p in corners && (p.0 == c || p.1 == c)|
  {
    var low := set p | p in corners && c < p.0;
    var middle := set p | p in corners && p.0 < c < p.1;
    var high := set p | p in corners && p.1 < c;
    var loop := set p | p in corners && (p.0 == c || p.1 == c);
    assert corners == low + middle + high + loop;
    assert low !! middle && (low + middle) !! high && (low + middle + high) !! loop;
  }

  lemma CornersSplit(nodes: seq<int>, rels: seq<Relationship>, i: int)
    requires 0 <= i < |nodes|
    ensures var t := TriangleSet(nodes, rels);
            |Corners(nodes, rels, i)| ==
              |Fiber(t, First(nodes), i)| + |Fiber(t, Second(nodes), i)| + |Fiber(t, Third(nodes), i)| +
                Excess(nodes, rels, i)
  {
    var c, a, corners := nodes[i], Adjacency(nodes, rels)[i], Corners(nodes, rels, i);
    forall y
      ensures y in a <==> IndexOf(nodes, c) == i && Linked(nodes, rels, c, y)
    {
      AdjacencyLinks(nodes, rels, i, y);
    }
    if IndexOf(nodes, c) == i {
      assert IsCornerSet(nodes, rels, c, corners);
      SplitFour(corners, c);
      LowCorners(nodes, rels, i, c, corners);
      MiddleCorners(nodes, rels, i, c, corners);
      HighCorners(nodes, rels, i, c, corners);
      LoopCorners(nodes, rels, c, corners, a);
    } else {
      NoFiber(nodes, rels, i);
      assert corners == {};
    }
  }

  /** A position that is not the last one of its ID takes part in no triangle. */
  lemma NoFiber(nodes: seq<int>, rels: seq<Relationship>, i: int)
    requires 0 <= i < |nodes| && IndexOf(nodes, nodes[i]) != i
    ensures Fiber(TriangleSet(nodes, rels), First(nodes), i) == {}
    ensures Fiber(TriangleSet(nodes, rels), Second(nodes), i) == {}
    ensures Fiber(TriangleSet(nodes, rels), Third(nodes), i) == {}
  {
    forall id | id in nodes
      ensures IndexOf(nodes, id) != i
    {}
  }

  // ---------- the total ----------

  ghost function CornerCount(nodes: seq<int>, rels: seq<Relationship>): int -> int
  {
    i => if 0 <= i < |nodes| then |Corners(nodes, rels, i)| else 0
  }

  ghost function LoopCount(nodes: seq<int>, rels: seq<Relationship>): int -> int
  {
    i => if 0 <= i < |nodes| then Excess(nodes, rels, i) else 0
  }

  lemma FiberTotal(nodes: seq<int>, rels: seq<Relationship>, f: Triple -> int)
    requires forall t :: t in TriangleSet(nodes, rels) ==> 0 <= f(t) < |nodes|
    ensures Sum(FiberCount(TriangleSet(nodes, rels), f), |nodes|) == |TriangleSet(nodes, rels)|
  {
    var t := TriangleSet(nodes, rels);
    FiberSum(t, f, |nodes|);
    assert Below(t, f, |nodes|) == t;
  }

  /** Double counting: the corners are three per triangle, and the excess of the self-loops. */
  lemma CornerTotal(nodes: seq<int>, rels: seq<Relationship>)
    ensures Sum(CornerCount(nodes, rels), |nodes|) ==
            3 * |TriangleSet(nodes, rels)| + Sum(LoopCount(nodes, rels), |nodes|)
  {
    var t, n := TriangleSet(nodes, rels), |nodes|;
    var f, g, h := FiberCount(t, First(nodes)), FiberCount(t, Second(nodes)), FiberCount(t, Third(nodes));
    forall i | 0 <= i < n
      ensures CornerCount(nodes, rels)(i) == f(i) + g(i) + h(i) + LoopCount(nodes, rels)(i)
    {
      CornersSplit(nodes, rels, i);
    }
    SumOfFour(f, g, h, LoopCount(nodes, rels), CornerCount(nodes, rels), n);
    FiberTotal(nodes, rels, First(nodes));
    FiberTotal(nodes, rels, Second(nodes));
    FiberTotal(nodes, rels, Third(nodes));
  }

  ghost predicate NoSelfLoops(nodes: seq<int>, rels: seq<Relationship>)
  {
    forall x :: !Linked(nodes, rels, x, x)
  }

  lemma ExcessBounds(nodes: seq<int>, rels: seq<Relationship>, i: int)
    requires 0 <= i < |nodes|
    ensures Excess(nodes, rels, i) >= 0
    ensures NoSelfLoops(nodes, rels) ==> Excess(nodes, rels, i) == 0
  {
    var a := Adjacency(nodes, rels)[i];
    AdjacencyLinks(nodes, rels, i, nodes[i]);
    if nodes[i] in a { SubsetSize({nodes[i]}, a); }
  }

  lemma {:induction false} LoopCountBounds(nodes: seq<int>, rels: seq<Relationship>, n: nat)
    requires n <= |nodes|
    ensures Sum(LoopCount(nodes, rels), n) >= 0
    ensures NoSelfLoops(nodes, rels) ==> Sum(LoopCount(nodes, rels), n) == 0
  {
    if n > 0 {
      LoopCountBounds(nodes, rels, n - 1);
      ExcessBounds(nodes, rels, n - 1);
    }
  }

  /** Without self-loops this is the number of triangles; in general it is exactly when the self-loops
      add less than 3 in all. */
  method TotalTriangles(nodes: seq<int>, rels: seq<Relationship>) returns (n: int)
    ensures n == |TriangleSet(nodes, rels)| + Sum(LoopCount(nodes, rels), |nodes|) / 3
    ensures n == |TriangleSet(nodes, rels)| <==> Sum(LoopCount(nodes, rels), |nodes|) < 3
    ensures NoSelfLoops(nodes, rels) ==>
            n == |TriangleSet(nodes, rels)| && Sum(CornerCount(nodes, rels), |nodes|) == 3 * n
  {
    var counts := TriangleCount(nodes, rels);
    var total := 0;
    for i := 0 to |counts|
      invariant total == Sum(CornerCount(nodes, rels), i)
    {
      total := total + counts[i].number;
    }
    CornerTotal(nodes, rels);
    LoopCountBounds(nodes, rels, |nodes|);
    return total / 3;
  }

  // ---------- a total that is too large ----------

  ghost const LOOP_NODES: seq<int> := [0, 1, 2, 3]

  /** A node with a self-loop and three neighbours. */
  ghost const LOOP_RELS: seq<Relationship> := [Link(0, 0), Link(0, 1), Link(0, 2), Link(0, 3)]

  lemma LoopLinked(x: int, y: int)
    ensures Linked(LOOP_NODES, LOOP_RELS, x, y) <==> (x == 0 && 0 <= y <= 3) || (y == 0 && 0 <= x <= 3)
  {
    assert LOOP_NODES[0] == 0 && LOOP_NODES[1] == 1 && LOOP_NODES[2] == 2 && LOOP_NODES[3] == 3;
    var other := if x == 0 then y else x;
    if 0 <= other <= 3 && (x == 0 || y == 0) {
      assert LOOP_RELS[other] == Link(0, other) && LOOP_RELS[other] in LOOP_RELS;
      assert Links(LOOP_NODES, LOOP_RELS[other], x, y);
    }
  }

  lemma ExcessIs(nodes: seq<int>, rels: seq<Relationship>, i: int, s: set<int>)
    requires 0 <= i < |nodes| && IndexOf(nodes, nodes[i]) == i
    requires forall y {:trigger y in s} :: y in s <==> Linked(nodes, rels, nodes[i], y)
    ensures Excess(nodes, rels, i) == if nodes[i] in s then |s| - 1 else 0
  {
    var a := Adjacency(nodes, rels)[i];
    forall y
      ensures y in a <==> y in s
    {
      AdjacencyLinks(nodes, rels, i, y);
    }
    assert a == s;
  }

  lemma LoopExcess(i: int)
    requires 0 <= i < 4
    ensures Excess(LOOP_NODES, LOOP_RELS, i) == if i == 0 then 3 else 0
  {
    assert LOOP_NODES[i] == i && NoRepeats(LOOP_NODES);
    DistinctIndex(LOOP_NODES, i);
    var s := if i == 0 then Range(4) else {0};
    forall y {:trigger y in s}
      ensures y in s <==> Linked(LOOP_NODES, LOOP_RELS, LOOP_NODES[i], y)
    {
      LoopLinked(i, y);
    }
    ExcessIs(LOOP_NODES, LOOP_RELS, i, s);
  }

  /** Three neighbours of a node with a self-loop count as a triangle, although there is none: the code answers 1. */
  lemma LoopMiscounts()
    ensures TriangleSet(LOOP_NODES, LOOP_RELS) == {} && Sum(LoopCount(LOOP_NODES, LOOP_RELS), 4) == 3
  {
    forall t: Triple
      ensures t !in TriangleSet(LOOP_NODES, LOOP_RELS)
    {
      LoopLinked(t.0, t.1);
      LoopLinked(t.1, t.2);
    }
    var f := LoopCount(LOOP_NODES, LOOP_RELS);
    LoopExcess(0);
    LoopExcess(1);
    LoopExcess(2);
    LoopExcess(3);
    assert Sum(f, 0) == 0 && Sum(f, 1) == 3 && Sum(f, 2) == 3 && Sum(f, 3) == 3;
  }
}
