/** AtHop and ToHop: breadth-first levels of a neighbour function, which stands for Storage.GetNodeNeighbors
    with a failed lookup giving no neighbours. */
module Hops {
  import opened Walks
  import opened Counting

  /** v is the end of some walk of n steps from u. */
  ghost predicate Steps(next: Succ, u: int, v: int, n: nat)
    decreases n
  {
    if n == 0 then u == v else exists w :: Steps(next, u, w, n - 1) && v in next(w)
  }

  /** The shortest walk from u to v has n steps. */
  ghost predicate Distance(next: Succ, u: int, v: int, n: nat)
  {
    Steps(next, u, v, n) && forall k: nat :: k < n ==> !Steps(next, u, v, k)
  }

  ghost predicate Within(next: Succ, u: int, v: int, n: int)
  {
    exists k: nat :: k <= n && Steps(next, u, v, k)
  }

  lemma {:induction false} StepsIffWalk(next: Succ, u: int, v: int, n: nat)
    ensures Steps(next, u, v, n) <==> exists p :: |p| == n + 1 && IsWalk(next, p, u, v)
    decreases n
  {
    if n == 0 {
      assert u == v ==> IsWalk(next, [u], u, v);
    } else {
      if Steps(next, u, v, n) {
        var w :| Steps(next, u, w, n - 1) && v in next(w);
        StepsIffWalk(next, u, w, n - 1);
        var p :| |p| == n && IsWalk(next, p, u, w);
        assert |p + [v]| == n + 1 && IsWalk(next, p + [v], u, v);
      }
      if p :| |p| == n + 1 && IsWalk(next, p, u, v) {
        var w := p[n - 1];
        assert p[n - 1 + 1] in next(p[n - 1]);
        assert |p[..n]| == n && IsWalk(next, p[..n], u, w);
        StepsIffWalk(next, u, w, n - 1);
      }
    }
  }

  lemma {:induction false} StepsReach(next: Succ, u: int, v: int, n: nat)
    requires Steps(next, u, v, n)
    ensures Reaches(next, u, v)
    decreases n
  {
    if n > 0 {
      var w :| Steps(next, u, w, n - 1) && v in next(w);
      StepsReach(next, u, w, n - 1);
      ReachesStep(next, w, v);
      ReachesTrans(next, u, w, v);
    }
  }

  // ---------- levels as functions ----------

  datatype Frontier = Frontier(level: seq<int>, visited: set<int>)

  /** Appends the unvisited ones of ns. */
  function AddNew(ns: seq<int>, f: Frontier): Frontier
  {
    if |ns| == 0 then f
    else
      var g, x := AddNew(ns[..|ns| - 1], f), ns[|ns| - 1];
      if x in g.visited then g else Frontier(g.level + [x], g.visited + {x})
  }

  function Expand(next: Succ, current: seq<int>, visited: set<int>): Frontier
    decreases current
  {
    if |current| == 0 then Frontier([], visited)
    else AddNew(next(current[|current| - 1]), Expand(next, current[..|current| - 1], visited))
  }

  function Level(next: Succ, u: int, h: nat): Frontier
    decreases h
  {
    if h == 0 then Frontier([u], {u})
    else
      var f := Level(next, u, h - 1);
      Expand(next, f.level, f.visited)
  }

  function LevelsBelow(next: Succ, u: int, m: int): seq<int>
    decreases m
  {
    if m <= 0 then [] else LevelsBelow(next, u, m - 1) + Level(next, u, m - 1).level
  }

  /** The level lists without repetition what was visited since `before`. */
  ghost predicate Lists(f: Frontier, before: set<int>)
  {
    && NoRepeats(f.level) && before <= f.visited
    && forall v :: v in f.level <==> v in f.visited && v !in before
  }

  lemma {:induction false} AddNewMembers(ns: seq<int>, f: Frontier, before: set<int>)
    requires Lists(f, before)
    ensures Lists(AddNew(ns, f), before)
    ensures forall v :: v in AddNew(ns, f).visited <==> v in f.visited || v in ns
  {
    if |ns| > 0 {
      var x := ns[|ns| - 1];
      AddNewMembers(ns[..|ns| - 1], f, before);
      assert ns == ns[..|ns| - 1] + [x];
    }
  }

  ghost predicate Adjacent(next: Succ, current: seq<int>, v: int)
  {
    exists w :: w in current && v in next(w)
  }

  lemma {:induction false} ExpandMembers(next: Succ, current: seq<int>, visited: set<int>)
    ensures Lists(Expand(next, current, visited), visited)
    ensures forall v :: v in Expand(next, current, visited).visited <==> v in visited || Adjacent(next, current, v)
    decreases current
  {
    if |current| > 0 {
      var last, rest := current[|current| - 1], current[..|current| - 1];
      ExpandMembers(next, rest, visited);
      AddNewMembers(next(last), Expand(next, rest, visited), visited);
      assert current == rest + [last];
      forall v
        ensures Adjacent(next, current, v) <==> Adjacent(next, rest, v) || v in next(last)
      {
        if Adjacent(next, rest, v) {
          var w :| w in rest && v in next(w);
          assert w in current;
        }
        if v in next(last) { assert last in current; }
      }
    }
  }

  /** A level lists, without repetition, exactly the nodes at its distance. */
  lemma {:induction false} LevelExact(next: Succ, u: int, h: nat)
    ensures NoRepeats(Level(next, u, h).level)
    ensures forall v :: v in Level(next, u, h).level <==> Distance(next, u, v, h)
    ensures forall v :: v in Level(next, u, h).visited <==> Within(next, u, v, h)
    decreases h
  {
    if h == 0 {
      forall v ensures Within(next, u, v, 0) <==> u == v { assert Steps(next, u, v, 0) <==> u == v; }
    } else {
      var f := Level(next, u, h - 1);
      LevelExact(next, u, h - 1);
      ExpandMembers(next, f.level, f.visited);
      forall v
        ensures v in Level(next, u, h).visited <==> Within(next, u, v, h)
        ensures v in Level(next, u, h).level <==> Distance(next, u, v, h)
      {
        LevelStep(next, u, v, h, f);
      }
    }
  }

  lemma LevelStep(next: Succ, u: int, v: int, h: nat, f: Frontier)
    requires h > 0
    requires forall w :: w in f.level <==> Distance(next, u, w, h - 1)
    requires forall w :: w in f.visited <==> Within(next, u, w, h - 1)
    ensures (v in f.visited || Adjacent(next, f.level, v)) <==> Within(next, u, v, h)
    ensures (v !in f.visited && Adjacent(next, f.level, v)) <==> Distance(next, u, v, h)
  {
    if Adjacent(next, f.level, v) {
      var w :| w in f.level && v in next(w);
      assert Steps(next, u, w, h - 1) && Steps(next, u, v, h);
    }
    if v in f.visited {
      var k: nat :| k <= h - 1 && Steps(next, u, v, k);
    }
    if Steps(next, u, v, h) && v !in f.visited {
      var w :| Steps(next, u, w, h - 1) && v in next(w);
      forall k: nat | k < h - 1
        ensures !Steps(next, u, w, k)
      {
        if Steps(next, u, w, k) { assert Steps(next, u, v, k + 1); assert Within(next, u, v, h - 1); }
      }
      assert w in f.level;
    }
  }

  // ---------- the order inside a level ----------

  /** What the nodes of a level have as successors, one list after the other. */
  ghost function Offers(next: Succ, current: seq<int>): seq<int>
    decreases current
  {
    if |current| == 0 then [] else Offers(next, current[..|current| - 1]) + next(current[|current| - 1])
  }

  lemma {:induction false} AddNewAppend(ns: seq<int>, ms: seq<int>, f: Frontier)
    ensures AddNew(ns + ms, f) == AddNew(ms, AddNew(ns, f))
  {
    if |ms| == 0 {
      assert ns + ms == ns;
    } else {
      AddNewAppend(ns, ms[..|ms| - 1], f);
      assert (ns + ms)[..|ns + ms| - 1] == ns + ms[..|ms| - 1];
    }
  }

  lemma {:induction false} ExpandAddsOffers(next: Succ, current: seq<int>, visited: set<int>)
    ensures Expand(next, current, visited) == AddNew(Offers(next, current), Frontier([], visited))
    decreases current
  {
    if |current| > 0 {
      var last, rest := current[|current| - 1], current[..|current| - 1];
      ExpandAddsOffers(next, rest, visited);
      AddNewAppend(Offers(next, rest), next(last), Frontier([], visited));
    }
  }

  /** The position at which x occurs first. */
  ghost function First(ns: seq<int>, x: int): (k: nat)
    requires x in ns
    ensures k < |ns| && ns[k] == x && x !in ns[..k]
  {
    if x in ns[..|ns| - 1] then
      var k := First(ns[..|ns| - 1], x);
      assert ns[..|ns| - 1][..k] == ns[..k];
      k
    else |ns| - 1
  }

  ghost predicate IsEarlier(ns: seq<int>, x: int, y: int)
  {
    x in ns && y in ns && First(ns, x) < First(ns, y)
  }

  /** level lists some of ns in the order in which they first occur there. */
  ghost predicate InOrder(ns: seq<int>, level: seq<int>)
  {
    && (forall x :: x in level ==> x in ns)
    && (forall a, b :: 0 <= a < b < |level| ==> IsEarlier(ns, level[a], level[b]))
  }

  lemma FirstStays(ns: seq<int>, x: int, y: int)
    requires y in ns
    ensures y in ns + [x] && First(ns + [x], y) == First(ns, y)
  {
    assert (ns + [x])[..|ns|] == ns;
  }

  lemma FirstIsLast(ns: seq<int>, x: int)
    requires x !in ns
    ensures First(ns + [x], x) == |ns|
  {
    assert (ns + [x])[..|ns|] == ns;
  }

  lemma InOrderStays(ns: seq<int>, level: seq<int>, x: int)
    requires InOrder(ns, level)
    ensures InOrder(ns + [x], level)
  {
    forall a, b | 0 <= a < b < |level|
      ensures IsEarlier(ns + [x], level[a], level[b])
    {
      assert IsEarlier(ns, level[a], level[b]);
      FirstStays(ns, x, level[a]);
      FirstStays(ns, x, level[b]);
    }
  }

  lemma InOrderNext(ns: seq<int>, level: seq<int>, x: int)
    requires InOrder(ns, level) && x !in ns
    ensures InOrder(ns + [x], level + [x])
  {
    InOrderStays(ns, level, x);
    FirstIsLast(ns, x);
    forall a, b | 0 <= a < b < |level + [x]|
      ensures IsEarlier(ns + [x], (level + [x])[a], (level + [x])[b])
    {
      assert level[a] in level;
      FirstStays(ns, x, level[a]);
      if b < |level| { assert IsEarlier(ns + [x], level[a], level[b]); }
    }
  }

  lemma {:induction false} AddNewInOrder(ns: seq<int>, visited: set<int>)
    ensures InOrder(ns, AddNew(ns, Frontier([], visited)).level)
  {
    if |ns| > 0 {
      var before, x := ns[..|ns| - 1], ns[|ns| - 1];
      AddNewInOrder(before, visited);
      AddNewMembers(before, Frontier([], visited), visited);
      var g := AddNew(before, Frontier([], visited));
      if x in g.visited { InOrderStays(before, g.level, x); } else { InOrderNext(before, g.level, x); }
      assert ns == before + [x];
    }
  }

  /** A level lists its nodes in the order in which the lists of the level before first offer them. */
  lemma LevelInOrder(next: Succ, u: int, h: nat)
    ensures InOrder(Offers(next, Level(next, u, h).level), Level(next, u, h + 1).level)
  {
    var f := Level(next, u, h);
    ExpandAddsOffers(next, f.level, f.visited);
    AddNewInOrder(Offers(next, f.level), f.visited);
  }

  lemma Disjoint(s: seq<int>, t: seq<int>)
    requires NoRepeats(s) && NoRepeats(t) && forall v :: !(v in s && v in t)
    ensures NoRepeats(s + t)
  {
    forall i, j | 0 <= i < j < |s + t|
      ensures (s + t)[i] != (s + t)[j]
    {
      if i < |s| <= j { assert s[i] in s && t[j - |s|] in t; }
    }
  }

  lemma DistanceNotWithin(next: Succ, u: int, v: int, n: nat)
    ensures Distance(next, u, v, n) <==> Within(next, u, v, n) && !Within(next, u, v, n - 1)
  {
    if Within(next, u, v, n) && !Within(next, u, v, n - 1) {
      var k: nat :| k <= n && Steps(next, u, v, k);
      assert k == n;
    }
  }

  /** The levels partition what is reached: each node within m - 1 steps occurs exactly once below m. */
  lemma {:induction false} LevelsBelowExact(next: Succ, u: int, m: nat)
    ensures NoRepeats(LevelsBelow(next, u, m))
    ensures forall v :: v in LevelsBelow(next, u, m) <==> Within(next, u, v, m - 1)
    decreases m
  {
    if m > 0 {
      var below, top := LevelsBelow(next, u, m - 1), Level(next, u, m - 1).level;
      LevelsBelowExact(next, u, m - 1);
      LevelExact(next, u, m - 1);
      forall v
        ensures !(v in below && v in top)
        ensures v in below || v in top <==> Within(next, u, v, m - 1)
      {
        DistanceNotWithin(next, u, v, m - 1);
      }
      Disjoint(below, top);
    }
  }

  // ---------- the loops ----------

  /** The inner loop of both: the neighbours not seen before go to the end of the queue. */
  method Enqueue(neighbors: seq<int>, start: seq<int>, seen: set<int>, ghost rest: seq<int>, ghost tail: seq<int>)
    returns (queue: seq<int>, visited: set<int>)
    requires start == rest + tail
    ensures queue == rest + AddNew(neighbors, Frontier(tail, seen)).level
    ensures visited == AddNew(neighbors, Frontier(tail, seen)).visited
  {
    queue, visited := start, seen;
    for k := 0 to |neighbors|
      invariant queue == rest + AddNew(neighbors[..k], Frontier(tail, seen)).level
      invariant visited == AddNew(neighbors[..k], Frontier(tail, seen)).visited
    {
      assert neighbors[..k + 1][..k] == neighbors[..k];
      if neighbors[k] !in visited {
        visited := visited + {neighbors[k]};
        queue := queue + [neighbors[k]];
      }
    }
    assert neighbors[..|neighbors|] == neighbors;
  }

  /** One level of AtHop: the neighbours of its nodes that were not seen before. */
  method NextLevel(next: Succ, current: seq<int>, seen: set<int>) returns (level: seq<int>, visited: set<int>)
    ensures Frontier(level, visited) == Expand(next, current, seen)
  {
    level, visited := [], seen;
    for j := 0 to |current|
      invariant Frontier(level, visited) == Expand(next, current[..j], seen)
    {
      level, visited := Enqueue(next(current[j]), level, visited, [], level);
      assert current[..j + 1][..j] == current[..j];
    }
    assert current[..|current|] == current;
  }

  method AtHop(next: Succ, node: int, hops: int) returns (result: seq<int>)
    ensures hops < 0 ==> result == [node]
    ensures hops >= 0 ==> result == Level(next, node, hops).level
    ensures hops >= 0 ==> NoRepeats(result) && forall v :: v in result <==> Distance(next, node, v, hops)
  {
    if hops >= 0 { LevelExact(next, node, hops); }
    if hops == 0 { return [node]; }
    var visited, current := {node}, [node];
    var i := 0;
    while i < hops
      invariant 0 <= i && (hops >= 0 ==> i <= hops) && (hops < 0 ==> i == 0)
      invariant Frontier(current, visited) == Level(next, node, i)
    {
      current, visited := NextLevel(next, current, visited);
      i := i + 1;
    }
    return current;
  }

  /** One level: its nodes leave the front of the queue while the next level grows behind them. */
  method PassLevel(next: Succ, level: seq<int>, before: set<int>, done: seq<int>)
    returns (queue: seq<int>, visited: set<int>, result: seq<int>)
    ensures Frontier(queue, visited) == Expand(next, level, before) && result == done + level
  {
    queue, visited, result := level, before, done;
    for i := 0 to |level|
      invariant queue == level[i..] + Expand(next, level[..i], before).level
      invariant visited == Expand(next, level[..i], before).visited
      invariant result == done + level[..i]
    {
      var current := queue[0];
      queue := queue[1..];
      ghost var tail := Expand(next, level[..i], before).level;
      assert current == level[i] && queue == level[i + 1..] + tail;
      result := result + [current];
      queue, visited := Enqueue(next(current), queue, visited, level[i + 1..], tail);
      assert level[..i + 1][..i] == level[..i] && level[..i + 1] == level[..i] + [current];
    }
    assert level[..|level|] == level && level[|level|..] == [];
  }

  method ToHop(next: Succ, node: int, maxHops: int) returns (result: seq<int>)
    ensures result == LevelsBelow(next, node, maxHops)
    ensures NoRepeats(result)
    ensures forall v :: v in result <==> Within(next, node, v, maxHops - 1)
  {
    LevelsBelowExact(next, node, if maxHops < 0 then 0 else maxHops);
    var visited := {node};
    result := [];
    var queue := [node];
    var hops := 0;
    while |queue| > 0 && hops < maxHops
      invariant 0 <= hops && (maxHops >= 0 ==> hops <= maxHops) && (maxHops < 0 ==> hops == 0)
      invariant Frontier(queue, visited) == Level(next, node, hops)
      invariant result == LevelsBelow(next, node, hops)
      decreases maxHops - hops
    {
      queue, visited, result := PassLevel(next, queue, visited, result);
      hops := hops + 1;
    }
    EmptyAbove(next, node, hops, if maxHops < hops then hops else maxHops);
  }

  /** Once a level is empty, so are all later ones. */
  lemma {:induction false} EmptyAbove(next: Succ, u: int, h: nat, m: nat)
    requires h <= m
    ensures h == m || Level(next, u, h).level == [] ==> LevelsBelow(next, u, m) == LevelsBelow(next, u, h)
    ensures Level(next, u, h).level == [] ==> Level(next, u, m).level == []
    decreases m - h
  {
    if h < m {
      EmptyAbove(next, u, h + 1, m);
    }
  }
}
