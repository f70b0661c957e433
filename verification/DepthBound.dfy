/** For which depth bounds DFS returns everything within the bound, whatever the graph. */
module DepthBound {
  import opened Walks
  import opened Hops
  import opened DepthFirst
  import opened Counting

  /** What the storage can answer for n nodes asked in both directions: every neighbour once, and symmetric. */
  ghost predicate IsNetwork(g: seq<seq<int>>, n: nat)
  {
    |g| == n && WellFormed(g) && Symmetric(Adj(g)) && forall v :: 0 <= v < n ==> NoRepeats(g[v])
  }

  ghost function Found(next: Succ, node: int, maxDepth: int): seq<int>
  {
    Visit(next, node, 0, maxDepth, State({}, [])).result
  }

  /** The search returns exactly the nodes within maxDepth steps. */
  ghost predicate Exact(next: Succ, node: int, maxDepth: int)
  {
    forall v :: v in Found(next, node, maxDepth) <==> Within(next, node, v, maxDepth)
  }

  // ---------- bounds that suffice ----------

  lemma {:induction false} VisitGrows(next: Succ, n: int, depth: int, maxDepth: int, s: State)
    ensures s.visited <= Visit(next, n, depth, maxDepth, s).visited
    ensures depth <= maxDepth ==> n in Visit(next, n, depth, maxDepth, s).visited
    decreases Budget(depth, maxDepth), 0
  {
    if depth <= maxDepth && n !in s.visited {
      VisitAllGrows(next, next(n), depth + 1, maxDepth, State(s.visited + {n}, s.result + [n]));
    }
  }

  lemma {:induction false} VisitAllGrows(next: Succ, ns: seq<int>, depth: int, maxDepth: int, s: State)
    ensures s.visited <= VisitAll(next, ns, depth, maxDepth, s).visited
    ensures depth <= maxDepth ==> forall w :: w in ns ==> w in VisitAll(next, ns, depth, maxDepth, s).visited
    decreases Budget(depth, maxDepth), 1 + |ns|
  {
    if |ns| > 0 {
      var w, rest := ns[|ns| - 1], ns[..|ns| - 1];
      assert ns == rest + [w];
      VisitAllGrows(next, rest, depth, maxDepth, s);
      VisitGrows(next, w, depth, maxDepth, VisitAll(next, rest, depth, maxDepth, s));
    }
  }

  /** The result lists what is visited, and all of that is within the bound. */
  lemma FoundSound(next: Succ, node: int, maxDepth: int)
    ensures forall v :: v in Found(next, node, maxDepth) <==> v in Visit(next, node, 0, maxDepth, State({}, [])).visited
    ensures forall v :: v in Found(next, node, maxDepth) ==> Within(next, node, v, maxDepth)
  {
    VisitSound(next, node, node, 0, maxDepth, State({}, []));
  }

  lemma ExactShallow(next: Succ, node: int, maxDepth: int)
    requires maxDepth <= 1
    ensures Exact(next, node, maxDepth)
  {
    FoundSound(next, node, maxDepth);
    VisitGrows(next, node, 0, maxDepth, State({}, []));
    VisitAllGrows(next, next(node), 1, maxDepth, State({} + {node}, [] + [node]));
    forall v | Within(next, node, v, maxDepth)
      ensures v in Found(next, node, maxDepth)
    {
      var k: nat :| k <= maxDepth && Steps(next, node, v, k);
      if k == 1 {
        var w :| Steps(next, node, w, 0) && v in next(w);
        assert w == node;
      }
    }
  }

  /** With room for all nodes everything reachable is within the bound, and returned. */
  lemma ExactDeep(next: Succ, all: set<int>, node: int, maxDepth: int)
    requires node in all && forall v, w {:trigger w in next(v)} :: v in all && w in next(v) ==> w in all
    requires maxDepth >= |all| - 1
    ensures Exact(next, node, maxDepth)
  {
    FoundSound(next, node, maxDepth);
    DfsComplete(next, all, node, maxDepth);
    forall v | Within(next, node, v, maxDepth)
      ensures v in Found(next, node, maxDepth)
    {
      var k: nat :| k <= maxDepth && Steps(next, node, v, k);
      StepsReach(next, node, v, k);
    }
  }

  // ---------- bounds in between ----------

  /** The cycle 0 - 1 - ... - m - 0, the node m + 1 hanging at m, and isolated nodes up to n. */
  ghost function Lasso(m: int, n: nat): (g: seq<seq<int>>)
    ensures |g| == n
  {
    seq(n, i => LassoList(m, i))
  }

  ghost function LassoList(m: int, i: int): seq<int>
  {
    if i == 0 then [1, m]
    else if i < m then [i - 1, i + 1]
    else if i == m then [m - 1, 0, m + 1]
    else if i == m + 1 then [m] else []
  }

  lemma LassoIsNetwork(m: int, n: nat)
    requires 2 <= m && m + 2 <= n
    ensures IsNetwork(Lasso(m, n), n)
  {
    var g := Lasso(m, n);
    forall x, y | y in Adj(g)(x)
      ensures 0 <= y < n && x in Adj(g)(y)
    {
      assert g[x] == LassoList(m, x) && g[y] == LassoList(m, y);
      LassoSymmetric(m, x, y);
    }
    forall v, w {:trigger w in g[v]} | 0 <= v < |g| && w in g[v]
      ensures 0 <= w < |g|
    {
      assert w in Adj(g)(v);
    }
  }

  lemma LassoSymmetric(m: int, x: int, y: int)
    requires 2 <= m && 0 <= x && y in LassoList(m, x)
    ensures 0 <= y <= m + 1 && x in LassoList(m, y)
  {
    var l := LassoList(m, y);
    if 0 < x < m || x == 0 { assert y == 0 ==> l[0] == 1 && l[1] == m; }
    assert 0 < y < m ==> l[0] == y - 1 && l[1] == y + 1;
    assert y == m ==> l[0] == m - 1 && l[1] == 0 && l[2] == m + 1;
    assert y == m + 1 ==> l[0] == m;
  }

  /** A node that has been visited is left alone. */
  lemma VisitSeen(next: Succ, n: int, depth: int, maxDepth: int, s: State)
    requires n in s.visited || depth > maxDepth
    ensures Visit(next, n, depth, maxDepth, s) == s
  {}

  lemma VisitTwo(next: Succ, a: int, b: int, depth: int, maxDepth: int, s: State)
    ensures VisitAll(next, [a, b], depth, maxDepth, s) ==
            Visit(next, b, depth, maxDepth, Visit(next, a, depth, maxDepth, s))
  {
    assert [a, b][..1] == [a] && [a][..0] == [];
    assert VisitAll(next, [a], depth, maxDepth, s) ==
           Visit(next, a, depth, maxDepth, VisitAll(next, [], depth, maxDepth, s));
  }

  lemma {:induction false} VisitAllCut(next: Succ, ns: seq<int>, depth: int, maxDepth: int, s: State)
    requires depth > maxDepth
    ensures VisitAll(next, ns, depth, maxDepth, s) == s
    decreases |ns|
  {
    if |ns| > 0 { VisitAllCut(next, ns[..|ns| - 1], depth, maxDepth, s); }
  }

  lemma VisitOpens(next: Succ, n: int, depth: int, maxDepth: int, s: State)
    requires n !in s.visited && depth <= maxDepth
    ensures Visit(next, n, depth, maxDepth, s) ==
            VisitAll(next, next(n), depth + 1, maxDepth, State(s.visited + {n}, s.result + [n]))
  {}

  ghost predicate IsUpTo(s: set<int>, m: int)
  {
    forall v :: v in s <==> 0 <= v < m
  }

  /** Going round the cycle the search comes to m at depth m, and goes no further. */
  lemma {:induction false} RoundTheCycle(m: int, n: nat, i: int, s: State)
    requires 2 <= m && m + 2 <= n && 0 < i <= m && IsUpTo(s.visited, i)
    ensures IsUpTo(Visit(Adj(Lasso(m, n)), i, i, m, s).visited, m + 1)
    decreases m - i
  {
    var next := Adj(Lasso(m, n));
    var inner := State(s.visited + {i}, s.result + [i]);
    VisitOpens(next, i, i, m, s);
    assert IsUpTo(inner.visited, i + 1) && next(i) == LassoList(m, i);
    if i == m {
      VisitAllCut(next, next(m), m + 1, m, inner);
    } else {
      VisitTwo(next, i - 1, i + 1, i + 1, m, inner);
      VisitSeen(next, i - 1, i + 1, m, inner);
      RoundTheCycle(m, n, i + 1, inner);
    }
  }

  lemma TwoSteps(next: Succ, u: int, w: int, v: int)
    requires w in next(u) && v in next(w) && v != u && v !in next(u)
    ensures Distance(next, u, v, 2)
  {
    assert Steps(next, u, u, 0);
    assert Steps(next, u, w, 1);
    assert Steps(next, u, v, 2);
    assert forall x :: Steps(next, u, x, 0) ==> v !in next(x);
  }

  /** So it misses m + 1, which is two steps from 0. */
  lemma LassoMisses(m: int, n: nat)
    requires 2 <= m && m + 2 <= n
    ensures Distance(Adj(Lasso(m, n)), 0, m + 1, 2) && m + 1 !in Found(Adj(Lasso(m, n)), 0, m)
  {
    var next := Adj(Lasso(m, n));
    var root, inner := State({}, []), State({} + {0}, [] + [0]);
    assert IsUpTo(inner.visited, 1);
    assert next(0) == [1, m] && next(m) == [m - 1, 0, m + 1];
    assert [1, m][1] == m && [m - 1, 0, m + 1][2] == m + 1;
    TwoSteps(next, 0, m, m + 1);
    VisitOpens(next, 0, 0, m, root);
    VisitTwo(next, 1, m, 1, m, inner);
    RoundTheCycle(m, n, 1, inner);
    VisitSeen(next, m, 1, m, Visit(next, 1, 1, m, inner));
    FoundSound(next, 0, m);
  }

  // ---------- the condition ----------

  /** DFS with this bound is exact on all networks of n nodes, from every node. */
  ghost predicate AlwaysExact(n: nat, maxDepth: int)
  {
    forall g, node :: IsNetwork(g, n) && 0 <= node < n ==> Exact(Adj(g), node, maxDepth)
  }

  /** That is so exactly for bounds of at most 1 and of at least the number of nodes less one. */
  lemma ExactBounds(n: nat, maxDepth: int)
    requires n >= 1
    ensures AlwaysExact(n, maxDepth) <==> maxDepth <= 1 || maxDepth >= n - 1
  {
    if maxDepth <= 1 || maxDepth >= n - 1 {
      forall g, node | IsNetwork(g, n) && 0 <= node < n
        ensures Exact(Adj(g), node, maxDepth)
      {
        if maxDepth <= 1 {
          ExactShallow(Adj(g), node, maxDepth);
        } else {
          ExactDeep(Adj(g), Range(n), node, maxDepth);
        }
      }
    } else {
      var g := Lasso(maxDepth, n);
      LassoIsNetwork(maxDepth, n);
      LassoMisses(maxDepth, n);
      assert Within(Adj(g), 0, maxDepth + 1, maxDepth);
      assert IsNetwork(g, n) && !Exact(Adj(g), 0, maxDepth);
    }
  }
}
