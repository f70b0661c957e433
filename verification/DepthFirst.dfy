/** DFS: depth-bounded depth-first search, as a recursive closure over a shared visited set. */
module DepthFirst {
  import opened Walks
  import opened Hops
  import opened Counting

  datatype State = State(visited: set<int>, result: seq<int>)

  ghost function Budget(depth: int, maxDepth: int): nat
  {
    if depth > maxDepth then 0 else maxDepth - depth + 1
  }

  /** The search from n, and below it the searches from a list of nodes in turn. */
  ghost function Visit(next: Succ, n: int, depth: int, maxDepth: int, s: State): State
    decreases Budget(depth, maxDepth), 0
  {
    if depth > maxDepth || n in s.visited then s
    else VisitAll(next, next(n), depth + 1, maxDepth, State(s.visited + {n}, s.result + [n]))
  }

  ghost function VisitAll(next: Succ, ns: seq<int>, depth: int, maxDepth: int, s: State): State
    decreases Budget(depth, maxDepth), 1 + |ns|
  {
    if |ns| == 0 then s
    else Visit(next, ns[|ns| - 1], depth, maxDepth, VisitAll(next, ns[..|ns| - 1], depth, maxDepth, s))
  }

  class Search {
    const next: Succ
    const maxDepth: int
    var visited: set<int>
    var result: seq<int>

    constructor (next: Succ, maxDepth: int)
      ensures this.next == next && this.maxDepth == maxDepth && visited == {} && result == []
    {
      this.next, this.maxDepth, visited, result := next, maxDepth, {}, [];
    }

    method Dfs(n: int, depth: int)
      modifies this
      ensures State(visited, result) == Visit(next, n, depth, maxDepth, State(old(visited), old(result)))
      decreases Budget(depth, maxDepth)
    {
      if depth > maxDepth || n in visited { return; }
      visited := visited + {n};
      result := result + [n];
      ghost var s := State(visited, result);
      var neighbors := next(n);
      for i := 0 to |neighbors|
        invariant State(visited, result) == VisitAll(next, neighbors[..i], depth + 1, maxDepth, s)
      {
        assert neighbors[..i + 1][..i] == neighbors[..i];
        Dfs(neighbors[i], depth + 1);
      }
      assert neighbors[..|neighbors|] == neighbors;
    }
  }

  method DFS(next: Succ, node: int, maxDepth: int) returns (result: seq<int>)
    ensures result == Visit(next, node, 0, maxDepth, State({}, [])).result
    ensures NoRepeats(result)
    ensures forall v :: v in result ==> Within(next, node, v, maxDepth)
  {
    VisitSound(next, node, node, 0, maxDepth, State({}, []));
    var search := new Search(next, maxDepth);
    search.Dfs(node, 0);
    result := search.result;
  }

  // ---------- properties of the search ----------

  /** The result lists the visited nodes without repetition, and all are within maxDepth steps of the root. */
  ghost predicate Sound(next: Succ, root: int, maxDepth: int, s: State)
  {
    && NoRepeats(s.result) && (forall v :: v in s.result <==> v in s.visited)
    && (forall v :: v in s.visited ==> Within(next, root, v, maxDepth))
  }

  lemma {:induction false} VisitSound(next: Succ, root: int, n: int, depth: int, maxDepth: int, s: State)
    requires Sound(next, root, maxDepth, s) && 0 <= depth && Steps(next, root, n, depth)
    ensures Sound(next, root, maxDepth, Visit(next, n, depth, maxDepth, s))
    ensures s.visited <= Visit(next, n, depth, maxDepth, s).visited
    decreases Budget(depth, maxDepth), 0
  {
    if depth <= maxDepth && n !in s.visited {
      VisitAllSound(next, root, n, next(n), depth, maxDepth, State(s.visited + {n}, s.result + [n]));
    }
  }

  lemma {:induction false} VisitAllSound(next: Succ, root: int, n: int, ns: seq<int>, depth: int, maxDepth: int,
                                         s: State)
    requires Sound(next, root, maxDepth, s) && 0 <= depth <= maxDepth && Steps(next, root, n, depth)
    requires forall w :: w in ns ==> w in next(n)
    ensures Sound(next, root, maxDepth, VisitAll(next, ns, depth + 1, maxDepth, s))
    ensures s.visited <= VisitAll(next, ns, depth + 1, maxDepth, s).visited
    decreases Budget(depth + 1, maxDepth), 1 + |ns|
  {
    if |ns| > 0 {
      var w, rest := ns[|ns| - 1], ns[..|ns| - 1];
      VisitAllSound(next, root, n, rest, depth, maxDepth, s);
      assert w in next(n) && Steps(next, root, n, depth + 1 - 1) && Steps(next, root, w, depth + 1);
      VisitSound(next, root, w, depth + 1, maxDepth, VisitAll(next, rest, depth + 1, maxDepth, s));
    }
  }

  /** Searching from one list of nodes and then from another is searching from their concatenation. */
  lemma {:induction false} VisitAllAppend(next: Succ, ns: seq<int>, ms: seq<int>, depth: int, maxDepth: int, s: State)
    ensures VisitAll(next, ns + ms, depth, maxDepth, s) ==
            VisitAll(next, ms, depth, maxDepth, VisitAll(next, ns, depth, maxDepth, s))
    decreases |ms|
  {
    if |ms| == 0 {
      assert ns + ms == ns;
    } else {
      var before, m := ms[..|ms| - 1], ms[|ms| - 1];
      VisitAllAppend(next, ns, before, depth, maxDepth, s);
      assert (ns + ms)[..|ns + ms| - 1] == ns + before;
    }
  }

  /** What one search adds does not depend on the result so far, so the nodes are listed in the order of their
      visits. */
  lemma {:induction false} VisitAdds(next: Succ, n: int, depth: int, maxDepth: int, s: State)
    ensures Visit(next, n, depth, maxDepth, s).result ==
            s.result + Visit(next, n, depth, maxDepth, State(s.visited, [])).result
    ensures Visit(next, n, depth, maxDepth, s).visited == Visit(next, n, depth, maxDepth, State(s.visited, [])).visited
    decreases Budget(depth, maxDepth), 0
  {
    if depth <= maxDepth && n !in s.visited {
      VisitAllAdds(next, next(n), depth + 1, maxDepth, State(s.visited + {n}, s.result + [n]));
      VisitAllAdds(next, next(n), depth + 1, maxDepth, State(s.visited + {n}, [n]));
      assert [] + [n] == [n];
    }
  }

  lemma {:induction false} VisitAllAdds(next: Succ, ns: seq<int>, depth: int, maxDepth: int, s: State)
    ensures VisitAll(next, ns, depth, maxDepth, s).result ==
            s.result + VisitAll(next, ns, depth, maxDepth, State(s.visited, [])).result
    ensures VisitAll(next, ns, depth, maxDepth, s).visited ==
            VisitAll(next, ns, depth, maxDepth, State(s.visited, [])).visited
    decreases Budget(depth, maxDepth), 1 + |ns|
  {
    if |ns| > 0 {
      var w, rest := ns[|ns| - 1], ns[..|ns| - 1];
      VisitAllAdds(next, rest, depth, maxDepth, s);
      VisitAdds(next, w, depth, maxDepth, VisitAll(next, rest, depth, maxDepth, s));
      VisitAdds(next, w, depth, maxDepth, VisitAll(next, rest, depth, maxDepth, State(s.visited, [])));
    }
  }

  /** A search of an unvisited node within the bound lists the node itself first, and then what the searches from its
      successors add, whatever was listed before. */
  lemma NodeFirst(next: Succ, n: int, depth: int, maxDepth: int, s: State)
    requires depth <= maxDepth && n !in s.visited
    ensures Visit(next, n, depth, maxDepth, s).result ==
            s.result + [n] + VisitAll(next, next(n), depth + 1, maxDepth, State(s.visited + {n}, [])).result
  {
    VisitAllAdds(next, next(n), depth + 1, maxDepth, State(s.visited + {n}, s.result + [n]));
  }

  /** Outside the open nodes (those whose call is running) every visited node has only visited successors. */
  ghost predicate Covered(next: Succ, all: set<int>, open: set<int>, visited: set<int>)
  {
    && open <= visited <= all
    && forall v, w {:trigger w in next(v)} :: v in visited && v !in open && w in next(v) ==> w in visited
  }

  /** With room for all nodes the depth bound never cuts: a call at depth d has d open nodes above it. */
  lemma {:induction false} VisitCovers(next: Succ, all: set<int>, open: set<int>, n: int, depth: int, maxDepth: int,
                                       s: State)
    requires forall v, w {:trigger w in next(v)} :: v in all && w in next(v) ==> w in all
    requires n in all && Covered(next, all, open, s.visited) && |open| == depth && |all| - 1 <= maxDepth
    ensures var t := Visit(next, n, depth, maxDepth, s);
            n in t.visited && s.visited <= t.visited && Covered(next, all, open, t.visited)
    decreases Budget(depth, maxDepth), 0
  {
    if n !in s.visited {
      SubsetSize(open + {n}, all);
      var inner := State(s.visited + {n}, s.result + [n]);
      VisitAllCovers(next, all, open + {n}, next(n), depth + 1, maxDepth, inner);
    }
  }

  lemma {:induction false} VisitAllCovers(next: Succ, all: set<int>, open: set<int>, ns: seq<int>, depth: int,
                                          maxDepth: int, s: State)
    requires forall v, w {:trigger w in next(v)} :: v in all && w in next(v) ==> w in all
    requires forall w :: w in ns ==> w in all
    requires Covered(next, all, open, s.visited) && |open| == depth && |all| - 1 <= maxDepth
    ensures var t := VisitAll(next, ns, depth, maxDepth, s);
            (forall w :: w in ns ==> w in t.visited) && s.visited <= t.visited && Covered(next, all, open, t.visited)
    decreases Budget(depth, maxDepth), 1 + |ns|
  {
    if |ns| > 0 {
      var w, rest := ns[|ns| - 1], ns[..|ns| - 1];
      VisitAllCovers(next, all, open, rest, depth, maxDepth, s);
      VisitCovers(next, all, open, w, depth, maxDepth, VisitAll(next, rest, depth, maxDepth, s));
      assert ns == rest + [w];
    }
  }

  /** With maxDepth >= |V| - 1 the search returns exactly what is reachable. */
  lemma DfsComplete(next: Succ, all: set<int>, node: int, maxDepth: int)
    requires node in all && forall v, w {:trigger w in next(v)} :: v in all && w in next(v) ==> w in all
    requires maxDepth >= |all| - 1
    ensures forall v :: v in Visit(next, node, 0, maxDepth, State({}, [])).result <==> Reaches(next, node, v)
  {
    var t := Visit(next, node, 0, maxDepth, State({}, []));
    VisitCovers(next, all, {}, node, 0, maxDepth, State({}, []));
    VisitSound(next, node, node, 0, maxDepth, State({}, []));
    var s := iset v | v in t.visited;
    assert Closed(next, s) && node in s;
    forall v | v in t.visited
      ensures Reaches(next, node, v)
    {
      var k: nat :| Steps(next, node, v, k);
      StepsReach(next, node, v, k);
    }
  }
}
