/** Dijkstra's algorithm with lazy deletion and a separate predecessor map. */
module Dijkstra {
  import opened Walks
  import opened ShortestPaths

  /** What holds whenever the queue is looked at. The ghost rank orders the visited nodes. */
  ghost predicate Inv(next: Succ, w: Weight, start: int, dist: map<int, real>, prev: map<int, int>,
                      visited: set<int>, q: multiset<Item>, rank: map<int, int>)
  {
    && NonNegative(next, w)
    && start in dist && dist[start] == 0.0 && visited <= dist.Keys && rank.Keys == visited
    && (forall it :: it in q ==> it.node in dist && dist[it.node] <= it.priority)
    && (forall v {:trigger Queued(dist, q, v)} :: v in dist && v !in visited ==> Queued(dist, q, v))
    && (forall it :: it in q ==> AllBelow(dist, visited, it.priority))
    && (forall v :: v in visited ==> 0 <= rank[v] < |visited|)
    && (forall v {:trigger HasParent(next, w, dist, prev, visited, rank, v)} ::
          v in dist && v != start ==> HasParent(next, w, dist, prev, visited, rank, v))
    && (start in visited || visited == {})
  }

  /** The item with v's current distance is in the queue. */
  ghost predicate Queued(dist: map<int, real>, q: multiset<Item>, v: int)
    requires v in dist
  {
    Item(v, dist[v]) in q
  }

  ghost predicate AllBelow(dist: map<int, real>, visited: set<int>, bound: real)
    requires visited <= dist.Keys
  {
    forall v :: v in visited ==> dist[v] <= bound
  }

  ghost predicate HasParent(next: Succ, w: Weight, dist: map<int, real>, prev: map<int, int>,
                            visited: set<int>, rank: map<int, int>, v: int)
    requires v in dist && visited <= dist.Keys && rank.Keys == visited
  {
    && v in prev && prev[v] in visited && v in next(prev[v])
    && dist[v] == dist[prev[v]] + w(prev[v], v)
    && (v in visited ==> rank[prev[v]] < rank[v])
  }

  /** Every arc out of v has been relaxed. */
  ghost predicate Relaxed(next: Succ, w: Weight, dist: map<int, real>, v: int)
    requires v in dist
  {
    forall u {:trigger u in next(v)} :: u in next(v) ==> u in dist && dist[u] <= dist[v] + w(v, u)
  }

  /** Taking a least item of an unvisited node: its priority is the node's distance, and the node is visited. */
  lemma VisitOk(next: Succ, w: Weight, start: int, dist: map<int, real>, prev: map<int, int>, visited: set<int>,
                q: multiset<Item>, rank: map<int, int>, it: Item)
    requires Inv(next, w, start, dist, prev, visited, q, rank)
    requires it in q && (forall x :: x in q ==> it.priority <= x.priority) && it.node !in visited
    requires visited == {} ==> it.node == start
    ensures it.priority == dist[it.node] && AllBelow(dist, visited + {it.node}, dist[it.node])
    ensures Inv(next, w, start, dist, prev, visited + {it.node}, q - multiset{it}, rank[it.node := |visited|])
  {
    var v, rest := it.node, q - multiset{it};
    assert Queued(dist, q, v);
    assert it == Item(v, dist[v]);
    var after, rank' := visited + {v}, rank[v := |visited|];
    forall x {:trigger Queued(dist, rest, x)} | x in dist && x !in after
      ensures Queued(dist, rest, x)
    {
      assert Queued(dist, q, x);
    }
    forall x {:trigger HasParent(next, w, dist, prev, after, rank', x)} | x in dist && x != start
      ensures HasParent(next, w, dist, prev, after, rank', x)
    {
      assert HasParent(next, w, dist, prev, visited, rank, x);
      assert forall y :: y in visited ==> 0 <= rank[y] < |visited|;
    }
  }

  /** A stale item of a visited node can be dropped. */
  lemma StaleOk(next: Succ, w: Weight, start: int, dist: map<int, real>, prev: map<int, int>, visited: set<int>,
                q: multiset<Item>, rank: map<int, int>, it: Item)
    requires Inv(next, w, start, dist, prev, visited, q, rank) && it in q && it.node in visited
    ensures Inv(next, w, start, dist, prev, visited, q - multiset{it}, rank)
  {
    forall x {:trigger Queued(dist, q - multiset{it}, x)} | x in dist && x !in visited
      ensures Queued(dist, q - multiset{it}, x)
    {
      assert Queued(dist, q, x);
    }
  }

  /** A shorter way to the unvisited node u is recorded. */
  lemma ImproveOk(next: Succ, w: Weight, start: int, dist: map<int, real>, prev: map<int, int>, visited: set<int>,
                  q: multiset<Item>, rank: map<int, int>, v: int, u: int)
    requires Inv(next, w, start, dist, prev, visited, q, rank) && start in visited
    requires v in visited && u in next(v) && u !in visited
    requires AllBelow(dist, visited, dist[v])
    requires var alt := dist[v] + w(v, u); u !in dist || alt < dist[u]
    ensures var alt := dist[v] + w(v, u);
            Inv(next, w, start, dist[u := alt], prev[u := v], visited, q + multiset{Item(u, alt)}, rank)
  {
    var alt := dist[v] + w(v, u);
    var dist', prev' := dist[u := alt], prev[u := v];
    forall x {:trigger Queued(dist', q + multiset{Item(u, alt)}, x)} | x in dist' && x !in visited
      ensures Queued(dist', q + multiset{Item(u, alt)}, x)
    {
      assert x != u ==> Queued(dist, q, x);
    }
    forall it | it in q + multiset{Item(u, alt)}
      ensures AllBelow(dist', visited, it.priority)
    {
      assert it in q ==> AllBelow(dist, visited, it.priority);
    }
    forall x {:trigger HasParent(next, w, dist', prev', visited, rank, x)} | x in dist' && x != start
      ensures HasParent(next, w, dist', prev', visited, rank, x)
    {
      if x != u { assert HasParent(next, w, dist, prev, visited, rank, x); }
    }
  }

  /** No walk from a visited node to an unvisited one is shorter than the least priority allows. */
  lemma {:induction false} WalkBound(next: Succ, w: Weight, start: int, dist: map<int, real>, prev: map<int, int>,
                                     visited: set<int>, q: multiset<Item>, rank: map<int, int>,
                                     p: seq<int>, v: int, target: int, least: real)
    requires Inv(next, w, start, dist, prev, visited, q, rank)
    requires AllRelaxed(next, w, dist, visited)
    requires forall x :: x in q ==> least <= x.priority
    requires v in visited && target !in visited && IsWalk(next, p, v, target)
    ensures least <= dist[v] + Length(w, p)
    decreases |p|
  {
    assert |p| > 1;
    WalkTail(next, p, v, target);
    var u := p[1];
    assert Relaxed(next, w, dist, v);
    if u in visited {
      WalkBound(next, w, start, dist, prev, visited, q, rank, p[1..], u, target, least);
    } else {
      assert Queued(dist, q, u);
      LengthNonNegative(next, w, p[1..], u, target);
    }
  }

  ghost predicate AllRelaxed(next: Succ, w: Weight, dist: map<int, real>, vs: set<int>)
    requires vs <= dist.Keys
  {
    forall x {:trigger Relaxed(next, w, dist, x)} :: x in vs ==> Relaxed(next, w, dist, x)
  }

  /** The loop over the neighbours of the node just visited. */
  method RelaxNeighbors(next: Succ, w: Weight, start: int, ghost all: set<int>, dist0: map<int, real>,
                        prev0: map<int, int>, visited: set<int>, q0: multiset<Item>, ghost rank: map<int, int>,
                        current: int)
    returns (dist: map<int, real>, prev: map<int, int>, q: multiset<Item>)
    requires Inv(next, w, start, dist0, prev0, visited, q0, rank) && Finite(next, all) && dist0.Keys <= all
    requires current in visited && AllBelow(dist0, visited, dist0[current])
    requires AllRelaxed(next, w, dist0, visited - {current})
    ensures Inv(next, w, start, dist, prev, visited, q, rank) && dist.Keys <= all
    ensures AllRelaxed(next, w, dist, visited)
  {
    dist, prev, q := dist0, prev0, q0;
    var neighbors := next(current);
    for i := 0 to |neighbors|
      invariant Inv(next, w, start, dist, prev, visited, q, rank) && dist.Keys <= all
      invariant AllBelow(dist, visited, dist[current])
      invariant AllRelaxed(next, w, dist, visited - {current})
      invariant forall k :: 0 <= k < i ==>
                  neighbors[k] in dist && dist[neighbors[k]] <= dist[current] + w(current, neighbors[k])
    {
      var neighbor := neighbors[i];
      assert neighbor in next(current);
      if neighbor in visited { continue; }
      var alt := dist[current] + w(current, neighbor);
      if neighbor !in dist || alt < dist[neighbor] {
        ImproveOk(next, w, start, dist, prev, visited, q, rank, current, neighbor);
        StillRelaxed(next, w, dist, visited - {current}, neighbor, alt);
        dist := dist[neighbor := alt];
        prev := prev[neighbor := current];
        q := q + multiset{Item(neighbor, alt)};
      }
    }
    assert Relaxed(next, w, dist, current);
    assert forall x :: x in visited ==> x == current || x in visited - {current};
  }

  /** When the end is taken from the queue, a walk as long as its priority is a shortest one. */
  lemma ShortestFound(next: Succ, w: Weight, start: int, end: int, dist: map<int, real>, prev: map<int, int>,
                      visited: set<int>, q: multiset<Item>, rank: map<int, int>, it: Item, path: seq<int>)
    requires Inv(next, w, start, dist, prev, visited, q, rank) && AllRelaxed(next, w, dist, visited)
    requires it.node == end && end !in visited && forall x :: x in q ==> it.priority <= x.priority
    requires visited == {} ==> end == start
    requires end in dist && IsWalk(next, path, start, end) && Length(w, path) == dist[end] == it.priority
    ensures IsShortest(next, w, path, start, end)
  {
    forall p | IsWalk(next, p, start, end)
      ensures Length(w, path) <= Length(w, p)
    {
      if start in visited {
        WalkBound(next, w, start, dist, prev, visited, q, rank, p, start, end, it.priority);
      } else {
        LengthNonNegative(next, w, p, start, end);
      }
    }
  }

  method Dijkstra(next: Succ, w: Weight, start: int, end: int, ghost all: set<int>) returns (path: seq<int>)
    requires NonNegative(next, w) && Finite(next, all) && start in all
    ensures path != [] ==> IsShortest(next, w, path, start, end)
    ensures path == [] <==> !WalkExists(next, start, end)
  {
    var dist: map<int, real> := map[start := 0.0];
    var prev: map<int, int> := map[];
    var visited: set<int> := {};
    var q := multiset{Item(start, 0.0)};
    ghost var rank: map<int, int> := map[];
    while q != multiset{}
      invariant Inv(next, w, start, dist, prev, visited, q, rank) && dist.Keys <= all
      invariant AllRelaxed(next, w, dist, visited)
      invariant visited == {} ==> forall it :: it in q ==> it.node == start
      invariant end !in visited
      decreases all - visited, |q|
    {
      var it, rest := PopMin(q);
      var current := it.node;
      if current in visited {
        StaleOk(next, w, start, dist, prev, visited, q, rank, it);
        q := rest;
        continue;
      }
      VisitOk(next, w, start, dist, prev, visited, q, rank, it);
      if current == end {
        path := ReconstructPath(next, w, start, end, dist, prev, visited + {current}, rest, rank[current := |visited|]);
        ShortestFound(next, w, start, end, dist, prev, visited, q, rank, it, path);
        return path;
      }
      rank := rank[current := |visited|];
      visited := visited + {current};
      q := rest;
      dist, prev, q := RelaxNeighbors(next, w, start, all, dist, prev, visited, q, rank, current);
    }
    Unreachable(next, w, start, end, dist, prev, visited, rank);
    return [];
  }

  /** Lowering the distance of an unvisited node keeps the visited ones relaxed. */
  lemma StillRelaxed(next: Succ, w: Weight, dist: map<int, real>, before: set<int>, u: int, alt: real)
    requires before <= dist.Keys && u !in before && (u !in dist || alt < dist[u])
    requires AllRelaxed(next, w, dist, before)
    ensures AllRelaxed(next, w, dist[u := alt], before)
  {
    forall x {:trigger Relaxed(next, w, dist[u := alt], x)} | x in before
      ensures Relaxed(next, w, dist[u := alt], x)
    {
      assert Relaxed(next, w, dist, x);
    }
  }

  lemma Unreachable(next: Succ, w: Weight, start: int, end: int, dist: map<int, real>, prev: map<int, int>,
                    visited: set<int>, rank: map<int, int>)
    requires Inv(next, w, start, dist, prev, visited, multiset{}, rank) && end !in visited
    requires AllRelaxed(next, w, dist, visited)
    ensures !WalkExists(next, start, end)
  {
    var s := iset v | v in visited;
    forall x, y | x in s && y in next(x)
      ensures y in s
    {
      assert Relaxed(next, w, dist, x);
      assert !Queued(dist, multiset{}, y);
    }
    assert !Queued(dist, multiset{}, start);
    ReachesIffWalk(next, start, end);
    assert Closed(next, s);
  }

  /** Follows prev back from the end, which has just been visited. */
  method ReconstructPath(next: Succ, w: Weight, start: int, end: int, dist: map<int, real>, prev: map<int, int>,
                         ghost visited: set<int>, ghost q: multiset<Item>, ghost rank: map<int, int>)
    returns (path: seq<int>)
    requires Inv(next, w, start, dist, prev, visited, q, rank) && end in visited
    ensures IsWalk(next, path, start, end) && Length(w, path) == dist[end]
  {
    path := [];
    var current := end;
    while current != start
      invariant current in visited
      invariant IsWalk(next, [current] + path, current, end)
      invariant dist[current] + Length(w, [current] + path) == dist[end]
      decreases rank[current]
    {
      assert HasParent(next, w, dist, prev, visited, rank, current);
      WalkCons(next, w, prev[current], [current] + path, current, end);
      path := [current] + path;
      if current !in prev { break; }
      current := prev[current];
    }
    path := [start] + path;
  }
}
