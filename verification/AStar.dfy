/** A* with reopening: gScore, cameFrom and the queue; the heuristic is a parameter. */
module AStar {
  import opened Counting
  import opened Walks
  import opened ShortestPaths

  type Heuristic = int -> real

  /** h never overestimates the weight of a walk to the end, and is 0 there. */
  ghost predicate Admissible(next: Succ, w: Weight, h: Heuristic, end: int)
  {
    h(end) == 0.0 && forall v, p :: IsWalk(next, p, v, end) ==> h(v) <= Length(w, p)
  }

  /** h differs between a node and the end by at most the weight of any walk between them and an excess e. */
  ghost predicate ExceedsBy(next: Succ, w: Weight, h: Heuristic, end: int, e: real)
  {
    e >= 0.0 && forall v, p :: IsWalk(next, p, v, end) ==> h(v) - h(end) <= Length(w, p) + e
  }

  /** No walk is shorter than path by more than e. */
  ghost predicate IsShortestBut(next: Succ, w: Weight, path: seq<int>, u: int, v: int, e: real)
  {
    IsWalk(next, path, u, v) && forall p :: IsWalk(next, p, u, v) ==> Length(w, path) <= Length(w, p) + e
  }

  /** The finitely many sequences over the nodes that are no longer than their number. */
  ghost predicate IsUniverse(all: set<int>, universe: set<seq<int>>)
  {
    forall p :: |p| <= |all| && (forall x :: x in p ==> x in all) ==> p in universe
  }

  lemma {:induction false} SequencesUpTo(all: set<int>, n: nat) returns (s: set<seq<int>>)
    ensures forall p :: |p| <= n && (forall x :: x in p ==> x in all) ==> p in s
  {
    if n == 0 {
      s := {[]};
    } else {
      var shorter := SequencesUpTo(all, n - 1);
      s := shorter + set p, x | p in shorter && x in all :: p + [x];
      forall p | |p| <= n && forall x :: x in p ==> x in all
        ensures p in s
      {
        if |p| == n {
          var q, y := p[..n - 1], p[n - 1];
          assert y in p && q in shorter && p == q + [y];
        }
      }
    }
  }

  lemma {:induction false} LengthAppend(next: Succ, w: Weight, p: seq<int>, u: int, v: int, x: int)
    requires IsWalk(next, p, u, v) && x in next(v)
    ensures IsWalk(next, p + [x], u, x) && Length(w, p + [x]) == Length(w, p) + w(v, x)
    decreases |p|
  {
    if |p| > 1 {
      WalkTail(next, p, u, v);
      LengthAppend(next, w, p[1..], p[1], v, x);
      assert (p + [x])[1..] == p[1..] + [x];
      WalkCons(next, w, u, p[1..] + [x], p[1], x);
      assert [u] + (p[1..] + [x]) == p + [x];
    } else {
      assert (p + [x])[1..] == [x];
    }
  }

  // ---------- the invariant ----------

  /** The simple path that gave v its gScore: none of its nodes has a gScore above its own part of it. */
  ghost predicate Recorded(next: Succ, w: Weight, start: int, all: set<int>, gScore: map<int, real>,
                           paths: map<int, seq<int>>, v: int)
    requires v in gScore && v in paths
  {
    var p := paths[v];
    && IsWalk(next, p, start, v) && NoRepeats(p) && Length(w, p) == gScore[v]
    && (forall x :: x in p ==> x in all && x in gScore && gScore[x] <= gScore[v])
  }

  ghost predicate Queued(h: Heuristic, gScore: map<int, real>, q: multiset<Item>, v: int)
    requires v in gScore
  {
    Item(v, gScore[v] + h(v)) in q
  }

  ghost predicate HasParent(next: Succ, w: Weight, gScore: map<int, real>, cameFrom: map<int, int>, v: int)
    requires v in gScore
  {
    && v in cameFrom && cameFrom[v] in gScore && v in next(cameFrom[v])
    && gScore[cameFrom[v]] + w(cameFrom[v], v) <= gScore[v]
  }

  /** Following cameFrom k times from v leads to the start. */
  ghost predicate Rooted(cameFrom: map<int, int>, start: int, v: int, k: nat)
    decreases k
  {
    if k == 0 then v == start else v in cameFrom && Rooted(cameFrom, start, cameFrom[v], k - 1)
  }

  ghost predicate HasRoot(cameFrom: map<int, int>, start: int, v: int)
  {
    exists k: nat :: Rooted(cameFrom, start, v, k)
  }

  ghost predicate Inv(next: Succ, w: Weight, h: Heuristic, start: int, all: set<int>, gScore: map<int, real>,
                      cameFrom: map<int, int>, paths: map<int, seq<int>>, q: multiset<Item>)
  {
    && NonNegative(next, w) && Finite(next, all)
    && start in gScore && gScore[start] == 0.0 && start !in cameFrom
    && gScore.Keys <= all && paths.Keys == gScore.Keys
    && (forall it :: it in q ==> it.node in gScore && gScore[it.node] + h(it.node) <= it.priority)
    && (forall v {:trigger Recorded(next, w, start, all, gScore, paths, v)} ::
          v in gScore ==> Recorded(next, w, start, all, gScore, paths, v))
    && (forall v {:trigger HasParent(next, w, gScore, cameFrom, v)} ::
          v in gScore && v != start ==> HasParent(next, w, gScore, cameFrom, v))
    && (forall v {:trigger HasRoot(cameFrom, start, v)} :: v in gScore ==> HasRoot(cameFrom, start, v))
  }

  ghost predicate Relaxed(next: Succ, w: Weight, gScore: map<int, real>, v: int)
    requires v in gScore
  {
    forall u {:trigger u in next(v)} :: u in next(v) ==> u in gScore && gScore[u] <= gScore[v] + w(v, u)
  }

  /** Every node outside `closed` waits in the queue with its current estimate; those inside are relaxed.
      Nothing is said of the busy node, whose arcs are being relaxed. */
  ghost predicate OpenOrRelaxed(next: Succ, w: Weight, h: Heuristic, gScore: map<int, real>, q: multiset<Item>,
                                closed: set<int>, busy: set<int>)
  {
    && (forall v {:trigger Queued(h, gScore, q, v)} ::
          v in gScore && v !in closed && v !in busy ==> Queued(h, gScore, q, v))
    && (forall v {:trigger Relaxed(next, w, gScore, v)} ::
          v in gScore && v in closed && v !in busy ==> Relaxed(next, w, gScore, v))
  }

  // ---------- the steps ----------

  lemma PopOk(next: Succ, w: Weight, h: Heuristic, start: int, all: set<int>, gScore: map<int, real>,
              cameFrom: map<int, int>, paths: map<int, seq<int>>, q: multiset<Item>, closed: set<int>, it: Item)
    requires Inv(next, w, h, start, all, gScore, cameFrom, paths, q) && it in q
    requires OpenOrRelaxed(next, w, h, gScore, q, closed, {})
    ensures Inv(next, w, h, start, all, gScore, cameFrom, paths, q - multiset{it})
    ensures OpenOrRelaxed(next, w, h, gScore, q - multiset{it}, closed, {it.node})
  {
    forall v {:trigger Queued(h, gScore, q - multiset{it}, v)} | v in gScore && v !in closed && v != it.node
      ensures Queued(h, gScore, q - multiset{it}, v)
    {
      assert Queued(h, gScore, q, v);
    }
  }

  /** The improved node is neither the start nor on the path to the node it is improved from. */
  lemma ImprovedIsNew(next: Succ, w: Weight, h: Heuristic, start: int, all: set<int>, gScore: map<int, real>,
                      cameFrom: map<int, int>, paths: map<int, seq<int>>, q: multiset<Item>, v: int, u: int)
    requires Inv(next, w, h, start, all, gScore, cameFrom, paths, q)
    requires v in gScore && u in next(v) && (u !in gScore || gScore[v] + w(v, u) < gScore[u])
    ensures u !in paths[v] && u != start && u != v && u in all
    ensures IsWalk(next, paths[v] + [u], start, u) && NoRepeats(paths[v] + [u])
    ensures Length(w, paths[v] + [u]) == gScore[v] + w(v, u)
  {
    assert Recorded(next, w, start, all, gScore, paths, v);
    assert v in all && start in paths[v] && v in paths[v];
    LengthAppend(next, w, paths[v], start, v, u);
  }

  lemma {:induction false} RootKept(next: Succ, w: Weight, gScore: map<int, real>, cameFrom: map<int, int>, start: int,
                                    v: int, u: int, y: int, bound: real, k: nat)
    requires NonNegative(next, w) && start !in cameFrom
    requires forall x {:trigger HasParent(next, w, gScore, cameFrom, x)} ::
               x in gScore && x != start ==> HasParent(next, w, gScore, cameFrom, x)
    requires v in gScore && Rooted(cameFrom, start, v, k) && gScore[v] <= bound && (u !in gScore || bound < gScore[u])
    ensures Rooted(cameFrom[u := y], start, v, k)
    decreases k
  {
    if k > 0 {
      assert v != start && HasParent(next, w, gScore, cameFrom, v);
      assert w(cameFrom[v], v) >= 0.0;
      RootKept(next, w, gScore, cameFrom, start, cameFrom[v], u, y, bound, k - 1);
    }
  }

  lemma {:induction false} RootMoved(cameFrom: map<int, int>, start: int, x: int, u: int, v: int, k: nat)
    requires u != start && Rooted(cameFrom, start, x, k) && HasRoot(cameFrom[u := v], start, v)
    ensures HasRoot(cameFrom[u := v], start, x)
    decreases k
  {
    var after := cameFrom[u := v];
    if x == u {
      var i: nat :| Rooted(after, start, v, i);
      assert Rooted(after, start, u, i + 1);
    } else if k == 0 {
      assert Rooted(after, start, x, 0);
    } else {
      RootMoved(cameFrom, start, cameFrom[x], u, v, k - 1);
      var i: nat :| Rooted(after, start, cameFrom[x], i);
      assert Rooted(after, start, x, i + 1);
    }
  }

  /** Recording a strictly better way to u keeps every cameFrom chain rooted at the start. */
  lemma RootsAfter(next: Succ, w: Weight, h: Heuristic, start: int, all: set<int>, gScore: map<int, real>,
                   cameFrom: map<int, int>, paths: map<int, seq<int>>, q: multiset<Item>, v: int, u: int, x: int)
    requires Inv(next, w, h, start, all, gScore, cameFrom, paths, q) && x in gScore
    requires v in gScore && u in next(v) && u != start && (u !in gScore || gScore[v] + w(v, u) < gScore[u])
    ensures HasRoot(cameFrom[u := v], start, x) && HasRoot(cameFrom[u := v], start, v)
  {
    assert HasRoot(cameFrom, start, v) && HasRoot(cameFrom, start, x);
    var k: nat :| Rooted(cameFrom, start, v, k);
    RootKept(next, w, gScore, cameFrom, start, v, u, v, gScore[v], k);
    var i: nat :| Rooted(cameFrom, start, x, i);
    RootMoved(cameFrom, start, x, u, v, i);
  }

  lemma ImproveOk(next: Succ, w: Weight, h: Heuristic, start: int, all: set<int>, gScore: map<int, real>,
                  cameFrom: map<int, int>, paths: map<int, seq<int>>, q: multiset<Item>, v: int, u: int)
    requires Inv(next, w, h, start, all, gScore, cameFrom, paths, q)
    requires v in gScore && u in next(v) && (u !in gScore || gScore[v] + w(v, u) < gScore[u])
    ensures var alt := gScore[v] + w(v, u);
            Inv(next, w, h, start, all, gScore[u := alt], cameFrom[u := v], paths[u := paths[v] + [u]],
                q + multiset{Item(u, alt + h(u))})
  {
    var alt := gScore[v] + w(v, u);
    var gScore', cameFrom', paths' := gScore[u := alt], cameFrom[u := v], paths[u := paths[v] + [u]];
    ImprovedIsNew(next, w, h, start, all, gScore, cameFrom, paths, q, v, u);
    forall x {:trigger Recorded(next, w, start, all, gScore', paths', x)} | x in gScore'
      ensures Recorded(next, w, start, all, gScore', paths', x)
    {
      assert Recorded(next, w, start, all, gScore, paths, if x == u then v else x);
    }
    forall x {:trigger HasParent(next, w, gScore', cameFrom', x)} | x in gScore' && x != start
      ensures HasParent(next, w, gScore', cameFrom', x)
    {
      assert x != u ==> HasParent(next, w, gScore, cameFrom, x);
    }
    forall x {:trigger HasRoot(cameFrom', start, x)} | x in gScore'
      ensures HasRoot(cameFrom', start, x)
    {
      RootsAfter(next, w, h, start, all, gScore, cameFrom, paths, q, v, u, if x == u then v else x);
      if x == u {
        var i: nat :| Rooted(cameFrom', start, v, i);
        assert Rooted(cameFrom', start, u, i + 1);
      }
    }
  }

  lemma ImproveOpen(next: Succ, w: Weight, h: Heuristic, gScore: map<int, real>, q: multiset<Item>, closed: set<int>,
                    v: int, u: int, alt: real)
    requires OpenOrRelaxed(next, w, h, gScore, q, closed, {v}) && u != v && (u !in gScore || alt < gScore[u])
    ensures OpenOrRelaxed(next, w, h, gScore[u := alt], q + multiset{Item(u, alt + h(u))}, closed - {u}, {v})
  {
    var gScore', q' := gScore[u := alt], q + multiset{Item(u, alt + h(u))};
    forall x {:trigger Queued(h, gScore', q', x)} | x in gScore' && x !in closed - {u} && x != v
      ensures Queued(h, gScore', q', x)
    {
      assert x != u ==> Queued(h, gScore, q, x);
    }
    forall x {:trigger Relaxed(next, w, gScore', x)} | x in gScore' && x in closed - {u} && x != v
      ensures Relaxed(next, w, gScore', x)
    {
      assert Relaxed(next, w, gScore, x);
    }
  }

  /** Any walk to the end is at least as long as the least priority or as the end's gScore. */
  lemma {:induction false} WalkBound(next: Succ, w: Weight, h: Heuristic, end: int, gScore: map<int, real>,
                                     q: multiset<Item>, closed: set<int>, p: seq<int>, v: int, least: real, e: real)
    requires OpenOrRelaxed(next, w, h, gScore, q, closed, {}) && ExceedsBy(next, w, h, end, e)
    requires forall x :: x in q ==> least <= x.priority
    requires v in gScore && IsWalk(next, p, v, end) && end in gScore
    ensures least - h(end) <= gScore[v] + Length(w, p) + e || gScore[end] <= gScore[v] + Length(w, p)
    decreases |p|
  {
    if v !in closed {
      assert Queued(h, gScore, q, v);
    } else if |p| > 1 {
      WalkTail(next, p, v, end);
      assert Relaxed(next, w, gScore, v);
      WalkBound(next, w, h, end, gScore, q, closed, p[1..], p[1], least, e);
    }
  }

  // ---------- termination: every improvement records a simple path that was not recorded before ----------

  ghost predicate Seen(w: Weight, universe: set<seq<int>>, gScore: map<int, real>, seen: set<seq<int>>)
  {
    && seen <= universe
    && forall p :: p in seen ==> |p| > 0 && p[|p| - 1] in gScore && gScore[p[|p| - 1]] <= Length(w, p)
  }

  lemma SeenGrows(next: Succ, w: Weight, h: Heuristic, start: int, all: set<int>, universe: set<seq<int>>,
                  gScore: map<int, real>, cameFrom: map<int, int>, paths: map<int, seq<int>>, q: multiset<Item>,
                  seen: set<seq<int>>, v: int, u: int)
    requires Inv(next, w, h, start, all, gScore, cameFrom, paths, q) && Seen(w, universe, gScore, seen)
    requires v in gScore && u in next(v) && (u !in gScore || gScore[v] + w(v, u) < gScore[u])
    requires IsUniverse(all, universe)
    ensures paths[v] + [u] !in seen && paths[v] + [u] in universe
    ensures Seen(w, universe, gScore[u := gScore[v] + w(v, u)], seen + {paths[v] + [u]})
  {
    ImprovedIsNew(next, w, h, start, all, gScore, cameFrom, paths, q, v, u);
    var p := paths[v] + [u];
    assert Recorded(next, w, start, all, gScore, paths, v);
    NoRepeatsFits(p, all);
    assert p[|p| - 1] == u;
  }

  /** All of the invariant, while the arcs of the busy nodes are being relaxed. */
  ghost predicate Running(next: Succ, w: Weight, h: Heuristic, start: int, end: int, all: set<int>,
                          universe: set<seq<int>>, gScore: map<int, real>, cameFrom: map<int, int>,
                          paths: map<int, seq<int>>, q: multiset<Item>, closed: set<int>, seen: set<seq<int>>,
                          busy: set<int>)
  {
    && Inv(next, w, h, start, all, gScore, cameFrom, paths, q)
    && OpenOrRelaxed(next, w, h, gScore, q, closed, busy) && end !in closed
    && Seen(w, universe, gScore, seen)
  }

  ghost predicate RelaxedUpTo(next: Succ, w: Weight, gScore: map<int, real>, v: int, i: int)
    requires v in gScore
  {
    forall k :: 0 <= k < i && k < |next(v)| ==>
      next(v)[k] in gScore && gScore[next(v)[k]] <= gScore[v] + w(v, next(v)[k])
  }

  lemma Improve(next: Succ, w: Weight, h: Heuristic, start: int, end: int, all: set<int>, universe: set<seq<int>>,
                gScore: map<int, real>, cameFrom: map<int, int>, paths: map<int, seq<int>>, q: multiset<Item>,
                closed: set<int>, seen: set<seq<int>>, v: int, i: int)
    requires Running(next, w, h, start, end, all, universe, gScore, cameFrom, paths, q, closed, seen, {v})
    requires v in gScore && 0 <= i < |next(v)| && RelaxedUpTo(next, w, gScore, v, i)
    requires var u := next(v)[i]; u !in gScore || gScore[v] + w(v, u) < gScore[u]
    requires IsUniverse(all, universe)
    ensures var u, alt := next(v)[i], gScore[v] + w(v, next(v)[i]);
            && v in paths && u != v && paths[v] + [u] !in seen
            && RelaxedUpTo(next, w, gScore[u := alt], v, i + 1)
            && Running(next, w, h, start, end, all, universe, gScore[u := alt], cameFrom[u := v],
                       paths[u := paths[v] + [u]], q + multiset{Item(u, alt + h(u))}, closed - {u}, seen +
                       {paths[v] + [u]}, {v})
  {
    var u := next(v)[i];
    assert u in next(v);
    var alt := gScore[v] + w(v, u);
    ImprovedIsNew(next, w, h, start, all, gScore, cameFrom, paths, q, v, u);
    ImproveOk(next, w, h, start, all, gScore, cameFrom, paths, q, v, u);
    ImproveOpen(next, w, h, gScore, q, closed, v, u, alt);
    SeenGrows(next, w, h, start, all, universe, gScore, cameFrom, paths, q, seen, v, u);
  }

  /** Once all arcs of v are relaxed, v is closed. */
  lemma Close(next: Succ, w: Weight, h: Heuristic, start: int, end: int, all: set<int>, universe: set<seq<int>>,
              gScore: map<int, real>, cameFrom: map<int, int>, paths: map<int, seq<int>>, q: multiset<Item>,
              closed: set<int>, seen: set<seq<int>>, v: int)
    requires Running(next, w, h, start, end, all, universe, gScore, cameFrom, paths, q, closed, seen, {v})
    requires v in gScore && v != end && RelaxedUpTo(next, w, gScore, v, |next(v)|)
    ensures Running(next, w, h, start, end, all, universe, gScore, cameFrom, paths, q, closed + {v}, seen, {})
  {
    assert Relaxed(next, w, gScore, v);
  }

  /** The invariant as the loops need it: which paths are recorded and which nodes are closed is left open. */
  ghost predicate Open(next: Succ, w: Weight, h: Heuristic, start: int, end: int, all: set<int>,
                       universe: set<seq<int>>, gScore: map<int, real>, cameFrom: map<int, int>, q: multiset<Item>,
                       seen: set<seq<int>>, busy: set<int>)
  {
    exists paths, closed :: Running(next, w, h, start, end, all, universe, gScore, cameFrom, paths, q, closed, seen,
                                    busy)
  }

  lemma OpenAtStart(next: Succ, w: Weight, h: Heuristic, start: int, end: int, all: set<int>, universe: set<seq<int>>)
    requires NonNegative(next, w) && Finite(next, all) && start in all
    ensures Open(next, w, h, start, end, all, universe, map[start := 0.0], map[], multiset{Item(start, h(start))}, {},
                 {})
  {
    assert Rooted(map[], start, start, 0);
    assert Running(next, w, h, start, end, all, universe, map[start := 0.0], map[], map[start := [start]],
                   multiset{Item(start, h(start))}, {}, {}, {});
  }

  lemma OpenPopped(next: Succ, w: Weight, h: Heuristic, start: int, end: int, all: set<int>, universe: set<seq<int>>,
                   gScore: map<int, real>, cameFrom: map<int, int>, q: multiset<Item>, seen: set<seq<int>>, it: Item)
    requires Open(next, w, h, start, end, all, universe, gScore, cameFrom, q, seen, {}) && it in q
    ensures it.node in gScore
    ensures Open(next, w, h, start, end, all, universe, gScore, cameFrom, q - multiset{it}, seen, {it.node})
  {
    var paths, closed :| Running(next, w, h, start, end, all, universe, gScore, cameFrom, paths, q, closed, seen, {});
    PopOk(next, w, h, start, all, gScore, cameFrom, paths, q, closed, it);
    assert Running(next, w, h, start, end, all, universe, gScore, cameFrom, paths, q - multiset{it}, closed, seen,
                   {it.node});
  }

  /** An improvement records a path that was not recorded before. */
  lemma OpenImproved(next: Succ, w: Weight, h: Heuristic, start: int, end: int, all: set<int>, universe: set<seq<int>>,
                     gScore: map<int, real>, cameFrom: map<int, int>, q: multiset<Item>, seen: set<seq<int>>, v: int,
                     i: int)
    returns (more: set<seq<int>>)
    requires Open(next, w, h, start, end, all, universe, gScore, cameFrom, q, seen, {v})
    requires v in gScore && 0 <= i < |next(v)| && RelaxedUpTo(next, w, gScore, v, i) && IsUniverse(all, universe)
    requires var u := next(v)[i]; u !in gScore || gScore[v] + w(v, u) < gScore[u]
    ensures next(v)[i] != v && seen < more && more <= universe
    ensures var u, alt := next(v)[i], gScore[v] + w(v, next(v)[i]);
            && RelaxedUpTo(next, w, gScore[u := alt], v, i + 1)
            && Open(next, w, h, start, end, all, universe, gScore[u := alt], cameFrom[u := v], q +
                    multiset{Item(u, alt + h(u))}, more, {v})
  {
    var paths, closed :| Running(next, w, h, start, end, all, universe, gScore, cameFrom, paths, q, closed, seen, {v});
    Improve(next, w, h, start, end, all, universe, gScore, cameFrom, paths, q, closed, seen, v, i);
    more := seen + {paths[v] + [next(v)[i]]};
  }

  lemma OpenClosed(next: Succ, w: Weight, h: Heuristic, start: int, end: int, all: set<int>, universe: set<seq<int>>,
                   gScore: map<int, real>, cameFrom: map<int, int>, q: multiset<Item>, seen: set<seq<int>>, v: int)
    requires Open(next, w, h, start, end, all, universe, gScore, cameFrom, q, seen, {v})
    requires v in gScore && v != end && RelaxedUpTo(next, w, gScore, v, |next(v)|)
    ensures Open(next, w, h, start, end, all, universe, gScore, cameFrom, q, seen, {}) && seen <= universe
  {
    var paths, closed :| Running(next, w, h, start, end, all, universe, gScore, cameFrom, paths, q, closed, seen, {v});
    Close(next, w, h, start, end, all, universe, gScore, cameFrom, paths, q, closed, seen, v);
  }

  // ---------- what one round of the loop does to the scores ----------

  ghost predicate Improves(w: Weight, gScore: map<int, real>, v: int, u: int)
    requires v in gScore
  {
    u !in gScore || gScore[v] + w(v, u) < gScore[u]
  }

  /** Exactly the neighbours that v improves have got the better score and v as their predecessor. */
  ghost predicate ScoresAfter(w: Weight, ns: seq<int>, v: int, gScore0: map<int, real>, cameFrom0: map<int, int>,
                              gScore: map<int, real>, cameFrom: map<int, int>)
    requires v in gScore0
  {
    forall u {:trigger ScoreAfter(w, ns, v, gScore0, cameFrom0, gScore, cameFrom, u)} ::
      ScoreAfter(w, ns, v, gScore0, cameFrom0, gScore, cameFrom, u)
  }

  ghost predicate ScoreAfter(w: Weight, ns: seq<int>, v: int, gScore0: map<int, real>, cameFrom0: map<int, int>,
                             gScore: map<int, real>, cameFrom: map<int, int>, u: int)
    requires v in gScore0
  {
    if u in ns && Improves(w, gScore0, v, u) then
      u in gScore && gScore[u] == gScore0[v] + w(v, u) && u in cameFrom && cameFrom[u] == v
    else
      && (u in gScore <==> u in gScore0) && (u in gScore ==> gScore[u] == gScore0[u])
      && (u in cameFrom <==> u in cameFrom0) && (u in cameFrom ==> cameFrom[u] == cameFrom0[u])
  }

  lemma ScoresNext(w: Weight, ns: seq<int>, v: int, x: int, gScore0: map<int, real>, cameFrom0: map<int, int>,
                   gScore: map<int, real>, cameFrom: map<int, int>)
    requires v in gScore0 && v in gScore && gScore[v] == gScore0[v]
    requires ScoresAfter(w, ns, v, gScore0, cameFrom0, gScore, cameFrom)
    ensures if Improves(w, gScore, v, x)
            then ScoresAfter(w, ns + [x], v, gScore0, cameFrom0, gScore[x := gScore[v] + w(v, x)], cameFrom[x := v])
            else ScoresAfter(w, ns + [x], v, gScore0, cameFrom0, gScore, cameFrom)
  {
    var improves := Improves(w, gScore, v, x);
    var gScore' := if improves then gScore[x := gScore[v] + w(v, x)] else gScore;
    var cameFrom' := if improves then cameFrom[x := v] else cameFrom;
    assert ScoreAfter(w, ns, v, gScore0, cameFrom0, gScore, cameFrom, x);
    forall u {:trigger ScoreAfter(w, ns + [x], v, gScore0, cameFrom0, gScore', cameFrom', u)}
      ensures ScoreAfter(w, ns + [x], v, gScore0, cameFrom0, gScore', cameFrom', u)
    {
      assert ScoreAfter(w, ns, v, gScore0, cameFrom0, gScore, cameFrom, u);
    }
  }

  // ---------- the algorithm ----------

  /** The path found exceeds the shortest one by no more than the heuristic does. */
  lemma ShortestFound(next: Succ, w: Weight, h: Heuristic, start: int, end: int, all: set<int>, gScore: map<int, real>,
                      cameFrom: map<int, int>, paths: map<int, seq<int>>, q: multiset<Item>, closed: set<int>, it: Item,
                      path: seq<int>, e: real)
    requires Inv(next, w, h, start, all, gScore, cameFrom, paths, q) && ExceedsBy(next, w, h, end, e)
    requires OpenOrRelaxed(next, w, h, gScore, q, closed, {})
    requires it in q && it.node == end && forall x :: x in q ==> it.priority <= x.priority
    requires end in gScore && IsWalk(next, path, start, end) && Length(w, path) <= gScore[end]
    ensures IsShortestBut(next, w, path, start, end, e)
  {
    forall p | IsWalk(next, p, start, end)
      ensures Length(w, path) <= Length(w, p) + e
    {
      WalkBound(next, w, h, end, gScore, q, closed, p, start, it.priority, e);
    }
  }

  lemma Unreachable(next: Succ, w: Weight, h: Heuristic, start: int, end: int, gScore: map<int, real>, closed: set<int>)
    requires OpenOrRelaxed(next, w, h, gScore, multiset{}, closed, {}) && end !in closed && start in gScore
    ensures !WalkExists(next, start, end)
  {
    var s := iset v | v in gScore;
    forall v | v in gScore
      ensures v in closed
    {
      assert !Queued(h, gScore, multiset{}, v);
    }
    forall x, y | x in s && y in next(x)
      ensures y in s
    {
      assert Relaxed(next, w, gScore, x);
    }
    ReachesIffWalk(next, start, end);
    assert Closed(next, s);
  }

  /** The loop over the neighbours of the node just taken from the queue. */
  method RelaxNeighbors(next: Succ, w: Weight, h: Heuristic, start: int, end: int, ghost all: set<int>,
                        ghost universe: set<seq<int>>, gScore0: map<int, real>, cameFrom0: map<int, int>,
                        q0: multiset<Item>, ghost seen0: set<seq<int>>, current: int)
    returns (gScore: map<int, real>, cameFrom: map<int, int>, q: multiset<Item>, ghost seen: set<seq<int>>)
    requires Open(next, w, h, start, end, all, universe, gScore0, cameFrom0, q0, seen0, {current})
    requires current in gScore0 && current != end && IsUniverse(all, universe)
    ensures Open(next, w, h, start, end, all, universe, gScore, cameFrom, q, seen, {})
    ensures ScoresAfter(w, next(current), current, gScore0, cameFrom0, gScore, cameFrom)
    ensures seen <= universe && (seen0 < seen || (seen == seen0 && q == q0))
  {
    gScore, cameFrom, q, seen := gScore0, cameFrom0, q0, seen0;
    var neighbors := next(current);
    for i := 0 to |neighbors|
      invariant Open(next, w, h, start, end, all, universe, gScore, cameFrom, q, seen, {current})
      invariant current in gScore && gScore[current] == gScore0[current] && (seen0 < seen || (seen == seen0 && q == q0))
      invariant RelaxedUpTo(next, w, gScore, current, i)
      invariant ScoresAfter(w, neighbors[..i], current, gScore0, cameFrom0, gScore, cameFrom)
    {
      var neighbor := neighbors[i];
      var weight := w(current, neighbor);
      var tentativeGScore := gScore[current] + weight;
      assert neighbors[..i + 1] == neighbors[..i] + [neighbor];
      ScoresNext(w, neighbors[..i], current, neighbor, gScore0, cameFrom0, gScore, cameFrom);
      if neighbor !in gScore || tentativeGScore < gScore[neighbor] {
        seen := OpenImproved(next, w, h, start, end, all, universe, gScore, cameFrom, q, seen, current, i);
        cameFrom := cameFrom[neighbor := current];
        gScore := gScore[neighbor := tentativeGScore];
        q := q + multiset{Item(neighbor, tentativeGScore + h(neighbor))};
      }
    }
    assert neighbors[..|neighbors|] == neighbors;
    OpenClosed(next, w, h, start, end, all, universe, gScore, cameFrom, q, seen, current);
  }

  /** Follows cameFrom back from the end; the walk may be shorter than the path that was recorded for the end. */
  method ReconstructPath(next: Succ, w: Weight, h: Heuristic, start: int, end: int, ghost all: set<int>,
                         gScore: map<int, real>, cameFrom: map<int, int>, ghost paths: map<int, seq<int>>,
                         ghost q: multiset<Item>)
    returns (path: seq<int>)
    requires Inv(next, w, h, start, all, gScore, cameFrom, paths, q) && end in gScore
    ensures IsWalk(next, path, start, end) && Length(w, path) <= gScore[end]
    ensures FollowsBack(cameFrom, path) && path[0] !in cameFrom
  {
    var current := end;
    path := [current];
    assert HasRoot(cameFrom, start, end);
    ghost var k: nat :| Rooted(cameFrom, start, end, k);
    while current in cameFrom
      invariant current in gScore && Rooted(cameFrom, start, current, k) && FollowsBack(cameFrom, path)
      invariant IsWalk(next, path, current, end) && gScore[current] + Length(w, path) <= gScore[end]
      decreases k
    {
      assert HasParent(next, w, gScore, cameFrom, current);
      WalkCons(next, w, cameFrom[current], path, current, end);
      path := [cameFrom[current]] + path;
      current := cameFrom[current];
      k := k - 1;
    }
  }

  /** Every node but the first has the one before it as its predecessor. */
  ghost predicate FollowsBack(cameFrom: map<int, int>, path: seq<int>)
  {
    forall i {:trigger path[i]} :: 0 < i < |path| ==> path[i] in cameFrom && cameFrom[path[i]] == path[i - 1]
  }

  /** The end has been taken from the queue. */
  method Finish(next: Succ, w: Weight, h: Heuristic, start: int, end: int, ghost all: set<int>,
                ghost universe: set<seq<int>>, gScore: map<int, real>, cameFrom: map<int, int>, ghost q: multiset<Item>,
                ghost seen: set<seq<int>>, ghost it: Item)
    returns (path: seq<int>)
    requires Open(next, w, h, start, end, all, universe, gScore, cameFrom, q, seen, {})
    requires it in q && it.node == end && forall x :: x in q ==> it.priority <= x.priority
    ensures path != [] && IsWalk(next, path, start, end)
    ensures forall e :: ExceedsBy(next, w, h, end, e) ==> IsShortestBut(next, w, path, start, end, e)
  {
    ghost var paths, closed :| Running(next, w, h, start, end, all, universe, gScore, cameFrom, paths, q, closed, seen,
                                       {});
    path := ReconstructPath(next, w, h, start, end, all, gScore, cameFrom, paths, q);
    forall e | ExceedsBy(next, w, h, end, e)
      ensures IsShortestBut(next, w, path, start, end, e)
    {
      ShortestFound(next, w, h, start, end, all, gScore, cameFrom, paths, q, closed, it, path, e);
    }
  }

  /** An admissible heuristic does not exceed, so the path is a shortest one. */
  lemma AdmissibleIsShortest(next: Succ, w: Weight, h: Heuristic, path: seq<int>, start: int, end: int)
    requires Admissible(next, w, h, end)
    requires forall e :: ExceedsBy(next, w, h, end, e) ==> IsShortestBut(next, w, path, start, end, e)
    ensures IsShortest(next, w, path, start, end)
  {
    assert ExceedsBy(next, w, h, end, 0.0);
    assert IsShortestBut(next, w, path, start, end, 0.0);
  }

  lemma NothingLeft(next: Succ, w: Weight, h: Heuristic, start: int, end: int, all: set<int>, universe: set<seq<int>>,
                    gScore: map<int, real>, cameFrom: map<int, int>, seen: set<seq<int>>)
    requires Open(next, w, h, start, end, all, universe, gScore, cameFrom, multiset{}, seen, {})
    ensures !WalkExists(next, start, end)
  {
    var paths, closed :| Running(next, w, h, start, end, all, universe, gScore, cameFrom, paths, multiset{}, closed,
                                 seen, {});
    Unreachable(next, w, h, start, end, gScore, closed);
  }

  method AStar(next: Succ, w: Weight, h: Heuristic, start: int, end: int, ghost all: set<int>) returns (path: seq<int>)
    requires NonNegative(next, w) && Finite(next, all) && start in all
    ensures path != [] ==> IsWalk(next, path, start, end)
    ensures path != [] ==> forall e :: ExceedsBy(next, w, h, end, e) ==> IsShortestBut(next, w, path, start, end, e)
    ensures path != [] && Admissible(next, w, h, end) ==> IsShortest(next, w, path, start, end)
    ensures path == [] <==> !WalkExists(next, start, end)
  {
    var q := multiset{Item(start, h(start))};
    var gScore: map<int, real> := map[start := 0.0];
    var cameFrom: map<int, int> := map[];
    ghost var universe := SequencesUpTo(all, |all|);
    ghost var seen: set<seq<int>> := {};
    OpenAtStart(next, w, h, start, end, all, universe);
    while q != multiset{}
      invariant Open(next, w, h, start, end, all, universe, gScore, cameFrom, q, seen, {})
      decreases universe - seen, |q|
    {
      var it, rest := PopMin(q);
      var current := it.node;
      if current == end {
        path := Finish(next, w, h, start, end, all, universe, gScore, cameFrom, q, seen, it);
        if Admissible(next, w, h, end) { AdmissibleIsShortest(next, w, h, path, start, end); }
        return path;
      }
      OpenPopped(next, w, h, start, end, all, universe, gScore, cameFrom, q, seen, it);
      q := rest;
      ghost var before := seen;
      gScore, cameFrom, q, seen := RelaxNeighbors(next, w, h, start, end, all, universe, gScore, cameFrom, q, seen,
                                                  current);
      assert before < seen ==> universe - seen < universe - before by {
        if before < seen {
          var p :| p in seen && p !in before;
          assert p in universe - before && p !in universe - seen;
        }
      }
    }
    NothingLeft(next, w, h, start, end, all, universe, gScore, cameFrom, seen);
    return [];
  }
}
