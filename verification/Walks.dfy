/** Walks and reachability in a directed graph given by a successor function. */
module Walks {
  type Succ = int -> seq<int>

  /** The successor function of an adjacency-list graph over the vertices 0..|g|. */
  function Adj(g: seq<seq<int>>): Succ
  {
    (v: int) => if 0 <= v < |g| then g[v] else []
  }

  ghost predicate WellFormed(g: seq<seq<int>>)
  {
    forall v, w {:trigger w in g[v]} :: 0 <= v < |g| && w in g[v] ==> 0 <= w < |g|
  }

  ghost predicate IsWalk(next: Succ, p: seq<int>, u: int, v: int)
  {
    && |p| > 0 && p[0] == u && p[|p| - 1] == v
    && forall i :: 0 <= i < |p| - 1 ==> p[i + 1] in next(p[i])
  }

  ghost predicate WalkExists(next: Succ, u: int, v: int)
  {
    exists p :: IsWalk(next, p, u, v)
  }

  /** No successor leads out of s. */
  ghost predicate Closed(next: Succ, s: iset<int>)
  {
    forall x, y :: x in s && y in next(x) ==> y in s
  }

  /** v is in every closed set that u is in; ReachesIffWalk says that this is the existence of a walk. */
  ghost predicate Reaches(next: Succ, u: int, v: int)
  {
    forall s: iset<int> :: Closed(next, s) && u in s ==> v in s
  }

  ghost predicate Symmetric(next: Succ)
  {
    forall x, y :: y in next(x) ==> x in next(y)
  }

  lemma ReachesStep(next: Succ, u: int, v: int)
    requires v in next(u)
    ensures Reaches(next, u, v)
  {}

  lemma ReachesTrans(next: Succ, u: int, v: int, w: int)
    requires Reaches(next, u, v) && Reaches(next, v, w)
    ensures Reaches(next, u, w)
  {}

  lemma {:induction false} WalkStaysIn(next: Succ, s: iset<int>, p: seq<int>, u: int, v: int)
    requires Closed(next, s) && u in s && IsWalk(next, p, u, v)
    ensures v in s
    decreases |p|
  {
    if |p| > 1 {
      var q := p[..|p| - 1];
      WalkStaysIn(next, s, q, u, q[|q| - 1]);
      assert p[|p| - 2 + 1] in next(p[|p| - 2]);
    }
  }

  lemma ReachesIffWalk(next: Succ, u: int, v: int)
    ensures Reaches(next, u, v) <==> WalkExists(next, u, v)
  {
    if WalkExists(next, u, v) {
      var p :| IsWalk(next, p, u, v);
      forall s: iset<int> | Closed(next, s) && u in s
        ensures v in s
      {
        WalkStaysIn(next, s, p, u, v);
      }
    }
    if Reaches(next, u, v) {
      var s := iset x | WalkExists(next, u, x);
      forall x, y | x in s && y in next(x)
        ensures y in s
      {
        var p :| IsWalk(next, p, u, x);
        assert IsWalk(next, p + [y], u, y);
      }
      assert IsWalk(next, [u], u, u);
      assert Closed(next, s) && u in s;
    }
  }

  lemma ReachesSym(next: Succ, u: int, v: int)
    requires Symmetric(next) && Reaches(next, u, v)
    ensures Reaches(next, v, u)
  {
    var s := iset x | Reaches(next, x, u);
    forall x, y | x in s && y in next(x)
      ensures y in s
    {
      ReachesStep(next, y, x);
      ReachesTrans(next, y, x, u);
    }
    assert Closed(next, s) && u in s;
  }

  /** More arcs reach at least as much. */
  lemma ReachesMono(next: Succ, more: Succ, u: int, v: int)
    requires forall x, y :: y in next(x) ==> Reaches(more, x, y)
    requires Reaches(next, u, v)
    ensures Reaches(more, u, v)
  {
    var s := iset x | Reaches(more, u, x);
    forall x, y | x in s && y in next(x)
      ensures y in s
    {
      ReachesTrans(more, u, x, y);
    }
    assert Closed(next, s) && u in s;
  }
}
