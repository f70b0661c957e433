/** NumComponents counts the classes, and each relationship joins at most two of them. */
module ComponentCount {
  import opened Walks
  import opened Graphs
  import opened Components
  import opened Counting

  ghost function Class(nodes: seq<int>, rels: seq<Relationship>, i: int): set<int>
  {
    set j | 0 <= j < |nodes| && Connected(nodes, rels, i, j)
  }

  ghost function Classes(nodes: seq<int>, rels: seq<Relationship>): set<set<int>>
  {
    set i | 0 <= i < |nodes| :: Class(nodes, rels, i)
  }

  method NumComponents(nodes: seq<int>, rels: seq<Relationship>) returns (n: int)
    ensures n == |Classes(nodes, rels)|
    ensures n >= |nodes| - |rels|
  {
    var components := ConnectedComponents(nodes, rels);
    var maxID := -1;
    for i := 0 to |components|
      invariant -1 <= maxID && forall k :: 0 <= k < i ==> components[k].number <= maxID
      invariant maxID >= 0 ==> exists k :: 0 <= k < i && components[k].number == maxID
    {
      if components[i].number > maxID {
        maxID := components[i].number;
      }
    }
    ghost var ids := Numbers(components);
    assert forall k :: 0 <= k < |ids| ==> ids[k] <= maxID;
    if maxID >= 0 {
      var k :| 0 <= k < |components| && components[k].number == maxID;
      assert ids[k] == maxID;
    }
    CountClasses(nodes, rels, ids, maxID);
    AtLeast(nodes, rels);
    return maxID + 1;
  }

  lemma ConnectedEquivalence(nodes: seq<int>, rels: seq<Relationship>, i: int, j: int, k: int)
    ensures Connected(nodes, rels, i, i)
    ensures Connected(nodes, rels, i, j) ==> Connected(nodes, rels, j, i)
    ensures Connected(nodes, rels, i, j) && Connected(nodes, rels, j, k) ==> Connected(nodes, rels, i, k)
  {
    BothListsArcs(nodes, rels);
    if Connected(nodes, rels, i, j) {
      ReachesSym(Adj(BothLists(nodes, rels)), i, j);
    }
  }

  lemma SameClass(nodes: seq<int>, rels: seq<Relationship>, i: int, j: int)
    requires 0 <= i < |nodes| && 0 <= j < |nodes|
    ensures Class(nodes, rels, i) == Class(nodes, rels, j) <==> Connected(nodes, rels, i, j)
  {
    ConnectedEquivalence(nodes, rels, j, i, i);
    assert j in Class(nodes, rels, j);
    if Connected(nodes, rels, i, j) {
      ConnectedEquivalence(nodes, rels, i, j, i);
      forall k
        ensures Connected(nodes, rels, i, k) <==> Connected(nodes, rels, j, k)
      {
        ConnectedEquivalence(nodes, rels, i, j, k);
        ConnectedEquivalence(nodes, rels, j, i, k);
      }
    }
  }

  lemma CountClasses(nodes: seq<int>, rels: seq<Relationship>, ids: seq<int>, top: int)
    requires IsComponentNumbering(nodes, rels, ids) && -1 <= top
    requires forall k :: 0 <= k < |ids| ==> ids[k] <= top
    requires top >= 0 ==> top in ids
    ensures |Classes(nodes, rels)| == top + 1
  {
    forall c | 0 <= c <= top
      ensures c in ids
    {
      var k :| 0 <= k < |ids| && ids[k] == top;
      if c < top { OccursAll(ids, k, c); }
    }
    var toClass := c => if c in ids then Class(nodes, rels, IndexIn(ids, c)) else {};
    forall c, d | 0 <= c <= top && 0 <= d <= top && toClass(c) == toClass(d)
      ensures c == d
    {
      SameClass(nodes, rels, IndexIn(ids, c), IndexIn(ids, d));
    }
    InjectionSize(Range(top + 1), Classes(nodes, rels), toClass);
    forall s | s in Classes(nodes, rels)
      ensures exists c :: c in Range(top + 1) && toClass(c) == s
    {
      var i :| 0 <= i < |nodes| && s == Class(nodes, rels, i);
      SameClass(nodes, rels, IndexIn(ids, ids[i]), i);
      assert ids[i] in Range(top + 1) && toClass(ids[i]) == s;
    }
    SurjectionSize(Range(top + 1), Classes(nodes, rels), toClass);
  }

  ghost function IndexIn(ids: seq<int>, c: int): (i: int)
    requires c in ids
    ensures 0 <= i < |ids| && ids[i] == c
  {
    var i :| 0 <= i < |ids| && ids[i] == c;
    i
  }

  // ---------- each relationship removes at most one class ----------

  /** Adding a relationship from a to b connects only what was connected to a and to b. */
  lemma ConnectedAfter(nodes: seq<int>, rels: seq<Relationship>, a: int, b: int, x: int, y: int)
    requires |rels| > 0 && Joins(nodes, rels[|rels| - 1], a, b) && Connected(nodes, rels, x, y)
    ensures After(Adj(BothLists(nodes, rels[..|rels| - 1])), a, b, x, y)
  {
    var before := rels[..|rels| - 1];
    var was, now := Adj(BothLists(nodes, before)), Adj(BothLists(nodes, rels));
    var s := iset z | After(was, a, b, x, z);
    forall z, w | z in s && w in now(z)
      ensures w in s
    {
      ArcAfter(nodes, rels, a, b, z, w);
      if w in was(z) {
        ReachesStep(was, z, w);
        AfterStep(was, a, b, x, z, w);
      }
    }
    assert Closed(now, s) && x in s;
  }

  ghost predicate After(was: Succ, a: int, b: int, x: int, y: int)
  {
    || Reaches(was, x, y)
    || (Reaches(was, x, a) && Reaches(was, b, y))
    || (Reaches(was, x, b) && Reaches(was, a, y))
  }

  lemma AfterStep(was: Succ, a: int, b: int, x: int, z: int, w: int)
    requires After(was, a, b, x, z) && Reaches(was, z, w)
    ensures After(was, a, b, x, w)
  {}

  lemma ArcAfter(nodes: seq<int>, rels: seq<Relationship>, a: int, b: int, z: int, w: int)
    requires |rels| > 0 && Joins(nodes, rels[|rels| - 1], a, b)
    requires w in Adj(BothLists(nodes, rels))(z)
    ensures w in Adj(BothLists(nodes, rels[..|rels| - 1]))(z) || (z == a && w == b) || (z == b && w == a)
  {
    BothListsArcs(nodes, rels[..|rels| - 1]);
    BothListsArcs(nodes, rels);
    ArcLast(nodes, rels, z, w);
    ArcLast(nodes, rels, w, z);
  }

  lemma ConnectedMore(nodes: seq<int>, rels: seq<Relationship>, x: int, y: int)
    requires |rels| > 0 && Connected(nodes, rels[..|rels| - 1], x, y)
    ensures Connected(nodes, rels, x, y)
  {
    var before := rels[..|rels| - 1];
    var was, now := Adj(BothLists(nodes, before)), Adj(BothLists(nodes, rels));
    BothListsArcs(nodes, before);
    BothListsArcs(nodes, rels);
    forall z, w | w in was(z)
      ensures Reaches(now, z, w)
    {
      ArcLast(nodes, rels, z, w);
      ArcLast(nodes, rels, w, z);
      ReachesStep(now, z, w);
    }
    ReachesMono(was, now, x, y);
  }

  ghost function Grown(nodes: seq<int>, rels: seq<Relationship>, c: set<int>): set<int>
  {
    set j | 0 <= j < |nodes| && Touches(nodes, rels, c, j)
  }

  ghost predicate Touches(nodes: seq<int>, rels: seq<Relationship>, c: set<int>, j: int)
  {
    exists x :: x in c && Connected(nodes, rels, x, j)
  }

  lemma GrownClass(nodes: seq<int>, rels: seq<Relationship>, i: int)
    requires |rels| > 0 && 0 <= i < |nodes|
    ensures Grown(nodes, rels, Class(nodes, rels[..|rels| - 1], i)) == Class(nodes, rels, i)
  {
    var c := Class(nodes, rels[..|rels| - 1], i);
    ConnectedEquivalence(nodes, rels[..|rels| - 1], i, i, i);
    assert i in c;
    forall x, j | x in c && Connected(nodes, rels, x, j)
      ensures Connected(nodes, rels, i, j)
    {
      ConnectedMore(nodes, rels, i, x);
      ConnectedEquivalence(nodes, rels, i, x, j);
    }
  }

  lemma OneFewer(nodes: seq<int>, rels: seq<Relationship>)
    requires |rels| > 0
    ensures |Classes(nodes, rels)| >= |Classes(nodes, rels[..|rels| - 1])| - 1
  {
    var before, r := rels[..|rels| - 1], rels[|rels| - 1];
    if r.startNode !in nodes || r.endNode !in nodes {
      assert BothLists(nodes, rels) == BothLists(nodes, before);
      assert forall i :: Class(nodes, rels, i) == Class(nodes, before, i);
      assert Classes(nodes, rels) == Classes(nodes, before);
    } else {
      var a, b := NodeIndex(nodes)[r.startNode], NodeIndex(nodes)[r.endNode];
      var lost := Class(nodes, before, b);
      var kept := Classes(nodes, before) - {lost};
      var f := c => Grown(nodes, rels, c);
      forall c | c in kept
        ensures f(c) in Classes(nodes, rels)
      {
        var i :| 0 <= i < |nodes| && c == Class(nodes, before, i);
        GrownClass(nodes, rels, i);
      }
      forall c, d | c in kept && d in kept && f(c) == f(d)
        ensures c == d
      {
        var i :| 0 <= i < |nodes| && c == Class(nodes, before, i);
        var j :| 0 <= j < |nodes| && d == Class(nodes, before, j);
        KeptApart(nodes, rels, a, b, i, j);
      }
      InjectionSize(kept, Classes(nodes, rels), f);
      assert lost in Classes(nodes, before);
    }
  }

  lemma KeptApart(nodes: seq<int>, rels: seq<Relationship>, a: int, b: int, i: int, j: int)
    requires |rels| > 0 && Joins(nodes, rels[|rels| - 1], a, b) && 0 <= i < |nodes| && 0 <= j < |nodes|
    requires Class(nodes, rels[..|rels| - 1], i) != Class(nodes, rels[..|rels| - 1], b)
    requires Class(nodes, rels[..|rels| - 1], j) != Class(nodes, rels[..|rels| - 1], b)
    requires Grown(nodes, rels, Class(nodes, rels[..|rels| - 1], i)) ==
             Grown(nodes, rels, Class(nodes, rels[..|rels| - 1], j))
    ensures Class(nodes, rels[..|rels| - 1], i) == Class(nodes, rels[..|rels| - 1], j)
  {
    var before := rels[..|rels| - 1];
    GrownClass(nodes, rels, i);
    GrownClass(nodes, rels, j);
    SameClass(nodes, rels, i, j);
    ConnectedAfter(nodes, rels, a, b, i, j);
    SameClass(nodes, before, i, b);
    SameClass(nodes, before, j, b);
    SameClass(nodes, before, i, j);
    ConnectedEquivalence(nodes, before, b, j, b);
  }

  lemma {:induction false} AtLeast(nodes: seq<int>, rels: seq<Relationship>)
    ensures |Classes(nodes, rels)| >= |nodes| - |rels|
  {
    if |rels| > 0 {
      AtLeast(nodes, rels[..|rels| - 1]);
      OneFewer(nodes, rels);
    } else {
      var f := i => Class(nodes, rels, i);
      forall i, j | 0 <= i < |nodes| && 0 <= j < |nodes| && f(i) == f(j)
        ensures i == j
      {
        SameClass(nodes, rels, i, j);
        assert Closed(Adj(BothLists(nodes, rels)), iset{i});
      }
      InjectionSize(Range(|nodes|), Classes(nodes, rels), f);
    }
  }
}
