/** When CoreNumber gives the core numbers: exactly when deleting nodes of low degree empties the component. */
module CoreExactness {
  import opened Walks
  import opened Graphs
  import opened Counting
  import opened KCore
  import opened CoreNumber

  // ---------- deleting nodes with few neighbours ----------

  /** v has at most k neighbours among what is left. */
  ghost predicate Deletable(g: seq<set<int>>, k: int, s: set<int>, v: int)
  {
    v in s && 0 <= v < |g| && |g[v] * s| <= k
  }

  /** Deleting such nodes one after the other leads from s to t. */
  ghost predicate Strips(g: seq<set<int>>, k: int, s: set<int>, t: set<int>)
    decreases |s|
  {
    s == t || exists v :: Deletable(g, k, s, v) && Strips(g, k, s - {v}, t)
  }

  /** Such deletions can remove v. */
  ghost predicate Removable(g: seq<set<int>>, k: int, s: set<int>, v: int)
  {
    exists t :: Strips(g, k, s, t) && v !in t
  }

  /** No deletion touches a core of the next order. */
  lemma {:induction false} StripsKeepCore(g: seq<set<int>>, k: int, s: set<int>, t: set<int>, core: set<int>)
    requires Strips(g, k, s, t) && core <= s && IsCore(g, k + 1, core)
    ensures core <= t
    decreases |s|
  {
    if s != t {
      var v :| Deletable(g, k, s, v) && Strips(g, k, s - {v}, t);
      PeelOne(g, k + 1, core, s, v);
      StripsKeepCore(g, k, s - {v}, t, core);
    }
  }

  /** Deleting as long as possible leaves such a core. */
  lemma {:induction false} StripsToCore(g: seq<set<int>>, k: int, s: set<int>) returns (t: set<int>)
    requires forall v :: v in s ==> 0 <= v < |g|
    ensures Strips(g, k, s, t) && IsCore(g, k + 1, t) && t <= s
    decreases |s|
  {
    if v :| Deletable(g, k, s, v) {
      t := StripsToCore(g, k, s - {v});
    } else {
      t := s;
      forall v {:trigger Enough(g, k + 1, s, v)} | v in s
        ensures Enough(g, k + 1, s, v)
      {
        assert !Deletable(g, k, s, v);
      }
    }
  }

  /** s holds all neighbours of its members. */
  ghost predicate HoldsNeighbours(g: seq<set<int>>, s: set<int>)
  {
    forall v, w {:trigger w in g[v]} :: v in s && 0 <= v < |g| && w in g[v] ==> w in s
  }

  lemma CoreInside(g: seq<set<int>>, k: int, core: set<int>, s: set<int>)
    requires IsCore(g, k, core) && HoldsNeighbours(g, s)
    ensures IsCore(g, k, core * s)
  {
    forall v {:trigger Enough(g, k, core * s, v)} | v in core * s
      ensures Enough(g, k, core * s, v)
    {
      assert Enough(g, k, core, v);
      forall w | w in g[v] && w in core ensures w in s {}
      assert g[v] * (core * s) == g[v] * core;
    }
  }

  lemma RemovableIff(g: seq<set<int>>, k: int, s: set<int>, v: int)
    requires HoldsNeighbours(g, s) && v in s && forall x :: x in s ==> 0 <= x < |g|
    ensures Removable(g, k, s, v) <==> v !in CoreSet(g, k + 1)
  {
    CoreSetGreatest(g, k + 1);
    if Removable(g, k, s, v) {
      var t :| Strips(g, k, s, t) && v !in t;
      CoreInside(g, k + 1, CoreSet(g, k + 1), s);
      StripsKeepCore(g, k, s, t, CoreSet(g, k + 1) * s);
    } else {
      var t := StripsToCore(g, k, s);
      assert v in t && t <= CoreSet(g, k + 1);
    }
  }

  // ---------- the exact condition ----------

  ghost function Component(g: seq<seq<int>>, v: int): set<int>
  {
    set w | 0 <= w < |g| && Reaches(Adj(g), v, w)
  }

  lemma ComponentHolds(g: seq<seq<int>>, v: int)
    requires WellFormed(g) && 0 <= v < |g|
    ensures v in Component(g, v) && HoldsNeighbours(SetsOf(g), Component(g, v))
  {
    forall x, w {:trigger w in SetsOf(g)[x]} | x in Component(g, v) && w in SetsOf(g)[x]
      ensures w in Component(g, v)
    {
      assert w in g[x];
      ReachesStep(Adj(g), x, w);
      ReachesTrans(Adj(g), v, x, w);
    }
  }

  /** All nodes of a component have the same least degree. */
  lemma SameLeastDegree(g: seq<seq<int>>, v: int, w: int, k: int)
    requires Symmetric(Adj(g)) && IsLeastDegree(g, v, k) && w in Component(g, v)
    ensures IsLeastDegree(g, w, k)
  {
    ReachesSym(Adj(g), v, w);
    var x :| 0 <= x < |g| && Reaches(Adj(g), v, x) && |g[x]| == k;
    ReachesTrans(Adj(g), w, v, x);
    forall y | 0 <= y < |g| && Reaches(Adj(g), w, y)
      ensures k <= |g[y]|
    {
      ReachesTrans(Adj(g), v, w, y);
    }
  }

  /** A number k is the core number of a node exactly if deleting nodes with at most k neighbours left, starting from
      its component, can remove it, and deleting those with fewer cannot. */
  lemma ExactForNode(g: seq<seq<int>>, v: int, k: int)
    requires WellFormed(g) && 0 <= v < |g|
    ensures IsCoreNumber(g, v, k) <==>
            Removable(SetsOf(g), k, Component(g, v), v) && !Removable(SetsOf(g), k - 1, Component(g, v), v)
    ensures Simple(g) && IsLeastDegree(g, v, k) ==> !Removable(SetsOf(g), k - 1, Component(g, v), v)
  {
    ComponentHolds(g, v);
    RemovableIff(SetsOf(g), k, Component(g, v), v);
    RemovableIff(SetsOf(g), k - 1, Component(g, v), v);
    if Simple(g) && IsLeastDegree(g, v, k) { NumberWithinCore(g, v, k); }
  }

  /** Every node of s has k neighbours, each counted once. */
  ghost predicate AllLinked(g: seq<set<int>>, s: set<int>, k: int)
  {
    forall w {:trigger g[w]} :: w in s && 0 <= w < |g| ==> |g[w]| >= k
  }

  lemma LinkedIsCore(g: seq<set<int>>, s: set<int>, k: int)
    requires HoldsNeighbours(g, s) && AllLinked(g, s, k) && forall v :: v in s ==> 0 <= v < |g|
    ensures s <= CoreSet(g, k)
  {
    forall v {:trigger Enough(g, k, s, v)} | v in s
      ensures Enough(g, k, s, v)
    {
      forall w | w in g[v] ensures w in s {}
      assert g[v] * s == g[v];
    }
    CoreSetGreatest(g, k);
  }

  lemma CoreIsLinked(g: seq<set<int>>, s: set<int>, k: int)
    requires s <= CoreSet(g, k)
    ensures AllLinked(g, s, k)
  {
    CoreSetGreatest(g, k);
    forall w {:trigger g[w]} | w in s && 0 <= w < |g|
      ensures |g[w]| >= k
    {
      assert Enough(g, k, CoreSet(g, k), w);
      SubsetSize(g[w] * CoreSet(g, k), g[w]);
    }
  }

  ghost predicate AllExact(g: seq<seq<int>>, s: set<int>, k: int)
  {
    forall w {:trigger IsCoreNumber(g, w, k)} :: w in s ==> IsCoreNumber(g, w, k)
  }

  /** All nodes of a component have the core number k exactly if those deletions can empty it and every node has k
      different neighbours, which on a simple graph they have for the number that the code reports. */
  lemma ExactForComponent(g: seq<seq<int>>, v: int, k: int)
    requires WellFormed(g) && 0 <= v < |g|
    ensures AllExact(g, Component(g, v), k) <==>
            Strips(SetsOf(g), k, Component(g, v), {}) && AllLinked(SetsOf(g), Component(g, v), k)
    ensures Simple(g) && IsLeastDegree(g, v, k) ==> AllLinked(SetsOf(g), Component(g, v), k)
  {
    var sets, s := SetsOf(g), Component(g, v);
    ComponentHolds(g, v);
    if Strips(sets, k, s, {}) && AllLinked(sets, s, k) {
      StrippedIsExact(g, s, k);
    }
    if AllExact(g, s, k) {
      ExactIsStripped(g, s, k);
    }
    if Simple(g) && IsLeastDegree(g, v, k) { SimpleLinked(g, s, v, k); }
  }

  lemma StrippedIsExact(g: seq<seq<int>>, s: set<int>, k: int)
    requires HoldsNeighbours(SetsOf(g), s) && forall v :: v in s ==> 0 <= v < |g|
    requires Strips(SetsOf(g), k, s, {}) && AllLinked(SetsOf(g), s, k)
    ensures AllExact(g, s, k)
  {
    LinkedIsCore(SetsOf(g), s, k);
    forall w {:trigger IsCoreNumber(g, w, k)} | w in s
      ensures IsCoreNumber(g, w, k)
    {
      assert w !in {} && Removable(SetsOf(g), k, s, w);
      RemovableIff(SetsOf(g), k, s, w);
    }
  }

  lemma ExactIsStripped(g: seq<seq<int>>, s: set<int>, k: int)
    requires AllExact(g, s, k) && forall v :: v in s ==> 0 <= v < |g|
    ensures Strips(SetsOf(g), k, s, {}) && AllLinked(SetsOf(g), s, k)
  {
    forall w | w in s
      ensures w in CoreSet(SetsOf(g), k) && w !in CoreSet(SetsOf(g), k + 1)
    {
      assert IsCoreNumber(g, w, k);
    }
    var t := StripsToCore(SetsOf(g), k, s);
    CoreSetGreatest(SetsOf(g), k + 1);
    assert t == {};
    CoreIsLinked(SetsOf(g), s, k);
  }

  lemma SimpleLinked(g: seq<seq<int>>, s: set<int>, v: int, k: int)
    requires Simple(g) && IsLeastDegree(g, v, k) && forall w :: w in s ==> 0 <= w < |g| && Reaches(Adj(g), v, w)
    ensures AllLinked(SetsOf(g), s, k)
  {
    forall w {:trigger SetsOf(g)[w]} | w in s && 0 <= w < |SetsOf(g)|
      ensures |SetsOf(g)[w]| >= k
    {
      NoRepeatsSize(g[w]);
      assert SetsOf(g)[w] == set x | x in g[w];
    }
  }

  // ---------- where the condition holds ----------

  ghost predicate LowDegree(g: seq<set<int>>, k: int, v: int)
  {
    0 <= v < |g| && |g[v]| <= k
  }

  /** Nodes that all have at most k neighbours can be deleted in any order. */
  lemma {:induction false} LowDegreesStrip(g: seq<set<int>>, k: int, s: set<int>)
    requires forall v {:trigger LowDegree(g, k, v)} :: v in s ==> LowDegree(g, k, v)
    ensures Strips(g, k, s, {})
    decreases |s|
  {
    if s != {} {
      assert (forall x :: x !in s) ==> s == {};
      var v :| v in s;
      assert LowDegree(g, k, v);
      SubsetSize(g[v] * s, g[v]);
      LowDegreesStrip(g, k, s - {v});
      assert Deletable(g, k, s, v);
    }
  }

  /** A component in which all nodes have the same degree is exact. */
  lemma RegularIsExact(g: seq<seq<int>>, v: int, k: int)
    requires WellFormed(g) && Symmetric(Adj(g)) && Simple(g) && 0 <= v < |g| && IsLeastDegree(g, v, k)
    requires forall w {:trigger g[w]} :: w in Component(g, v) ==> |g[w]| == k
    ensures AllExact(g, Component(g, v), k)
  {
    forall w {:trigger LowDegree(SetsOf(g), k, w)} | w in Component(g, v)
      ensures LowDegree(SetsOf(g), k, w)
    {
      NoRepeatsSize(g[w]);
    }
    LowDegreesStrip(SetsOf(g), k, Component(g, v));
    ExactForComponent(g, v, k);
  }

  /** A path through linked nodes of s without repetition. */
  ghost predicate IsPath(g: seq<set<int>>, s: set<int>, p: seq<int>)
  {
    && |p| > 0 && NoRepeats(p) && (forall i :: 0 <= i < |p| ==> p[i] in s && 0 <= p[i] < |g|)
    && forall i :: 0 < i < |p| ==> p[i] in g[p[i - 1]]
  }

  /** At least three nodes in a circle. */
  ghost predicate IsCycle(g: seq<set<int>>, p: seq<int>)
  {
    && |p| >= 3 && NoRepeats(p) && (forall i :: 0 <= i < |p| ==> 0 <= p[i] < |g|)
    && (forall i :: 0 < i < |p| ==> p[i] in g[p[i - 1]]) && p[0] in g[p[|p| - 1]]
  }

  ghost predicate IsForest(g: seq<set<int>>)
  {
    forall p :: !IsCycle(g, p)
  }

  lemma OtherNeighbour(s: set<int>, avoid: int) returns (w: int)
    requires |s| >= 2
    ensures w in s && w != avoid
  {
    if forall x :: x in s ==> x == avoid {
      SubsetSize(s, {avoid});
    }
    w :| w in s && w != avoid;
  }

  lemma CloseCycle(g: seq<set<int>>, s: set<int>, p: seq<int>, i: int)
    requires IsPath(g, s, p) && 0 <= i < |p| - 2 && p[i] in g[p[|p| - 1]]
    ensures IsCycle(g, p[i..])
  {}

  /** Where everyone has two neighbours a path can be continued until it closes. */
  lemma {:induction false} CoreHasCycle(g: seq<set<int>>, s: set<int>, p: seq<int>) returns (c: seq<int>)
    requires IsCore(g, 2, s) && IsPath(g, s, p)
    requires forall v {:trigger g[v]} :: 0 <= v < |g| ==> v !in g[v]
    ensures IsCycle(g, c)
    decreases |s| - |p|
  {
    var last := p[|p| - 1];
    NoRepeatsFits(p, s);
    assert Enough(g, 2, s, last);
    var w := OtherNeighbour(g[last] * s, if |p| > 1 then p[|p| - 2] else last);
    if w in p {
      var i :| 0 <= i < |p| && p[i] == w;
      CloseCycle(g, s, p, i);
      c := p[i..];
    } else {
      assert Enough(g, 2, s, w);
      NoRepeatsFits(p + [w], s);
      c := CoreHasCycle(g, s, p + [w]);
    }
  }

  /** The trees of a forest are exact. */
  lemma ForestIsExact(g: seq<seq<int>>, v: int, k: int)
    requires WellFormed(g) && Symmetric(Adj(g)) && Simple(g) && 0 <= v < |g| && IsLeastDegree(g, v, k)
    requires IsForest(SetsOf(g)) && forall x {:trigger g[x]} :: 0 <= x < |g| ==> x !in g[x]
    ensures AllExact(g, Component(g, v), k)
  {
    var sets, s := SetsOf(g), Component(g, v);
    assert k >= 0 by {
      var w :| 0 <= w < |g| && Reaches(Adj(g), v, w) && |g[w]| == k;
    }
    if k == 0 {
      IsolatedIsExact(g, v);
    } else {
      var t := StripsToCore(sets, k, s);
      if x :| x in t {
        forall y {:trigger Enough(sets, 2, t, y)} | y in t
          ensures Enough(sets, 2, t, y)
        {
          assert Enough(sets, k + 1, t, y);
        }
        assert Enough(sets, 2, t, x);
        var c := CoreHasCycle(sets, t, [x]);
      }
      assert t == {};
      ExactForComponent(g, v, k);
    }
  }

  /** A component with an isolated node is that node. */
  lemma IsolatedIsExact(g: seq<seq<int>>, v: int)
    requires WellFormed(g) && Symmetric(Adj(g)) && Simple(g) && 0 <= v < |g| && IsLeastDegree(g, v, 0)
    ensures AllExact(g, Component(g, v), 0)
  {
    var w :| 0 <= w < |g| && Reaches(Adj(g), v, w) && |g[w]| == 0;
    var single := {w};
    var only := iset x | x in single;
    assert Closed(Adj(g), only);
    ReachesSym(Adj(g), v, w);
    assert v in only;
    forall x | x in Component(g, v)
      ensures x == v
    {
      assert x in only;
    }
    RegularIsExact(g, v, 0);
  }

  // ---------- parallel relationships ----------

  ghost const PAIR_NODES: seq<int> := [0, 1]
  ghost const PAIR_RELS: seq<Relationship> := [Link(0, 1), Link(0, 1)]

  lemma PairLists()
    ensures BothLists(PAIR_NODES, PAIR_RELS) == [[1, 1], [0, 0]]
  {
    assert [] + [Link(0, 1)] == [Link(0, 1)] && [Link(0, 1)] + [Link(0, 1)] == PAIR_RELS;
    assert PAIR_NODES[0] == 0 && PAIR_NODES[1] == 1;
    BothListsStep(PAIR_NODES, [], 0, 1);
    BothListsStep(PAIR_NODES, [Link(0, 1)], 0, 1);
    assert [] + [1] == [1] && [] + [0] == [0] && [1] + [1] == [1, 1] && [0] + [0] == [0, 0];
    assert BothLists(PAIR_NODES, []) == [[], []];
    assert AddBothArcs([[], []], 0, 1) == [[1], [0]];
  }

  /** Two relationships between two nodes give both the number 2, which is above their core number. */
  lemma NumberAboveCore(k: int)
    requires IsLeastDegree(BothLists(PAIR_NODES, PAIR_RELS), 0, k)
    ensures k == 2 && 0 !in CoreSet(SetsOf(BothLists(PAIR_NODES, PAIR_RELS)), 2)
  {
    PairLists();
    var g := [[1, 1], [0, 0]];
    var w :| 0 <= w < |g| && |g[w]| == k;
    assert w == 0 || w == 1;
    var sets := SetsOf(g);
    assert sets[0] == {1};
    CoreSetGreatest(sets, 2);
    if 0 in CoreSet(sets, 2) {
      assert Enough(sets, 2, CoreSet(sets, 2), 0);
      SubsetSize(sets[0] * CoreSet(sets, 2), sets[0]);
    }
  }
}
