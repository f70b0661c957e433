/** The k-core by repeated peeling. */
module KCore {
  import opened Graphs
  import opened Counting
  import opened Randomness

  ghost function SetsOf(g: seq<seq<int>>): (sets: seq<set<int>>)
    ensures |sets| == |g| && forall i :: 0 <= i < |g| ==> sets[i] == set x | x in g[i]
  {
    seq(|g|, i requires 0 <= i < |g| => set x | x in g[i])
  }

  ghost predicate Enough(g: seq<set<int>>, k: int, s: set<int>, v: int)
  {
    0 <= v < |g| && |g[v] * s| >= k
  }

  /** Every node of s has at least k neighbours inside s. */
  ghost predicate IsCore(g: seq<set<int>>, k: int, s: set<int>)
  {
    forall v {:trigger Enough(g, k, s, v)} :: v in s ==> Enough(g, k, s, v)
  }

  ghost predicate InSomeCore(g: seq<set<int>>, k: int, v: int)
  {
    exists s :: IsCore(g, k, s) && v in s
  }

  /** The union of all cores. */
  ghost function CoreSet(g: seq<set<int>>, k: int): set<int>
  {
    set v | 0 <= v < |g| && InSomeCore(g, k, v)
  }

  /** The union of the cores is itself a core, and the greatest one. */
  lemma CoreSetGreatest(g: seq<set<int>>, k: int)
    ensures IsCore(g, k, CoreSet(g, k))
    ensures forall s :: IsCore(g, k, s) ==> s <= CoreSet(g, k)
  {
    var all := CoreSet(g, k);
    forall s | IsCore(g, k, s)
      ensures s <= all
    {
      forall v | v in s
        ensures v in all
      {
        assert Enough(g, k, s, v) && InSomeCore(g, k, v);
      }
    }
    forall v {:trigger Enough(g, k, all, v)} | v in all
      ensures Enough(g, k, all, v)
    {
      var s :| IsCore(g, k, s) && v in s;
      assert Enough(g, k, s, v);
      SubsetSize(g[v] * s, g[v] * all);
    }
  }

  lemma CoresNest(g: seq<set<int>>, k: int, m: int)
    requires k <= m
    ensures CoreSet(g, m) <= CoreSet(g, k)
  {
    CoreSetGreatest(g, m);
    CoreSetGreatest(g, k);
    forall v {:trigger Enough(g, k, CoreSet(g, m), v)} | v in CoreSet(g, m)
      ensures Enough(g, k, CoreSet(g, m), v)
    {
      assert Enough(g, m, CoreSet(g, m), v);
    }
  }

  /** Every node belongs to the 0-core. */
  lemma ZeroCore(g: seq<set<int>>, k: int)
    requires k <= 0
    ensures CoreSet(g, k) == Range(|g|)
  {
    var all := Range(|g|);
    forall v {:trigger Enough(g, k, all, v)} | v in all
      ensures Enough(g, k, all, v)
    {}
    CoreSetGreatest(g, k);
    assert IsCore(g, k, all);
  }

  ghost function Alive(removed: seq<bool>): set<int>
  {
    set i | 0 <= i < |removed| && !removed[i]
  }

  /** The nodes at the positions in s, in list order. */
  function Select(nodes: seq<int>, s: set<int>): seq<int>
  {
    if |nodes| == 0 then []
    else
      var last := |nodes| - 1;
      Select(nodes[..last], s) + if last in s then [nodes[last]] else []
  }

  /** The positions of s before i. */
  ghost function Before(s: set<int>, i: int): set<int>
  {
    set j | j in s && 0 <= j < i
  }

  lemma BeforeNext(s: set<int>, i: nat)
    ensures |Before(s, i + 1)| == |Before(s, i)| + if i in s then 1 else 0
  {
    if i in s {
      assert Before(s, i + 1) == Before(s, i) + {i};
    } else {
      assert Before(s, i + 1) == Before(s, i);
    }
  }

  /** A selected node stands behind as many others as positions before it are selected. */
  lemma {:induction false} SelectAt(nodes: seq<int>, s: set<int>, i: int)
    ensures |Select(nodes, s)| == |Before(s, |nodes|)|
    ensures i in s && 0 <= i < |nodes| ==>
            |Before(s, i)| < |Select(nodes, s)| && Select(nodes, s)[|Before(s, i)|] == nodes[i]
  {
    if |nodes| == 0 {
      assert Before(s, 0) == {};
    } else {
      var last := |nodes| - 1;
      SelectAt(nodes[..last], s, i);
      BeforeNext(s, last);
    }
  }

  lemma SelectMember(nodes: seq<int>, s: set<int>, id: int)
    ensures id in Select(nodes, s) <==> exists i :: i in s && 0 <= i < |nodes| && nodes[i] == id
  {
    if |nodes| > 0 {
      var last := |nodes| - 1;
      SelectMember(nodes[..last], s, id);
      if exists i :: i in s && 0 <= i < |nodes| && nodes[i] == id {
        var i :| i in s && 0 <= i < |nodes| && nodes[i] == id;
        if i < last { assert nodes[..last][i] == id; }
      }
      if i :| i in s && 0 <= i < last && nodes[..last][i] == id {
        assert nodes[i] == id;
      }
    }
  }

  lemma SetsOfAddArc(g: seq<seq<int>>, i: int, j: int)
    requires 0 <= i < |g|
    ensures SetsOf(AddArc(g, i, j)) == SetsOf(g)[i := SetsOf(g)[i] + {j}]
  {
    assert (set x | x in g[i] + [j]) == (set x | x in g[i]) + {j};
  }

  lemma SetsStep(nodes: seq<int>, rels: seq<Relationship>, k: int)
    requires 0 <= k < |rels|
    ensures SetsOf(BothLists(nodes, rels[..k + 1])) ==
            var sets, r, idx := SetsOf(BothLists(nodes, rels[..k])), rels[k], NodeIndex(nodes);
            if r.startNode in idx && r.endNode in idx then AddBoth(sets, idx[r.startNode], idx[r.endNode]) else sets
  {
    assert rels[..k + 1][..k] == rels[..k];
    var g, r, idx := BothLists(nodes, rels[..k]), rels[k], NodeIndex(nodes);
    if r.startNode in idx && r.endNode in idx {
      SetsOfAddArc(g, idx[r.startNode], idx[r.endNode]);
      SetsOfAddArc(AddArc(g, idx[r.startNode], idx[r.endNode]), idx[r.endNode], idx[r.startNode]);
    }
  }

  function AddBoth(sets: seq<set<int>>, i: int, j: int): seq<set<int>>
    requires 0 <= i < |sets| && 0 <= j < |sets|
  {
    var once := sets[i := sets[i] + {j}];
    once[j := once[j] + {i}]
  }

  lemma NoSets(nodes: seq<int>, neighbors: seq<set<int>>)
    requires |neighbors| == |nodes| && forall i :: 0 <= i < |nodes| ==> neighbors[i] == {}
    ensures neighbors == SetsOf(BothLists(nodes, []))
  {
    forall i | 0 <= i < |nodes|
      ensures SetsOf(BothLists(nodes, []))[i] == {}
    {
      assert BothLists(nodes, [])[i] == [];
    }
  }

  method BuildNeighborSets(nodes: seq<int>, rels: seq<Relationship>) returns (neighbors: seq<set<int>>)
    ensures neighbors == SetsOf(BothLists(nodes, rels))
  {
    var nodeIndex := BuildNodeIndex(nodes);
    neighbors := seq(|nodes|, _ => {});
    NoSets(nodes, neighbors);
    assert rels[..0] == [];
    for k := 0 to |rels|
      invariant neighbors == SetsOf(BothLists(nodes, rels[..k]))
    {
      SetsStep(nodes, rels, k);
      var rel := rels[k];
      if rel.startNode !in nodeIndex || rel.endNode !in nodeIndex { continue; }
      var startIdx, endIdx := nodeIndex[rel.startNode], nodeIndex[rel.endNode];
      neighbors := neighbors[startIdx := neighbors[startIdx] + {endIdx}];
      neighbors := neighbors[endIdx := neighbors[endIdx] + {startIdx}];
    }
    assert rels[..|rels|] == rels;
  }

  /** Counts the neighbours that are left, in any order. */
  method RemainingDegree(neighbors: set<int>, removed: seq<bool>) returns (degree: int)
    requires forall x :: x in neighbors ==> 0 <= x < |removed|
    ensures degree == |neighbors * Alive(removed)|
  {
    ghost var alive := Alive(removed);
    degree := 0;
    var left := neighbors;
    while left != {}
      invariant left <= neighbors && degree + |left * alive| == |neighbors * alive|
    {
      var x :| x in left;
      assert if x in alive then left * alive == (left - {x}) * alive + {x} else left * alive == (left - {x}) * alive;
      left := left - {x};
      if !removed[x] {
        degree := degree + 1;
      }
    }
  }

  /** One pass over the nodes in any order; it never removes a node of a core. */
  method Sweep(g: seq<set<int>>, k: int, before: seq<bool>, order: seq<int>, ghost core: set<int>)
    returns (removed: seq<bool>, changed: bool)
    requires IsPerm(order, |g|)
    requires |before| == |g| && IsCore(g, k, core) && core <= Alive(before)
    requires forall v, w {:trigger w in g[v]} :: 0 <= v < |g| && w in g[v] ==> 0 <= w < |g|
    ensures |removed| == |g| && core <= Alive(removed)
    ensures forall j :: 0 <= j < |g| && before[j] ==> removed[j]
    ensures if changed then removed != before else removed == before && IsCore(g, k, Alive(removed))
  {
    removed, changed := before, false;
    ghost var alive := Alive(before);
    for n := 0 to |order|
      invariant |removed| == |g| && forall x :: x in core ==> 0 <= x < |g| && !removed[x]
      invariant forall j :: 0 <= j < |g| && before[j] ==> removed[j]
      invariant if changed then removed != before else removed == before
      invariant !changed ==> forall m {:trigger order[m]} :: 0 <= m < n && order[m] in alive ==>
                Enough(g, k, alive, order[m])
    {
      var i := order[n];
      if removed[i] { continue; }
      var degree := RemainingDegree(g[i], removed);
      if degree < k {
        PeelOne(g, k, core, Alive(removed), i);
        removed := removed[i := true];
        changed := true;
      }
    }
    forall v {:trigger Enough(g, k, alive, v)} | !changed && v in alive
      ensures Enough(g, k, alive, v)
    {
      assert v in order;
    }
  }

  /** How many nodes are left. */
  ghost function Left(removed: seq<bool>): nat
  {
    if |removed| == 0 then 0 else Left(removed[1..]) + if removed[0] then 0 else 1
  }

  lemma {:induction false} LeftDrops(before: seq<bool>, removed: seq<bool>)
    requires |before| == |removed| && forall j :: 0 <= j < |before| && before[j] ==> removed[j]
    ensures Left(removed) <= Left(before)
    ensures removed != before ==> Left(removed) < Left(before)
  {
    if |before| > 0 {
      assert removed[1..] == before[1..] && removed[0] == before[0] ==> removed == before;
      LeftDrops(before[1..], removed[1..]);
    }
  }

  lemma PeelOne(g: seq<set<int>>, k: int, core: set<int>, alive: set<int>, i: int)
    requires IsCore(g, k, core) && core <= alive && 0 <= i < |g| && |g[i] * alive| < k
    ensures i !in core
  {
    assert i in core ==> Enough(g, k, core, i);
    SubsetSize(g[i] * core, g[i] * alive);
  }

  /** The source sweeps in index order; here every sweep may take any order. */
  method Peel(g: seq<set<int>>, k: int) returns (removed: seq<bool>)
    requires forall v, w {:trigger w in g[v]} :: 0 <= v < |g| && w in g[v] ==> 0 <= w < |g|
    ensures |removed| == |g| && Alive(removed) == CoreSet(g, k)
  {
    removed := seq(|g|, _ => false);
    ghost var core := CoreSet(g, k);
    CoreSetGreatest(g, k);
    assert core <= Alive(removed);
    var changed := true;
    while changed
      invariant |removed| == |g| && core <= Alive(removed)
      invariant !changed ==> IsCore(g, k, Alive(removed))
      decreases Left(removed), changed
    {
      ghost var before := removed;
      var order := Perm(|g|);
      removed, changed := Sweep(g, k, removed, order, core);
      LeftDrops(before, removed);
    }
  }

  method KCore(nodes: seq<int>, rels: seq<Relationship>, k: int) returns (result: seq<int>)
    ensures k <= 0 ==> result == []
    ensures k > 0 ==> result == Select(nodes, CoreSet(SetsOf(BothLists(nodes, rels)), k))
  {
    if |nodes| == 0 || k <= 0 { return []; }
    BothListsArcs(nodes, rels);
    var neighbors := BuildNeighborSets(nodes, rels);
    var removed := Peel(neighbors, k);
    result := [];
    for i := 0 to |nodes|
      invariant result == Select(nodes[..i], Alive(removed))
    {
      assert nodes[..i + 1][..i] == nodes[..i];
      if !removed[i] {
        result := result + [nodes[i]];
      }
    }
    assert nodes[..|nodes|] == nodes;
  }
}
