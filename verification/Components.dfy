/** Weakly connected components by breadth-first flooding, their count, and the strong components. */
module Components {
  import opened Walks
  import opened Counting
  import opened Graphs
  import Tarjan

  ghost predicate Connected(nodes: seq<int>, rels: seq<Relationship>, i: int, j: int)
  {
    Reaches(Adj(BothLists(nodes, rels)), i, j)
  }

  /** The numbers 0, 1, 2, ... are handed out in the order of their first occurrence. */
  ghost predicate ByFirstOccurrence(ids: seq<int>)
  {
    && (forall i :: 0 <= i < |ids| ==> 0 <= ids[i])
    && (forall i {:trigger HasPredecessor(ids, i)} :: 0 <= i < |ids| && ids[i] > 0 ==> HasPredecessor(ids, i))
  }

  ghost predicate HasPredecessor(ids: seq<int>, i: int)
    requires 0 <= i < |ids|
  {
    exists j :: 0 <= j < i && ids[j] == ids[i] - 1
  }

  ghost predicate OccursBefore(ids: seq<int>, c: int, i: int)
  {
    exists j :: 0 <= j < i && j < |ids| && ids[j] == c
  }

  /** Equal numbers mean connected by an undirected path, and the numbering is by first occurrence. */
  ghost predicate IsComponentNumbering(nodes: seq<int>, rels: seq<Relationship>, ids: seq<int>)
  {
    && |ids| == |nodes|
    && (forall i, j :: 0 <= i < |ids| && 0 <= j < |ids| ==> (ids[i] == ids[j] <==> Connected(nodes, rels, i, j)))
    && ByFirstOccurrence(ids)
  }

  // ---------- flooding ----------

  /** Every class numbered so far is closed under neighbours, and a class is a connected set. */
  ghost predicate Flooded(g: seq<seq<int>>, comp: seq<int>, current: int)
  {
    && |comp| == |g|
    && (forall v :: 0 <= v < |g| ==> -1 <= comp[v] < current)
    && (forall v, w {:trigger w in g[v]} :: 0 <= v < |g| && w in g[v] && 0 <= w < |g| && comp[v] != -1 ==>
       comp[w] == comp[v])
    && (forall v, w {:trigger Reaches(Adj(g), v, w)} ::
          0 <= v < |g| && 0 <= w < |g| && comp[v] == comp[w] != -1 ==> Reaches(Adj(g), v, w))
  }

  /** The class `current` is being flooded from start; the queue holds what has not been expanded. */
  ghost predicate Flooding(g: seq<seq<int>>, before: seq<int>, comp: seq<int>, current: int, start: int,
                           queue: seq<int>)
  {
    && WellFormed(g) && Symmetric(Adj(g)) && Flooded(g, before, current) && |comp| == |g|
    && 0 <= start < |g| && before[start] == -1 && comp[start] == current
    && (forall v :: 0 <= v < |g| ==> comp[v] == before[v] || (comp[v] == current && before[v] == -1))
    && (forall v :: 0 <= v < |g| && comp[v] == current ==> Reaches(Adj(g), start, v))
    && (forall v :: v in queue ==> 0 <= v < |g| && comp[v] == current)
  }

  ghost predicate Expanded(g: seq<seq<int>>, comp: seq<int>, current: int, v: int)
    requires |comp| == |g| && 0 <= v < |g|
  {
    forall w :: w in g[v] && 0 <= w < |g| ==> comp[w] == current
  }

  ghost function Unassigned(comp: seq<int>): set<int>
  {
    set v | 0 <= v < |comp| && comp[v] == -1
  }

  method ComponentIds(g: seq<seq<int>>) returns (component: seq<int>)
    requires WellFormed(g) && Symmetric(Adj(g))
    ensures |component| == |g| && ByFirstOccurrence(component)
    ensures forall i, j :: 0 <= i < |g| && 0 <= j < |g| ==> (component[i] == component[j] <==> Reaches(Adj(g), i, j))
  {
    component := seq(|g|, _ => -1);
    var currentComponent := 0;
    for start := 0 to |g|
      invariant Flooded(g, component, currentComponent) && 0 <= currentComponent
      invariant forall v :: 0 <= v < start ==> component[v] != -1
      invariant currentComponent > 0 ==> OccursBefore(component, currentComponent - 1, start)
      invariant forall v {:trigger HasPredecessor(component, v)} ::
                  0 <= v < |g| && component[v] > 0 ==> HasPredecessor(component, v)
    {
      if component[start] == -1 {
        ghost var before := component;
        component := Flood(g, component, start, currentComponent);
        FloodNumbers(before, component, start, currentComponent);
        currentComponent := currentComponent + 1;
      } else {
        Later(component, currentComponent - 1, start);
      }
    }
    forall i, j | 0 <= i < |g| && 0 <= j < |g| && Reaches(Adj(g), i, j)
      ensures component[i] == component[j]
    {
      var c := iset x | 0 <= x < |g| && component[x] == component[i];
      forall x, y | x in c && y in Adj(g)(x) ensures y in c { assert y in g[x]; }
      assert Closed(Adj(g), c) && i in c;
    }
  }

  lemma Later(ids: seq<int>, c: int, i: int)
    ensures OccursBefore(ids, c, i) ==> OccursBefore(ids, c, i + 1)
  {}

  lemma FloodNumbers(before: seq<int>, comp: seq<int>, start: int, current: int)
    requires |before| == |comp| && 0 <= start < |comp| && comp[start] == current >= 0
    requires forall v :: 0 <= v < start ==> before[v] != -1
    requires forall v :: 0 <= v < |comp| ==> comp[v] == before[v] || (comp[v] == current && before[v] == -1)
    requires forall v {:trigger HasPredecessor(before, v)} ::
               0 <= v < |comp| && before[v] > 0 ==> HasPredecessor(before, v)
    requires current > 0 ==> OccursBefore(before, current - 1, start)
    ensures OccursBefore(comp, current, start + 1)
    ensures forall v {:trigger HasPredecessor(comp, v)} ::
              0 <= v < |comp| && comp[v] > 0 ==> HasPredecessor(comp, v)
  {
    forall v {:trigger HasPredecessor(comp, v)} | 0 <= v < |comp| && comp[v] > 0
      ensures HasPredecessor(comp, v)
    {
      if comp[v] == before[v] {
        assert HasPredecessor(before, v);
        var j :| 0 <= j < v && before[j] == before[v] - 1;
        assert comp[j] == before[j];
      } else {
        var j :| 0 <= j < start && before[j] == current - 1;
        assert comp[j] == before[j];
      }
    }
  }

  /** All numbered nodes but those in the queue, and v, have numbered neighbours. */
  ghost predicate ExpandedBut(g: seq<seq<int>>, comp: seq<int>, current: int, queue: seq<int>, v: int)
    requires |comp| == |g|
  {
    forall x :: 0 <= x < |g| && comp[x] == current && x !in queue && x != v ==> Expanded(g, comp, current, x)
  }

  lemma AssignShrinks(comp: seq<int>, w: int, current: int)
    requires 0 <= w < |comp| && comp[w] == -1 && current >= 0
    ensures Unassigned(comp[w := current]) < Unassigned(comp)
  {
    assert w in Unassigned(comp) && w !in Unassigned(comp[w := current]);
  }

  /** The inner loop: the neighbours of v that have no number get the current one and join the queue. */
  method FloodFrom(g: seq<seq<int>>, before: seq<int>, start: int, current: int, v: int, component0: seq<int>,
                   rest: seq<int>)
    returns (component: seq<int>, queue: seq<int>)
    requires 0 <= v < |g| && Flooding(g, before, component0, current, start, rest) && component0[v] == current &&
             0 <= current
    requires ExpandedBut(g, component0, current, rest, v)
    ensures Flooding(g, before, component, current, start, queue)
    ensures ExpandedBut(g, component, current, queue, -1)
    ensures Unassigned(component) < Unassigned(component0) ||
            (Unassigned(component) == Unassigned(component0) && queue == rest)
  {
    component, queue := component0, rest;
    for i := 0 to |g[v]|
      invariant Flooding(g, before, component, current, start, queue) && component[v] == current
      invariant ExpandedBut(g, component, current, queue, v)
      invariant forall k :: 0 <= k < i ==> 0 <= g[v][k] < |g| && component[g[v][k]] == current
      invariant Unassigned(component) < Unassigned(component0) ||
                (Unassigned(component) == Unassigned(component0) && queue == rest)
    {
      var w := g[v][i];
      assert w in g[v];
      NeighbourIsFree(g, before, component, current, start, queue, v, w);
      if component[w] == -1 {
        AssignShrinks(component, w, current);
        component := component[w := current];
        queue := queue + [w];
      }
    }
  }

  method Flood(g: seq<seq<int>>, before: seq<int>, start: int, current: int) returns (component: seq<int>)
    requires WellFormed(g) && Symmetric(Adj(g)) && Flooded(g, before, current) && 0 <= current
    requires 0 <= start < |g| && before[start] == -1
    ensures Flooded(g, component, current + 1) && component[start] == current
    ensures forall v :: 0 <= v < |g| ==>
              component[v] == before[v] || (component[v] == current && before[v] == -1)
  {
    component := before[start := current];
    var queue := [start];
    assert Reaches(Adj(g), start, start);
    while |queue| > 0
      invariant Flooding(g, before, component, current, start, queue)
      invariant ExpandedBut(g, component, current, queue, -1)
      decreases Unassigned(component), |queue|
    {
      var v := queue[0];
      assert v in queue && forall x :: x in queue <==> x == v || x in queue[1..] by {
        assert queue == [v] + queue[1..];
      }
      component, queue := FloodFrom(g, before, start, current, v, component, queue[1..]);
    }
    FloodDone(g, before, component, current, start);
  }

  lemma NeighbourIsFree(g: seq<seq<int>>, before: seq<int>, comp: seq<int>, current: int, start: int, queue: seq<int>,
                        v: int, w: int)
    requires Flooding(g, before, comp, current, start, queue) && 0 <= v < |g| && comp[v] == current && w in g[v]
    ensures comp[w] == -1 || comp[w] == current
    ensures Reaches(Adj(g), start, w)
  {
    assert w in Adj(g)(v) && v in Adj(g)(w);
    assert v in g[w];
    ReachesStep(Adj(g), v, w);
    ReachesTrans(Adj(g), start, v, w);
  }

  lemma FloodDone(g: seq<seq<int>>, before: seq<int>, comp: seq<int>, current: int, start: int)
    requires Flooding(g, before, comp, current, start, []) && 0 <= current
    requires forall v :: 0 <= v < |g| && comp[v] == current ==> Expanded(g, comp, current, v)
    ensures Flooded(g, comp, current + 1)
  {
    forall v, w | 0 <= v < |g| && 0 <= w < |g| && comp[v] == comp[w] != -1
      ensures Reaches(Adj(g), v, w)
    {
      if comp[v] == current {
        ReachesSym(Adj(g), start, v);
        ReachesTrans(Adj(g), v, start, w);
      } else {
        assert before[v] == before[w] != -1;
      }
    }
    forall v, w | 0 <= v < |g| && w in g[v] && 0 <= w < |g| && comp[v] != -1
      ensures comp[w] == comp[v]
    {
      if comp[v] == current { assert Expanded(g, comp, current, v); }
    }
  }

  method ConnectedComponents(nodes: seq<int>, rels: seq<Relationship>) returns (result: seq<NodeResult>)
    ensures |result| == |nodes| && forall i :: 0 <= i < |nodes| ==> result[i].node == nodes[i]
    ensures IsComponentNumbering(nodes, rels, Numbers(result))
  {
    if |nodes| == 0 { return []; }
    var neighbors := BuildNeighbors(nodes, rels);
    BothListsArcs(nodes, rels);
    var component := ComponentIds(neighbors);
    result := Label(nodes, component);
  }

  method StronglyConnectedComponents(nodes: seq<int>, rels: seq<Relationship>) returns (result: seq<NodeResult>)
    ensures |result| == |nodes| && forall i :: 0 <= i < |nodes| ==> result[i].node == nodes[i]
    ensures Tarjan.IsSccNumbering(OutLists(nodes, rels), Numbers(result))
    ensures Tarjan.InListOrder(OutLists(nodes, rels), Numbers(result))
  {
    OutListsArcs(nodes, rels);
    if |nodes| == 0 { return []; }
    var outNeighbors := BuildOutNeighbors(nodes, rels);
    var component := Tarjan.StronglyConnected(outNeighbors);
    result := Label(nodes, component);
  }

  ghost predicate SamePartition(a: seq<int>, b: seq<int>)
  {
    |a| == |b| &&
    forall i, j {:trigger a[i], a[j]} :: 0 <= i < |a| && 0 <= j < |a| ==> (a[i] == a[j] <==> b[i] == b[j])
  }

  /** Appending a number that has occurred, or the one after the largest so far, keeps the numbering. */
  lemma Appended(ids: seq<int>, c: int)
    requires ByFirstOccurrence(ids) && c >= 0
    requires c == 0 || OccursBefore(ids, c - 1, |ids|) || OccursBefore(ids, c, |ids|)
    ensures ByFirstOccurrence(ids + [c]) && OccursBefore(ids + [c], c, |ids| + 1)
    ensures forall x :: OccursBefore(ids, x, |ids|) ==> OccursBefore(ids + [c], x, |ids| + 1)
  {
    var after := ids + [c];
    assert after[|ids|] == c;
    forall x | OccursBefore(ids, x, |ids|)
      ensures OccursBefore(after, x, |ids| + 1)
    {
      var j :| 0 <= j < |ids| && ids[j] == x;
      assert after[j] == x;
    }
    forall k {:trigger HasPredecessor(after, k)} | 0 <= k < |after| && after[k] > 0
      ensures HasPredecessor(after, k)
    {
      var i := k;
      if k == |ids| && OccursBefore(ids, c, |ids|) {
        i :| 0 <= i < |ids| && ids[i] == c;
      }
      if i < |ids| {
        assert HasPredecessor(ids, i);
        var j :| 0 <= j < i && ids[j] == ids[i] - 1;
        assert after[j] == after[k] - 1;
      } else {
        var j :| 0 <= j < |ids| && ids[j] == c - 1;
        assert after[j] == c - 1;
      }
    }
  }

  /** The renumbering at the end of the community functions: same partition, numbers by first occurrence. */
  method Renumber(labels: seq<int>) returns (ids: seq<int>)
    ensures SamePartition(ids, labels) && ByFirstOccurrence(ids)
  {
    var remap: map<int, int> := map[];
    var nextID := 0;
    ids := [];
    for i := 0 to |labels|
      invariant |ids| == i && nextID >= 0 && ByFirstOccurrence(ids)
      invariant forall k :: 0 <= k < i ==> labels[k] in remap && ids[k] == remap[labels[k]]
      invariant forall a, b :: a in remap && b in remap && remap[a] == remap[b] ==> a == b
      invariant forall a {:trigger a in remap} :: a in remap ==>
                0 <= remap[a] < nextID && OccursBefore(ids, remap[a], i)
      invariant nextID > 0 ==> OccursBefore(ids, nextID - 1, i)
    {
      var lab := labels[i];
      Appended(ids, if lab in remap then remap[lab] else nextID);
      if lab !in remap {
        remap := remap[lab := nextID];
        nextID := nextID + 1;
      }
      ids := ids + [remap[lab]];
    }
  }

  // ---------- consequences ----------

  /** A strongly connected component lies inside one connected component. */
  lemma StrongWithinConnected(nodes: seq<int>, rels: seq<Relationship>, strong: seq<int>, weak: seq<int>, i: int,
                              j: int)
    requires Tarjan.IsSccNumbering(OutLists(nodes, rels), strong) && IsComponentNumbering(nodes, rels, weak)
    requires 0 <= i < |nodes| && 0 <= j < |nodes| && strong[i] == strong[j]
    ensures weak[i] == weak[j]
  {
    OutListsArcs(nodes, rels);
    BothListsArcs(nodes, rels);
    var out, both := Adj(OutLists(nodes, rels)), Adj(BothLists(nodes, rels));
    forall x, y | y in out(x)
      ensures Reaches(both, x, y)
    {
      assert Arc(nodes, rels, x, y);
      ReachesStep(both, x, y);
    }
    assert Tarjan.Mutual(OutLists(nodes, rels), i, j);
    ReachesMono(out, both, i, j);
  }

  /** The order of first occurrence leaves no freedom: the partition determines the numbers. */
  lemma NumberingUnique(a: seq<int>, b: seq<int>)
    requires SamePartition(a, b) && ByFirstOccurrence(a) && ByFirstOccurrence(b)
    ensures a == b
  {
    for n := 0 to |a|
      invariant forall k :: 0 <= k < n ==> a[k] == b[k]
    {
      assert SamePartition(b, a);
      FirstOccurrenceAtMost(a, b, n);
      FirstOccurrenceAtMost(b, a, n);
    }
  }

  lemma FirstOccurrenceAtMost(a: seq<int>, b: seq<int>, i: nat)
    requires |a| == |b| && SamePartition(a, b) && i < |a| && ByFirstOccurrence(a) && ByFirstOccurrence(b)
    requires forall k :: 0 <= k < i ==> a[k] == b[k]
    ensures a[i] <= b[i]
  {
    if a[i] > b[i] {
      OccursAll(a, i, b[i]);
    }
  }

  lemma {:induction false} OccursAll(ids: seq<int>, i: nat, c: int)
    requires ByFirstOccurrence(ids) && i < |ids| && 0 <= c < ids[i]
    ensures OccursBefore(ids, c, i)
    decreases i
  {
    assert HasPredecessor(ids, i);
    var j :| 0 <= j < i && ids[j] == ids[i] - 1;
    if c < ids[j] {
      OccursAll(ids, j, c);
    }
  }

  // ---------- communities inside components ----------

  /** Every label is the ID of some node of the holder's connected component. */
  ghost predicate Anchored(nodes: seq<int>, rels: seq<Relationship>, labels: seq<int>)
  {
    |labels| == |nodes| && forall i {:trigger HasAnchor(nodes, rels, labels, i)} :: 0 <= i < |nodes| ==>
      HasAnchor(nodes, rels, labels, i)
  }

  ghost predicate HasAnchor(nodes: seq<int>, rels: seq<Relationship>, labels: seq<int>, i: int)
    requires 0 <= i < |labels|
  {
    exists k :: 0 <= k < |nodes| && labels[i] == nodes[k] && Connected(nodes, rels, i, k)
  }

  /** Taking over the label of a connected node keeps every label anchored. */
  lemma AnchorMoves(nodes: seq<int>, rels: seq<Relationship>, labels: seq<int>, i: int, j: int)
    requires Anchored(nodes, rels, labels) && 0 <= i < |nodes| && 0 <= j < |nodes| && Connected(nodes, rels, i, j)
    ensures Anchored(nodes, rels, labels[i := labels[j]])
  {
    assert HasAnchor(nodes, rels, labels, j);
    var k :| 0 <= k < |nodes| && labels[j] == nodes[k] && Connected(nodes, rels, j, k);
    ReachesTrans(Adj(BothLists(nodes, rels)), i, j, k);
    var after := labels[i := labels[j]];
    forall x {:trigger HasAnchor(nodes, rels, after, x)} | 0 <= x < |nodes|
      ensures HasAnchor(nodes, rels, after, x)
    {
      assert HasAnchor(nodes, rels, labels, x);
    }
  }

  lemma NeighboursConnected(nodes: seq<int>, rels: seq<Relationship>, i: int, j: int)
    requires Arc(nodes, rels, i, j) || Arc(nodes, rels, j, i)
    ensures 0 <= i < |nodes| && 0 <= j < |nodes| && Connected(nodes, rels, i, j)
  {
    BothListsArcs(nodes, rels);
    assert j in BothLists(nodes, rels)[i];
    ReachesStep(Adj(BothLists(nodes, rels)), i, j);
  }

  /** Every node starts with its own ID. */
  lemma StartAnchored(nodes: seq<int>, rels: seq<Relationship>)
    ensures Anchored(nodes, rels, nodes)
  {
    forall i {:trigger HasAnchor(nodes, rels, nodes, i)} | 0 <= i < |nodes|
      ensures HasAnchor(nodes, rels, nodes, i)
    {
      assert Connected(nodes, rels, i, i);
    }
  }

  /** Nodes with one number are connected. */
  ghost predicate WithinComponents(nodes: seq<int>, rels: seq<Relationship>, ids: seq<int>)
  {
    |ids| == |nodes| &&
    forall i, j :: 0 <= i < |ids| && 0 <= j < |ids| && ids[i] == ids[j] ==> Connected(nodes, rels, i, j)
  }

  lemma AnchoredWithin(nodes: seq<int>, rels: seq<Relationship>, labels: seq<int>)
    requires NoRepeats(nodes) && Anchored(nodes, rels, labels)
    ensures WithinComponents(nodes, rels, labels)
  {
    BothListsArcs(nodes, rels);
    forall i, j | 0 <= i < |labels| && 0 <= j < |labels| && labels[i] == labels[j]
      ensures Connected(nodes, rels, i, j)
    {
      assert HasAnchor(nodes, rels, labels, i) && HasAnchor(nodes, rels, labels, j);
      var k :| 0 <= k < |nodes| && labels[i] == nodes[k] && Connected(nodes, rels, i, k);
      var l :| 0 <= l < |nodes| && labels[j] == nodes[l] && Connected(nodes, rels, j, l);
      assert k == l;
      ReachesSym(Adj(BothLists(nodes, rels)), j, k);
      ReachesTrans(Adj(BothLists(nodes, rels)), i, k, j);
    }
  }

  lemma PartitionWithin(nodes: seq<int>, rels: seq<Relationship>, ids: seq<int>, labels: seq<int>)
    requires SamePartition(ids, labels) && WithinComponents(nodes, rels, labels)
    ensures WithinComponents(nodes, rels, ids)
  {}
}
