/** Label propagation on a graph given by its edges: the votes as sums over the edges, and which visits are possible. */
module EdgeVotes {
  import opened Graphs
  import opened Counting
  import opened Partitions
  import opened SmallGraphs
  import opened LabelPropagation

  // ---------- votes as sums over edges ----------

  ghost predicate Holds(labels: seq<int>, i: int, lab: int)
  {
    0 <= i < |labels| && labels[i] == lab
  }

  ghost function VoteOf(labels: seq<int>, i: int, lab: int): Edge -> real
  {
    (e: Edge) => (if e.a == i && Holds(labels, e.b, lab) then e.w else 0.0)
               + (if e.b == i && Holds(labels, e.a, lab) then e.w else 0.0)
  }

  ghost predicate Gives(e: Edge, labels: seq<int>, i: int, lab: int)
  {
    (e.a == i && Holds(labels, e.b, lab)) || (e.b == i && Holds(labels, e.a, lab))
  }

  ghost function Lists(nodes: seq<int>, es: seq<Edge>): (g: seq<seq<int>>)
    requires InRange(es, |nodes|)
    ensures |g| == |nodes|
  {
    BothLists(nodes, RelsOf(nodes, es))
  }

  ghost function Weights(nodes: seq<int>, es: seq<Edge>): (ws: seq<seq<real>>)
    requires InRange(es, |nodes|)
    ensures |ws| == |nodes| && forall i :: 0 <= i < |nodes| ==> |ws[i]| == |Lists(nodes, es)[i]|
  {
    BothWeights(nodes, RelsOf(nodes, es))
  }

  /** The votes at one node are those of the edges, and its neighbours' labels are those that an edge gives it. */
  ghost predicate VotesAre(es: seq<Edge>, ns: seq<int>, ws: seq<real>, labels: seq<int>, i: int, lab: int)
  {
    && |ns| == |ws| && (forall k :: 0 <= k < |ns| ==> 0 <= ns[k] < |labels|)
    && Votes(ns, ws, labels, lab) == Tally(es, VoteOf(labels, i, lab))
    && (IsNeighbourLabel(ns, labels, lab) <==> SomeGives(es, labels, i, lab))
  }

  ghost predicate SomeGives(es: seq<Edge>, labels: seq<int>, i: int, lab: int)
  {
    exists k :: 0 <= k < |es| && Gives(es[k], labels, i, lab)
  }

  lemma GivesNext(es: seq<Edge>, labels: seq<int>, i: int, lab: int, e: Edge)
    ensures SomeGives(es + [e], labels, i, lab) <==> SomeGives(es, labels, i, lab) || Gives(e, labels, i, lab)
  {
    var more := es + [e];
    if k :| 0 <= k < |es| && Gives(es[k], labels, i, lab) { assert Gives(more[k], labels, i, lab); }
    if Gives(e, labels, i, lab) { assert Gives(more[|es|], labels, i, lab); }
    if k :| 0 <= k < |more| && Gives(more[k], labels, i, lab) {
      if k < |es| { assert Gives(es[k], labels, i, lab); }
    }
  }

  lemma TallyAppend(es: seq<Edge>, e: Edge, f: Edge -> real)
    ensures Tally(es + [e], f) == Tally(es, f) + f(e)
  {
    assert (es + [e])[..|es|] == es;
  }

  ghost function With<T>(s: seq<T>, here: bool, x: T): seq<T>
  {
    if here then s + [x] else s
  }

  /** The neighbours of i when an edge is added, */
  ghost function NeighboursWith(ns: seq<int>, i: int, e: Edge): seq<int>
  {
    With(With(ns, e.a == i, e.b), e.b == i, e.a)
  }

  /** and their weights. */
  ghost function WeightsWith(ws: seq<real>, i: int, e: Edge): seq<real>
  {
    With(With(ws, e.a == i, e.w), e.b == i, e.w)
  }

  lemma ArcVotes(ns: seq<int>, ws: seq<real>, labels: seq<int>, here: bool, x: int, w: real, lab: int)
    requires |ns| == |ws| && (forall k :: 0 <= k < |ns| ==> 0 <= ns[k] < |labels|) && 0 <= x < |labels|
    ensures |With(ns, here, x)| == |With(ws, here, w)|
    ensures forall k :: 0 <= k < |With(ns, here, x)| ==> 0 <= With(ns, here, x)[k] < |labels|
    ensures Votes(With(ns, here, x), With(ws, here, w), labels, lab) ==
            Votes(ns, ws, labels, lab) + if here && labels[x] == lab then w else 0.0
    ensures IsNeighbourLabel(With(ns, here, x), labels, lab) <==>
            IsNeighbourLabel(ns, labels, lab) || (here && labels[x] == lab)
  {
    if here {
      VotesAppend(ns, ws, labels, x, w, lab);
      LabelAppend(ns, labels, x, lab);
    }
  }

  lemma EdgeVotes(ns: seq<int>, ws: seq<real>, labels: seq<int>, i: int, lab: int, e: Edge)
    requires |ns| == |ws| && forall k :: 0 <= k < |ns| ==> 0 <= ns[k] < |labels|
    requires 0 <= e.a < |labels| && 0 <= e.b < |labels|
    ensures |NeighboursWith(ns, i, e)| == |WeightsWith(ws, i, e)|
    ensures forall k :: 0 <= k < |NeighboursWith(ns, i, e)| ==> 0 <= NeighboursWith(ns, i, e)[k] < |labels|
    ensures Votes(NeighboursWith(ns, i, e), WeightsWith(ws, i, e), labels, lab) ==
            Votes(ns, ws, labels, lab) + VoteOf(labels, i, lab)(e)
    ensures IsNeighbourLabel(NeighboursWith(ns, i, e), labels, lab) <==>
            IsNeighbourLabel(ns, labels, lab) || Gives(e, labels, i, lab)
  {
    ArcVotes(ns, ws, labels, e.a == i, e.b, e.w, lab);
    ArcVotes(With(ns, e.a == i, e.b), With(ws, e.a == i, e.w), labels, e.b == i, e.a, e.w, lab);
  }

  lemma VotesNext(es: seq<Edge>, ns: seq<int>, ws: seq<real>, labels: seq<int>, i: int, lab: int, e: Edge)
    requires VotesAre(es, ns, ws, labels, i, lab) && 0 <= e.a < |labels| && 0 <= e.b < |labels|
    ensures VotesAre(es + [e], NeighboursWith(ns, i, e), WeightsWith(ws, i, e), labels, i, lab)
  {
    EdgeVotes(ns, ws, labels, i, lab, e);
    GivesNext(es, labels, i, lab, e);
    TallyAppend(es, e, VoteOf(labels, i, lab));
  }

  lemma ListsAdd(nodes: seq<int>, es: seq<Edge>, e: Edge)
    requires NoRepeats(nodes) && InRange(es, |nodes|) && 0 <= e.a < |nodes| && 0 <= e.b < |nodes|
    ensures InRange(es + [e], |nodes|)
    ensures Lists(nodes, es + [e]) == AddArc(AddArc(Lists(nodes, es), e.a, e.b), e.b, e.a)
    ensures Weights(nodes, es + [e]) == AddArc(AddArc(Weights(nodes, es), e.a, e.w), e.b, e.w)
  {
    var r := Weighted(nodes[e.a], nodes[e.b], e.w);
    RelsOfLast(nodes, es, e);
    DistinctIndex(nodes, e.a);
    DistinctIndex(nodes, e.b);
    assert (RelsOf(nodes, es) + [r])[..|es|] == RelsOf(nodes, es);
  }

  lemma AddArcAt<T>(g: seq<seq<T>>, a: int, x: T, b: int, y: T, i: int)
    requires 0 <= a < |g| && 0 <= b < |g| && 0 <= i < |g|
    ensures AddArc(AddArc(g, a, x), b, y)[i] == With(With(g[i], a == i, x), b == i, y)
  {}

  lemma ListsNext(nodes: seq<int>, es: seq<Edge>, e: Edge, i: int)
    requires NoRepeats(nodes) && InRange(es, |nodes|) && 0 <= e.a < |nodes| && 0 <= e.b < |nodes| && 0 <= i < |nodes|
    ensures InRange(es + [e], |nodes|)
    ensures Lists(nodes, es + [e])[i] == NeighboursWith(Lists(nodes, es)[i], i, e)
    ensures Weights(nodes, es + [e])[i] == WeightsWith(Weights(nodes, es)[i], i, e)
  {
    ListsAdd(nodes, es, e);
    AddArcAt(Lists(nodes, es), e.a, e.b, e.b, e.a, i);
    AddArcAt(Weights(nodes, es), e.a, e.w, e.b, e.w, i);
  }

  lemma ListsVotesNext(nodes: seq<int>, es: seq<Edge>, e: Edge, labels: seq<int>, i: int, lab: int)
    requires NoRepeats(nodes) && InRange(es, |nodes|) && 0 <= e.a < |nodes| && 0 <= e.b < |nodes|
    requires |labels| == |nodes| && 0 <= i < |nodes| &&
             VotesAre(es, Lists(nodes, es)[i], Weights(nodes, es)[i], labels, i, lab)
    ensures InRange(es + [e], |nodes|)
    ensures VotesAre(es + [e], Lists(nodes, es + [e])[i], Weights(nodes, es + [e])[i], labels, i, lab)
  {
    ListsNext(nodes, es, e, i);
    VotesNext(es, Lists(nodes, es)[i], Weights(nodes, es)[i], labels, i, lab, e);
  }

  lemma {:induction false} ListsVotes(nodes: seq<int>, es: seq<Edge>, labels: seq<int>, i: int, lab: int)
    requires NoRepeats(nodes) && InRange(es, |nodes|) && |labels| == |nodes| && 0 <= i < |nodes|
    ensures VotesAre(es, Lists(nodes, es)[i], Weights(nodes, es)[i], labels, i, lab)
  {
    if |es| > 0 {
      var before, e := es[..|es| - 1], es[|es| - 1];
      ListsVotes(nodes, before, labels, i, lab);
      ListsVotesNext(nodes, before, e, labels, i, lab);
      assert es == before + [e];
    }
  }

  // ---------- which visits are possible ----------

  /** A visit of i must give it this label. */
  ghost predicate Picks(g: seq<seq<int>>, ws: seq<seq<real>>, c: seq<int>, i: int, d: seq<int>)
    requires Shape(g, ws) && |c| == |g| && 0 <= i < |g|
  {
    !IsStuck(g, ws, c, i) && forall e :: VisitStep(g, ws, c, e, i) <==> e == d
  }

  /** These visits can only lead to e. */
  ghost predicate Only(g: seq<seq<int>>, ws: seq<seq<real>>, c: seq<int>, order: seq<int>, e: seq<int>, m: bool)
    requires Shape(g, ws) && |c| == |g|
  {
    forall d, moved :: Visits(g, ws, c, d, order, moved) <==> d == e && moved == m
  }

  lemma OnlyNext(g: seq<seq<int>>, ws: seq<seq<real>>, c: seq<int>, order: seq<int>, e: seq<int>, m: bool, i: int,
                 f: seq<int>)
    requires Shape(g, ws) && |c| == |e| == |g| && 0 <= i < |g| && Only(g, ws, c, order, e, m) && Picks(g, ws, e, i, f)
    ensures Only(g, ws, c, order + [i], f, m || e != f)
  {
    var more := order + [i];
    assert more[..|more| - 1] == order && more[|more| - 1] == i;
    forall d, moved
      ensures Visits(g, ws, c, d, more, moved) <==> d == f && moved == (m || e != f)
    {
      if Visits(g, ws, c, d, more, moved) {
        assert Visits(g, ws, c, d, more, moved);
        var b, n :| VisitsAndOne(g, ws, c, b, d, more, n, moved);
        assert Visits(g, ws, c, b, order, n);
      }
      if d == f && moved == (m || e != f) {
        assert VisitsAndOne(g, ws, c, e, d, more, m, moved);
      }
    }
  }
}
