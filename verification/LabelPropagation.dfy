/** Label propagation: every pass visits the nodes in a random order and breaks ties at random. */
module LabelPropagation {
  import opened Graphs
  import opened Components
  import opened Counting
  import opened Randomness

  /** The weights that go with BothLists. */
  function BothWeights(nodes: seq<int>, rels: seq<Relationship>): (g: seq<seq<real>>)
    ensures |g| == |nodes| && forall i :: 0 <= i < |nodes| ==> |g[i]| == |BothLists(nodes, rels)[i]|
  {
    if |rels| == 0 then seq(|nodes|, _ => [])
    else
      var g := BothWeights(nodes, rels[..|rels| - 1]);
      var r, idx := rels[|rels| - 1], NodeIndex(nodes);
      if r.startNode in idx && r.endNode in idx then
        AddArc(AddArc(g, idx[r.startNode], RelWeight(r)), idx[r.endNode], RelWeight(r))
      else g
  }

  lemma {:induction false} BothWeightsNonNegative(nodes: seq<int>, rels: seq<Relationship>)
    requires NonNegativeWeights(rels)
    ensures forall i, j :: 0 <= i < |nodes| && 0 <= j < |BothWeights(nodes, rels)[i]| ==>
            BothWeights(nodes, rels)[i][j] >= 0.0
  {
    if |rels| > 0 {
      assert rels[|rels| - 1] in rels;
      BothWeightsNonNegative(nodes, rels[..|rels| - 1]);
    }
  }

  method BuildWeights(nodes: seq<int>, rels: seq<Relationship>) returns (g: seq<seq<real>>)
    ensures g == BothWeights(nodes, rels)
  {
    var nodeIndex := BuildNodeIndex(nodes);
    g := seq(|nodes|, _ => []);
    for k := 0 to |rels|
      invariant g == BothWeights(nodes, rels[..k])
    {
      assert rels[..k + 1][..k] == rels[..k];
      var rel := rels[k];
      if rel.startNode !in nodeIndex || rel.endNode !in nodeIndex { continue; }
      var startIdx, endIdx := nodeIndex[rel.startNode], nodeIndex[rel.endNode];
      g := g[startIdx := g[startIdx] + [RelWeight(rel)]];
      g := g[endIdx := g[endIdx] + [RelWeight(rel)]];
    }
    assert rels[..|rels|] == rels;
  }

  // ---------- voting ----------

  /** The total weight of the neighbours that hold the label. */
  function Votes(ns: seq<int>, ws: seq<real>, labels: seq<int>, lab: int): real
    requires |ns| == |ws| && forall k :: 0 <= k < |ns| ==> 0 <= ns[k] < |labels|
  {
    if |ns| == 0 then 0.0
    else
      var last := |ns| - 1;
      Votes(ns[..last], ws[..last], labels, lab) + if labels[ns[last]] == lab then ws[last] else 0.0
  }

  ghost predicate IsNeighbourLabel(ns: seq<int>, labels: seq<int>, lab: int)
    requires forall k :: 0 <= k < |ns| ==> 0 <= ns[k] < |labels|
  {
    exists k :: 0 <= k < |ns| && labels[ns[k]] == lab
  }

  lemma {:induction false} VotesNonNegative(ns: seq<int>, ws: seq<real>, labels: seq<int>, lab: int)
    requires |ns| == |ws| && forall k :: 0 <= k < |ns| ==> 0 <= ns[k] < |labels|
    requires forall k :: 0 <= k < |ws| ==> ws[k] >= 0.0
    ensures Votes(ns, ws, labels, lab) >= 0.0
  {
    if |ns| > 0 {
      VotesNonNegative(ns[..|ns| - 1], ws[..|ns| - 1], labels, lab);
    }
  }

  lemma {:induction false} VotesAbsent(ns: seq<int>, ws: seq<real>, labels: seq<int>, lab: int)
    requires |ns| == |ws| && forall k :: 0 <= k < |ns| ==> 0 <= ns[k] < |labels|
    requires !IsNeighbourLabel(ns, labels, lab)
    ensures Votes(ns, ws, labels, lab) == 0.0
  {
    if |ns| > 0 {
      assert labels[ns[|ns| - 1]] != lab;
      assert forall k :: 0 <= k < |ns| - 1 ==> ns[..|ns| - 1][k] == ns[k];
      VotesAbsent(ns[..|ns| - 1], ws[..|ns| - 1], labels, lab);
    }
  }

  method CountVotes(ns: seq<int>, ws: seq<real>, labels: seq<int>) returns (labelVotes: map<int, real>)
    requires |ns| == |ws| && forall k :: 0 <= k < |ns| ==> 0 <= ns[k] < |labels|
    ensures forall lab :: lab in labelVotes <==> IsNeighbourLabel(ns, labels, lab)
    ensures forall lab :: lab in labelVotes ==> labelVotes[lab] == Votes(ns, ws, labels, lab)
  {
    labelVotes := map[];
    for j := 0 to |ns|
      invariant forall lab :: lab in labelVotes <==> IsNeighbourLabel(ns[..j], labels, lab)
      invariant forall lab :: lab in labelVotes ==> labelVotes[lab] == Votes(ns[..j], ws[..j], labels, lab)
    {
      var lab := labels[ns[j]];
      VotesStep(ns, ws, labels, j);
      if lab !in labelVotes { VotesAbsent(ns[..j], ws[..j], labels, lab); }
      labelVotes := labelVotes[lab := (if lab in labelVotes then labelVotes[lab] else 0.0) + ws[j]];
    }
    assert ns[..|ns|] == ns && ws[..|ns|] == ws;
  }

  lemma VotesStep(ns: seq<int>, ws: seq<real>, labels: seq<int>, j: int)
    requires |ns| == |ws| && (forall k :: 0 <= k < |ns| ==> 0 <= ns[k] < |labels|) && 0 <= j < |ns|
    ensures forall lab :: IsNeighbourLabel(ns[..j + 1], labels, lab) <==>
            IsNeighbourLabel(ns[..j], labels, lab) || lab == labels[ns[j]]
    ensures forall lab :: Votes(ns[..j + 1], ws[..j + 1], labels, lab) ==
              Votes(ns[..j], ws[..j], labels, lab) + if labels[ns[j]] == lab then ws[j] else 0.0
  {
    assert ns[..j + 1][..j] == ns[..j] && ws[..j + 1][..j] == ws[..j];
    forall lab
      ensures IsNeighbourLabel(ns[..j + 1], labels, lab) <==>
              IsNeighbourLabel(ns[..j], labels, lab) || lab == labels[ns[j]]
    {
      if IsNeighbourLabel(ns[..j], labels, lab) {
        var k :| 0 <= k < j && labels[ns[..j][k]] == lab;
        assert labels[ns[..j + 1][k]] == lab;
      }
      if lab == labels[ns[j]] { assert labels[ns[..j + 1][j]] == lab; }
      if IsNeighbourLabel(ns[..j + 1], labels, lab) {
        var k :| 0 <= k < j + 1 && labels[ns[..j + 1][k]] == lab;
        if k < j { assert labels[ns[..j][k]] == lab; }
      }
    }
  }

  /** The first pass over the map starts from 0 votes, so it finds nothing when every vote is negative;
      rand.Intn(0) then panics. */
  method PickLabel(labelVotes: map<int, real>) returns (choice: Outcome<int>)
    ensures choice.Panic? <==> forall k :: k in labelVotes ==> labelVotes[k] < 0.0
    ensures choice.Done? ==> choice.value in labelVotes && labelVotes[choice.value] >= 0.0
    ensures choice.Done? ==> forall k :: k in labelVotes ==> labelVotes[k] <= labelVotes[choice.value]
  {
    var maxVotes: real, maxLabels: seq<int> := 0.0, [];
    var keys: set<int> := labelVotes.Keys;
    while keys != {}
      invariant keys <= labelVotes.Keys && maxVotes >= 0.0
      invariant forall k :: k in labelVotes && k !in keys ==> labelVotes[k] <= maxVotes
      invariant forall i :: 0 <= i < |maxLabels| ==> maxLabels[i] in labelVotes && labelVotes[maxLabels[i]] == maxVotes
      invariant maxLabels == [] ==> maxVotes == 0.0 && forall k :: k in labelVotes && k !in keys ==> labelVotes[k] < 0.0
    {
      var lab := AnyOf(keys);
      keys := keys - {lab};
      var votes := labelVotes[lab];
      if votes > maxVotes {
        maxVotes := votes;
        maxLabels := [lab];
      } else if votes == maxVotes {
        maxLabels := maxLabels + [lab];
      }
    }
    if |maxLabels| == 0 { return Panic; }
    var pick := Intn(|maxLabels|);
    var newLabel := maxLabels[pick];
    assert newLabel in labelVotes && labelVotes[newLabel] >= 0.0;
    return Done(newLabel);
  }

  // ---------- passes ----------

  /** The label of i has at least as many votes as any neighbour's label. */
  ghost predicate Content(g: seq<seq<int>>, ws: seq<seq<real>>, labels: seq<int>, i: int)
    requires 0 <= i < |g| == |ws| == |labels| && |g[i]| == |ws[i]| && forall k :: 0 <= k < |g[i]| ==>
             0 <= g[i][k] < |labels|
  {
    |g[i]| > 0 ==>
      && IsNeighbourLabel(g[i], labels, labels[i])
      && forall lab :: IsNeighbourLabel(g[i], labels, lab) ==>
         Votes(g[i], ws[i], labels, lab) <= Votes(g[i], ws[i], labels, labels[i])
  }

  ghost predicate Shape(g: seq<seq<int>>, ws: seq<seq<real>>)
  {
    && |g| == |ws| && (forall i :: 0 <= i < |g| ==> |g[i]| == |ws[i]|)
    && (forall i, k :: 0 <= i < |g| && 0 <= k < |g[i]| ==> 0 <= g[i][k] < |g|)
  }

  ghost predicate NonNegative(ws: seq<seq<real>>)
  {
    forall i, j :: 0 <= i < |ws| && 0 <= j < |ws[i]| ==> ws[i][j] >= 0.0
  }

  /** Among the labels of i's neighbours lab has the most votes, and they are not negative. */
  ghost predicate IsTop(g: seq<seq<int>>, ws: seq<seq<real>>, labels: seq<int>, i: int, lab: int)
    requires Shape(g, ws) && |labels| == |g| && 0 <= i < |g|
  {
    && IsNeighbourLabel(g[i], labels, lab) && Votes(g[i], ws[i], labels, lab) >= 0.0
    && forall other :: IsNeighbourLabel(g[i], labels, other) ==>
       Votes(g[i], ws[i], labels, other) <= Votes(g[i], ws[i], labels, lab)
  }

  /** There are neighbours, and all their labels have negative votes. */
  ghost predicate IsStuck(g: seq<seq<int>>, ws: seq<seq<real>>, labels: seq<int>, i: int)
    requires Shape(g, ws) && |labels| == |g| && 0 <= i < |g|
  {
    |g[i]| > 0 && forall lab :: IsNeighbourLabel(g[i], labels, lab) ==> Votes(g[i], ws[i], labels, lab) < 0.0
  }

  // ---------- which nodes are stuck ----------

  function SumOf(ws: seq<real>): real
  {
    if |ws| == 0 then 0.0 else SumOf(ws[..|ws| - 1]) + ws[|ws| - 1]
  }

  /** The neighbours without the label l, */
  ghost function Others(ns: seq<int>, labels: seq<int>, l: int): (rest: seq<int>)
    requires forall k :: 0 <= k < |ns| ==> 0 <= ns[k] < |labels|
    ensures |rest| <= |ns| && (IsNeighbourLabel(ns, labels, l) ==> |rest| < |ns|)
    ensures forall k :: 0 <= k < |rest| ==> 0 <= rest[k] < |labels|
  {
    if |ns| == 0 then []
    else
      var rest := Others(ns[..|ns| - 1], labels, l);
      if labels[ns[|ns| - 1]] == l then rest else rest + [ns[|ns| - 1]]
  }

  /** and their weights. */
  ghost function OtherWeights(ns: seq<int>, ws: seq<real>, labels: seq<int>, l: int): (rest: seq<real>)
    requires |ns| == |ws| && forall k :: 0 <= k < |ns| ==> 0 <= ns[k] < |labels|
    ensures |rest| == |Others(ns, labels, l)|
  {
    if |ns| == 0 then []
    else
      var rest := OtherWeights(ns[..|ns| - 1], ws[..|ns| - 1], labels, l);
      if labels[ns[|ns| - 1]] == l then rest else rest + [ws[|ns| - 1]]
  }

  lemma VotesAppend(ns: seq<int>, ws: seq<real>, labels: seq<int>, x: int, w: real, lab: int)
    requires |ns| == |ws| && (forall k :: 0 <= k < |ns| ==> 0 <= ns[k] < |labels|) && 0 <= x < |labels|
    ensures Votes(ns + [x], ws + [w], labels, lab) == Votes(ns, ws, labels, lab) + if labels[x] == lab then w else 0.0
  {
    assert (ns + [x])[..|ns|] == ns && (ws + [w])[..|ws|] == ws;
  }

  /** Counting by any labels, the others get all votes but those of the neighbours left out. */
  lemma {:induction false} OtherVotes(ns: seq<int>, ws: seq<real>, labels: seq<int>, l: int, counted: seq<int>,
                                      lab: int)
    requires |ns| == |ws| && |labels| == |counted| && forall k :: 0 <= k < |ns| ==> 0 <= ns[k] < |labels|
    requires (forall x :: 0 <= x < |labels| && labels[x] == l ==> counted[x] == lab)
          || (forall x :: 0 <= x < |labels| && labels[x] == l ==> counted[x] != lab)
    ensures Votes(Others(ns, labels, l), OtherWeights(ns, ws, labels, l), counted, lab) ==
            Votes(ns, ws, counted, lab) -
            if forall x :: 0 <= x < |labels| && labels[x] == l ==>
              counted[x] == lab then Votes(ns, ws, labels, l) else 0.0
    decreases |ns|
  {
    if |ns| > 0 {
      var n := |ns| - 1;
      OtherVotes(ns[..n], ws[..n], labels, l, counted, lab);
      VotesAppend(Others(ns[..n], labels, l), OtherWeights(ns[..n], ws[..n], labels, l), counted, ns[n], ws[n], lab);
    }
  }

  lemma {:induction false} OtherLabels(ns: seq<int>, labels: seq<int>, l: int, counted: seq<int>, lab: int)
    requires |labels| == |counted| && forall k :: 0 <= k < |ns| ==> 0 <= ns[k] < |labels|
    ensures IsNeighbourLabel(Others(ns, labels, l), counted, lab) ==> IsNeighbourLabel(ns, counted, lab)
    ensures IsNeighbourLabel(Others(ns, labels, l), labels, lab) ==> lab != l
    decreases |ns|
  {
    if |ns| > 0 {
      var n := |ns| - 1;
      OtherLabels(ns[..n], labels, l, counted, lab);
      LabelAppend(ns[..n], counted, ns[n], lab);
      LabelAppend(Others(ns[..n], labels, l), counted, ns[n], lab);
      LabelAppend(Others(ns[..n], labels, l), labels, ns[n], lab);
      assert ns[..n] + [ns[n]] == ns;
    }
  }

  lemma LabelAppend(ns: seq<int>, labels: seq<int>, x: int, lab: int)
    requires (forall k :: 0 <= k < |ns| ==> 0 <= ns[k] < |labels|) && 0 <= x < |labels|
    ensures IsNeighbourLabel(ns + [x], labels, lab) <==> IsNeighbourLabel(ns, labels, lab) || labels[x] == lab
  {
    if IsNeighbourLabel(ns, labels, lab) {
      var k :| 0 <= k < |ns| && labels[ns[k]] == lab;
      assert (ns + [x])[k] == ns[k];
    }
    if labels[x] == lab { assert (ns + [x])[|ns|] == x; }
  }

  ghost predicate AllNegative(ns: seq<int>, ws: seq<real>, labels: seq<int>)
    requires |ns| == |ws| && forall k :: 0 <= k < |ns| ==> 0 <= ns[k] < |labels|
  {
    forall lab :: IsNeighbourLabel(ns, labels, lab) ==> Votes(ns, ws, labels, lab) < 0.0
  }

  /** Nodes that share a label also share it in coarse. */
  ghost predicate IsCoarser(labels: seq<int>, coarse: seq<int>)
  {
    |labels| == |coarse| &&
    forall x, y {:trigger labels[x], labels[y]} :: 0 <= x < |labels| && 0 <= y < |labels| && labels[x] == labels[y] ==>
      coarse[x] == coarse[y]
  }

  /** Joining labels joins negative votes. */
  lemma {:induction false} CoarserNegative(ns: seq<int>, ws: seq<real>, labels: seq<int>, coarse: seq<int>, lab: int)
    requires |ns| == |ws| && IsCoarser(labels, coarse) && forall k :: 0 <= k < |ns| ==> 0 <= ns[k] < |labels|
    requires AllNegative(ns, ws, labels) && IsNeighbourLabel(ns, coarse, lab)
    ensures Votes(ns, ws, coarse, lab) < 0.0
    decreases |ns|
  {
    var k :| 0 <= k < |ns| && coarse[ns[k]] == lab;
    var l := labels[ns[k]];
    assert IsNeighbourLabel(ns, labels, l);
    var restN, restW := Others(ns, labels, l), OtherWeights(ns, ws, labels, l);
    assert forall x :: 0 <= x < |labels| && labels[x] == l ==> coarse[x] == lab;
    OtherVotes(ns, ws, labels, l, coarse, lab);
    forall m | IsNeighbourLabel(restN, labels, m)
      ensures Votes(restN, restW, labels, m) < 0.0
    {
      OtherLabels(ns, labels, l, labels, m);
      OtherVotes(ns, ws, labels, l, labels, m);
    }
    if IsNeighbourLabel(restN, coarse, lab) {
      CoarserNegative(restN, restW, labels, coarse, lab);
    } else {
      VotesAbsent(restN, restW, coarse, lab);
    }
  }

  lemma StuckCoarser(g: seq<seq<int>>, ws: seq<seq<real>>, labels: seq<int>, coarse: seq<int>, i: int)
    requires Shape(g, ws) && |labels| == |g| && 0 <= i < |g| && IsCoarser(labels, coarse) && IsStuck(g, ws, labels, i)
    ensures IsStuck(g, ws, coarse, i)
  {
    forall lab | IsNeighbourLabel(g[i], coarse, lab)
      ensures Votes(g[i], ws[i], coarse, lab) < 0.0
    {
      CoarserNegative(g[i], ws[i], labels, coarse, lab);
    }
  }

  lemma {:induction false} OneLabelVotes(ns: seq<int>, ws: seq<real>, labels: seq<int>, lab: int)
    requires |ns| == |ws| && forall k :: 0 <= k < |ns| ==> 0 <= ns[k] < |labels| && labels[ns[k]] == lab
    ensures Votes(ns, ws, labels, lab) == SumOf(ws)
  {
    if |ns| > 0 { OneLabelVotes(ns[..|ns| - 1], ws[..|ns| - 1], labels, lab); }
  }

  ghost predicate SomeLabelsStick(g: seq<seq<int>>, ws: seq<seq<real>>, i: int)
    requires Shape(g, ws) && 0 <= i < |g|
  {
    exists labels :: |labels| == |g| && IsStuck(g, ws, labels, i)
  }

  ghost predicate AllLabelsStick(g: seq<seq<int>>, ws: seq<seq<real>>, i: int)
    requires Shape(g, ws) && 0 <= i < |g|
  {
    forall labels :: |labels| == |g| ==> IsStuck(g, ws, labels, i)
  }

  /** Some labels make a node panic exactly if it has neighbours and its weights sum to less than zero. */
  lemma StickIffNegative(g: seq<seq<int>>, ws: seq<seq<real>>, i: int)
    requires Shape(g, ws) && 0 <= i < |g|
    ensures SomeLabelsStick(g, ws, i) <==> |g[i]| > 0 && SumOf(ws[i]) < 0.0
  {
    var one := seq(|g|, _ => 0);
    OneLabelVotes(g[i], ws[i], one, 0);
    if SomeLabelsStick(g, ws, i) {
      var labels :| |labels| == |g| && IsStuck(g, ws, labels, i);
      StuckCoarser(g, ws, labels, one, i);
      assert one[g[i][0]] == 0;
    } else if |g[i]| > 0 && SumOf(ws[i]) < 0.0 {
      assert IsStuck(g, ws, one, i);
    }
  }

  ghost function Identity(n: nat): (labels: seq<int>)
    ensures |labels| == n && forall x :: 0 <= x < n ==> labels[x] == x
  {
    seq(n, x => x)
  }

  /** All labels do so exactly if for each neighbour the relationships with it sum to less than zero. */
  lemma StickForAll(g: seq<seq<int>>, ws: seq<seq<real>>, i: int)
    requires Shape(g, ws) && 0 <= i < |g|
    ensures AllLabelsStick(g, ws, i) <==> |g[i]| > 0 && forall j :: j in g[i] ==>
            Votes(g[i], ws[i], Identity(|g|), j) < 0.0
  {
    var id := Identity(|g|);
    forall j
      ensures IsNeighbourLabel(g[i], id, j) <==> j in g[i]
    {
      if j in g[i] {
        var k :| 0 <= k < |g[i]| && g[i][k] == j;
        assert id[g[i][k]] == j;
      }
    }
    if IsStuck(g, ws, id, i) {
      forall labels | |labels| == |g|
        ensures IsStuck(g, ws, labels, i)
      {
        StuckCoarser(g, ws, id, labels, i);
      }
    }
  }

  /** No node's weights sum to less than zero. */
  ghost predicate NoNegativeSum(ws: seq<seq<real>>)
  {
    forall i {:trigger ws[i]} :: 0 <= i < |ws| ==> SumOf(ws[i]) >= 0.0
  }

  lemma {:induction false} SumNonNegative(ws: seq<real>)
    requires forall k :: 0 <= k < |ws| ==> ws[k] >= 0.0
    ensures SumOf(ws) >= 0.0
  {
    if |ws| > 0 { SumNonNegative(ws[..|ws| - 1]); }
  }

  lemma NonNegativeSums(ws: seq<seq<real>>)
    requires NonNegative(ws)
    ensures NoNegativeSum(ws)
  {
    forall i {:trigger ws[i]} | 0 <= i < |ws| ensures SumOf(ws[i]) >= 0.0 { SumNonNegative(ws[i]); }
  }

  /** At some node every label assignment panics. */
  ghost predicate AlwaysSticks(g: seq<seq<int>>, ws: seq<seq<real>>)
    requires Shape(g, ws)
  {
    exists i :: 0 <= i < |g| && AllLabelsStick(g, ws, i)
  }

  // ---------- runs ----------

  ghost predicate VisitStep(g: seq<seq<int>>, ws: seq<seq<real>>, c: seq<int>, d: seq<int>, i: int)
    requires Shape(g, ws) && |c| == |g|
  {
    0 <= i < |g| && if |g[i]| == 0 then d == c else exists lab :: IsTop(g, ws, c, i, lab) && d == c[i := lab]
  }

  /** The positions are visited in this order; changed tells whether any visit changed a label. */
  ghost predicate Visits(g: seq<seq<int>>, ws: seq<seq<real>>, c: seq<int>, d: seq<int>, order: seq<int>, changed: bool)
    requires Shape(g, ws) && |c| == |g|
    decreases |order|
  {
    if |order| == 0 then d == c && !changed
    else exists e, m :: VisitsAndOne(g, ws, c, e, d, order, m, changed)
  }

  ghost predicate VisitsAndOne(g: seq<seq<int>>, ws: seq<seq<real>>, c: seq<int>, e: seq<int>, d: seq<int>,
                               order: seq<int>, m: bool, changed: bool)
    requires Shape(g, ws) && |c| == |g| && |order| > 0
    decreases |order|, 0
  {
    && |e| == |g| && Visits(g, ws, c, e, order[..|order| - 1], m)
    && VisitStep(g, ws, e, d, order[|order| - 1]) && changed == (m || e != d)
  }

  lemma VisitsNext(g: seq<seq<int>>, ws: seq<seq<real>>, c: seq<int>, e: seq<int>, d: seq<int>, order: seq<int>, n: nat,
                   m: bool)
    requires Shape(g, ws) && |c| == |g| && n < |order| && |e| == |g|
    requires Visits(g, ws, c, e, order[..n], m) && VisitStep(g, ws, e, d, order[n])
    ensures Visits(g, ws, c, d, order[..n + 1], m || e != d)
  {
    var more := order[..n + 1];
    assert more[..|more| - 1] == order[..n];
    assert VisitsAndOne(g, ws, c, e, d, more, m, m || e != d);
  }

  ghost predicate ChangingPass(g: seq<seq<int>>, ws: seq<seq<real>>, c: seq<int>, d: seq<int>)
    requires Shape(g, ws) && |c| == |g|
  {
    exists order :: IsPerm(order, |g|) && Visits(g, ws, c, d, order, true)
  }

  /** p passes that each changed some label lead from c to d. */
  ghost predicate ChangingPasses(g: seq<seq<int>>, ws: seq<seq<real>>, c: seq<int>, d: seq<int>, p: nat)
    requires Shape(g, ws) && |c| == |g|
    decreases p
  {
    if p == 0 then d == c else exists e :: |e| == |g| && ChangingPasses(g, ws, c, e, p - 1) && ChangingPass(g, ws, e, d)
  }

  lemma PassesNext(g: seq<seq<int>>, ws: seq<seq<real>>, c: seq<int>, e: seq<int>, d: seq<int>, p: nat)
    requires Shape(g, ws) && |c| == |g| && |e| == |g| && ChangingPasses(g, ws, c, e, p) && ChangingPass(g, ws, e, d)
    ensures ChangingPasses(g, ws, c, d, p + 1)
  {}

  /** In some order a pass from c comes to a node at which it panics. */
  ghost predicate PanicsFrom(g: seq<seq<int>>, ws: seq<seq<real>>, c: seq<int>)
    requires Shape(g, ws) && |c| == |g|
  {
    exists order, n, d, m :: PanicsAt(g, ws, c, order, n, d, m)
  }

  ghost predicate PanicsAt(g: seq<seq<int>>, ws: seq<seq<real>>, c: seq<int>, order: seq<int>, n: nat, d: seq<int>,
                           m: bool)
    requires Shape(g, ws) && |c| == |g|
  {
    IsPerm(order, |g|) && n < |order| && |d| == |g| && Visits(g, ws, c, d, order[..n], m) && IsStuck(g, ws, d, order[n])
  }

  /** Every label has the most votes, so a further pass need not change anything. */
  ghost predicate Stable(g: seq<seq<int>>, ws: seq<seq<real>>, labels: seq<int>)
    requires Shape(g, ws) && |labels| == |g|
  {
    forall i :: 0 <= i < |g| ==> Content(g, ws, labels, i)
  }

  // ---------- the loops ----------

  /** One visit: the node takes a label with the most votes among its neighbours. */
  method Visit(g: seq<seq<int>>, ws: seq<seq<real>>, labels: seq<int>, i: int) returns (choice: Outcome<int>)
    requires Shape(g, ws) && |labels| == |g| && 0 <= i < |g| && |g[i]| > 0
    ensures choice.Panic? <==> IsStuck(g, ws, labels, i)
    ensures NoNegativeSum(ws) ==> choice.Done?
    ensures choice.Done? ==> IsTop(g, ws, labels, i, choice.value)
    ensures choice.Done? && choice.value == labels[i] ==> Content(g, ws, labels, i)
  {
    var labelVotes := CountVotes(g[i], ws[i], labels);
    var first := labels[g[i][0]];
    assert IsNeighbourLabel(g[i], labels, first);
    choice := PickLabel(labelVotes);
    if choice.Panic? {
      assert IsStuck(g, ws, labels, i);
      StickIffNegative(g, ws, i);
      assert SomeLabelsStick(g, ws, i);
    }
  }

  /** One pass in a random order. */
  method Pass(g: seq<seq<int>>, ws: seq<seq<real>>, start: seq<int>) returns (outcome: Outcome<seq<int>>, changed: bool)
    requires Shape(g, ws) && |start| == |g|
    ensures NoNegativeSum(ws) ==> outcome.Done?
    ensures AlwaysSticks(g, ws) ==> outcome.Panic?
    ensures outcome.Panic? ==> PanicsFrom(g, ws, start)
    ensures outcome.Done? ==> |outcome.value| == |g|
    ensures outcome.Done? && changed ==> ChangingPass(g, ws, start, outcome.value)
    ensures outcome.Done? && !changed ==> outcome.value == start && Stable(g, ws, start)
  {
    var labels := start;
    changed := false;
    var order := Perm(|g|);
    for n := 0 to |order|
      invariant |labels| == |g| && Visits(g, ws, start, labels, order[..n], changed)
      invariant !changed ==> labels == start && forall m :: 0 <= m < n ==> Content(g, ws, labels, order[m])
      invariant forall m :: 0 <= m < n ==> !AllLabelsStick(g, ws, order[m])
    {
      var i := order[n];
      ghost var before, soFar := labels, changed;
      if |g[i]| > 0 {
        var choice := Visit(g, ws, labels, i);
        if choice.Panic? {
          assert PanicsAt(g, ws, start, order, n, labels, changed);
          return Panic, false;
        }
        assert !IsStuck(g, ws, labels, i);
        if choice.value != labels[i] {
          changed := true;
        }
        labels := labels[i := choice.value];
      }
      assert labels == before <==> labels[i] == before[i];
      VisitsNext(g, ws, start, before, labels, order, n, soFar);
    }
    assert order[..|order|] == order;
    forall i | 0 <= i < |g|
      ensures !AllLabelsStick(g, ws, i)
    {
      assert i in order;
    }
    if !changed {
      forall i | 0 <= i < |g|
        ensures Content(g, ws, labels, i)
      {
        assert i in order;
      }
    }
    outcome := Done(labels);
  }

  /** All passes: p of them change labels; there were as many as allowed, or the labels are stable. */
  method Propagate(nodes: seq<int>, g: seq<seq<int>>, ws: seq<seq<real>>, maxIterations: int)
    returns (outcome: Outcome<seq<int>>, ghost before: seq<int>, ghost passes: nat)
    requires Shape(g, ws) && |nodes| == |g| && maxIterations >= 0
    ensures NoNegativeSum(ws) ==> outcome.Done?
    ensures AlwaysSticks(g, ws) && maxIterations > 0 ==> outcome.Panic?
    ensures |before| == |g| && ChangingPasses(g, ws, nodes, before, passes) && passes <= maxIterations
    ensures outcome.Panic? ==> passes < maxIterations && PanicsFrom(g, ws, before)
    ensures outcome.Done? ==> outcome.value == before && (passes < maxIterations ==> Stable(g, ws, before))
  {
    var labels := nodes;
    before, passes := nodes, 0;
    var iter := 0;
    while iter < maxIterations
      invariant passes == iter <= maxIterations && labels == before
      invariant |before| == |g| && ChangingPasses(g, ws, nodes, before, passes)
      invariant AlwaysSticks(g, ws) ==> iter == 0
    {
      var next, changed := Pass(g, ws, labels);
      if next.Panic? { return Panic, before, passes; }
      labels := next.value;
      if !changed { return Done(labels), before, passes; }
      PassesNext(g, ws, nodes, before, labels, passes);
      before, passes := labels, passes + 1;
      iter := iter + 1;
    }
    outcome := Done(labels);
  }

  lemma {:induction false} VisitsAnchored(nodes: seq<int>, rels: seq<Relationship>, ws: seq<seq<real>>, c: seq<int>,
                                          d: seq<int>, order: seq<int>, changed: bool)
    requires Shape(BothLists(nodes, rels), ws) && Anchored(nodes, rels, c) &&
             Visits(BothLists(nodes, rels), ws, c, d, order, changed)
    ensures Anchored(nodes, rels, d)
    decreases |order|
  {
    var g := BothLists(nodes, rels);
    if |order| > 0 {
      var e, m :| VisitsAndOne(g, ws, c, e, d, order, m, changed);
      var i := order[|order| - 1];
      VisitsAnchored(nodes, rels, ws, c, e, order[..|order| - 1], m);
      if |g[i]| > 0 {
        var lab :| IsTop(g, ws, e, i, lab) && d == e[i := lab];
        var k :| 0 <= k < |g[i]| && e[g[i][k]] == lab;
        BothListsArcs(nodes, rels);
        assert g[i][k] in g[i];
        NeighboursConnected(nodes, rels, i, g[i][k]);
        AnchorMoves(nodes, rels, e, i, g[i][k]);
      }
    }
  }

  /** However many passes there are, every label stays the ID of a node of the holder's connected component. */
  lemma {:induction false} PassesAnchored(nodes: seq<int>, rels: seq<Relationship>, ws: seq<seq<real>>, d: seq<int>,
                                          p: nat)
    requires Shape(BothLists(nodes, rels), ws) && ChangingPasses(BothLists(nodes, rels), ws, nodes, d, p)
    ensures Anchored(nodes, rels, d)
    decreases p
  {
    var g := BothLists(nodes, rels);
    if p == 0 {
      StartAnchored(nodes, rels);
    } else {
      var e :| |e| == |g| && ChangingPasses(g, ws, nodes, e, p - 1) && ChangingPass(g, ws, e, d);
      PassesAnchored(nodes, rels, ws, e, p - 1);
      var order :| IsPerm(order, |g|) && Visits(g, ws, e, d, order, true);
      VisitsAnchored(nodes, rels, ws, e, d, order, true);
    }
  }

  lemma WeightsShape(nodes: seq<int>, rels: seq<Relationship>)
    ensures Shape(BothLists(nodes, rels), BothWeights(nodes, rels))
    ensures NonNegativeWeights(rels) ==> NoNegativeSum(BothWeights(nodes, rels))
  {
    var g := BothLists(nodes, rels);
    BothListsArcs(nodes, rels);
    forall i, k | 0 <= i < |g| && 0 <= k < |g[i]|
      ensures 0 <= g[i][k] < |g|
    {
      assert g[i][k] in g[i];
    }
    if NonNegativeWeights(rels) {
      BothWeightsNonNegative(nodes, rels);
      NonNegativeSums(BothWeights(nodes, rels));
    }
  }

  /** At some node the relationships with each of its neighbours sum to less than zero. */
  ghost predicate SurelyPanics(nodes: seq<int>, rels: seq<Relationship>)
  {
    var g, ws := BothLists(nodes, rels), BothWeights(nodes, rels);
    Shape(g, ws) && AlwaysSticks(g, ws)
  }

  lemma OneRelationship(nodes: seq<int>, r: Relationship)
    requires nodes == [0, 1] && r.startNode == 0 && r.endNode == 1
    ensures BothLists(nodes, [r]) == [[1], [0]] && BothWeights(nodes, [r]) == [[RelWeight(r)], [RelWeight(r)]]
  {
    DistinctIndex(nodes, 0);
    DistinctIndex(nodes, 1);
    assert [r][..0] == [];
    assert BothLists(nodes, []) == [[], []] && BothWeights(nodes, []) == [[], []];
    assert [] + [1] == [1] && [] + [0] == [0] && [] + [RelWeight(r)] == [RelWeight(r)];
  }

  lemma PairSticks(w: real, i: int)
    requires 0 <= i < 2 && Shape([[1], [0]], [[w], [w]])
    ensures AllLabelsStick([[1], [0]], [[w], [w]], i) <==> w < 0.0
  {
    var ns := [[1], [0]][i];
    StickForAll([[1], [0]], [[w], [w]], i);
    assert ns == [1 - i] && ns[..0] == [] && [w][..0] == [];
    assert Votes(ns, [w], Identity(2), 1 - i) == w;
    assert forall j :: j in ns <==> j == 1 - i;
  }

  lemma PairSum(w: real)
    ensures NoNegativeSum([[w], [w]]) <==> w >= 0.0
  {
    assert [w][..0] == [] && SumOf([w]) == w;
    assert [[w], [w]][0] == [w] && [[w], [w]][1] == [w];
  }

  /** For two nodes, a relationship with a negative weight panics for certain, and one without never does. */
  lemma OnePairPanics(nodes: seq<int>, r: Relationship)
    requires nodes == [0, 1] && r.startNode == 0 && r.endNode == 1
    ensures SurelyPanics(nodes, [r]) <==> RelWeight(r) < 0.0
    ensures NoNegativeSum(BothWeights(nodes, [r])) <==> RelWeight(r) >= 0.0
  {
    OneRelationship(nodes, r);
    WeightsShape(nodes, [r]);
    PairSticks(RelWeight(r), 0);
    PairSticks(RelWeight(r), 1);
    PairSum(RelWeight(r));
  }

  /** labels and passes are those of a run from the node IDs that ends before or at the allowed number of passes. */
  ghost predicate IsRun(nodes: seq<int>, rels: seq<Relationship>, limit: int, labels: seq<int>, passes: nat)
  {
    var g, ws := BothLists(nodes, rels), BothWeights(nodes, rels);
    && Shape(g, ws) && |labels| == |nodes|
    && ChangingPasses(g, ws, nodes, labels, passes) && passes <= limit
  }

  /** It used all the passes that were allowed, or its labels are stable. */
  ghost predicate IsWholeRun(nodes: seq<int>, rels: seq<Relationship>, limit: int, labels: seq<int>, passes: nat)
  {
    && IsRun(nodes, rels, limit, labels, passes)
    && (passes < limit ==> Stable(BothLists(nodes, rels), BothWeights(nodes, rels), labels))
  }

  method LabelPropagation(nodes: seq<int>, rels: seq<Relationship>, maxIterations: int)
    returns (outcome: Outcome<seq<NodeResult>>, ghost labels: seq<int>, ghost passes: nat)
    ensures NonNegativeWeights(rels) || NoNegativeSum(BothWeights(nodes, rels)) ==> outcome.Done?
    ensures SurelyPanics(nodes, rels) ==> outcome.Panic?
    ensures IsRun(nodes, rels, if maxIterations <= 0 then 10 else maxIterations, labels, passes)
    ensures outcome.Panic? ==>
              && passes < (if maxIterations <= 0 then 10 else maxIterations)
              && PanicsFrom(BothLists(nodes, rels), BothWeights(nodes, rels), labels)
    ensures outcome.Done? ==>
            IsWholeRun(nodes, rels, if maxIterations <= 0 then 10 else maxIterations, labels, passes)
    ensures outcome.Done? ==> |outcome.value| == |nodes| && forall i :: 0 <= i < |nodes| ==>
            outcome.value[i].node == nodes[i]
    ensures outcome.Done? ==> ByFirstOccurrence(Numbers(outcome.value)) && SamePartition(Numbers(outcome.value), labels)
    ensures outcome.Done? && NoRepeats(nodes) ==> WithinComponents(nodes, rels, Numbers(outcome.value))
  {
    WeightsShape(nodes, rels);
    if |nodes| == 0 { return Done([]), nodes, 0; }
    var neighbors := BuildNeighbors(nodes, rels);
    var neighborWeights := BuildWeights(nodes, rels);
    var propagated;
    var limit := if maxIterations <= 0 then 10 else maxIterations;
    propagated, labels, passes := Propagate(nodes, neighbors, neighborWeights, limit);
    if propagated.Panic? { return Panic, labels, passes; }
    var ids := Renumber(propagated.value);
    if NoRepeats(nodes) {
      PassesAnchored(nodes, rels, neighborWeights, labels, passes);
      AnchoredWithin(nodes, rels, labels);
      PartitionWithin(nodes, rels, ids, labels);
    }
    var result := Label(nodes, ids);
    outcome := Done(result);
  }
}
