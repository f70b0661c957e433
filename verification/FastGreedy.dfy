/** FastGreedy: merges the two communities with the largest modularity gain while that gain is positive. */
module FastGreedy {
  import opened Walks
  import opened Graphs
  import opened Partitions
  import opened NewmanModularity
  import opened Randomness
  import opened Components
  import opened Counting

  /** math.MaxFloat64. */
  const MAX_FLOAT64: real := (Pow(2, 1024) - Pow(2, 971)) as real

  lemma MaxPositive()
    ensures MAX_FLOAT64 > 0.0
  {
    PowGrows(2, 971, 1024);
  }

  method SumWeights(nodes: seq<int>, rels: seq<Relationship>) returns (totalWeight: real)
    ensures totalWeight == 2.0 * Total(Edges(nodes, rels))
  {
    totalWeight := 0.0;
    for k := 0 to |rels|
      invariant totalWeight == Total(Edges(nodes, rels[..k]))
    {
      EdgesLast(nodes, rels[..k + 1]);
      assert rels[..k + 1][..k] == rels[..k];
      totalWeight := totalWeight + RelWeight(rels[k]);
    }
    assert rels[..|rels|] == rels;
    totalWeight := totalWeight * 2.0;
  }

  method BuildDegrees(nodes: seq<int>, rels: seq<Relationship>, nodeIndex: map<int, int>) returns (degree: seq<real>)
    requires nodeIndex == NodeIndex(nodes)
    ensures degree == PresentDegrees(nodes, rels)
  {
    degree := seq(|nodes|, _ => 0.0);
    for k := 0 to |rels|
      invariant degree == PresentDegrees(nodes, rels[..k])
    {
      assert rels[..k + 1][..k] == rels[..k];
      assert PresentDegrees(nodes, rels[..k + 1]) == AddPresent(nodeIndex, degree, rels[k]);
      var rel, w := rels[k], RelWeight(rels[k]);
      if rel.startNode in nodeIndex {
        degree := AddAt(degree, nodeIndex[rel.startNode], w);
      }
      if rel.endNode in nodeIndex {
        degree := AddAt(degree, nodeIndex[rel.endNode], w);
      }
    }
    assert rels[..|rels|] == rels;
  }

  // ---------- the members of communities ----------

  /** The positions below n with the label l, in order. */
  function Members(c: seq<int>, l: int, n: nat): (s: seq<int>)
    requires n <= |c|
    ensures forall k :: 0 <= k < |s| ==> 0 <= s[k] < n
  {
    if n == 0 then [] else if c[n - 1] == l then Members(c, l, n - 1) + [n - 1] else Members(c, l, n - 1)
  }

  lemma {:induction false} MembersIncreasing(c: seq<int>, l: int, n: nat)
    requires n <= |c|
    ensures Increasing(Members(c, l, n))
  {
    if n > 0 { MembersIncreasing(c, l, n - 1); }
  }

  lemma {:induction false} MembersHas(c: seq<int>, l: int, n: nat, x: int)
    requires n <= |c|
    ensures x in Members(c, l, n) <==> 0 <= x < n && c[x] == l
  {
    if n > 0 { MembersHas(c, l, n - 1, x); }
  }

  method BuildCommunities(c: seq<int>) returns (communities: map<int, seq<int>>)
    ensures forall l :: l in communities <==> l in c
    ensures forall l :: l in communities ==> communities[l] == Members(c, l, |c|)
  {
    communities := map[];
    for i := 0 to |c|
      invariant forall l :: l in communities <==> l in c[..i]
      invariant forall l :: l in communities ==> communities[l] == Members(c, l, i)
    {
      assert c[..i + 1] == c[..i] + [c[i]];
      var l := c[i];
      if l !in communities { NoMembers(c, l, i); }
      communities := communities[l := (if l in communities then communities[l] else []) + [i]];
    }
    assert c[..|c|] == c;
  }

  lemma {:induction false} NoMembers(c: seq<int>, l: int, n: nat)
    requires n <= |c| && l !in c[..n]
    ensures Members(c, l, n) == []
  {
    if n > 0 {
      assert c[n - 1] == c[..n][n - 1] && c[..n - 1] == c[..n][..n - 1];
      NoMembers(c, l, n - 1);
    }
  }

  /** The keys of the communities map, in whatever order the iteration gives. */
  method Listed(keys: set<int>) returns (s: seq<int>)
    ensures (forall l :: l in s <==> l in keys) && |s| == |keys|
    ensures NoRepeats(s)
  {
    s := [];
    var left: set<int> := keys;
    while left != {}
      invariant left <= keys && |s| + |left| == |keys|
      invariant forall l :: l in s <==> l in keys && l !in left
      invariant NoRepeats(s)
    {
      var l := AnyOf(left);
      s := s + [l];
      left := left - {l};
    }
  }

  // ---------- the weight between two communities ----------

  /** What one relationship adds while position i is looked at. */
  function Contribution(e: Edge, i: int, nodesJ: seq<int>): real
  {
    if e.a == i then (if e.b in nodesJ then e.w else 0.0)
    else if e.b == i then (if e.a in nodesJ then e.w else 0.0)
    else 0.0
  }

  function Row(es: seq<Edge>, i: int, nodesJ: seq<int>): real
  {
    if |es| == 0 then 0.0 else Row(es[..|es| - 1], i, nodesJ) + Contribution(es[|es| - 1], i, nodesJ)
  }

  function Grid(nodesI: seq<int>, es: seq<Edge>, nodesJ: seq<int>): real
  {
    if |nodesI| == 0 then 0.0 else Grid(nodesI[..|nodesI| - 1], es, nodesJ) + Row(es, nodesI[|nodesI| - 1], nodesJ)
  }

  ghost function Column(nodesI: seq<int>, e: Edge, nodesJ: seq<int>): real
  {
    if |nodesI| == 0 then 0.0
    else Column(nodesI[..|nodesI| - 1], e, nodesJ) + Contribution(e, nodesI[|nodesI| - 1], nodesJ)
  }

  /** The triple loop can be summed relationship by relationship. */
  lemma {:induction false} GridColumn(nodesI: seq<int>, es: seq<Edge>, nodesJ: seq<int>)
    requires |es| > 0
    ensures Grid(nodesI, es, nodesJ) == Grid(nodesI, es[..|es| - 1], nodesJ) + Column(nodesI, es[|es| - 1], nodesJ)
    decreases nodesI
  {
    if |nodesI| > 0 { GridColumn(nodesI[..|nodesI| - 1], es, nodesJ); }
  }

  lemma {:induction false} GridEmpty(nodesI: seq<int>, nodesJ: seq<int>)
    ensures Grid(nodesI, [], nodesJ) == 0.0
  {
    if |nodesI| > 0 { GridEmpty(nodesI[..|nodesI| - 1], nodesJ); }
  }

  lemma ColumnAppend(s: seq<int>, x: int, e: Edge, nodesJ: seq<int>)
    ensures Column(s + [x], e, nodesJ) == Column(s, e, nodesJ) + Contribution(e, x, nodesJ)
  {
    assert (s + [x])[..|s|] == s;
  }

  /** What the ends of e before position n add if they lie in l, and the other end in m. */
  ghost function EndsBelow(c: seq<int>, l: int, m: int, n: nat, e: Edge): real
    requires 0 <= e.a < |c| && 0 <= e.b < |c|
  {
    (if e.a < n && c[e.a] == l && c[e.b] == m then e.w else 0.0)
      + (if e.b < n && c[e.b] == l && c[e.a] == m then e.w else 0.0)
  }

  lemma EndsNext(c: seq<int>, l: int, m: int, n: nat, e: Edge, nodesJ: seq<int>)
    requires n < |c| && l != m && 0 <= e.a < |c| && 0 <= e.b < |c|
    requires e.a in nodesJ <==> c[e.a] == m
    requires e.b in nodesJ <==> c[e.b] == m
    ensures EndsBelow(c, l, m, n + 1, e) ==
            EndsBelow(c, l, m, n, e) + if c[n] == l then Contribution(e, n, nodesJ) else 0.0
  {}

  /** A relationship is counted once, from its end in the first community. */
  lemma {:induction false} ColumnValue(c: seq<int>, l: int, m: int, n: nat, e: Edge, nodesJ: seq<int>)
    requires n <= |c| && l != m && 0 <= e.a < |c| && 0 <= e.b < |c|
    requires e.a in nodesJ <==> c[e.a] == m
    requires e.b in nodesJ <==> c[e.b] == m
    ensures Column(Members(c, l, n), e, nodesJ) == EndsBelow(c, l, m, n, e)
  {
    if n > 0 {
      ColumnValue(c, l, m, n - 1, e, nodesJ);
      EndsNext(c, l, m, n - 1, e, nodesJ);
      ColumnAppend(Members(c, l, n - 1), n - 1, e, nodesJ);
    }
  }

  lemma {:induction false} GridIsBetween(c: seq<int>, l: int, m: int, es: seq<Edge>)
    requires InRange(es, |c|) && l != m
    ensures Grid(Members(c, l, |c|), es, Members(c, m, |c|)) == Between(es, c, l, m)
  {
    var nodesI, nodesJ := Members(c, l, |c|), Members(c, m, |c|);
    if |es| == 0 {
      GridEmpty(nodesI, nodesJ);
      assert es == [];
    } else {
      GridIsBetween(c, l, m, es[..|es| - 1]);
      GridColumn(nodesI, es, nodesJ);
      MembersHas(c, m, |c|, es[|es| - 1].a);
      MembersHas(c, m, |c|, es[|es| - 1].b);
      ColumnValue(c, l, m, |c|, es[|es| - 1], nodesJ);
    }
  }

  /** The two inner loops, for one position of the first community. */
  method SumRow(rels: seq<Relationship>, nodeIndex: map<int, int>, es: seq<Edge>, i: int, nodesJ: seq<int>)
    returns (sum: real)
    requires |es| == |rels|
    requires forall k :: 0 <= k < |rels| ==>
               es[k] == Edge(Look(nodeIndex, rels[k].startNode), Look(nodeIndex, rels[k].endNode), RelWeight(rels[k]))
    requires Increasing(nodesJ)
    ensures sum == Row(es, i, nodesJ)
  {
    sum := 0.0;
    for k := 0 to |rels|
      invariant sum == Row(es[..k], i, nodesJ)
    {
      assert es[..k + 1][..k] == es[..k];
      var rel := rels[k];
      var otherIdx;
      if Look(nodeIndex, rel.startNode) == i {
        otherIdx := Look(nodeIndex, rel.endNode);
      } else if Look(nodeIndex, rel.endNode) == i {
        otherIdx := Look(nodeIndex, rel.startNode);
      } else {
        continue;
      }
      ghost var before := sum;
      for j := 0 to |nodesJ|
        invariant sum == before + if otherIdx in nodesJ[..j] then RelWeight(rel) else 0.0
      {
        assert nodesJ[..j + 1] == nodesJ[..j] + [nodesJ[j]];
        assert nodesJ[j] !in nodesJ[..j];
        if otherIdx == nodesJ[j] {
          sum := sum + RelWeight(rel);
        }
      }
      assert nodesJ[..|nodesJ|] == nodesJ;
    }
    assert es[..|rels|] == es;
  }

  method SumBetween(rels: seq<Relationship>, nodeIndex: map<int, int>, es: seq<Edge>, nodesI: seq<int>,
                    nodesJ: seq<int>)
    returns (eij: real)
    requires |es| == |rels|
    requires forall k :: 0 <= k < |rels| ==>
               es[k] == Edge(Look(nodeIndex, rels[k].startNode), Look(nodeIndex, rels[k].endNode), RelWeight(rels[k]))
    requires Increasing(nodesJ)
    ensures eij == Grid(nodesI, es, nodesJ)
  {
    eij := 0.0;
    for n := 0 to |nodesI|
      invariant eij == Grid(nodesI[..n], es, nodesJ)
    {
      assert nodesI[..n + 1][..n] == nodesI[..n];
      var row := SumRow(rels, nodeIndex, es, nodesI[n], nodesJ);
      eij := eij + row;
    }
    assert nodesI[..|nodesI|] == nodesI;
  }

  function ListSum(deg: seq<real>, s: seq<int>): real
    requires forall k :: 0 <= k < |s| ==> 0 <= s[k] < |deg|
  {
    if |s| == 0 then 0.0 else ListSum(deg, s[..|s| - 1]) + deg[s[|s| - 1]]
  }

  lemma ListSumAppend(deg: seq<real>, s: seq<int>, x: int)
    requires (forall k :: 0 <= k < |s| ==> 0 <= s[k] < |deg|) && 0 <= x < |deg|
    ensures ListSum(deg, s + [x]) == ListSum(deg, s) + deg[x]
  {
    assert (s + [x])[..|s|] == s;
  }

  lemma {:induction false} ListSumMembers(deg: seq<real>, c: seq<int>, l: int, n: nat)
    requires n <= |deg| == |c|
    ensures ListSum(deg, Members(c, l, n)) == MemberSum(deg, c, l, n)
  {
    if n > 0 {
      ListSumMembers(deg, c, l, n - 1);
      ListSumAppend(deg, Members(c, l, n - 1), n - 1);
    }
  }

  method SumDegrees(deg: seq<real>, s: seq<int>) returns (sum: real)
    requires forall k :: 0 <= k < |s| ==> 0 <= s[k] < |deg|
    ensures sum == ListSum(deg, s)
  {
    sum := 0.0;
    for k := 0 to |s|
      invariant sum == ListSum(deg, s[..k])
    {
      assert s[..k + 1][..k] == s[..k];
      sum := sum + deg[s[k]];
    }
    assert s[..|s|] == s;
  }

  // ---------- greedy merging ----------

  /** The deltaQ that the code computes for two communities. */
  ghost function Gain(es: seq<Edge>, deg: seq<real>, c: seq<int>, T: real): (int, int) -> real
    requires InRange(es, |c|) && |deg| == |c| && T != 0.0
  {
    (l, m) => Delta(Between(es, c, l, m), MemberSum(deg, c, l, |c|), MemberSum(deg, c, m, |c|), T)
  }

  lemma {:induction false} BetweenSymmetric(es: seq<Edge>, c: seq<int>, l: int, m: int)
    requires InRange(es, |c|)
    ensures Between(es, c, l, m) == Between(es, c, m, l)
  {
    if |es| > 0 { BetweenSymmetric(es[..|es| - 1], c, l, m); }
  }

  lemma GainSymmetric(es: seq<Edge>, deg: seq<real>, c: seq<int>, T: real, l: int, m: int)
    requires InRange(es, |c|) && |deg| == |c| && T != 0.0
    ensures Gain(es, deg, c, T)(l, m) == Gain(es, deg, c, T)(m, l)
  {
    BetweenSymmetric(es, c, l, m);
  }

  /** No two communities have a gain above `bound`. */
  ghost predicate NoGainAbove(gain: (int, int) -> real, c: seq<int>, bound: real)
  {
    forall l, m {:trigger gain(l, m)} :: l in c && m in c && l != m ==> gain(l, m) <= bound
  }

  /** d merges the two communities of c with the largest gain, and that gain is positive. */
  ghost predicate GreedyStep(es: seq<Edge>, deg: seq<real>, T: real, c: seq<int>, d: seq<int>)
    requires InRange(es, |c|) && |deg| == |c| && T != 0.0
  {
    exists l, m :: IsBestMerge(Gain(es, deg, c, T), c, d, l, m)
  }

  ghost predicate IsBestMerge(gain: (int, int) -> real, c: seq<int>, d: seq<int>, l: int, m: int)
  {
    l in c && m in c && l != m && d == Merge(c, l, m) && gain(l, m) > 0.0 && NoGainAbove(gain, c, gain(l, m))
  }

  /** A run from singleton communities; every partition is the greedy step after the one before. */
  ghost predicate GreedyRun(es: seq<Edge>, deg: seq<real>, T: real, n: nat, trail: seq<seq<int>>)
    requires InRange(es, n) && |deg| == n && T != 0.0
  {
    && |trail| > 0 && (forall k :: 0 <= k < |trail| ==> |trail[k]| == n)
    && (forall i :: 0 <= i < n ==> trail[0][i] == i)
    && (forall k {:trigger trail[k]} :: 0 < k < |trail| ==> GreedyStep(es, deg, T, trail[k - 1], trail[k]))
  }

  ghost function Labels(c: seq<int>): set<int>
  {
    set i | 0 <= i < |c| :: c[i]
  }

  lemma MergeLabels(c: seq<int>, l: int, m: int)
    requires l in c && m in c && l != m
    ensures Labels(Merge(c, l, m)) == Labels(c) - {m} && |Labels(Merge(c, l, m))| == |Labels(c)| - 1
  {
    var d := Merge(c, l, m);
    var i :| 0 <= i < |c| && c[i] == l;
    assert d[i] == l;
    forall x
      ensures x in Labels(d) <==> x in Labels(c) && x != m
    {
      if x in Labels(c) && x != m {
        var k :| 0 <= k < |c| && c[k] == x;
        assert d[k] == x;
      }
    }
    assert m in Labels(c) && Labels(d) == Labels(c) - {m};
  }

  /** The code's deltaQ for one pair of communities. */
  method PairDelta(rels: seq<Relationship>, nodeIndex: map<int, int>, es: seq<Edge>, degree: seq<real>, T: real,
                   communities: map<int, seq<int>>, c: seq<int>, l: int, m: int) returns (deltaQ: real)
    requires |es| == |rels| && InRange(es, |c|) && |degree| == |c| && T != 0.0 && l in c && m in c && l != m
    requires forall k :: 0 <= k < |rels| ==>
               es[k] == Edge(Look(nodeIndex, rels[k].startNode), Look(nodeIndex, rels[k].endNode), RelWeight(rels[k]))
    requires forall x :: x in communities <==> x in c
    requires forall x :: x in communities ==> communities[x] == Members(c, x, |c|)
    ensures deltaQ == Gain(es, degree, c, T)(l, m)
  {
    MembersIncreasing(c, m, |c|);
    var eij := SumBetween(rels, nodeIndex, es, communities[l], communities[m]);
    var ai := SumDegrees(degree, communities[l]);
    var aj := SumDegrees(degree, communities[m]);
    GridIsBetween(c, l, m, es);
    ListSumMembers(degree, c, l, |c|);
    ListSumMembers(degree, c, m, |c|);
    return 2.0 * (eij / T - (ai / T) * (aj / T));
  }

  /** Either nothing has been chosen yet, or the pair and its gain. */
  ghost predicate IsChoice(gain: (int, int) -> real, commList: seq<int>, bestDeltaQ: real, bestI: int, bestJ: int)
  {
    if bestI < 0 then bestDeltaQ == -MAX_FLOAT64
    else bestI < bestJ < |commList| && bestDeltaQ == gain(commList[bestI], commList[bestJ])
  }

  /** No pair whose first part comes before the n-th gains more. */
  ghost predicate RowsBelow(gain: (int, int) -> real, commList: seq<int>, n: int, bound: real)
    requires 0 <= n <= |commList|
  {
    forall i, j :: 0 <= i < n && i < j < |commList| ==> gain(commList[i], commList[j]) <= bound
  }

  /** What the code has built for the current communities. */
  ghost predicate IsSetting(rels: seq<Relationship>, nodeIndex: map<int, int>, es: seq<Edge>, degree: seq<real>,
                            T: real, communities: map<int, seq<int>>, c: seq<int>, commList: seq<int>)
  {
    && |es| == |rels| && InRange(es, |c|) && |degree| == |c| && T != 0.0
    && (forall k :: 0 <= k < |rels| ==>
          es[k] == Edge(Look(nodeIndex, rels[k].startNode), Look(nodeIndex, rels[k].endNode), RelWeight(rels[k])))
    && (forall x :: x in communities <==> x in c)
    && (forall x :: x in communities ==> communities[x] == Members(c, x, |c|))
    && (forall x :: x in commList ==> x in c) && NoRepeats(commList)
  }

  /** The inner loop: the pairs of one community with the later ones. */
  method BestInRow(rels: seq<Relationship>, nodeIndex: map<int, int>, es: seq<Edge>, degree: seq<real>, T: real,
                   communities: map<int, seq<int>>, c: seq<int>, commList: seq<int>, ci: int, best0: real, bestI0: int,
                   bestJ0: int)
    returns (bestDeltaQ: real, bestI: int, bestJ: int)
    requires IsSetting(rels, nodeIndex, es, degree, T, communities, c, commList) && 0 <= ci < |commList|
    requires IsChoice(Gain(es, degree, c, T), commList, best0, bestI0, bestJ0)
    ensures IsChoice(Gain(es, degree, c, T), commList, bestDeltaQ, bestI, bestJ) && best0 <= bestDeltaQ
    ensures forall j :: ci < j < |commList| ==> Gain(es, degree, c, T)(commList[ci], commList[j]) <= bestDeltaQ
  {
    ghost var gain := Gain(es, degree, c, T);
    bestDeltaQ, bestI, bestJ := best0, bestI0, bestJ0;
    for cj := ci + 1 to |commList|
      invariant IsChoice(gain, commList, bestDeltaQ, bestI, bestJ) && best0 <= bestDeltaQ
      invariant forall j :: ci < j < cj ==> gain(commList[ci], commList[j]) <= bestDeltaQ
    {
      var commI, commJ := commList[ci], commList[cj];
      assert commI in commList && commJ in commList;
      var deltaQ := PairDelta(rels, nodeIndex, es, degree, T, communities, c, commI, commJ);
      if deltaQ > bestDeltaQ {
        bestDeltaQ, bestI, bestJ := deltaQ, ci, cj;
      }
    }
  }

  method BestPair(rels: seq<Relationship>, nodeIndex: map<int, int>, es: seq<Edge>, degree: seq<real>, T: real,
                  communities: map<int, seq<int>>, c: seq<int>, commList: seq<int>)
    returns (bestDeltaQ: real, bestI: int, bestJ: int)
    requires IsSetting(rels, nodeIndex, es, degree, T, communities, c, commList)
    ensures IsChoice(Gain(es, degree, c, T), commList, bestDeltaQ, bestI, bestJ)
    ensures RowsBelow(Gain(es, degree, c, T), commList, |commList|, bestDeltaQ)
  {
    bestDeltaQ, bestI, bestJ := -MAX_FLOAT64, -1, -1;
    for ci := 0 to |commList|
      invariant IsChoice(Gain(es, degree, c, T), commList, bestDeltaQ, bestI, bestJ)
      invariant RowsBelow(Gain(es, degree, c, T), commList, ci, bestDeltaQ)
    {
      bestDeltaQ, bestI, bestJ := BestInRow(rels, nodeIndex, es, degree, T, communities, c, commList, ci, bestDeltaQ,
                                            bestI, bestJ);
    }
  }

  lemma PairsCoverAll(es: seq<Edge>, deg: seq<real>, c: seq<int>, T: real, commList: seq<int>, bound: real)
    requires InRange(es, |c|) && |deg| == |c| && T != 0.0
    requires forall x :: x in c ==> x in commList
    requires RowsBelow(Gain(es, deg, c, T), commList, |commList|, bound)
    ensures NoGainAbove(Gain(es, deg, c, T), c, bound)
  {
    var gain := Gain(es, deg, c, T);
    forall l, m {:trigger gain(l, m)} | l in c && m in c && l != m
      ensures gain(l, m) <= bound
    {
      var i :| 0 <= i < |commList| && commList[i] == l;
      var j :| 0 <= j < |commList| && commList[j] == m;
      GainSymmetric(es, deg, c, T, l, m);
      if i < j {
        assert gain(commList[i], commList[j]) <= bound;
      } else {
        assert gain(commList[j], commList[i]) <= bound;
      }
    }
  }

  /** The loop that relabels one community. */
  method Relabel(c: seq<int>, commI: int, commJ: int) returns (d: seq<int>)
    ensures d == Merge(c, commI, commJ)
  {
    d := c;
    for i := 0 to |c|
      invariant |d| == |c|
      invariant forall k :: 0 <= k < i ==> d[k] == if c[k] == commJ then commI else c[k]
      invariant forall k :: i <= k < |c| ==> d[k] == c[k]
    {
      if d[i] == commJ {
        d := d[i := commI];
      }
    }
  }

  lemma RunExtends(es: seq<Edge>, deg: seq<real>, T: real, n: nat, trail: seq<seq<int>>, d: seq<int>)
    requires InRange(es, n) && |deg| == n && T != 0.0 && GreedyRun(es, deg, T, n, trail)
    requires |d| == n && GreedyStep(es, deg, T, trail[|trail| - 1], d)
    ensures GreedyRun(es, deg, T, n, trail + [d])
  {
    var more := trail + [d];
    forall k {:trigger more[k]} | 0 < k < |more|
      ensures GreedyStep(es, deg, T, more[k - 1], more[k])
    {
      if k < |trail| { assert more[k - 1] == trail[k - 1] && more[k] == trail[k]; }
    }
  }

  /** The merging loop; numCommunities counts the distinct labels throughout. */
  method MergeCommunities(rels: seq<Relationship>, nodeIndex: map<int, int>, es: seq<Edge>, degree: seq<real>, T: real)
    returns (community: seq<int>, numCommunities: int, ghost trail: seq<seq<int>>)
    requires |es| == |rels| && InRange(es, |degree|) && T != 0.0
    requires forall k :: 0 <= k < |rels| ==>
               es[k] == Edge(Look(nodeIndex, rels[k].startNode), Look(nodeIndex, rels[k].endNode), RelWeight(rels[k]))
    ensures |community| == |degree| && GreedyRun(es, degree, T, |degree|, trail) && community == trail[|trail| - 1]
    ensures NoGainAbove(Gain(es, degree, community, T), community, 0.0) && numCommunities == |Labels(community)|
  {
    var n := |degree|;
    community := seq(n, i => i);
    trail := [community];
    numCommunities := n;
    AllLabels(n, community);
    while numCommunities > 1
      invariant |community| == n && GreedyRun(es, degree, T, n, trail) && community == trail[|trail| - 1]
      invariant numCommunities == |Labels(community)|
      decreases numCommunities
    {
      var communities := BuildCommunities(community);
      var commList := Listed(communities.Keys);
      var bestDeltaQ, bestI, bestJ := BestPair(rels, nodeIndex, es, degree, T, communities, community, commList);
      PairsCoverAll(es, degree, community, T, commList, bestDeltaQ);
      MaxPositive();
      if bestI < 0 || bestDeltaQ <= 0.0 {
        return;
      }
      var commI, commJ := commList[bestI], commList[bestJ];
      assert commI in commList && commJ in commList;
      var merged := Relabel(community, commI, commJ);
      assert IsBestMerge(Gain(es, degree, community, T), community, merged, commI, commJ);
      RunExtends(es, degree, T, n, trail, merged);
      MergeLabels(community, commI, commJ);
      community := merged;
      trail := trail + [merged];
      numCommunities := numCommunities - 1;
    }
    FewLabels(community);
  }

  lemma {:induction false} AllLabels(n: nat, c: seq<int>)
    requires |c| >= n && forall i :: 0 <= i < n ==> c[i] == i
    ensures |Labels(c[..n])| == n && Labels(c[..|c|]) == Labels(c)
    ensures |c| == n ==> |Labels(c)| == n
  {
    assert c[..|c|] == c;
    if n == 0 {
      assert Labels(c[..0]) == {};
    } else {
      AllLabels(n - 1, c);
      assert c[..n] == c[..n - 1] + [n - 1];
      assert Labels(c[..n]) == Labels(c[..n - 1]) + {n - 1} by {
        forall x
          ensures x in Labels(c[..n]) <==> x in Labels(c[..n - 1]) || x == n - 1
        {
          assert c[..n][n - 1] == n - 1;
          if x in Labels(c[..n - 1]) {
            var k :| 0 <= k < n - 1 && c[..n - 1][k] == x;
            assert c[..n][k] == x;
          }
        }
      }
      assert n - 1 !in Labels(c[..n - 1]);
    }
  }

  lemma FewLabels(c: seq<int>)
    requires |Labels(c)| <= 1
    ensures forall l, m :: l in c && m in c ==> l == m
  {
    forall l, m | l in c && m in c
      ensures l == m
    {
      assert l in Labels(c) && m in Labels(c);
      SubsetSize({l, m}, Labels(c));
      assert l != m ==> |{l, m}| == 2;
    }
  }

  // ---------- what a run achieves ----------

  /** Along a run of a graph whose endpoints are all present, modularity strictly rises, each time by the
      computed deltaQ. */
  lemma StepRaisesModularity(nodes: seq<int>, rels: seq<Relationship>, T: real, c: seq<int>, d: seq<int>, l: int,
                             m: int)
    requires EndpointsPresent(nodes, rels) && |nodes| == |c| > 0 && T != 0.0
    requires 0 <= l < |c| && 0 <= m < |c|
    requires IsBestMerge(Gain(Edges(nodes, rels), PresentDegrees(nodes, rels), c, T), c, d, l, m)
    ensures Modularity(Edges(nodes, rels), d, T) - Modularity(Edges(nodes, rels), c, T) ==
            Gain(Edges(nodes, rels), PresentDegrees(nodes, rels), c, T)(l, m) > 0.0
  {
    var es := Edges(nodes, rels);
    PresentDegreesAre(nodes, rels);
    VolumeIsMemberSum(es, c, l);
    VolumeIsMemberSum(es, c, m);
    MergeGain(es, c, l, m, T);
  }

  ghost predicate Positions(c: seq<int>, n: nat)
  {
    forall i {:trigger c[i]} :: 0 <= i < |c| ==> 0 <= c[i] < n
  }

  lemma MergePositions(gain: (int, int) -> real, c: seq<int>, d: seq<int>, l: int, m: int, n: nat)
    requires Positions(c, n) && IsBestMerge(gain, c, d, l, m)
    ensures Positions(d, n) && 0 <= l < n && 0 <= m < n
  {
    var i :| 0 <= i < |c| && c[i] == l;
    var j :| 0 <= j < |c| && c[j] == m;
  }

  lemma {:induction false} RunLabels(es: seq<Edge>, deg: seq<real>, T: real, n: nat, trail: seq<seq<int>>, k: nat)
    requires InRange(es, n) && |deg| == n && T != 0.0 && GreedyRun(es, deg, T, n, trail) && k < |trail|
    ensures Positions(trail[k], n)
  {
    if k > 0 {
      var c, d := trail[k - 1], trail[k];
      RunLabels(es, deg, T, n, trail, k - 1);
      assert GreedyStep(es, deg, T, c, d);
      var l, m :| IsBestMerge(Gain(es, deg, c, T), c, d, l, m);
      MergePositions(Gain(es, deg, c, T), c, d, l, m, n);
    }
  }

  lemma GreedyRaises(nodes: seq<int>, rels: seq<Relationship>, T: real, c: seq<int>, d: seq<int>)
    requires EndpointsPresent(nodes, rels) && |nodes| == |c| > 0 && T != 0.0 && Positions(c, |c|)
    requires GreedyStep(Edges(nodes, rels), PresentDegrees(nodes, rels), T, c, d)
    ensures |d| == |c| && Modularity(Edges(nodes, rels), c, T) < Modularity(Edges(nodes, rels), d, T)
  {
    var gain := Gain(Edges(nodes, rels), PresentDegrees(nodes, rels), c, T);
    var l, m :| IsBestMerge(gain, c, d, l, m);
    MergePositions(gain, c, d, l, m, |c|);
    StepRaisesModularity(nodes, rels, T, c, d, l, m);
  }

  /** So modularity strictly rises along a run, and no partition occurs twice. */
  lemma {:induction false} RunRaisesModularity(nodes: seq<int>, rels: seq<Relationship>, T: real, trail: seq<seq<int>>,
                                               i: nat, j: nat)
    requires EndpointsPresent(nodes, rels) && |nodes| > 0 && T != 0.0 && i < j < |trail|
    requires GreedyRun(Edges(nodes, rels), PresentDegrees(nodes, rels), T, |nodes|, trail)
    ensures Modularity(Edges(nodes, rels), trail[i], T) < Modularity(Edges(nodes, rels), trail[j], T)
    decreases j
  {
    var es, deg := Edges(nodes, rels), PresentDegrees(nodes, rels);
    var c, d := trail[j - 1], trail[j];
    assert GreedyStep(es, deg, T, c, d);
    RunLabels(es, deg, T, |nodes|, trail, j - 1);
    GreedyRaises(nodes, rels, T, c, d);
    if i < j - 1 {
      RunRaisesModularity(nodes, rels, T, trail, i, j - 1);
    }
  }

  /** In the end no merge of two communities would raise modularity. */
  lemma NoMergeRaisesModularity(nodes: seq<int>, rels: seq<Relationship>, T: real, c: seq<int>, l: int, m: int)
    requires EndpointsPresent(nodes, rels) && |nodes| == |c| > 0 && T != 0.0
    requires NoGainAbove(Gain(Edges(nodes, rels), PresentDegrees(nodes, rels), c, T), c, 0.0)
    requires l in c && m in c && l != m && 0 <= l < |c| && 0 <= m < |c|
    ensures Modularity(Edges(nodes, rels), Merge(c, l, m), T) <= Modularity(Edges(nodes, rels), c, T)
  {
    var es, gain := Edges(nodes, rels), Gain(Edges(nodes, rels), PresentDegrees(nodes, rels), c, T);
    PresentDegreesAre(nodes, rels);
    VolumeIsMemberSum(es, c, l);
    VolumeIsMemberSum(es, c, m);
    MergeGain(es, c, l, m, T);
    assert gain(l, m) <= 0.0;
  }

  lemma PositiveDelta(between: real, x: real, y: real, T: real)
    requires T > 0.0 && x >= 0.0 && y >= 0.0 && Delta(between, x, y, T) > 0.0
    ensures between > 0.0
  {
    var p, q := x / T, y / T;
    assert p >= 0.0 && q >= 0.0;
    ProductNonNegative(p, q);
    assert between / T > 0.0;
  }

  lemma ProductNonNegative(p: real, q: real)
    requires p >= 0.0 && q >= 0.0
    ensures p * q >= 0.0
  {}

  lemma WeightsNonNegative(nodes: seq<int>, rels: seq<Relationship>)
    requires NonNegativeWeights(rels)
    ensures forall k :: 0 <= k < |rels| ==> Edges(nodes, rels)[k].w >= 0.0
  {
    forall k | 0 <= k < |rels| ensures Edges(nodes, rels)[k].w >= 0.0 { assert rels[k] in rels; }
  }

  /** With non-negative weights a positive gain needs a relationship between the two communities. */
  lemma GainNeedsEdge(nodes: seq<int>, rels: seq<Relationship>, T: real, c: seq<int>, l: int, m: int) returns (k: int)
    requires EndpointsPresent(nodes, rels) && NonNegativeWeights(rels) && |nodes| == |c| > 0 && T > 0.0
    requires Gain(Edges(nodes, rels), PresentDegrees(nodes, rels), c, T)(l, m) > 0.0
    ensures 0 <= k < |rels| && Crosses(Edges(nodes, rels)[k], c, l, m)
  {
    var es := Edges(nodes, rels);
    WeightsNonNegative(nodes, rels);
    PresentDegreesAre(nodes, rels);
    VolumeIsMemberSum(es, c, l);
    VolumeIsMemberSum(es, c, m);
    VolumeNonNegative(es, c, l);
    VolumeNonNegative(es, c, m);
    PositiveDelta(Between(es, c, l, m), Volume(es, c, l), Volume(es, c, m), T);
    PositiveBetween(es, c, l, m);
    k :| 0 <= k < |es| && Crosses(es[k], c, l, m);
  }

  /** So a merge joins two communities inside one component. */
  lemma MergeWithin(nodes: seq<int>, rels: seq<Relationship>, T: real, c: seq<int>, d: seq<int>, l: int, m: int)
    requires EndpointsPresent(nodes, rels) && NonNegativeWeights(rels) && |nodes| == |c| > 0 && T > 0.0
    requires IsBestMerge(Gain(Edges(nodes, rels), PresentDegrees(nodes, rels), c, T), c, d, l, m)
    requires WithinComponents(nodes, rels, c)
    ensures WithinComponents(nodes, rels, d)
  {
    var k := GainNeedsEdge(nodes, rels, T, c, l, m);
    EdgeConnects(nodes, rels, k);
    MergedWithin(nodes, rels, c, Edges(nodes, rels)[k], l, m);
  }

  lemma MergedWithin(nodes: seq<int>, rels: seq<Relationship>, c: seq<int>, e: Edge, l: int, m: int)
    requires WithinComponents(nodes, rels, c) && Connected(nodes, rels, e.a, e.b)
    requires 0 <= e.a < |c| && 0 <= e.b < |c| && Crosses(e, c, l, m)
    ensures WithinComponents(nodes, rels, Merge(c, l, m))
  {
    var d := Merge(c, l, m);
    forall i, j | 0 <= i < |d| && 0 <= j < |d| && d[i] == d[j]
      ensures Connected(nodes, rels, i, j)
    {
      JoinWithin(nodes, rels, c, e.a, e.b, i, j);
    }
  }

  lemma EdgeConnects(nodes: seq<int>, rels: seq<Relationship>, k: int)
    requires EndpointsPresent(nodes, rels) && 0 <= k < |rels|
    ensures var e := Edges(nodes, rels)[k]; Connected(nodes, rels, e.a, e.b)
  {
    assert rels[k] in rels;
    var e := Edges(nodes, rels)[k];
    assert Joins(nodes, rels[k], e.a, e.b) && Arc(nodes, rels, e.a, e.b);
    BothListsArcs(nodes, rels);
    ReachesStep(Adj(BothLists(nodes, rels)), e.a, e.b);
  }

  /** Positions of one community, or of the two that the edge a - b joins, are connected. */
  lemma JoinWithin(nodes: seq<int>, rels: seq<Relationship>, c: seq<int>, a: int, b: int, i: int, j: int)
    requires WithinComponents(nodes, rels, c) && Connected(nodes, rels, a, b)
    requires 0 <= a < |c| && 0 <= b < |c| && 0 <= i < |c| && 0 <= j < |c|
    requires c[i] == c[j] || (c[i] == c[a] && c[j] == c[b]) || (c[i] == c[b] && c[j] == c[a])
    ensures Connected(nodes, rels, i, j)
  {
    var next := Adj(BothLists(nodes, rels));
    BothListsArcs(nodes, rels);
    ReachesSym(next, a, b);
    if c[i] == c[j] {
    } else if c[i] == c[a] {
      ReachesTrans(next, i, a, b);
      ReachesTrans(next, i, b, j);
    } else {
      ReachesTrans(next, i, b, a);
      ReachesTrans(next, i, a, j);
    }
  }

  lemma {:induction false} RunWithin(nodes: seq<int>, rels: seq<Relationship>, T: real, trail: seq<seq<int>>, k: nat)
    requires EndpointsPresent(nodes, rels) && NonNegativeWeights(rels) && |nodes| > 0 && T > 0.0 && k < |trail|
    requires GreedyRun(Edges(nodes, rels), PresentDegrees(nodes, rels), T, |nodes|, trail)
    ensures WithinComponents(nodes, rels, trail[k])
  {
    if k == 0 {
      forall i, j | 0 <= i < |nodes| && 0 <= j < |nodes| && trail[0][i] == trail[0][j]
        ensures Connected(nodes, rels, i, j)
      {
        assert i == j;
      }
    } else {
      var es, deg, c, d := Edges(nodes, rels), PresentDegrees(nodes, rels), trail[k - 1], trail[k];
      RunWithin(nodes, rels, T, trail, k - 1);
      assert GreedyStep(es, deg, T, c, d);
      var l, m :| IsBestMerge(Gain(es, deg, c, T), c, d, l, m);
      MergeWithin(nodes, rels, T, c, d, l, m);
    }
  }

  lemma {:induction false} TotalNonNegative(es: seq<Edge>)
    requires forall k :: 0 <= k < |es| ==> es[k].w >= 0.0
    ensures Total(es) >= 0.0
  {
    if |es| > 0 { TotalNonNegative(es[..|es| - 1]); }
  }

  lemma Singletons(nodes: seq<int>, rels: seq<Relationship>, ids: seq<int>)
    requires |ids| == |nodes| && forall i :: 0 <= i < |ids| ==> ids[i] == i
    ensures ByFirstOccurrence(ids) && WithinComponents(nodes, rels, ids)
  {
    forall i {:trigger HasPredecessor(ids, i)} | 0 <= i < |ids| && ids[i] > 0
      ensures HasPredecessor(ids, i)
    {
      assert ids[i - 1] == ids[i] - 1;
    }
    forall i, j | 0 <= i < |ids| && 0 <= j < |ids| && ids[i] == ids[j]
      ensures Connected(nodes, rels, i, j)
    {
      assert i == j;
    }
  }

  // ---------- the whole function ----------

  /** ids is the partition that a greedy run ends in, and there no two communities have a positive gain. */
  ghost predicate EndOfRun(es: seq<Edge>, deg: seq<real>, T: real, n: nat, trail: seq<seq<int>>, ids: seq<int>)
    requires InRange(es, n) && |deg| == n && T != 0.0
  {
    && GreedyRun(es, deg, T, n, trail)
    && SamePartition(ids, trail[|trail| - 1])
    && NoGainAbove(Gain(es, deg, trail[|trail| - 1], T), trail[|trail| - 1], 0.0)
  }

  lemma EndWithin(nodes: seq<int>, rels: seq<Relationship>, T: real, trail: seq<seq<int>>, ids: seq<int>)
    requires |nodes| > 0 && T != 0.0 && T == 2.0 * Total(Edges(nodes, rels))
    requires EndOfRun(Edges(nodes, rels), PresentDegrees(nodes, rels), T, |nodes|, trail, ids)
    requires EndpointsPresent(nodes, rels) && NonNegativeWeights(rels)
    ensures WithinComponents(nodes, rels, ids)
  {
    var es := Edges(nodes, rels);
    forall k | 0 <= k < |es| ensures es[k].w >= 0.0 { assert rels[k] in rels; }
    TotalNonNegative(es);
    RunWithin(nodes, rels, T, trail, |trail| - 1);
    PartitionWithin(nodes, rels, ids, trail[|trail| - 1]);
  }

  /** The part after the check that there is any weight. */
  method MergeAndRenumber(nodes: seq<int>, rels: seq<Relationship>, nodeIndex: map<int, int>, T: real)
    returns (ids: seq<int>, ghost trail: seq<seq<int>>)
    requires |nodes| > 0 && nodeIndex == NodeIndex(nodes) && T != 0.0 && T == 2.0 * Total(Edges(nodes, rels))
    ensures |ids| == |nodes| && ByFirstOccurrence(ids)
    ensures EndOfRun(Edges(nodes, rels), PresentDegrees(nodes, rels), T, |nodes|, trail, ids)
    ensures EndpointsPresent(nodes, rels) && NonNegativeWeights(rels) ==> WithinComponents(nodes, rels, ids)
  {
    var degree := BuildDegrees(nodes, rels, nodeIndex);
    var community, numCommunities;
    community, numCommunities, trail := MergeCommunities(rels, nodeIndex, Edges(nodes, rels), degree, T);
    ids := Renumber(community);
    if EndpointsPresent(nodes, rels) && NonNegativeWeights(rels) { EndWithin(nodes, rels, T, trail, ids); }
  }

  /** The last partition of a greedy run, renumbered; without any weight, every node by itself. */
  method Partition(nodes: seq<int>, rels: seq<Relationship>) returns (ids: seq<int>, ghost trail: seq<seq<int>>)
    requires |nodes| > 0
    ensures |ids| == |nodes| && ByFirstOccurrence(ids)
    ensures Total(Edges(nodes, rels)) != 0.0 ==>
              EndOfRun(Edges(nodes, rels), PresentDegrees(nodes, rels), 2.0 * Total(Edges(nodes, rels)), |nodes|, trail,
                       ids)
    ensures Total(Edges(nodes, rels)) == 0.0 ==> forall i :: 0 <= i < |nodes| ==> ids[i] == i
    ensures EndpointsPresent(nodes, rels) && NonNegativeWeights(rels) ==>
              WithinComponents(nodes, rels, ids)
  {
    trail := [];
    var nodeIndex := BuildNodeIndex(nodes);
    var totalWeight := SumWeights(nodes, rels);
    if totalWeight == 0.0 {
      ids := seq(|nodes|, i => i);
      Singletons(nodes, rels, ids);
    } else {
      ids, trail := MergeAndRenumber(nodes, rels, nodeIndex, totalWeight);
    }
  }

  method FastGreedy(nodes: seq<int>, rels: seq<Relationship>)
    returns (result: seq<NodeResult>, ghost trail: seq<seq<int>>)
    ensures |result| == |nodes| && forall i :: 0 <= i < |nodes| ==> result[i].node == nodes[i]
    ensures ByFirstOccurrence(Numbers(result))
    ensures |nodes| > 0 && Total(Edges(nodes, rels)) != 0.0 ==>
              EndOfRun(Edges(nodes, rels), PresentDegrees(nodes, rels), 2.0 * Total(Edges(nodes, rels)), |nodes|, trail,
                       Numbers(result))
    ensures Total(Edges(nodes, rels)) == 0.0 ==> forall i :: 0 <= i < |nodes| ==> Numbers(result)[i] == i
    ensures EndpointsPresent(nodes, rels) && NonNegativeWeights(rels) ==>
              WithinComponents(nodes, rels, Numbers(result))
  {
    if |nodes| == 0 { return [], []; }
    var ids;
    ids, trail := Partition(nodes, rels);
    result := Label(nodes, ids);
  }
}
