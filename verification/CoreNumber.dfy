/** CoreNumber's bucket loop: what it computes, and how that relates to the k-cores. */
module CoreNumber {
  import opened Walks
  import opened Graphs
  import opened Counting
  import opened KCore

  /** k is the least length of a neighbour list among the nodes that v reaches. */
  ghost predicate IsLeastDegree(g: seq<seq<int>>, v: int, k: int)
  {
    && (exists w :: 0 <= w < |g| && Reaches(Adj(g), v, w) && |g[w]| == k)
    && (forall w :: 0 <= w < |g| && Reaches(Adj(g), v, w) ==> k <= |g[w]|)
  }

  /** Some node connected to v has k neighbours. */
  ghost predicate Witnessed(g: seq<seq<int>>, v: int, k: int)
  {
    exists w :: 0 <= w < |g| && Reaches(Adj(g), v, w) && |g[w]| == k
  }

  /** The state at bucket k. */
  ghost predicate Inv(g: seq<seq<int>>, k: int, buckets: seq<seq<int>>, nodeBucket: seq<int>,
                      coreNum: seq<int>, processed: seq<bool>)
  {
    && WellFormed(g) && Symmetric(Adj(g))
    && |nodeBucket| == |coreNum| == |processed| == |g| && 0 <= k
    && (forall b, v {:trigger v in buckets[b]} :: 0 <= b < |buckets| && v in buckets[b] ==>
       0 <= v < |g| && nodeBucket[v] <= b)
    && (forall v :: 0 <= v < |g| ==> 0 <= nodeBucket[v] <= |g[v]| < |buckets|)
    && (forall v :: 0 <= v < |g| && !processed[v] ==> k <= nodeBucket[v] && v in buckets[nodeBucket[v]])
    && (forall v :: 0 <= v < |g| && processed[v] ==> coreNum[v] == nodeBucket[v] <= k)
    && (forall v {:trigger Witnessed(g, v, nodeBucket[v])} :: 0 <= v < |g| ==> Witnessed(g, v, nodeBucket[v]))
  }

  /** Around a processed node every bucket is at most its own. */
  ghost predicate Settled(g: seq<seq<int>>, nodeBucket: seq<int>, v: int)
    requires |nodeBucket| == |g| && 0 <= v < |g|
  {
    forall u :: u in g[v] && 0 <= u < |g| ==> nodeBucket[u] <= nodeBucket[v]
  }

  ghost predicate AllSettled(g: seq<seq<int>>, nodeBucket: seq<int>, processed: seq<bool>)
    requires |nodeBucket| == |processed| == |g|
  {
    forall v {:trigger Settled(g, nodeBucket, v)} :: 0 <= v < |g| && processed[v] ==> Settled(g, nodeBucket, v)
  }

  method MaxDegree(g: seq<seq<int>>) returns (maxDegree: nat)
    ensures forall i :: 0 <= i < |g| ==> |g[i]| <= maxDegree
  {
    maxDegree := 0;
    for i := 0 to |g|
      invariant forall j :: 0 <= j < i ==> |g[j]| <= maxDegree
    {
      if |g[i]| > maxDegree { maxDegree := |g[i]|; }
    }
  }

  method FillBuckets(g: seq<seq<int>>, maxDegree: nat) returns (buckets: seq<seq<int>>, nodeBucket: seq<int>)
    requires forall i :: 0 <= i < |g| ==> |g[i]| <= maxDegree
    ensures |buckets| == maxDegree + 1 && |nodeBucket| == |g|
    ensures forall i :: 0 <= i < |g| ==> nodeBucket[i] == |g[i]| && i in buckets[|g[i]|]
    ensures forall b, v {:trigger v in buckets[b]} :: 0 <= b < |buckets| && v in buckets[b] ==>
            0 <= v < |g| && |g[v]| == b
  {
    buckets := seq(maxDegree + 1, _ => []);
    nodeBucket := seq(|g|, _ => 0);
    for i := 0 to |g|
      invariant |buckets| == maxDegree + 1 && |nodeBucket| == |g|
      invariant forall j :: 0 <= j < i ==> nodeBucket[j] == |g[j]| && j in buckets[|g[j]|]
      invariant forall b, v {:trigger v in buckets[b]} :: 0 <= b < |buckets| && v in buckets[b] ==>
                0 <= v < |g| && |g[v]| == b
    {
      buckets := buckets[|g[i]| := buckets[|g[i]|] + [i]];
      nodeBucket := nodeBucket[i := |g[i]|];
    }
  }

  lemma Dropped(buckets: seq<seq<int>>, k: int, b: int, x: int)
    requires 0 <= k < |buckets| && |buckets[k]| > 0 && 0 <= b < |buckets|
    ensures var rest := buckets[k := buckets[k][..|buckets[k]| - 1]];
            && (x in rest[b] ==> x in buckets[b])
            && (x in buckets[b] && x != buckets[k][|buckets[k]| - 1] ==> x in rest[b])
  {}

  lemma {:induction false} InvDropped(g: seq<seq<int>>, k: int, buckets: seq<seq<int>>, nodeBucket: seq<int>,
                  coreNum: seq<int>, processed: seq<bool>, v: int)
    requires Inv(g, k, buckets, nodeBucket, coreNum, processed)
    requires 0 <= k < |buckets| && |buckets[k]| > 0 && v == buckets[k][|buckets[k]| - 1]
    ensures 0 <= v < |g| && nodeBucket[v] <= k
    ensures var rest := buckets[k := buckets[k][..|buckets[k]| - 1]];
            if processed[v] then Inv(g, k, rest, nodeBucket, coreNum, processed)
            else nodeBucket[v] == k && Inv(g, k, rest, nodeBucket, coreNum[v := k], processed[v := true])
  {
    var rest := buckets[k := buckets[k][..|buckets[k]| - 1]];
    assert v in buckets[k];
    forall b, x {:trigger x in rest[b]} | 0 <= b < |rest| && x in rest[b]
      ensures 0 <= x < |g| && nodeBucket[x] <= b
    {
      Dropped(buckets, k, b, x);
    }
    forall x | 0 <= x < |g| && !processed[x] && x != v
      ensures x in rest[nodeBucket[x]]
    {
      Dropped(buckets, k, nodeBucket[x], x);
    }
  }

  /** The loop over the neighbours of v, which has just been given the number k. */
  method LowerNeighbours(g: seq<seq<int>>, k: int, v: int, buckets0: seq<seq<int>>, nodeBucket0: seq<int>,
                         coreNum: seq<int>, processed: seq<bool>)
    returns (buckets: seq<seq<int>>, nodeBucket: seq<int>, ghost added: seq<int>)
    requires Inv(g, k, buckets0, nodeBucket0, coreNum, processed) && k < |buckets0|
    requires 0 <= v < |g| && processed[v] && nodeBucket0[v] == k
    requires forall x {:trigger Settled(g, nodeBucket0, x)} :: 0 <= x < |g| && processed[x] && x != v ==>
             Settled(g, nodeBucket0, x)
    ensures |buckets| == |buckets0| && Inv(g, k, buckets, nodeBucket, coreNum, processed)
    ensures forall x :: 0 <= x < |g| ==> nodeBucket[x] == if IsLowered(g[v], k, nodeBucket0, processed, x) then k
            else nodeBucket0[x]
    ensures buckets == buckets0[k := buckets0[k] + added] && NoRepeats(added)
    ensures forall x :: x in added <==> 0 <= x < |g| && IsLowered(g[v], k, nodeBucket0, processed, x)
    ensures AllSettled(g, nodeBucket, processed)
  {
    buckets, nodeBucket, added := buckets0, nodeBucket0, [];
    assert buckets0[k] + [] == buckets0[k];
    for i := 0 to |g[v]|
      invariant |buckets| == |buckets0| && Inv(g, k, buckets, nodeBucket, coreNum, processed)
      invariant Lowered(g[v][..i], k, buckets0, nodeBucket0, processed, buckets, nodeBucket, added)
    {
      var u := g[v][i];
      assert u in g[v] && g[v][..i + 1] == g[v][..i] + [u];
      LoweredNext(g[v][..i], u, k, buckets0, nodeBucket0, processed, buckets, nodeBucket, added);
      if !processed[u] && nodeBucket[u] > k {
        InvLowered(g, k, v, u, buckets, nodeBucket, coreNum, processed);
        nodeBucket := nodeBucket[u := k];
        buckets := buckets[k := buckets[k] + [u]];
        added := added + [u];
      }
    }
    assert g[v][..|g[v]|] == g[v];
    forall x {:trigger Settled(g, nodeBucket, x)} | 0 <= x < |g| && processed[x]
      ensures Settled(g, nodeBucket, x)
    {
      if x != v { assert Settled(g, nodeBucket0, x); }
    }
  }

  /** x is an unprocessed neighbour in a later bucket. */
  ghost predicate IsLowered(ns: seq<int>, k: int, nodeBucket: seq<int>, processed: seq<bool>, x: int)
    requires 0 <= x < |nodeBucket| == |processed|
  {
    x in ns && !processed[x] && nodeBucket[x] > k
  }

  /** After the neighbours ns those in later buckets have gone to bucket k, and nothing else has changed. */
  ghost predicate Lowered(ns: seq<int>, k: int, buckets0: seq<seq<int>>, nodeBucket0: seq<int>, processed: seq<bool>,
                          buckets: seq<seq<int>>, nodeBucket: seq<int>, added: seq<int>)
    requires |nodeBucket0| == |processed| && 0 <= k < |buckets0|
  {
    && |nodeBucket| == |nodeBucket0| && buckets == buckets0[k := buckets0[k] + added] && NoRepeats(added)
    && (forall x :: 0 <= x < |nodeBucket| ==> nodeBucket[x] == if IsLowered(ns, k, nodeBucket0, processed, x) then k
        else nodeBucket0[x])
    && (forall x :: x in added <==> 0 <= x < |nodeBucket| && IsLowered(ns, k, nodeBucket0, processed, x))
  }

  lemma LoweredNext(ns: seq<int>, u: int, k: int, buckets0: seq<seq<int>>, nodeBucket0: seq<int>, processed: seq<bool>,
                    buckets: seq<seq<int>>, nodeBucket: seq<int>, added: seq<int>)
    requires |nodeBucket0| == |processed| && 0 <= k < |buckets0| && 0 <= u < |nodeBucket0|
    requires Lowered(ns, k, buckets0, nodeBucket0, processed, buckets, nodeBucket, added)
    ensures if !processed[u] && nodeBucket[u] > k
            then Lowered(ns + [u], k, buckets0, nodeBucket0, processed, buckets[k := buckets[k] + [u]],
                         nodeBucket[u := k], added + [u])
            else Lowered(ns + [u], k, buckets0, nodeBucket0, processed, buckets, nodeBucket, added)
  {
    forall x | 0 <= x < |nodeBucket0|
      ensures IsLowered(ns + [u], k, nodeBucket0, processed, x) <==>
              IsLowered(ns, k, nodeBucket0, processed, x) || (x == u && !processed[x] && nodeBucket0[x] > k)
    {}
    if !processed[u] && nodeBucket[u] > k {
      assert u !in added;
      assert buckets[k] + [u] == buckets0[k] + (added + [u]);
    }
  }

  lemma InvLowered(g: seq<seq<int>>, k: int, v: int, u: int, buckets: seq<seq<int>>, nodeBucket: seq<int>,
                   coreNum: seq<int>, processed: seq<bool>)
    requires Inv(g, k, buckets, nodeBucket, coreNum, processed) && k < |buckets|
    requires 0 <= v < |g| && nodeBucket[v] == k && u in g[v] && 0 <= u < |g| && !processed[u] && nodeBucket[u] > k
    ensures Inv(g, k, buckets[k := buckets[k] + [u]], nodeBucket[u := k], coreNum, processed)
  {
    var lower := nodeBucket[u := k];
    assert Witnessed(g, v, nodeBucket[v]);
    var w :| 0 <= w < |g| && Reaches(Adj(g), v, w) && |g[w]| == k;
    assert u in Adj(g)(v) && v in Adj(g)(u);
    ReachesStep(Adj(g), u, v);
    ReachesTrans(Adj(g), u, v, w);
    forall x {:trigger Witnessed(g, x, lower[x])} | 0 <= x < |g|
      ensures Witnessed(g, x, lower[x])
    {
      assert x != u ==> Witnessed(g, x, nodeBucket[x]);
    }
  }

  lemma NextBucket(g: seq<seq<int>>, k: int, buckets: seq<seq<int>>, nodeBucket: seq<int>, coreNum: seq<int>,
                   processed: seq<bool>)
    requires Inv(g, k, buckets, nodeBucket, coreNum, processed) && k < |buckets| && |buckets[k]| == 0
    ensures Inv(g, k + 1, buckets, nodeBucket, coreNum, processed)
  {
    forall v | 0 <= v < |g| && !processed[v]
      ensures nodeBucket[v] != k
    {
      assert v in buckets[nodeBucket[v]];
    }
  }

  /** Once everything is processed the numbers agree across every arc. */
  lemma SettledIsLeast(g: seq<seq<int>>, k: int, buckets: seq<seq<int>>, nodeBucket: seq<int>,
                   coreNum: seq<int>, processed: seq<bool>, v: int)
    requires Inv(g, k, buckets, nodeBucket, coreNum, processed) && 0 <= v < |g|
    requires AllSettled(g, nodeBucket, processed) && forall x :: 0 <= x < |g| ==> processed[x]
    ensures IsLeastDegree(g, v, coreNum[v])
  {
    var s := iset x | 0 <= x < |g| && nodeBucket[x] == nodeBucket[v];
    forall x, y | x in s && y in Adj(g)(x)
      ensures y in s
    {
      assert x in Adj(g)(y);
      assert y in g[x] && x in g[y];
      assert Settled(g, nodeBucket, x) && Settled(g, nodeBucket, y);
    }
    assert Closed(Adj(g), s) && v in s;
    assert Witnessed(g, v, nodeBucket[v]);
  }

  /** The loop that empties one bucket. */
  method EmptyBucket(g: seq<seq<int>>, k: int, buckets0: seq<seq<int>>, nodeBucket0: seq<int>,
                     coreNum0: seq<int>, processed0: seq<bool>)
    returns (buckets: seq<seq<int>>, nodeBucket: seq<int>, coreNum: seq<int>, processed: seq<bool>)
    requires Inv(g, k, buckets0, nodeBucket0, coreNum0, processed0) && AllSettled(g, nodeBucket0, processed0)
    requires k < |buckets0|
    ensures |buckets| == |buckets0|
    ensures Inv(g, k + 1, buckets, nodeBucket, coreNum, processed) && AllSettled(g, nodeBucket, processed)
  {
    buckets, nodeBucket, coreNum, processed := buckets0, nodeBucket0, coreNum0, processed0;
    while |buckets[k]| > 0
      invariant |buckets| == |buckets0|
      invariant Inv(g, k, buckets, nodeBucket, coreNum, processed) && AllSettled(g, nodeBucket, processed)
      decreases Left(processed), |buckets[k]|
    {
      var v := buckets[k][|buckets[k]| - 1];
      InvDropped(g, k, buckets, nodeBucket, coreNum, processed, v);
      buckets := buckets[k := buckets[k][..|buckets[k]| - 1]];
      if processed[v] { continue; }
      LeftDrops(processed, processed[v := true]);
      coreNum := coreNum[v := k];
      processed := processed[v := true];
      ghost var added;
      buckets, nodeBucket, added := LowerNeighbours(g, k, v, buckets, nodeBucket, coreNum, processed);
    }
    NextBucket(g, k, buckets, nodeBucket, coreNum, processed);
  }

  method CoreNumbers(g: seq<seq<int>>) returns (coreNum: seq<int>)
    requires WellFormed(g) && Symmetric(Adj(g))
    ensures |coreNum| == |g| && forall v :: 0 <= v < |g| ==> IsLeastDegree(g, v, coreNum[v])
  {
    var maxDegree := MaxDegree(g);
    var buckets, nodeBucket := FillBuckets(g, maxDegree);
    coreNum := seq(|g|, _ => 0);
    var processed := seq(|g|, _ => false);
    forall v | 0 <= v < |g|
      ensures Witnessed(g, v, nodeBucket[v])
    {
      assert Reaches(Adj(g), v, v);
    }
    for k := 0 to maxDegree + 1
      invariant |buckets| == maxDegree + 1
      invariant Inv(g, k, buckets, nodeBucket, coreNum, processed) && AllSettled(g, nodeBucket, processed)
    {
      buckets, nodeBucket, coreNum, processed := EmptyBucket(g, k, buckets, nodeBucket, coreNum, processed);
    }
    forall v | 0 <= v < |g|
      ensures processed[v] && IsLeastDegree(g, v, coreNum[v])
    {
      SettledIsLeast(g, maxDegree + 1, buckets, nodeBucket, coreNum, processed, v);
    }
  }

  method CoreNumber(nodes: seq<int>, rels: seq<Relationship>) returns (result: seq<NodeResult>)
    ensures |result| == |nodes| && forall i :: 0 <= i < |nodes| ==> result[i].node == nodes[i]
    ensures forall i :: 0 <= i < |nodes| ==> IsLeastDegree(BothLists(nodes, rels), i, result[i].number)
  {
    if |nodes| == 0 { return []; }
    var neighbors := BuildNeighbors(nodes, rels);
    BothListsArcs(nodes, rels);
    var coreNum := CoreNumbers(neighbors);
    result := Label(nodes, coreNum);
    assert forall i :: 0 <= i < |nodes| ==> Numbers(result)[i] == result[i].number;
  }

  // ---------- against the k-cores ----------

  /** No self-loop and no two relationships between the same two nodes: the neighbour lists do not repeat. */
  ghost predicate Simple(g: seq<seq<int>>)
  {
    forall v :: 0 <= v < |g| ==> NoRepeats(g[v])
  }

  lemma LastIsNew(nodes: seq<int>, rels: seq<Relationship>, i: int, j: int)
    requires SimpleRels(nodes, rels) && |rels| > 0 && Joins(nodes, rels[|rels| - 1], i, j)
    ensures i != j && !Arc(nodes, rels[..|rels| - 1], i, j) && !Arc(nodes, rels[..|rels| - 1], j, i)
  {
    var before := rels[..|rels| - 1];
    forall r | r in before
      ensures !Joins(nodes, r, i, j) && !Joins(nodes, r, j, i)
    {
      var a :| 0 <= a < |before| && before[a] == r;
      assert rels[a] == r;
    }
  }

  lemma SimpleAdd(g: seq<seq<int>>, i: int, j: int)
    requires Simple(g) && 0 <= i < |g| && 0 <= j < |g| && i != j && j !in g[i] && i !in g[j]
    ensures Simple(AddArc(AddArc(g, i, j), j, i))
  {}

  lemma {:induction false} SimpleLists(nodes: seq<int>, rels: seq<Relationship>)
    requires SimpleRels(nodes, rels)
    ensures Simple(BothLists(nodes, rels))
  {
    if |rels| > 0 {
      var before, r := rels[..|rels| - 1], rels[|rels| - 1];
      SimplePrefix(nodes, rels);
      SimpleLists(nodes, before);
      if r.startNode in nodes && r.endNode in nodes {
        var i, j := NodeIndex(nodes)[r.startNode], NodeIndex(nodes)[r.endNode];
        LastIsNew(nodes, rels, i, j);
        BothListsArcs(nodes, before);
        SimpleAdd(BothLists(nodes, before), i, j);
      }
    }
  }

  /** c is the core number of v: the largest c whose c-core holds v. */
  ghost predicate IsCoreNumber(g: seq<seq<int>>, v: int, c: int)
  {
    v in CoreSet(SetsOf(g), c) && v !in CoreSet(SetsOf(g), c + 1)
  }

  /** On a simple graph a node numbered k is in the k-core. */
  lemma NumberWithinCore(g: seq<seq<int>>, v: int, k: int)
    requires WellFormed(g) && Simple(g) && 0 <= v < |g| && IsLeastDegree(g, v, k)
    ensures v in CoreSet(SetsOf(g), k)
  {
    var sets := SetsOf(g);
    var s := set w | 0 <= w < |g| && Reaches(Adj(g), v, w);
    forall w {:trigger Enough(sets, k, s, w)} | w in s
      ensures Enough(sets, k, s, w)
    {
      forall x | x in g[w]
        ensures x in s
      {
        ReachesStep(Adj(g), w, x);
        ReachesTrans(Adj(g), v, w, x);
      }
      NoRepeatsSize(g[w]);
      assert sets[w] * s == set x | x in g[w];
    }
    CoreSetGreatest(sets, k);
    assert IsCore(sets, k, s) && v in s;
  }

  lemma CoreNumberBounds(sets: seq<set<int>>, v: int, k: int, c: int)
    requires v in CoreSet(sets, k) && v in CoreSet(sets, c) && v !in CoreSet(sets, c + 1)
    ensures k <= c
    ensures k == c <==> v !in CoreSet(sets, k + 1)
  {
    if c < k {
      CoresNest(sets, c + 1, k);
    } else if k < c {
      CoresNest(sets, k + 1, c);
    }
  }

  /** So k is never above the core number, and it is below exactly when v is in the next core. */
  lemma NumberAtMostCore(g: seq<seq<int>>, v: int, k: int, c: int)
    requires WellFormed(g) && Simple(g) && 0 <= v < |g| && IsLeastDegree(g, v, k) && IsCoreNumber(g, v, c)
    ensures k <= c
    ensures k == c <==> v !in CoreSet(SetsOf(g), k + 1)
  {
    NumberWithinCore(g, v, k);
    CoreNumberBounds(SetsOf(g), v, k, c);
  }

  /** What CoreNumber reports for a node of a simple graph puts the node into what KCore returns. */
  lemma NumberWithinKCore(nodes: seq<int>, rels: seq<Relationship>, i: int, k: int)
    requires SimpleRels(nodes, rels) && 0 <= i < |nodes| && IsLeastDegree(BothLists(nodes, rels), i, k)
    ensures nodes[i] in Select(nodes, CoreSet(SetsOf(BothLists(nodes, rels)), k))
  {
    var g := BothLists(nodes, rels);
    BothListsArcs(nodes, rels);
    SimpleLists(nodes, rels);
    NumberWithinCore(g, i, k);
    SelectMember(nodes, CoreSet(SetsOf(g), k), nodes[i]);
  }

  /** A triangle with a pendant node. */
  ghost const KITE_NODES: seq<int> := [0, 1, 2, 3]
  ghost const KITE_RELS: seq<Relationship> := [Link(0, 1), Link(0, 2), Link(1, 2), Link(0, 3)]
  ghost const KITE: seq<seq<int>> := [[1, 2, 3], [0, 2], [0, 1], [0]]

  ghost function AddBothArcs(g: seq<seq<int>>, i: int, j: int): seq<seq<int>>
    requires 0 <= i < |g| && 0 <= j < |g|
  {
    AddArc(AddArc(g, i, j), j, i)
  }

  lemma BothListsStep(nodes: seq<int>, rels: seq<Relationship>, i: int, j: int)
    requires NoRepeats(nodes) && 0 <= i < |nodes| && 0 <= j < |nodes|
    ensures BothLists(nodes, rels + [Link(nodes[i], nodes[j])]) == AddBothArcs(BothLists(nodes, rels), i, j)
  {
    DistinctIndex(nodes, i);
    DistinctIndex(nodes, j);
    assert (rels + [Link(nodes[i], nodes[j])])[..|rels|] == rels;
  }

  lemma KiteArcs(g: seq<seq<int>>)
    requires |g| == 4 && forall i :: 0 <= i < 4 ==> g[i] == []
    ensures AddBothArcs(AddBothArcs(AddBothArcs(AddBothArcs(g, 0, 1), 0, 2), 1, 2), 0, 3) == KITE
  {
    assert [] + [1] == [1] && [] + [0] == [0] && [1] + [2] == [1, 2] && [0] + [2] == [0, 2] && [0] + [1] == [0, 1];
    assert [1, 2] + [3] == [1, 2, 3];
    assert AddBothArcs(g, 0, 1) == [[1], [0], [], []];
    assert AddBothArcs([[1], [0], [], []], 0, 2) == [[1, 2], [0], [0], []];
    assert AddBothArcs([[1, 2], [0], [0], []], 1, 2) == [[1, 2], [0, 2], [0, 1], []];
  }

  lemma FourLinks(nodes: seq<int>, a: Relationship, b: Relationship, c: Relationship, d: Relationship)
    requires NoRepeats(nodes) && |nodes| == 4
    requires a == Link(nodes[0], nodes[1]) && b == Link(nodes[0], nodes[2]) && c == Link(nodes[1], nodes[2]) &&
             d == Link(nodes[0], nodes[3])
    ensures BothLists(nodes, [a, b, c, d]) ==
            AddBothArcs(AddBothArcs(AddBothArcs(AddBothArcs(BothLists(nodes, []), 0, 1), 0, 2), 1, 2), 0, 3)
  {
    assert [] + [a] == [a] && [a] + [b] == [a, b] && [a, b] + [c] == [a, b, c] && [a, b, c] + [d] == [a, b, c, d];
    BothListsStep(nodes, [], 0, 1);
    BothListsStep(nodes, [a], 0, 2);
    BothListsStep(nodes, [a, b], 1, 2);
    BothListsStep(nodes, [a, b, c], 0, 3);
  }

  lemma KiteLists()
    ensures BothLists(KITE_NODES, KITE_RELS) == KITE
  {
    FourLinks(KITE_NODES, Link(0, 1), Link(0, 2), Link(1, 2), Link(0, 3));
    KiteArcs(BothLists(KITE_NODES, []));
  }

  lemma TriangleIsCore(sets: seq<set<int>>)
    requires |sets| >= 3 && sets[0] == {1, 2, 3} && sets[1] == {0, 2} && sets[2] == {0, 1}
    ensures IsCore(sets, 2, {0, 1, 2})
  {
    var s := {0, 1, 2};
    assert sets[0] * s == {1, 2} && sets[1] * s == {0, 2} && sets[2] * s == {0, 1};
    assert Enough(sets, 2, s, 0) && Enough(sets, 2, s, 1) && Enough(sets, 2, s, 2);
  }

  lemma KiteTwoCore()
    ensures 0 in CoreSet(SetsOf(KITE), 2)
  {
    var sets, s := SetsOf(KITE), {0, 1, 2};
    assert sets[0] == {1, 2, 3} && sets[1] == {0, 2} && sets[2] == {0, 1};
    TriangleIsCore(sets);
    CoreSetGreatest(sets, 2);
    assert IsCore(sets, 2, s) && 0 in s;
  }

  /** The number can be too low: here the triangle is a 2-core, and node 0 gets 1. */
  lemma NumberBelowCore(k: int)
    requires IsLeastDegree(BothLists(KITE_NODES, KITE_RELS), 0, k)
    ensures k == 1 && 0 in CoreSet(SetsOf(BothLists(KITE_NODES, KITE_RELS)), 2)
    ensures !IsCoreNumber(BothLists(KITE_NODES, KITE_RELS), 0, k)
  {
    KiteLists();
    KiteTwoCore();
    ReachesStep(Adj(KITE), 0, 3);
    assert |KITE[3]| == 1;
    var w :| 0 <= w < |KITE| && |KITE[w]| == k;
    assert w == 0 || w == 1 || w == 2 || w == 3;
  }
}
