/** Louvain on two nodes joined by one relationship: what the configuration decides. */
module LouvainPair {
  import opened Components
  import opened Partitions
  import opened LouvainWeights
  import opened Louvain
  import opened SmallGraphs

  ghost function Pair(w: real): (es: seq<Edge>)
    ensures InRange(es, 2)
  {
    [Edge(0, 1, w)]
  }

  lemma PairAdjacent(w: real, i: int, j: int)
    ensures Adjacent(Pair(w), i, j) <==> (i == 0 && j == 1) || (i == 1 && j == 0)
  {
    AdjacentIff(Pair(w), i, j);
    assert Pair(w)[0] == Edge(0, 1, w);
  }

  lemma PairSums(w: real, c: seq<int>, i: int)
    requires |c| == 2 && c[0] != c[1] && 0 <= i < 2
    ensures Total(Pair(w)) == w && Degree(Pair(w), i) == w && Loops(Pair(w), i) == 0.0
    ensures Links(Pair(w), c, i, c[1 - i]) == w && Links(Pair(w), c, i, c[i]) == 0.0
    ensures Volume(Pair(w), c, c[0]) == w && Volume(Pair(w), c, c[1]) == w
  {
    assert Pair(w)[..0] == [];
  }

  lemma QuarterOf(w: real)
    requires w > 0.0
    ensures w * w / (2.0 * (2.0 * w)) == w / 4.0
  {
    var q := w / 4.0;
    assert q * (4.0 * w) == w * w;
  }

  lemma QuarterSign(w: real, R: real)
    requires w > 0.0
    ensures R * w - w / 4.0 > 0.0 <==> R > 0.25
  {
    assert R * w - w / 4.0 == (R - 0.25) * w;
    if R > 0.25 { assert (R - 0.25) * w > 0.0; }
    if R <= 0.25 { assert (0.25 - R) * w >= 0.0; }
  }

  lemma PairMeasures(w: real, c: seq<int>, i: int)
    requires |c| == 2 && c[0] != c[1] && 0 <= i < 2
    ensures LinksAndLoops(Pair(w), c, i, c[1 - i]) == w && LinksAndLoops(Pair(w), c, i, c[i]) == 0.0
    ensures Degree(Pair(w), i) == w && Volume(Pair(w), c, c[0]) == w && Volume(Pair(w), c, c[1]) == w
  {
    PairSums(w, c, i);
  }

  /** The gain of joining the other node, by its value. */
  lemma PairGainIs(w: real, c: seq<int>, i: int, R: real)
    requires w > 0.0 && |c| == 2 && c[0] != c[1] && 0 <= i < 2
    ensures MoveGain(Pair(w), c, i, c[1 - i], R, 2.0 * w) == Gain(R, w, 0.0, w, w, w, 2.0 * w)
  {
    PairMeasures(w, c, i);
  }

  lemma GainSign(w: real, R: real)
    requires w > 0.0
    ensures Gain(R, w, 0.0, w, w, w, 2.0 * w) > 0.0 <==> R > 0.25
  {
    QuarterOf(w);
    QuarterSign(w, R);
  }

  /** Joining the other node gains exactly above the resolution 1/4. */
  lemma PairGain(w: real, c: seq<int>, i: int, R: real)
    requires w > 0.0 && |c| == 2 && c[0] != c[1] && 0 <= i < 2
    ensures MoveGain(Pair(w), c, i, c[1 - i], R, 2.0 * w) > 0.0 <==> R > 0.25
  {
    PairGainIs(w, c, i, R);
    GainSign(w, R);
  }

  /** A best move makes one community of the two nodes, and then there is none. */
  lemma PairMove(w: real, c: seq<int>, d: seq<int>, R: real)
    requires w > 0.0 && |c| == 2 && MoveStep(Pair(w), c, d, R, 2.0 * w)
    ensures c[0] != c[1] && |d| == 2 && d[0] == d[1] && R > 0.25
  {
    var i, l :| IsBestMove(Pair(w), c, d, i, l, R, 2.0 * w);
    var j :| 0 <= j < |c| && Adjacent(Pair(w), i, j) && c[j] == l;
    PairAdjacent(w, i, j);
    PairGain(w, c, i, R);
  }

  /** If neither node gains by joining the other, the resolution is at most 1/4. */
  lemma PairSettled(w: real, c: seq<int>, R: real)
    requires w > 0.0 && |c| == 2 && c[0] != c[1] && Settled(Pair(w), c, R, 2.0 * w)
    ensures R <= 0.25
  {
    PairGain(w, c, 0, R);
    PairAdjacent(w, 0, 1);
    assert NoGainAbove(Pair(w), c, 0, R, 2.0 * w, 0.0);
    assert Neighbours(Pair(w), c, 0, c[1]);
  }

  lemma PairMoved(w: real, nodes: seq<int>, R: real, c: seq<int>, p: nat)
    requires w > 0.0 && |nodes| == 2 && p > 0 && ImprovingPasses(Pair(w), nodes, c, p, R, 2.0 * w)
    ensures |c| == 2 && c[0] == c[1] && R > 0.25
  {
    var trail := RunOfPasses(Pair(w), nodes, R, 2.0 * w, c, p);
    assert MoveStep(Pair(w), trail[0], trail[1], R, 2.0 * w);
    PairMove(w, trail[0], trail[1], R);
    if |trail| > 2 {
      assert MoveStep(Pair(w), trail[1], trail[2], R, 2.0 * w);
      PairMove(w, trail[1], trail[2], R);
    }
  }

  lemma PairEnds(w: real, nodes: seq<int>, R: real, limit: int, c: seq<int>, passes: nat, ids: seq<int>)
    requires w > 0.0 && |nodes| == 2 && nodes[0] != nodes[1]
    requires EndOfRun(Pair(w), nodes, R, limit, 2.0 * w, c, passes, ids)
    ensures |ids| == 2 && (ids[0] == ids[1] <==> R > 0.25 && limit > 0)
  {
    assert SamePartition(ids, c);
    if passes > 0 {
      PairMoved(w, nodes, R, c, passes);
    } else if limit > 0 {
      PairSettled(w, c, R);
    }
  }

  lemma AllowedBy(config: Config)
    ensures Resolution(config) > 0.25 && Iterations(config) > 0 <==>
            (config.resolution > 0.25 || config.resolution == 0.0) && config.maxIterations >= 0
  {}

  lemma PairIsInput(nodes: seq<int>, w: real)
    requires |nodes| == 2 && nodes[0] != nodes[1]
    ensures PresentEdges(nodes, RelsOf(nodes, Pair(w))) == Pair(w)
    ensures Total(PresentEdges(nodes, RelsOf(nodes, Pair(w)))) == w
  {
    RelsOfEdges(nodes, Pair(w));
    PairSums(w, nodes, 0);
  }

  /** Two nodes joined by one relationship of positive weight end in one community exactly if the configured resolution
      exceeds 1/4, or is left at its default, and the number of iterations is not negative. */
  lemma PairByConfiguration(nodes: seq<int>, w: real, config: Config, c: seq<int>, passes: nat, ids: seq<int>)
    requires w > 0.0 && |nodes| == 2 && nodes[0] != nodes[1]
    requires EndOfRun(PresentEdges(nodes, RelsOf(nodes, Pair(w))), nodes, Resolution(config), Iterations(config),
                      2.0 * w, c, passes, ids)
    ensures Total(PresentEdges(nodes, RelsOf(nodes, Pair(w)))) == w && |ids| == 2
    ensures ids[0] == ids[1] <==> (config.resolution > 0.25 || config.resolution == 0.0) && config.maxIterations >= 0
  {
    PairIsInput(nodes, w);
    PairEnds(w, nodes, Resolution(config), Iterations(config), c, passes, ids);
    AllowedBy(config);
  }
}
