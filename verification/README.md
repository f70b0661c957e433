# Verified models of the APOC graph algorithms

This project models the graph-algorithm, search and encoding code of the `apoc` packages in Dafny and proves what
that code computes: community detection and graph structure (`apoc/community`), path search (`apoc/algo`),
traversal (`apoc/neighbors`), label patterns (`apoc/label`), nested-map encodings (`apoc/map`), jump consistent
hashing (`apoc/hashing`) and primes (`apoc/math`).

`dafny verify dfyconfig.toml` checks everything.

## How it is organised

| files | subject |
|---|---|
| `Walks`, `Graphs`, `Counting`, `Randomness` | reachability, node and relationship lists, cardinalities, nondeterministic choice |
| `Tarjan`, `Components`, `ComponentCount` | strong and weak components, numbering by first occurrence, the component count |
| `KCore`, `CoreNumber`, `CoreExactness` | peeling to the k-core, the bucketed core number and when it is exact |
| `Triangles`, `TriangleTotals`, `Clustering` | per-node triangle counts, their total, clustering coefficients |
| `LabelPropagation` | label propagation with random orders and tie-breaks |
| `EdgeVotes`, `LabelGap`, `LabelPath` | its votes as sums over edges, a graph on which the order decides whether it panics, and one on which the number of passes decides the result |
| `Partitions`, `NewmanModularity`, `FastGreedy` | weighted partitions, Newman's modularity, greedy merging |
| `LouvainWeights`, `Louvain` | the weight maps, the local moving phase and its potential |
| `LouvainModularity`, `LouvainCycle`, `LouvainPair` | what the moves do to Newman's modularity, a graph on which they never end, and one on which the configuration decides the result |
| `SmallGraphs`, `InputForms` | graphs given by a few edges, for the inputs shown here; different relationship lists that give the same graph |
| `ShortestPaths`, `Dijkstra`, `AStar` | least-weight walks, Dijkstra with stale queue entries, A* with reopening |
| `Hops`, `DepthFirst`, `DepthBound` | breadth-first levels, depth-bounded depth-first search and the bounds for which it is exact |
| `Wildcards` | the star and question-mark matcher |
| `Delimiters`, `FlatKeys`, `MapFlatten`, `MapUnflatten`, `UnflattenOrder`, `MapRoundTrip` | splitting and joining, flat keys, Flatten, Unflatten, what the order of the keys decides, the round trip |
| `JumpHash`, `JumpBalance`, `Primes` | jump consistent hashing, its exact step and shares, primality and the next prime |

Every loop of the source is a Dafny method over the same variables. Where a method is long the loop bodies are
methods of their own. Code that mutates shared state through a closure (Tarjan's search, the depth-first search,
`flattenHelper`) is a class whose methods update its fields; the nested maps that `Unflatten` makes are objects that
refer to each other and are updated in place. The order of map iteration, `rand.Perm` and `rand.Intn` are arbitrary
choices, so the results hold for every order and every tie-break.

## Where the code and its comments differ

The model follows the code.

- `ToHop` (apoc/neighbors/neighbors.go:53-86) returns the start node and leaves out the nodes at distance `maxHops`.
- `matchPattern` (apoc/label/label.go:524-558) tests for a literal match before it tests for a star, so a `*` in the
  string can use up a `*` of the pattern. It is right for all patterns exactly on the strings without a star, and for all
  strings exactly with the patterns that have no star or are a single star.
- `CoreNumber` (apoc/community/community.go:727-731) lowers a neighbour straight to the current bucket, so it gives
  every node the least degree of its connected component. On a simple graph that is the core number of every node of the
  component exactly if deleting nodes with at most that many neighbours left empties the component; so it is exact for
  trees and for components with one degree throughout, and too low for a triangle with a node hanging at it. Parallel
  relationships count in the degree but not in the core, so two of them between two nodes make the number too high.
- `FastGreedy` (apoc/community/community.go:951-993) leaves an absent endpoint out of the degrees, but reads it as the
  first node when it adds up the weight between two communities.
- `KCore` (apoc/community/community.go:606-608) returns nothing for k <= 0, although every node belongs to the k-core then.
- `Louvain` (apoc/community/community.go:107) already doubles the total weight, so its gain halves the share of the
  degrees. Without self-loops all its moves raise Newman's modularity exactly for the resolution 1/2; with the default
  resolution 1 even the first move of a run can lower it. What the moves do raise is the potential stated here. The gain
  leaves out what the self-loops of the moved node contribute, so a negative self-loop can keep the passes moving for
  ever. Its threshold (lines 74-76) is never read. Without any weight
  (lines 110-116) it returns node IDs: dense from 0 exactly if they all lie below the number of nodes, and by first
  occurrence exactly if the i-th node has the ID i. An ID that occurs twice has two entries but one community weight, so
  the results about its runs are for distinct IDs.
- `TotalTriangles` (apoc/community/community.go:380-387) divides without remainder when there are no self-loops; with
  them the result is exact only while the surplus they cause is below 3. A node with a self-loop and three neighbours, and
  no triangle, gives 1.
- `LabelPropagation` (apoc/community/community.go:248-259) panics at a node whose neighbours' labels all have negative
  votes. Some labels do that to a node exactly if it has neighbours and the weights to them sum to less than 0; all labels
  do exactly if the weights to each single neighbour sum to less than 0. So there is no panic if no node's weights sum to
  less than 0, and one relationship of negative weight between two nodes always panics. In between, the visiting order
  can decide.
- `DFS` (apoc/neighbors/neighbors.go:102-125) can miss a node within `maxDepth` steps, because a node first met at the
  depth bound is marked visited and not expanded. On the symmetric graphs with n nodes a bound returns everything within
  it, from every node, exactly if it is at most 1 or at least n - 1.
- `Unflatten` (apoc/map/map.go:381-393) iterates over a Go map. If one key's parts are a prefix of another's, some orders
  panic, and all others give one and the same result, without the longer key.
- `Flatten` (apoc/map/map.go:360-363) takes an empty first key for an empty prefix and loses it.

## Model

| member | source | states |
|---|---|---|
| Walks.ReachesIffWalk | apoc/community/community.go:541-590 | The reachability used for the component results is the existence of a walk |
| Graphs.BuildNodeIndex | apoc/community/community.go:449-452 | An ID is mapped to the last position that holds it |
| Graphs.OutListsArcs | apoc/community/community.go:527-539 | The successor lists hold exactly the relationships whose two endpoints are among the nodes |
| Graphs.BothListsArcs | apoc/community/community.go:454-467 | The neighbour lists are symmetric and hold exactly the relationships with both endpoints present, in either direction |
| NewmanModularity.UnitWeights | apoc/community/community.go:1067-1081 | Without numbers called weight every relationship counts once, so the total weight is the number of relationships |
| InputForms.FloatWeight | apoc/community/community.go:1067-1081 | A weight given as int64 or int counts as the float64 of the same number, and one that is not a number as if there were none |
| InputForms.FloatGraph | apoc/community/community.go:1067-1081 | So lists that differ only in that have the same edges, degrees and neighbour weights |
| InputForms.AbsentDropped | apoc/community/community.go:454-467 | Leaving out the relationships with an absent endpoint changes neither the neighbour lists, nor their weights, nor the edges of Louvain |
| InputForms.DegreesOfMore | apoc/community/community.go:951-960 | Adding a node leaves the degrees of the others in FastGreedy as they are, so there a present endpoint counts without the other |
| InputForms.AbsentIsFirst | apoc/community/community.go:985-993 | When the weight between communities is added up, an absent endpoint is read as the first node |
| Tarjan.SccSearch.StrongConnect | apoc/community/community.go:551-584 | One call explores everything reachable that is undefined; it keeps that popped nodes form whole components closed under successors, that stacked nodes reach a running call, and that lowlink is a reachable index at most that of every stacked successor |
| Tarjan.SccSearch.PopComponent | apoc/community/community.go:572-583 | The popping loop takes exactly the stacked nodes from v upwards and gives them the current number |
| Tarjan.SegmentIsComponent | apoc/community/community.go:572-583 | When lowlink equals the index, the nodes at or above v on the stack are exactly the unpopped nodes mutually reachable with v |
| Tarjan.OrderNext | apoc/community/community.go:586-590 | After the call on the v-th node exactly what the first v + 1 nodes reach is numbered, what was numbered keeps its number, and the rest comes after it |
| Tarjan.StronglyConnected | apoc/community/community.go:541-590 | Terminates; two nodes get one number exactly when each reaches the other; numbers are dense; no arc goes from a lower to a higher number; for every k, what the first k nodes reach is numbered before everything that they do not reach |
| Components.StronglyConnectedComponents | apoc/community/community.go:517-597 | The same for the graph of the relationships with both endpoints present, one result per node in order |
| Components.Flood | apoc/community/community.go:480-493 | The queue loop gives the current number to exactly the unnumbered nodes connected to the start |
| Components.ConnectedComponents | apoc/community/community.go:444-502 | Equal numbers exactly for nodes joined by an undirected path; numbers are handed out by first occurrence |
| Components.StrongWithinConnected | apoc/community/community.go:444-597 | Every strongly connected component lies inside one connected component |
| Components.Renumber | apoc/community/community.go:177-184 | Renumbering keeps the partition and hands out 0, 1, 2, ... by first occurrence |
| Components.NumberingUnique | apoc/community/community.go:177-184 | A partition has only one numbering by first occurrence |
| ComponentCount.NumComponents | apoc/community/community.go:505-514 | The result is the number of connectivity classes and is at least nodes less relationships |
| ComponentCount.CountClasses | apoc/community/community.go:507-513 | The largest number plus one counts the classes, for any component numbering |
| ComponentCount.AtLeast | apoc/community/community.go:505-514 | Adding a relationship joins at most two classes, so there are at least nodes less relationships |
| KCore.KCore | apoc/community/community.go:605-661 | For k >= 1 the nodes of the greatest set in which everyone has k neighbours, in order, for every order in which the passes scan the nodes; nothing for k <= 0 |
| KCore.SelectAt | apoc/community/community.go:654-660 | The nodes returned stand in list order: each behind as many others as nodes before it are returned |
| KCore.Sweep | apoc/community/community.go:633-652 | One pass in any order removes only nodes outside every set with k neighbours each, and if it changes nothing the rest is such a set |
| KCore.CoreSetGreatest | apoc/community/community.go:630-652 | The core set has the property and contains every other set that does |
| KCore.CoresNest | apoc/community/community.go:605-661 | The core for a larger k is contained in the one for a smaller k |
| KCore.ZeroCore | apoc/community/community.go:606-608 | For k <= 0 the core holds every node |
| CoreNumber.CoreNumber | apoc/community/community.go:664-744 | The bucket loops terminate and give each node the least degree over its connected component |
| CoreNumber.LowerNeighbours | apoc/community/community.go:727-732 | Exactly the unprocessed neighbours in a later bucket are lowered straight to the current one and appended to it once each; every other node and bucket stays |
| CoreNumber.NumberWithinKCore | apoc/community/community.go:605-744 | Without parallel relationships or self-loops a node with value k belongs to the k-core |
| CoreNumber.NumberAtMostCore | apoc/community/community.go:664-744 | Without parallel relationships or self-loops the value is at most the core number |
| CoreExactness.ExactForNode | apoc/community/community.go:721-739 | A value k of a node is its core number if and only if deleting nodes with at most k neighbours left, starting from its component, can remove the node, and deleting those with fewer cannot; on a simple graph the second part always holds for the value reported |
| CoreExactness.ExactForComponent | apoc/community/community.go:721-739 | k is the core number of all nodes of a component if and only if such deletions can empty the component and every node has k different neighbours; on a simple graph the second part always holds for the value reported |
| CoreExactness.SameLeastDegree | apoc/community/community.go:713-739 | The value reported is the same for all nodes of a component |
| CoreExactness.RemovableIff | apoc/community/community.go:605-661 | A node can be removed by such deletions exactly if it is outside the (k+1)-core |
| CoreExactness.RegularIsExact | apoc/community/community.go:721-739 | Components of a simple graph in which all nodes have the same degree are exact |
| CoreExactness.ForestIsExact | apoc/community/community.go:721-739 | Simple graphs without cycles or self-loops are exact |
| CoreNumber.NumberBelowCore | apoc/community/community.go:727-731 | Four nodes and four relationships, a triangle with a node hanging at it, where the value is 1 and the core number 2 |
| CoreExactness.NumberAboveCore | apoc/community/community.go:678-697 | Two nodes and two relationships between them, where the value of a node is 2 and the node is not in the 2-core |
| Triangles.AdjacencyLinks | apoc/community/community.go:334-347 | The adjacency sets hold exactly the linked IDs, at the index of the ID |
| Triangles.TriangleCount | apoc/community/community.go:324-377 | The count of a node is the number of pairs of its neighbours linked to each other |
| TriangleTotals.CornerTotal | apoc/community/community.go:349-387 | The counts sum to three times the number of triangles plus the surplus from self-loops |
| TriangleTotals.TotalTriangles | apoc/community/community.go:380-387 | Exact if and only if the self-loop surplus is below 3; without self-loops the division has no remainder |
| TriangleTotals.LoopMiscounts | apoc/community/community.go:380-387 | Four nodes and four relationships, one a self-loop, without a triangle and with surplus 3, so that the total is 1 |
| Clustering.CornersAtMost | apoc/community/community.go:390-419 | A node's count is at most k(k-1)/2 for its degree k |
| Clustering.DegreeCounts | apoc/community/community.go:398-406 | The degree of a node is the number of relationships that start at it plus the number that end at it |
| Clustering.SimpleDegree | apoc/community/community.go:398-406 | Without self-loops, parallel relationships or absent endpoints it is the number of neighbours |
| Clustering.ClusteringCoefficient | apoc/community/community.go:390-419 | The coefficient is the count over k(k-1)/2, 0 where that is 0, and always within 0 and 1 |
| Clustering.CoefficientOne | apoc/community/community.go:390-419 | The coefficient is 1 if and only if the degree is the number of neighbours, at least 2, and all neighbours are linked to each other |
| Clustering.SimpleCoefficientOne | apoc/community/community.go:390-419 | On simple graphs that is: at least two neighbours, all linked to each other |
| LabelPropagation.CountVotes | apoc/community/community.go:242-246 | Exactly the neighbours' labels get votes, each the total weight of the neighbours that hold it |
| LabelPropagation.PickLabel | apoc/community/community.go:248-259 | Some label with the most votes, and a panic exactly if all votes are negative |
| LabelPropagation.Visit | apoc/community/community.go:238-263 | A visit picks a top label among the neighbours, and panics exactly if all their votes are negative |
| LabelPropagation.Pass | apoc/community/community.go:234-268 | One pass is a visit of every node in some order; if it changes nothing, every label has the most votes among its neighbours |
| LabelPropagation.Propagate | apoc/community/community.go:228-269 | The labels after some passes that each change a label, as many as allowed unless the labels are stable; a panic only where such a run comes to a node with negative votes only |
| LabelPropagation.PassesAnchored | apoc/community/community.go:233-269 | After any number of passes every label is the ID of a node of the holder's connected component |
| LabelPropagation.StickIffNegative | apoc/community/community.go:248-259 | Some labels make the visit of a node panic if and only if it has neighbours and the weights to them sum to less than 0 |
| LabelPropagation.StickForAll | apoc/community/community.go:248-259 | All labels do if and only if it has neighbours and the weights to each of them sum to less than 0 |
| LabelPropagation.OnePairPanics | apoc/community/community.go:238-259 | Two nodes and one relationship: a certain panic if its weight is negative, and never one otherwise |
| LabelPropagation.LabelPropagation | apoc/community/community.go:194-285 | The end of such a run, renumbered by first occurrence: for maxIterations > 0 at most that many passes that change a label, otherwise at most 10, and fewer only if the labels are stable; no panic if no weight is negative or no node's incident weights sum to less than 0; a panic if at some node the weights to each neighbour do; for distinct IDs every community lies inside one connected component |
| LabelGap.OrderDecides | apoc/community/community.go:233-268 | A graph between the two conditions, on which the order of the visits alone decides: one order panics in the first pass, and another ends in labels that no later visit can change |
| LabelPath.PassAgrees | apoc/community/community.go:234-268 | On the path 0-1-2-3 with the weights 1, 2 and 3 every pass, in any order, adds one more node to those that share the label of the last |
| LabelPath.OneFromThreePasses | apoc/community/community.go:199-201 | On that path a run ends with one community whatever the orders if and only if maxIterations is at least 3 or not positive |
| Partitions.VolumeIsMemberSum | apoc/community/community.go:956-1003 | The volume of a community, summed edge by edge, is the sum of its members' degrees |
| Partitions.MoveIntra | apoc/community/community.go:164-169 | Moving a node changes the weight inside communities by its links to the new less its links to the old |
| NewmanModularity.MergeGain | apoc/community/community.go:997-1005 | A merge changes Newman's modularity by exactly the computed deltaQ |
| NewmanModularity.PresentDegreesAre | apoc/community/community.go:951-960 | With all endpoints present the accumulated degrees are the degrees of the edge list |
| FastGreedy.GridIsBetween | apoc/community/community.go:977-994 | The triple loop sums exactly the weight between the two communities |
| FastGreedy.PairDelta | apoc/community/community.go:971-1005 | The deltaQ computed for two communities is the gain of the specification |
| FastGreedy.BestPair | apoc/community/community.go:963-1011 | The chosen pair has the largest gain of all pairs, for every order of the map |
| FastGreedy.MergeCommunities | apoc/community/community.go:962-1025 | A run of best merges with positive gain from singletons; numCommunities is the number of distinct labels; in the end no pair has a positive gain |
| FastGreedy.RunRaisesModularity | apoc/community/community.go:962-1025 | With all endpoints present, modularity strictly rises along a run |
| FastGreedy.StepRaisesModularity | apoc/community/community.go:997-1023 | Each merge raises modularity by exactly its deltaQ |
| FastGreedy.NoMergeRaisesModularity | apoc/community/community.go:1013-1015 | On exit no merge of two communities would raise modularity |
| FastGreedy.FastGreedy | apoc/community/community.go:923-1052 | The end of such a run, renumbered by first occurrence; singletons without weight; with non-negative weights and all endpoints present every community lies inside one connected component |
| LouvainWeights.BuildWeights | apoc/community/community.go:90-108 | The map of maps holds exactly the adjacent IDs with the weights between them, and the total weight counts every present relationship twice |
| LouvainWeights.SumRow | apoc/community/community.go:118-123 | Summing one map in any order gives the degree |
| LouvainWeights.NeighborCommunities | apoc/community/community.go:138-143 | Exactly the neighbours' communities, each with the weight of the links to it, and twice the self-loops in the node's own |
| Louvain.Best | apoc/community/community.go:145-162 | The neighbouring community with the largest positive gain, or the current one if none is positive, in any order of the map, also for repeated IDs |
| Louvain.Visit | apoc/community/community.go:134-170 | A visit moves the node to that community, or leaves everything unchanged exactly if no gain is positive, and moves its degree between the two entries of communityWeight |
| Louvain.VisitIsStep | apoc/community/community.go:134-170 | For distinct IDs that is a best move in terms of the graph, or none exactly if none gains, and communityWeight stays the sum of the members' degrees |
| Louvain.VolumesMove | apoc/community/community.go:164-168 | The two updates of communityWeight keep it the volume of every community |
| Louvain.MoveRaises | apoc/community/community.go:145-169 | A move raises the potential by exactly its gain plus 2R times the node's self-loops |
| Louvain.RunRaises | apoc/community/community.go:130-175 | If no node's self-loops have a weight of the opposite sign to the resolution, the potential strictly rises along every run |
| Louvain.NoLoopsHelp | apoc/community/community.go:97-108 | That condition holds without self-loops, and with non-negative weights and resolution |
| Louvain.NeverRevisits | apoc/community/community.go:130-175 | So no assignment occurs twice, for any visiting order |
| Louvain.RunBound | apoc/community/community.go:130-175 | So a run over n nodes has at most n to the power n assignments |
| Louvain.PassesBound | apoc/community/community.go:130-175 | and fewer improving passes than that, whatever maxIterations |
| Louvain.EndsSettled | apoc/community/community.go:130-175 | With at least n to the power n iterations allowed the passes end because no further move gains |
| LouvainPair.PairEnds | apoc/community/community.go:145-169 | Two nodes joined by one relationship of positive weight end in one community if and only if the resolution exceeds 1/4 and an iteration is allowed |
| LouvainPair.PairByConfiguration | apoc/community/community.go:71-79 | In terms of the configuration: if and only if its resolution exceeds 1/4 or is 0, and maxIterations is not negative |
| LouvainModularity.BalanceIsNewman | apoc/community/community.go:156 | The potential is Newman's modularity times a quarter of T, plus the weight inside communities times the resolution less 1/2 |
| LouvainModularity.RaisesExactlyAtHalf | apoc/community/community.go:145-169 | On all graphs without self-loops and with positive total weight every best move raises Newman's modularity, if and only if the resolution is 1/2 |
| LouvainModularity.MoveRaisesModularity | apoc/community/community.go:145-169 | For the resolution 1/2 it does so also with self-loops of non-negative weight |
| LouvainModularity.FirstMoveLowers | apoc/community/community.go:145-169 | Six nodes and five relationships on which the first move of a run with the default resolution lowers Newman's modularity |
| LouvainCycle.NeverEnds | apoc/community/community.go:130-175 | Five nodes and five relationships, one a self-loop of weight -1, on which there can be any number of passes that each move a node |
| LouvainCycle.EveryPassFlips | apoc/community/community.go:131-170 | Once the two pairs of that graph are communities, a pass in any order moves the node with the self-loop to the other one, and nothing else |
| LouvainCycle.CycleIsInput | apoc/community/community.go:97-108 | The edges of that graph are those of its relationships, and the condition of RunRaises fails on it |
| Louvain.SettledIsLocalMaximum | apoc/community/community.go:172-174 | After a pass without a move, moving a node without self-loops to a neighbour's community does not raise the potential |
| Louvain.RunAnchored | apoc/community/community.go:130-175 | Along a run every label is the ID of a node of the holder's connected component |
| Louvain.VisitAll | apoc/community/community.go:131-170 | One pass is a visit of every node in some order; without a move it leaves everything unchanged and no move gains |
| Louvain.RunOfPasses | apoc/community/community.go:130-175 | All passes together are a run of best moves from singletons, with at least one move for each pass |
| Louvain.Passes | apoc/community/community.go:130-175 | The assignment after some improving passes, each a visit of all nodes in some order; as many as allowed unless no further move gains |
| Louvain.Louvain | apoc/community/community.go:66-191 | One result per node, renumbered by first occurrence, and node IDs when the total weight is zero; for distinct IDs it is the end of such a run inside connected components, with the configured resolution, or 1 for 0, and at most maxIterations passes, or 100 for 0, fewer only if no further move gains |
| Louvain.DenseWithoutWeight | apoc/community/community.go:110-116 | Node IDs are dense from 0 exactly if they all lie from 0 to the number of nodes less one |
| Louvain.FirstOccurrenceIsDense | apoc/community/community.go:177-184 | The numbers handed out by first occurrence are dense from 0 |
| Louvain.FirstOccurrenceWithoutWeight | apoc/community/community.go:110-116 | Node IDs are a numbering by first occurrence exactly if the i-th node has the ID i |
| ShortestPaths.PopMin | apoc/algo/algo.go:320 | What the pop gives is some queued item of least priority, and the others stay queued |
| Dijkstra.RelaxNeighbors | apoc/algo/algo.go:375-389 | After the loop every arc from a visited node is relaxed, and the recorded chain still realises every distance |
| Dijkstra.ReconstructPath | apoc/algo/algo.go:574-590 | The chain through prev is a walk from start to end of the recorded distance |
| Dijkstra.Dijkstra | apoc/algo/algo.go:352-393 | For non-negative weights a walk of least total weight; empty exactly when the end is unreachable; terminates with stale entries |
| AStar.RelaxNeighbors | apoc/algo/algo.go:326-341 | Exactly the neighbours that the current node improves get the better score and the current node as predecessor; an improvement records a simple path not recorded before, and without one the queue stays as it is |
| AStar.ReconstructPath | apoc/algo/algo.go:558-572 | The cameFrom chain ends, and is a walk from start to end no longer than the score of the end |
| AStar.AStar | apoc/algo/algo.go:301-345 | Terminates for every heuristic; the result is a walk that is longer than the shortest one by at most the amount by which the heuristic exceeds the weight of a walk to the end, so a shortest one if the heuristic is admissible; empty exactly when the end is unreachable |
| Hops.LevelExact | apoc/neighbors/neighbors.go:34-48 | A level lists, without repetition, exactly the nodes at its distance |
| Hops.LevelsBelowExact | apoc/neighbors/neighbors.go:65-83 | The levels below m together list each node within m - 1 steps exactly once |
| Hops.LevelInOrder | apoc/neighbors/neighbors.go:34-48 | A level lists its nodes in the order in which the successor lists of the level before, one after the other, first offer them |
| Hops.StepsIffWalk | apoc/neighbors/neighbors.go:25-51 | Being n steps away is the existence of a walk of n arcs |
| Hops.AtHop | apoc/neighbors/neighbors.go:25-51 | Exactly the nodes at distance hops, without repetition; the node alone for a negative number |
| Hops.ToHop | apoc/neighbors/neighbors.go:58-86 | As a sequence, the levels 0 to maxHops - 1 one after the other |
| DepthFirst.Search.Dfs | apoc/neighbors/neighbors.go:107-121 | The closure's effect on visited and result is the recursive visit |
| DepthFirst.DFS | apoc/neighbors/neighbors.go:102-125 | No repetition, and only nodes within maxDepth steps |
| DepthFirst.DfsComplete | apoc/neighbors/neighbors.go:102-125 | With maxDepth at least the number of nodes less one, exactly the reachable nodes |
| DepthFirst.VisitAllAppend | apoc/neighbors/neighbors.go:115-120 | Searching from a list of nodes and then from another is searching from their concatenation |
| DepthFirst.NodeFirst | apoc/neighbors/neighbors.go:107-120 | A search lists its node first and then what the searches from the successors add, whatever was listed before |
| DepthBound.ExactBounds | apoc/neighbors/neighbors.go:102-125 | DFS with the bound D returns exactly the nodes within D steps, from every node of every symmetric graph with n nodes, if and only if D <= 1 or D >= n - 1 |
| DepthBound.ExactDeep | apoc/neighbors/neighbors.go:102-125 | With D at least the number of nodes less one it is exact |
| DepthBound.LassoMisses | apoc/neighbors/neighbors.go:107-121 | For every bound m >= 2 a symmetric graph with m + 2 or more nodes on which a node two steps away is missed |
| Wildcards.MatchPattern | apoc/label/label.go:524-558 | Terminates; true implies a match; on strings without a star it is true exactly for matches |
| Wildcards.AcceptsSound | apoc/label/label.go:524-558 | What is accepted matches, for every string and pattern |
| Wildcards.AcceptsComplete | apoc/label/label.go:536-551 | On strings without a star, backtracking to the last star alone finds every match |
| Wildcards.StarIsMissed | apoc/label/label.go:537-543 | For every string with a star, a pattern that matches and is rejected |
| Wildcards.RightExactlyWithoutStar | apoc/label/label.go:524-558 | The matcher is right for all patterns if and only if the string has no star |
| Wildcards.FoundBehindPrefix | apoc/label/label.go:536-551 | If a string begins with anything, stars included, that the pattern meets byte by byte, and the rest has no star, it is accepted exactly if the rest matches the rest of the pattern |
| Wildcards.StarMisses | apoc/label/label.go:537-543 | For every pattern with a star but a single star, a string that matches and is rejected |
| Wildcards.RightExactlyForPlainPatterns | apoc/label/label.go:524-558 | The matcher is right for all strings if and only if the pattern has no star or is a single star |
| Delimiters.JoinSplit | apoc/map/map.go:382 | Joining the parts of a split string gives the string |
| Delimiters.SplitJoin | apoc/map/map.go:361-382 | Splitting joined keys gives the keys back if and only if the delimiter falls where it was put, or every key is one character if the delimiter is empty |
| FlatKeys.FlatKeyIsJoin | apoc/map/map.go:359-363 | The flat key is the joined path, or something shorter if an empty first key and its delimiter are dropped |
| FlatKeys.RestorableApart | apoc/map/map.go:378-396 | If all keys survive, no key's parts are a prefix of another's, so no order makes Unflatten panic |
| FlatKeys.SameLeavesIff | apoc/map/map.go:352-396 | A result of Unflatten has the flattened leaves if and only if every key survives joining and splitting |
| FlatKeys.FlatKeysDiffer | apoc/map/map.go:352-370 | If the leaves are restored, no two of them share a flat key |
| FlatKeys.ForeignRestorable | apoc/map/map.go:352-396 | Non-empty keys that share no character with the delimiter survive |
| MapFlatten.Flattener.FlattenHelper | apoc/map/map.go:358-371 | The leaves' keys are added, each with the value of a leaf that has it, and the rest is unchanged, in any order |
| MapFlatten.Flatten | apoc/map/map.go:352-356 | The keys are exactly the flat keys of the leaves, each with the value of such a leaf |
| MapUnflatten.Descend | apoc/map/map.go:385-390 | One step down, making a missing map; a panic exactly if a value is in the way; the stored values are unchanged |
| MapUnflatten.Put | apoc/map/map.go:382-393 | A key fails exactly if a proper prefix of its parts holds a value; otherwise it replaces what was at or below its path and leaves the rest |
| MapUnflatten.AllKeysApart | apoc/map/map.go:378-396 | If every entry is kept, no key's parts are a prefix of another's |
| MapUnflatten.StoreKey | apoc/map/map.go:381-393 | A key is stored on top of the ones before it, or the walk panics |
| MapUnflatten.Unflatten | apoc/map/map.go:378-396 | The result is what storing the keys one after the other in some order gives, and a panic comes at a key that fails in some order; all entries are kept if and only if no key's parts are a prefix of another's; only otherwise, or for the empty key with an empty delimiter, can it panic |
| MapUnflatten.AnyOrder | apoc/map/map.go:378-396 | If no key's parts are a prefix of another's, the stored values do not depend on the order of the keys |
| UnflattenOrder.MinimalKeysStay | apoc/map/map.go:378-396 | Whenever no key panics, exactly those keys are left, with their values, of whose parts no other key's parts are a prefix |
| UnflattenOrder.OneResult | apoc/map/map.go:378-396 | So the stored values are the same for every order that does not panic, also when keys conflict |
| UnflattenOrder.PanicsInSomeOrder | apoc/map/map.go:381-393 | Some order panics if and only if one key's parts are a prefix of another's, or the empty key meets an empty delimiter |
| UnflattenOrder.ReturnsInSomeOrder | apoc/map/map.go:381-393 | Some order stores every key if and only if the empty key does not meet an empty delimiter |
| MapRoundTrip.RepresentsIff | apoc/map/map.go:378-396 | The maps made in place are the nested map t exactly if they hold the leaves of t and t has no empty nested map |
| MapRoundTrip.RoundTrip | apoc/map/map.go:352-396 | Unflatten after Flatten gives the map back if and only if every key survives and no nested map is empty, for every delimiter and every order of both iterations |
| MapRoundTrip.EmptyMapIsLost | apoc/map/map.go:365-369 | An empty nested map has no flat key |
| JumpHash.JumpHash | apoc/hashing/hashing.go:232-243 | Terminates with a bucket in range, or -1 without buckets |
| JumpHash.NextBucket | apoc/hashing/hashing.go:238-239 | The next bucket is larger and fits into 64 bits |
| JumpBalance.NextBucketAtLeast | apoc/hashing/hashing.go:239 | From bucket b a key goes to n or beyond if and only if n times its divisor is at most (b + 1) times 2^31 |
| JumpBalance.NextBucketIs | apoc/hashing/hashing.go:239 | So the next bucket is the integer quotient of (b + 1) times 2^31 by the divisor |
| JumpBalance.NextKeyIsBijection | apoc/hashing/hashing.go:238 | Advancing the key permutes the 2^64 keys |
| JumpBalance.GoesBeyondSize | apoc/hashing/hashing.go:238-239 | Of the 2^64 keys exactly 2^33 times the quotient of (b + 1) times 2^31 by n go from bucket b to n or beyond |
| JumpBalance.FirstBucketShare | apoc/hashing/hashing.go:232-243 | Of all keys, n buckets put 2^33 times the quotient of 2^31 by n into the first one |
| JumpBalance.Example | apoc/hashing/hashing.go:225-243 | The documented key 12345 visits the buckets 0, 1 and 29 and gets bucket 1 of 10 |
| JumpHash.GrowingMovesToNew | apoc/hashing/hashing.go:232-243 | With more buckets a key stays or moves to a new bucket |
| JumpHash.ShrinkingMovesOnlyLost | apoc/hashing/hashing.go:232-243 | With fewer buckets a key stays exactly if its bucket is still there |
| JumpHash.HashIsLastJump | apoc/hashing/hashing.go:236-242 | The result is the last jump of the key's sequence below the number of buckets |
| Primes.IsPrime | apoc/math/math.go:377-396 | True exactly for primes |
| Primes.NextSix | apoc/math/math.go:388-394 | Of six consecutive candidates only the two tested ones can be the least divisor |
| Primes.LargerPrime | apoc/math/math.go:403-409 | There is a prime above every integer |
| Primes.NextPrime | apoc/math/math.go:403-409 | Terminates with the least prime above n |

## Left out

- Floating-point numbers are reals; rounding, infinities and NaN are not modelled. `math.MaxFloat64` is the real number it stands for.
- Integers are unbounded, except the key and the bucket count of JumpHash; overflow of `int64` arithmetic is not modelled.
- JumpHash.JumpHash: the floating-point step is an exact floor. The movement results hold for any step that advances; the shares in JumpBalance are those of the exact step.
- Local slices and maps are sequence and map variables that the loops reassign, so aliasing between local slices is not modelled.
- The heap inside PriorityQueue is a multiset from which any item of least priority is popped; `heap.Push` and `heap.Pop` of container/heap are not part of this model.
- `getNeighborsWithRel` and `getWeight` (apoc/algo/algo.go:517-530) return fixed values; they are parameters here, a finite graph with non-negative weights. The distance formula (apoc/algo/algo.go:532-556) is an arbitrary heuristic.
- `Storage.GetNodeNeighbors` is a total function from nodes to lists; its errors are not modelled. Nodes and paths are represented by node IDs, and results hold only the fields named in the source's result records.
- Louvain.Louvain: for repeated node IDs only each single visit is described, not what a run of visits achieves, because two nodes then share one entry of communityWeight and its entries are no longer volumes. Label propagation states its containment result for distinct IDs; the other functions have no such condition.
- A nil relationship or nil node in a list is not modelled, and a nil property map is an empty one.
- MapUnflatten.Unflatten: the values of the flat map are not themselves maps, so the case in which a later key writes into a map of the caller is not modelled.
- Strings in Delimiters are sequences of characters; how `strings.Split` treats invalid UTF-8 under an empty delimiter is not modelled.
- `Search` (apoc/label/label.go:490-520) and the label store around matchPattern.
- SpinGlass, the WalkTrap and InfoMap aliases, Conductance, Density, WeaklyConnectedComponents and AverageClusteringCoefficient.
- The function Modularity (apoc/community/community.go:288-321) sums over relationships only and is not the standard measure; the standard one is defined here as the specification of FastGreedy.
- PageRank, closeness, betweenness, degree centrality, AllPairs, Community and Cover of apoc/algo; BFS and Count of apoc/neighbors.
- The other hashes of apoc/hashing, the other functions of apoc/math and apoc/map, and apoc/json, whose flattening goes through encoding/json.
- Storage, transactions, locking, the query language, import, export and the user interface.
