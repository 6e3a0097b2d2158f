# Maze graph core in Dafny

This project models the graph core of the Maze project:

- **`ArrayDisjointSet`**: a union-find forest over an `int[]`.
  - Each item gets a dense id from a counter.
  - A slot holds either the id of the parent, or, for a root, its rank encoded as `-rank + self` with `self = -1`.
  - `findSet` compresses paths. `union` links by rank.
  - Unknown items, duplicate registrations and unions within one component are errors.
- **`Graph`**: an undirected weighted graph.
  - Built from a vertex list and an edge list. Vertex `i` of the list gets id `i`.
  - Each edge appends an entry to the bucket of both of its endpoints.
  - The graph answers `numVertices`, `numEdges`, `findMinimumSpanningTree` (Kruskal, over an edge heap and an `ArrayDisjointSet`) and `findShortestPathBetween` (a Dijkstra-style search over a worklist, followed by `generateTrace`).

The project is split into seven files:

| file | contents |
|---|---|
| `wrappers.dfy` | `Option`, `Result` and `Outcome` (the Java exceptions become error values) |
| `forest.dfy` | the parent-pointer encoding as pure functions on `seq<int>`: roots, rank encoding, path compression, linking |
| `disjoint_set.dfy` | `class ArrayDisjointSet` over `array<int>`, with a ghost rank per id that keeps the forest acyclic |
| `graph.dfy` | the graph as an immutable value built by `NewGraph`, plus facts about its adjacency buckets |
| `components.dfy` | the reference definitions of connectivity and Kruskal's selection (`Comp`, `Connected`, `Acyclic`, `KruskalFilter`) |
| `spanning_tree.dfy` | Kruskal's loop over the disjoint-set class, with the heap as a multiset |
| `shortest_path.dfy` | the search, its invariant, the trace and the parallel-edge finding |

Notes on the source's behaviour:

- A self-loop appends two entries to its vertex's bucket (`Graph.java:69-72` runs for both endpoints).
- The trace takes the first matching bucket entry, even where a later parallel edge is cheaper. See "## Findings".
- `findShortestPathBetween` does not special-case `start == end`. The trace is empty in that case anyway, because the start never gets a predecessor. This is proved.

Source paths below are relative to the repository root.

## Model

| member | source | states |
|---|---|---|
| Forest.EncodeRank | Maze/src/main/java/datastructures/concrete/ArrayDisjointSet.java:104-107 | the slot `-rank + self` written for a root is at most `self`, so `pointers[ptr] <= self` recognises it as a root |
| Forest.DecodeRank | Maze/src/main/java/datastructures/concrete/ArrayDisjointSet.java:89-90 | `abs(slot) + self` read back from a root slot is the rank whose encoding is that slot (round trip with `EncodeRank`) |
| Forest.Root | Maze/src/main/java/datastructures/concrete/ArrayDisjointSet.java:75-83 | following parent pointers from `i` ends at a root slot; the root's rank is no lower than `i`'s, and strictly higher when `i` is not a root |
| Forest.Chain | Maze/src/main/java/datastructures/concrete/ArrayDisjointSet.java:75-83 | the ids `findSetUtil` visits run from `i` to its root, with ranks rising along the way |
| Forest.CompressShape | Maze/src/main/java/datastructures/concrete/ArrayDisjointSet.java:75-83 | path compression repoints exactly the non-root ids on `i`'s chain to the root; every other slot is unchanged |
| Forest.CompressKeepsRoots | Maze/src/main/java/datastructures/concrete/ArrayDisjointSet.java:79-80 | compression keeps the forest acyclic (well ranked) and keeps the root of every id |
| Forest.CompressIdempotent | Maze/src/main/java/datastructures/concrete/ArrayDisjointSet.java:79-80 | compressing the same path a second time changes nothing |
| Forest.RepointWellRanked | Maze/src/main/java/datastructures/concrete/ArrayDisjointSet.java:80 | pointing one non-root id straight at its root keeps the forest well ranked |
| Forest.RepointRoot | Maze/src/main/java/datastructures/concrete/ArrayDisjointSet.java:80 | pointing one non-root id straight at its root keeps every id's root |
| Forest.ExtendRoot | Maze/src/main/java/datastructures/concrete/ArrayDisjointSet.java:51-55 | adding a self-rooted slot at the next id keeps the root of an existing id |
| Forest.ExtendRoots | Maze/src/main/java/datastructures/concrete/ArrayDisjointSet.java:51-55 | adding a self-rooted slot at the next id keeps every existing root, and the new id is its own root |
| Forest.ExtendWellRanked | Maze/src/main/java/datastructures/concrete/ArrayDisjointSet.java:51-55 | adding a self-rooted slot keeps the forest well ranked |
| Forest.LinkWellRanked | Maze/src/main/java/datastructures/concrete/ArrayDisjointSet.java:104-107 | linking root `child` under `root` with a new rank above `child`'s keeps the forest well ranked |
| Forest.LinkRoot | Maze/src/main/java/datastructures/concrete/ArrayDisjointSet.java:104-107 | after the link, the ids rooted at `child` are rooted at `root` and no other id's root changes |
| DisjointSet.DenseIdsExtend | Maze/src/main/java/datastructures/concrete/ArrayDisjointSet.java:39-43 | giving a new item the next counter value keeps the ids dense and distinct |
| DisjointSet.ArrayDisjointSet.constructor | Maze/src/main/java/datastructures/concrete/ArrayDisjointSet.java:25-29 | no items, counter at -1, an array of 10 slots |
| DisjointSet.ArrayDisjointSet.GetUniqueID | Maze/src/main/java/datastructures/concrete/ArrayDisjointSet.java:31-37 | the result is `nullIndex` exactly when the item is unregistered, and the item's id otherwise |
| DisjointSet.ArrayDisjointSet.ApplyUniqueID | Maze/src/main/java/datastructures/concrete/ArrayDisjointSet.java:39-43 | the counter is incremented, the item is mapped to the new value, and nothing else changes |
| DisjointSet.ArrayDisjointSet.Expand | Maze/src/main/java/datastructures/concrete/ArrayDisjointSet.java:58-64 | a fresh array of twice the length, holding the old slots as a prefix and zeros after them |
| DisjointSet.ArrayDisjointSet.MakeSet | Maze/src/main/java/datastructures/concrete/ArrayDisjointSet.java:46-56 | a registered item fails with `DuplicateItem` and nothing changes; otherwise the item gets the next id, within capacity, as a root of rank 0, and every other item keeps its representative |
| DisjointSet.ArrayDisjointSet.FindSetUtil | Maze/src/main/java/datastructures/concrete/ArrayDisjointSet.java:75-83 | returns the root of `ptr`; the array becomes `Compress` of the old array along `ptr`'s chain; the invariant is kept |
| DisjointSet.ArrayDisjointSet.FindSet | Maze/src/main/java/datastructures/concrete/ArrayDisjointSet.java:67-73 | an unknown item fails with `UnknownItem` and nothing changes; otherwise returns the item's representative and compresses its path; no representative and no root slot changes |
| DisjointSet.ArrayDisjointSet.Union | Maze/src/main/java/datastructures/concrete/ArrayDisjointSet.java:86-102 | unknown item gives `UnknownItem` and items already together give `SameComponent`, with no representative and no rank changed in either case; otherwise exactly the two components merge, the root kept, its slot, the other root's slot and the new ranks follow the three rank branches, and every other root keeps its slot |
| DisjointSet.ArrayDisjointSet.FindRoots | Maze/src/main/java/datastructures/concrete/ArrayDisjointSet.java:87-88 | the two `findSet` calls: `UnknownItem` when either item is unregistered, otherwise both old representatives; no representative, rank or root slot changes |
| DisjointSet.ArrayDisjointSet.LinkItems | Maze/src/main/java/datastructures/concrete/ArrayDisjointSet.java:89-101 | for two registered items with distinct roots: afterwards they share a representative and exactly the two components merge; the whole new slot array and rank sequence are given per rank branch, so every other slot stays |
| DisjointSet.ArrayDisjointSet.LinkByRank | Maze/src/main/java/datastructures/concrete/ArrayDisjointSet.java:89-98 | equal ranks: `rootA` wins with rank + 1; otherwise the higher rank wins and keeps its rank; the whole new slot array and rank sequence are given per branch, every other slot stays, and the two components become one |
| DisjointSet.ArrayDisjointSet.UnionUtil | Maze/src/main/java/datastructures/concrete/ArrayDisjointSet.java:104-107 | `child` points at `root`, `root` holds the encoded new rank, and ids formerly rooted at `child` are now rooted at `root` |
| Graphs.Mapper | Maze/src/main/java/misc/graphs/Graph.java:55-59 | every listed vertex gets an id below the vertex count, and that position holds it |
| Graphs.MapperLast | Maze/src/main/java/misc/graphs/Graph.java:55-56 | a vertex listed twice keeps the id of its last position |
| Graphs.MapperPositions | Maze/src/main/java/misc/graphs/Graph.java:55-59 | distinct vertices get distinct ids; without repeats, vertex `i` gets id `i` |
| Graphs.EmptyBuckets | Maze/src/main/java/misc/graphs/Graph.java:57 | one empty bucket per id below the vertex count |
| Graphs.AddEdge | Maze/src/main/java/misc/graphs/Graph.java:69-72 | handling an edge neither adds nor removes buckets |
| Graphs.AddEdgeBuckets | Maze/src/main/java/misc/graphs/Graph.java:69-72 | handling an edge only appends: one entry to each endpoint's bucket, so two to a self-loop's bucket |
| Graphs.Adjacency | Maze/src/main/java/misc/graphs/Graph.java:60-73 | after any number of edges the buckets are still those of ids below the vertex count |
| Graphs.AdjacencySound | Maze/src/main/java/misc/graphs/Graph.java:69-72 | every bucket entry names its neighbour by that neighbour's id and carries an input edge between the two |
| Graphs.AdjacencyComplete | Maze/src/main/java/misc/graphs/Graph.java:69-72 | every handled edge has an entry in the bucket of each of its endpoints |
| Graphs.AddEdgeTotal | Maze/src/main/java/misc/graphs/Graph.java:69-72 | handling an edge adds two entries in total |
| Graphs.AdjacencyTotal | Maze/src/main/java/misc/graphs/Graph.java:60-73 | after `j` edges the buckets hold `2 * j` entries |
| Graphs.EmptyTotal | Maze/src/main/java/misc/graphs/Graph.java:55-59 | empty buckets hold no entries |
| Graphs.EdgesListed | Maze/src/main/java/misc/graphs/Graph.java:66-68 | in a constructed graph both endpoints of every edge are listed vertices |
| Graphs.GraphFacts | Maze/src/main/java/misc/graphs/Graph.java:49-74 | a constructed graph has a bucket per vertex id, sound entries, and both entries of every edge |
| Graphs.DistinctCount | Maze/src/main/java/misc/graphs/Graph.java:99-101 | a list has at most as many distinct elements as its length, and exactly as many when it has no repeats |
| Graphs.AssignIds | Maze/src/main/java/misc/graphs/Graph.java:55-59 | the first constructor loop yields `Mapper(vertices)` and one empty bucket per position |
| Graphs.NewGraph | Maze/src/main/java/misc/graphs/Graph.java:49-74 | succeeds exactly when every edge has listed endpoints and a non-negative weight, otherwise fails with `InvalidEdge`; on success the graph is `Built(vertices, edges)` |
| Graphs.NumVertices | Maze/src/main/java/misc/graphs/Graph.java:99-101 | the count is at least the number of ids, and equal exactly when no vertex is listed twice |
| Graphs.NumEdges | Maze/src/main/java/misc/graphs/Graph.java:106-108 | twice the count is the number of bucket entries |
| Graphs.EdgeTotal | Maze/src/main/java/misc/graphs/Graph.java:106-108 | in a constructed graph, twice the edge count is the number of bucket entries |
| Components.CompAppend | Maze/src/main/java/misc/graphs/Graph.java:131-133 | joining an edge relabels exactly the component of its second endpoint with the first endpoint's label |
| Components.ConnectedAfterJoin | Maze/src/main/java/misc/graphs/Graph.java:131-133 | after joining an edge, two vertices are connected exactly when they already were or the edge bridges their components |
| Components.ConnectedMonotone | Maze/src/main/java/misc/graphs/Graph.java:129-139 | joining more edges never separates connected vertices |
| Components.KruskalAcyclic | Maze/src/main/java/misc/graphs/Graph.java:131-133 | the selection of edges whose endpoints were apart is a forest |
| Components.KruskalSubset | Maze/src/main/java/misc/graphs/Graph.java:131-133 | the selection is a sub-multiset of the edges considered |
| Components.KruskalSpans | Maze/src/main/java/misc/graphs/Graph.java:129-139 | the selection connects the endpoints of every edge considered |
| Components.CompWithin | Maze/src/main/java/misc/graphs/Graph.java:123-125 | over edges among a vertex set, every component label is in the set |
| Components.ForestCount | Maze/src/main/java/misc/graphs/Graph.java:135-136 | for a forest over a vertex set, the number of components plus the number of edges is the number of vertices |
| Components.ForestBound | Maze/src/main/java/misc/graphs/Graph.java:135-136 | a forest has at most `|V| - 1` edges, and one with exactly `|V| - 1` connects all vertices, which justifies the early `break` |
| SpanningTree.LightestExists | Maze/src/test/java/datastructures/sorting/TestSortingStress.java:89-109 | a non-empty heap holds an edge no heavier than any other |
| SpanningTree.RemoveMin | Maze/src/test/java/datastructures/sorting/TestSortingStress.java:103-105 | removes and returns an edge of least weight, and leaves the rest |
| SpanningTree.KruskalStep | Maze/src/main/java/misc/graphs/Graph.java:129-138 | one round of the loop keeps the invariant: considered edges are sorted and no heavier than those left, and the result is `KruskalFilter` of them |
| SpanningTree.EdgesWithin | Maze/src/main/java/misc/graphs/Graph.java:126-128 | edges taken from the input join listed vertices |
| SpanningTree.KruskalDone | Maze/src/main/java/misc/graphs/Graph.java:129-140 | once the heap is empty or `|V| - 1` edges are kept, the loop has delivered `KruskalOutcome` |
| SpanningTree.SelectionBound | Maze/src/main/java/misc/graphs/Graph.java:135-137 | an acyclic selection of input edges has at most `|V| - 1` edges, and none when there are no vertices |
| SpanningTree.SelectionSpans | Maze/src/main/java/misc/graphs/Graph.java:129-139 | whichever way the loop stops, the selection connects the endpoints of every input edge |
| SpanningTree.EmptyForest | Maze/src/main/java/misc/graphs/Graph.java:135-137 | with no vertices there are no edges |
| SpanningTree.DrainedSpans | Maze/src/main/java/misc/graphs/Graph.java:129-139 | after all edges are considered, the selection connects every input edge's endpoints |
| SpanningTree.SingletonsSplit | Maze/src/main/java/misc/graphs/Graph.java:123-125 | distinct representatives after `makeSet` match the empty edge selection |
| SpanningTree.SplitsSame | Maze/src/main/java/misc/graphs/Graph.java:131 | `findSet` calls that keep every representative keep the partition |
| SpanningTree.PartitionStep | Maze/src/main/java/misc/graphs/Graph.java:131-133 | a `union` that merges exactly the two components matches adding the edge to the selection |
| SpanningTree.JoinIfApart | Maze/src/main/java/misc/graphs/Graph.java:131-134 | unions exactly when the two `findSet` results differ, which is exactly when the selection does not yet connect the endpoints; the forest keeps matching the selection |
| SpanningTree.MakeSets | Maze/src/main/java/misc/graphs/Graph.java:123-125 | succeeds exactly when no vertex is listed twice (`DuplicateItem` otherwise); then the forest holds exactly the vertices, as singletons |
| SpanningTree.FillHeap | Maze/src/main/java/misc/graphs/Graph.java:126-128 | the heap holds exactly the input edges |
| SpanningTree.TakeEdge | Maze/src/main/java/misc/graphs/Graph.java:130-134 | one round: the lightest edge leaves the heap and is kept exactly when its endpoints were apart; the loop state is kept |
| SpanningTree.LoopStart | Maze/src/main/java/misc/graphs/Graph.java:119-128 | for a graph whose edges join listed vertices, singletons and the full heap satisfy the loop state |
| SpanningTree.NewForest | Maze/src/main/java/misc/graphs/Graph.java:120-125 | the forest is built unless a vertex is listed twice, and then starts the loop state |
| SpanningTree.KruskalLoop | Maze/src/main/java/misc/graphs/Graph.java:129-139 | the loop ends with the heap empty or `|V| - 1` edges kept; the result is `KruskalFilter` of the lightest-first edges taken |
| SpanningTree.FindMinimumSpanningTree | Maze/src/main/java/misc/graphs/Graph.java:118-141 | fails with `DuplicateItem` exactly when a vertex is listed twice; otherwise returns Kruskal's selection from a lightest-first order: a forest of input edges, at most `|V| - 1` of them, connecting the endpoints of every input edge |
| ShortestPath.SearchableGraph | Maze/src/main/java/misc/graphs/Graph.java:49-74 | a constructed graph has injective ids, a bucket per id, and sound bucket entries with non-negative weights |
| ShortestPath.InitPathNodes | Maze/src/main/java/misc/graphs/Graph.java:167-174 | one path node per vertex id: distance 0 for the start, infinity for every other, no predecessor |
| ShortestPath.RemoveLowestDistanceVertex | Maze/src/main/java/misc/graphs/Graph.java:224-237 | finds nothing exactly when every listed distance is infinite; otherwise removes the first entry of least, finite distance and returns it |
| ShortestPath.FirstEntryTo | Maze/src/main/java/misc/graphs/Graph.java:208-214 | finds nothing exactly when no entry names `pid`; otherwise the first position that does |
| ShortestPath.MarkShape | Maze/src/main/java/misc/graphs/Graph.java:181 | marking the vertex processed keeps the bookkeeping; an id processed for the first time gets the next stamp |
| ShortestPath.MarkSettled | Maze/src/main/java/misc/graphs/Graph.java:181 | marking the vertex processed keeps every settled entry settled |
| ShortestPath.MarkPreds | Maze/src/main/java/misc/graphs/Graph.java:181 | marking a vertex processed keeps every predecessor link; a newly processed vertex has no cheaper entry from its predecessor |
| ShortestPath.MarkProcessed | Maze/src/main/java/misc/graphs/Graph.java:181 | `processed.add(smallV)` keeps the search invariant |
| ShortestPath.RelaxLowers | Maze/src/main/java/misc/graphs/Graph.java:186-189 | a relaxation changes only the neighbour's node; its distance does not rise and ends at most the tentative one; the node changes, taking `smallV` as predecessor, exactly when the tentative distance is strictly lower |
| ShortestPath.LoweredTrans | Maze/src/main/java/misc/graphs/Graph.java:180-190 | successive relaxations through `smallV` compose: every node stays or drops strictly with `smallV` as predecessor |
| ShortestPath.LoweredAtMost | Maze/src/main/java/misc/graphs/Graph.java:186-189 | such lowering never raises a distance |
| ShortestPath.RelaxDistances | Maze/src/main/java/misc/graphs/Graph.java:183-189 | a relaxation keeps distances non-negative, the start at 0, and "has a predecessor exactly when finite" |
| ShortestPath.RelaxFrontier | Maze/src/main/java/misc/graphs/Graph.java:183-189 | a relaxed neighbour is queued, so every vertex at finite distance stays accounted for |
| ShortestPath.RelaxSettled | Maze/src/main/java/misc/graphs/Graph.java:183-189 | lowering an unprocessed neighbour's distance keeps every settled entry settled |
| ShortestPath.RelaxPreds | Maze/src/main/java/misc/graphs/Graph.java:183-189 | a lowered neighbour gets the processed `smallV` as predecessor, realised by the entry used |
| ShortestPath.RelaxKeeps | Maze/src/main/java/misc/graphs/Graph.java:182-190 | relaxing an unprocessed neighbour keeps the search invariant and settles the entry |
| ShortestPath.ScanSkip | Maze/src/main/java/misc/graphs/Graph.java:180-182 | an entry whose neighbour is processed only marks `smallV`, and the scan invariant is kept |
| ShortestPath.ScanRelax | Maze/src/main/java/misc/graphs/Graph.java:180-190 | an entry whose neighbour is not processed queues and relaxes it, and the scan invariant is kept |
| ShortestPath.ScanEntry | Maze/src/main/java/misc/graphs/Graph.java:180-191 | one round of the bucket scan: `smallV` is appended to `processed`; a neighbour not yet processed is appended to the worklist and relaxed with `u.distance` plus the edge weight, otherwise nothing else changes; the scan invariant is kept |
| ShortestPath.ScanStart | Maze/src/main/java/misc/graphs/Graph.java:177-180 | the scan invariant holds before the first entry |
| ShortestPath.ScanEnd | Maze/src/main/java/misc/graphs/Graph.java:180-191 | after the last entry the search invariant holds again with no exemption |
| ShortestPath.ProcessVertex | Maze/src/main/java/misc/graphs/Graph.java:177-191 | keeps the search invariant; `processed` gains one copy of `smallV` per bucket entry; every path node stays or drops to a strictly lower distance with `smallV` as predecessor, so no distance rises; `smallV` becomes processed unless its bucket is empty; the worklist only grows, by vertices whose ids are not processed |
| ShortestPath.DrainedClosed | Maze/src/main/java/misc/graphs/Graph.java:175-192 | once the worklist is empty, the vertices at finite distance are closed under adjacency |
| ShortestPath.WalkFinite | Maze/src/main/java/misc/graphs/Graph.java:193-195 | in a closed set, a walk from a vertex at finite distance ends at finite distance |
| ShortestPath.CountAppend | Maze/src/main/java/misc/graphs/Graph.java:175 | the count of processed entries in a worklist adds up over concatenation |
| ShortestPath.CountFresh | Maze/src/main/java/misc/graphs/Graph.java:184 | vertices queued with unprocessed ids add nothing to the count |
| ShortestPath.CountRemove | Maze/src/main/java/misc/graphs/Graph.java:176 | removing an entry lowers the count by one exactly when its id is processed |
| ShortestPath.SearchStart | Maze/src/main/java/misc/graphs/Graph.java:167-175 | the initial nodes with only the start queued satisfy the search invariant |
| ShortestPath.PopKeeps | Maze/src/main/java/misc/graphs/Graph.java:176 | taking a vertex off the worklist keeps the invariant, with that vertex exempt until it is scanned |
| ShortestPath.Progress | Maze/src/main/java/misc/graphs/Graph.java:175-192 | every round lowers the measure (unprocessed ids, queued copies of processed ids, worklist length), so the loop terminates |
| ShortestPath.SearchLinked | Maze/src/main/java/misc/graphs/Graph.java:186-188 | at the end, every finite vertex other than the start has a predecessor, and each predecessor was processed earlier and has an entry naming it |
| ShortestPath.TraceReversed | Maze/src/main/java/misc/graphs/Graph.java:218-220 | reversing the collected edges and ids gives trace steps from the start towards the end |
| ShortestPath.Reverse | Maze/src/main/java/misc/graphs/Graph.java:218-220 | `dup` is `path` read from its last element to its first |
| ShortestPath.GenerateTrace | Maze/src/main/java/misc/graphs/Graph.java:201-222 | returns edges along a walk from the start id to the end id; each edge comes from the first entry of the predecessor's bucket that names the next vertex; the result is empty exactly when the end has no predecessor |
| ShortestPath.DrainedLabelled | Maze/src/main/java/misc/graphs/Graph.java:175-192 | the drained search state is `Labelled`: closed, with each predecessor link realised by an entry that no other entry naming the same vertex beats |
| ShortestPath.Search | Maze/src/main/java/misc/graphs/Graph.java:164-192 | from a known start, the loop terminates with labelled path nodes whose predecessor links lead back to the start |
| ShortestPath.Unreached | Maze/src/main/java/misc/graphs/Graph.java:193-195 | a vertex left at infinite distance is not reachable from the start |
| ShortestPath.TraceAlong | Maze/src/main/java/misc/graphs/Graph.java:205-216 | trace steps form a walk whose consecutive ids are joined by the collected input edges |
| ShortestPath.FindShortestPathBetween | Maze/src/main/java/misc/graphs/Graph.java:163-198 | an unknown start or end fails like the lookup does; otherwise the call succeeds exactly when the end is reachable (failing with `NoPathExists` otherwise); the path walks from start to end along input edges, following the predecessor links; start equal to end gives the empty path |
| ShortestPath.TraceBound | Maze/src/main/java/misc/graphs/Graph.java:201-222 | the trace weighs at least the end vertex's distance |
| ShortestPath.CheapestEntryTo | Maze/src/main/java/misc/graphs/Graph.java:208-214 | corrected scan: finds nothing exactly when no entry names `pid`; otherwise the first lightest entry naming it |
| ShortestPath.CheapTraceWeight | Maze/src/main/java/misc/graphs/Graph.java:201-222 | a trace of lightest entries weighs exactly the end vertex's distance |
| ShortestPath.GenerateCheapestTrace | Maze/src/main/java/misc/graphs/Graph.java:201-222 | corrected trace: a walk from start to end whose every step takes a lightest entry naming the next vertex |
| ShortestPath.CheapReversed | Maze/src/main/java/misc/graphs/Graph.java:218-220 | reversal for the corrected trace |
| ShortestPath.CheapAlong | Maze/src/main/java/misc/graphs/Graph.java:205-216 | the corrected trace walks along input edges |
| ShortestPath.DetourBuilt | Maze/src/main/java/misc/graphs/Graph.java:49-74 | the two-vertex graph with parallel edges of weights 5 and 1 is what the list constructor builds |
| ShortestPath.FirstEntryDetour | Maze/src/main/java/misc/graphs/Graph.java:208-213 | on that graph, the end gets distance 1 but the trace returns the weight-5 edge |
| ShortestPath.FindLightestPathBetween | Maze/src/main/java/misc/graphs/Graph.java:163-198 | `findShortestPathBetween` with the corrected trace: the same outcomes, and a returned path weighs exactly the end vertex's distance |

## Left out

- The `ISet` constructor and `setToList` (`Graph.java:81-94`): they copy a hash set into a list in an unspecified order. The model starts from the lists.
- The `ArrayHeap` priority queue is modelled as a multiset whose `RemoveMin` yields some edge of least weight. Which of several equally light edges comes out first is left open, so the model covers every tie-break.
- The hash dictionaries, the hash set and the linked lists (`ChainedHashDictionary`, `ChainedHashSet`, `DoubleLinkedList`) become Dafny maps, sequences and multisets.
- `findMinimumSpanningTree` returns a hash set. The model returns the selected edges as a sequence, in selection order.
- Weights and distances are `double` in the source and unbounded integers here. Rounding, NaN and overflow are not modelled. The infinite distance is the separate constructor `Inf`.
- `nextUniqueID` and array lengths are 32-bit `int`s in the source and unbounded here. Overflow after 2^31 registrations is not modelled.
- Exceptions become `Failure`/`Fail` values. `IllegalArgumentException` splits into `DuplicateItem`, `UnknownItem`, `SameComponent` and `InvalidEdge`. The dictionary's key-not-found error on an unknown start or end vertex is `UnknownVertex`.
- A failing constructor produces no graph at all, so the half-built adjacency of the Java object is not modelled.
- Path nodes are shared, mutable objects in the source and map entries updated by value here. Nothing else holds a reference to them, so aliasing plays no part.
- The ranks of the disjoint-set forest, the set of processed ids and the processing stamps of the search are ghost state. They exist only to state and prove the invariants.
- SpanningTree.FindMinimumSpanningTree: does not state that the result has minimum total weight. The model proves the Kruskal shape instead: a lightest-first order of the edges taken, `KruskalFilter` of that order, a forest, at most `|V| - 1` edges, and connection of every edge's endpoints. The cut-property argument for global optimality is not modelled.
- SpanningTree.FindMinimumSpanningTree: the disjoint-set forest is built after the edge heap is filled, while `Graph.java:123-128` builds it first. The two loops touch disjoint state, so the result is the same.
- ShortestPath.FindShortestPathBetween: does not state that the distances are shortest over all walks. The model proves the local facts and that the search reaches exactly the reachable vertices:
  - every predecessor link is realised by an entry of the predecessor's bucket that no other entry naming the same vertex beats;
  - the vertices at finite distance are closed under adjacency.
- ShortestPath.FindLightestPathBetween: as above, weight equals the computed distance, not a proved global minimum.

## Findings

| source | as written | input that shows it | evidently intended | confidence | as-written member | corrected member |
|---|---|---|---|---|---|---|
| Maze/src/main/java/misc/graphs/Graph.java:208-213 | the trace takes the first entry of the predecessor's bucket that names the current vertex | vertices `[1, 2]`, edges `[(1, 2, 5), (1, 2, 1)]`, path from 1 to 2 | take a lightest such entry, so the returned edges weigh the distance found, as the method's comment promises for a graph that may have parallel edges | not executed; follows from the proved contract of the search | ShortestPath.FirstEntryDetour | ShortestPath.GenerateCheapestTrace |
