/**
 * Kruskal's minimum-spanning-tree loop (`findMinimumSpanningTree`): every
 * vertex becomes a singleton set of a disjoint-set forest, all edges go into
 * a priority queue, and the loop takes the lightest edge, keeping it when its
 * endpoints lie in different sets, until the queue is empty or `|V| - 1`
 * edges are kept.
 */
module SpanningTree {
  import opened Wrappers
  import opened Graphs
  import opened Components
  import opened DisjointSet

  /** The weights of `cs` never decrease. */
  predicate SortedByWeight<V>(cs: seq<Edge<V>>)
  {
    forall i, j :: 0 <= i < j < |cs| ==> cs[i].weight <= cs[j].weight
  }

  /** `e` weighs no more than any edge of `heap`. */
  predicate IsLightest<V(==)>(e: Edge<V>, heap: multiset<Edge<V>>)
  {
    forall x :: x in heap ==> e.weight <= x.weight
  }

  lemma {:induction false} LightestExists<V>(heap: multiset<Edge<V>>)
    requires heap != multiset{}
    ensures exists e :: e in heap && IsLightest(e, heap)
    decreases |heap|
  {
    var y :| y in heap;
    var rest := heap - multiset{y};
    if rest == multiset{} {
      assert IsLightest(y, heap) by {
        forall x | x in heap ensures y.weight <= x.weight {
          assert x == y || x in rest;
        }
      }
    } else {
      LightestExists(rest);
      var m :| m in rest && IsLightest(m, rest);
      var best := if m.weight <= y.weight then m else y;
      assert IsLightest(best, heap) by {
        forall x | x in heap ensures best.weight <= x.weight {
          assert x == y || x in rest;
        }
      }
    }
  }

  /**
   * The priority queue's `removeMin`, on the queue's contents as a multiset:
   * one lightest edge comes out and the rest stays.
   */
  method RemoveMin<V(==)>(heap: multiset<Edge<V>>) returns (e: Edge<V>, rest: multiset<Edge<V>>)
    requires heap != multiset{}
    ensures e in heap && IsLightest(e, heap)
    ensures rest == heap - multiset{e} && |rest| == |heap| - 1
  {
    LightestExists(heap);
    e :| e in heap && IsLightest(e, heap);
    rest := heap - multiset{e};
  }

  /**
   * The state of the main loop: `considered` holds the edges taken from the
   * queue so far, in order of weight and none heavier than an edge still in
   * the queue, and `result` is Kruskal's selection from them.
   */
  ghost predicate KruskalState<V>(edges: seq<Edge<V>>, considered: seq<Edge<V>>, heap: multiset<Edge<V>>, result: seq<Edge<V>>)
  {
    && multiset(considered) + heap == multiset(edges)
    && SortedByWeight(considered)
    && (forall i, x :: 0 <= i < |considered| && x in heap ==> considered[i].weight <= x.weight)
    && result == KruskalFilter(considered)
  }

  /** Taking the lightest edge from the queue keeps the loop state. */
  lemma KruskalStep<V>(edges: seq<Edge<V>>, considered: seq<Edge<V>>, heap: multiset<Edge<V>>, result: seq<Edge<V>>, e: Edge<V>)
    requires KruskalState(edges, considered, heap, result)
    requires e in heap && IsLightest(e, heap)
    ensures KruskalState(edges, considered + [e], heap - multiset{e},
                         if Connected(result, e.vertex1, e.vertex2) then result else result + [e])
  {
    var cs := considered + [e];
    assert cs[..|considered|] == considered;
    assert multiset(cs) + (heap - multiset{e}) == multiset(edges);
    forall i, x | 0 <= i < |cs| && x in heap - multiset{e} ensures cs[i].weight <= x.weight {
      if i < |considered| {
        assert cs[i] == considered[i];
      }
    }
  }

  /** Edges taken from the input list join listed vertices. */
  lemma EdgesWithin<V>(g: Graph<V>, es: seq<Edge<V>>)
    requires WellFormed(g) && multiset(es) <= multiset(g.rawEdges)
    ensures Within(es, set v | v in g.rawVertices)
  {
    EdgesListed(g);
    forall i | 0 <= i < |es| ensures es[i].vertex1 in g.rawVertices && es[i].vertex2 in g.rawVertices {
      assert es[i] in multiset(es);
      var j :| 0 <= j < |g.rawEdges| && g.rawEdges[j] == es[i];
    }
  }

  /**
   * What the spanning tree loop delivers: `considered` is a lightest-first
   * prefix of the input edges in some order of weight, `result` is Kruskal's
   * selection from it, and that selection is a forest of input edges with
   * at most `|V| - 1` edges that joins the endpoints of every input edge.
   */
  ghost predicate KruskalOutcome<V>(g: Graph<V>, considered: seq<Edge<V>>, result: seq<Edge<V>>)
  {
    && SortedByWeight(considered)
    && multiset(considered) <= multiset(g.rawEdges)
    && (forall i, x :: 0 <= i < |considered| && x in multiset(g.rawEdges) - multiset(considered) ==>
          considered[i].weight <= x.weight)
    && result == KruskalFilter(considered)
    && Acyclic(result)
    && multiset(result) <= multiset(g.rawEdges)
    && (forall j :: 0 <= j < |g.rawEdges| ==> Connected(result, g.rawEdges[j].vertex1, g.rawEdges[j].vertex2))
    && (if |g.rawVertices| == 0 then result == [] else |result| <= |g.rawVertices| - 1)
  }

  /**
   * When the queue is empty, or when `|V| - 1` edges are kept, the loop has
   * delivered what `KruskalOutcome` describes.
   */
  lemma KruskalDone<V>(g: Graph<V>, considered: seq<Edge<V>>, heap: multiset<Edge<V>>, result: seq<Edge<V>>)
    requires WellFormed(g) && Distinct(g.rawVertices)
    requires KruskalState(g.rawEdges, considered, heap, result)
    requires heap == multiset{} || |result| >= |g.rawVertices| - 1
    ensures KruskalOutcome(g, considered, result)
  {
    KruskalAcyclic(considered);
    KruskalSubset(considered);
    assert heap == multiset(g.rawEdges) - multiset(considered);
    SelectionBound(g, result);
    SelectionSpans(g, considered, heap, result);
  }

  /** A forest of input edges has no edge over no vertices, and fewer edges than vertices otherwise. */
  lemma SelectionBound<V>(g: Graph<V>, result: seq<Edge<V>>)
    requires WellFormed(g) && Distinct(g.rawVertices)
    requires Acyclic(result) && multiset(result) <= multiset(g.rawEdges)
    ensures if |g.rawVertices| == 0 then result == [] else |result| <= |g.rawVertices| - 1
  {
    var s := set v | v in g.rawVertices;
    EdgesWithin(g, result);
    DistinctCount(g.rawVertices);
    if |g.rawVertices| == 0 {
      EmptyForest(result, s);
    } else {
      assert g.rawVertices[0] in s;
      ForestBound(result, s);
    }
  }

  /**
   * The selection joins the endpoints of every input edge: when the queue
   * ran empty every edge was considered, and when `|V| - 1` edges were kept
   * they connect all vertices.
   */
  lemma SelectionSpans<V>(g: Graph<V>, considered: seq<Edge<V>>, heap: multiset<Edge<V>>, result: seq<Edge<V>>)
    requires WellFormed(g) && Distinct(g.rawVertices)
    requires result == KruskalFilter(considered) && Acyclic(result) && multiset(result) <= multiset(g.rawEdges)
    requires multiset(considered) + heap == multiset(g.rawEdges)
    requires heap == multiset{} || |result| >= |g.rawVertices| - 1
    ensures forall j :: 0 <= j < |g.rawEdges| ==> Connected(result, g.rawEdges[j].vertex1, g.rawEdges[j].vertex2)
  {
    if heap == multiset{} {
      DrainedSpans(g, considered);
    } else if |g.rawEdges| > 0 {
      var s := set v | v in g.rawVertices;
      EdgesWithin(g, result);
      EdgesWithin(g, g.rawEdges);
      DistinctCount(g.rawVertices);
      assert g.rawEdges[0].vertex1 in s;
      ForestBound(result, s);
      forall j | 0 <= j < |g.rawEdges| ensures Connected(result, g.rawEdges[j].vertex1, g.rawEdges[j].vertex2) {
        assert g.rawEdges[j].vertex1 in s && g.rawEdges[j].vertex2 in s;
      }
    }
  }

  lemma EmptyForest<V>(es: seq<Edge<V>>, s: set<V>)
    requires Within(es, s)
    ensures s == {} ==> es == []
  {
    if es != [] {
      assert es[0].vertex1 in s;
    }
  }

  /** Once every input edge was taken from the queue, the selection joins the endpoints of each. */
  lemma DrainedSpans<V>(g: Graph<V>, considered: seq<Edge<V>>)
    requires multiset(considered) == multiset(g.rawEdges)
    ensures forall j :: 0 <= j < |g.rawEdges| ==>
              Connected(KruskalFilter(considered), g.rawEdges[j].vertex1, g.rawEdges[j].vertex2)
  {
    KruskalSpans(considered);
    forall j | 0 <= j < |g.rawEdges|
      ensures Connected(KruskalFilter(considered), g.rawEdges[j].vertex1, g.rawEdges[j].vertex2)
    {
      assert g.rawEdges[j] in multiset(considered);
      var i :| 0 <= i < |considered| && considered[i] == g.rawEdges[j];
    }
  }

  /** The forest's partition as a map from items to representatives. */
  ghost function Reps<V>(forest: ArrayDisjointSet<V>): (r: map<V, int>)
    reads forest, forest.Repr
    requires forest.Valid()
    ensures r.Keys == forest.indexSet.Keys
    ensures forall x :: x in r ==> r[x] == forest.Rep(x)
  {
    map x | x in forest.indexSet :: forest.Rep(x)
  }

  /** Two items share a representative in `r` exactly when `result` connects them. */
  ghost predicate Splits<V>(r: map<V, int>, result: seq<Edge<V>>)
  {
    forall x, y :: x in r && y in r ==> (r[x] == r[y] <==> Connected(result, x, y))
  }

  /** The sets of the forest are the components of `result`. */
  ghost predicate Partitions<V>(forest: ArrayDisjointSet<V>, result: seq<Edge<V>>)
    reads forest, forest.Repr
  {
    forest.Valid() && Splits(Reps(forest), result)
  }

  /** Representatives that differ from item to item are the partition of no edges at all. */
  lemma SingletonsSplit<V>(r: map<V, int>)
    requires forall x, y :: x in r && y in r && x != y ==> r[x] != r[y]
    ensures Splits(r, [])
  {
  }

  /** Renaming nothing keeps the partition. */
  lemma SplitsSame<V>(r0: map<V, int>, r1: map<V, int>, result: seq<Edge<V>>)
    requires Splits(r0, result) && r1.Keys == r0.Keys
    requires forall x :: x in r1 ==> r1[x] == r0[x]
    ensures Splits(r1, result)
  {
  }

  /**
   * A union that sends both representatives to one of them, and nothing
   * else, turns the partition of `result` into that of `result + [e]`.
   */
  lemma PartitionStep<V>(r0: map<V, int>, r1: map<V, int>, result: seq<Edge<V>>, e: Edge<V>)
    requires Splits(r0, result)
    requires r1.Keys == r0.Keys && e.vertex1 in r0 && e.vertex2 in r0
    requires r0[e.vertex1] != r0[e.vertex2]
    requires r1[e.vertex1] == r0[e.vertex1] || r1[e.vertex1] == r0[e.vertex2]
    requires forall x :: x in r0 ==>
               r1[x] == if r0[x] == r0[e.vertex1] || r0[x] == r0[e.vertex2] then r1[e.vertex1] else r0[x]
    ensures Splits(r1, result + [e])
  {
    forall x, y | x in r1 && y in r1 ensures r1[x] == r1[y] <==> Connected(result + [e], x, y) {
      ConnectedAfterJoin(result, e, x, y);
    }
  }

  /**
   * The body of the spanning tree loop on the forest: `findSet` on both
   * endpoints and, when the sets differ, `union`.  The edge is joined exactly
   * when its endpoints are apart in `result`, and the forest then
   * partitions like `result + [edge]`.
   */
  method JoinIfApart<V(==)>(forest: ArrayDisjointSet<V>, edge: Edge<V>, ghost result: seq<Edge<V>>) returns (joined: bool)
    requires Partitions(forest, result)
    requires edge.vertex1 in forest.indexSet && edge.vertex2 in forest.indexSet
    modifies forest.Repr
    ensures forest.Repr == old(forest.Repr) && forest.indexSet == old(forest.indexSet)
    ensures joined <==> !Connected(result, edge.vertex1, edge.vertex2)
    ensures Partitions(forest, if joined then result + [edge] else result)
  {
    ghost var r0 := Reps(forest);
    var setOne := forest.FindSet(edge.vertex1);
    var setTwo := forest.FindSet(edge.vertex2);
    ghost var r := Reps(forest);
    SplitsSame(r0, r, result);
    joined := setOne != setTwo;
    if joined {
      var merged := forest.Union(edge.vertex1, edge.vertex2);
      PartitionStep(r, Reps(forest), result, edge);
    }
  }

  /** A vertex met again among the ones before it is listed twice. */
  lemma PrefixRepeat<V>(vs: seq<V>, i: nat)
    requires i < |vs| && vs[i] in vs[..i]
    ensures !Distinct(vs)
  {
    var k :| 0 <= k < i && vs[..i][k] == vs[i];
    assert vs[k] == vs[i];
  }

  /** Growing a repetition-free prefix by a new vertex keeps it free of repetitions. */
  lemma PrefixGrow<V>(vs: seq<V>, i: nat)
    requires i < |vs| && Distinct(vs[..i]) && vs[i] !in vs[..i]
    ensures Distinct(vs[..i + 1])
    ensures forall v :: v in vs[..i + 1] <==> v in vs[..i] || v == vs[i]
  {
    var s, x := vs[..i], vs[i];
    assert vs[..i + 1] == s + [x];
    forall k, l | 0 <= k < l < |s| + 1 ensures (s + [x])[k] != (s + [x])[l] {
      if l == |s| {
        assert (s + [x])[k] == s[k];
      } else {
        assert (s + [x])[k] == s[k] && (s + [x])[l] == s[l];
      }
    }
  }

  /**
   * The first loop of the spanning tree method: `makeSet` on every listed
   * vertex, failing on the first vertex listed twice.  On success each
   * vertex is a singleton set.
   */
  method MakeSets<V(==)>(forest: ArrayDisjointSet<V>, vs: seq<V>) returns (res: Outcome<SetError>)
    requires forest.Valid() && forest.indexSet == map[]
    modifies forest.Repr
    ensures forest.Valid() && fresh(forest.Repr - old(forest.Repr))
    ensures res.Pass? <==> Distinct(vs)
    ensures res.Fail? ==> res.error == DuplicateItem
    ensures res.Pass? ==> (forall v :: v in forest.indexSet <==> v in vs) && Partitions(forest, [])
  {
    for i := 0 to |vs|
      invariant forest.Valid() && fresh(forest.Repr - old(forest.Repr))
      invariant forall v :: v in forest.indexSet <==> v in vs[..i]
      invariant forall x :: x in forest.indexSet ==> forest.Rep(x) == forest.indexSet[x]
      invariant Distinct(vs[..i])
    {
      var made := forest.MakeSet(vs[i]);
      if made.Fail? {
        PrefixRepeat(vs, i);
        return made;
      }
      PrefixGrow(vs, i);
    }
    assert vs[..|vs|] == vs;
    SingletonsSplit(Reps(forest));
    res := Pass;
  }

  /** The second loop of the spanning tree method: every edge is inserted into the queue. */
  method FillHeap<V(==)>(edges: seq<Edge<V>>) returns (edgeHeap: multiset<Edge<V>>)
    ensures edgeHeap == multiset(edges)
  {
    edgeHeap := multiset{};
    for j := 0 to |edges|
      invariant edgeHeap == multiset(edges[..j])
    {
      assert edges[..j + 1] == edges[..j] + [edges[j]];
      edgeHeap := edgeHeap + multiset{edges[j]};
    }
    assert edges[..|edges|] == edges;
  }

  /** Every edge of `edges` joins two items of the forest. */
  ghost predicate EndpointsIn<V>(edges: seq<Edge<V>>, ids: map<V, int>)
  {
    forall j :: 0 <= j < |edges| ==> edges[j].vertex1 in ids && edges[j].vertex2 in ids
  }

  /** The invariant of the main loop: Kruskal's state, mirrored by the forest. */
  ghost predicate LoopState<V>(forest: ArrayDisjointSet<V>, edges: seq<Edge<V>>, considered: seq<Edge<V>>,
                               heap: multiset<Edge<V>>, result: seq<Edge<V>>)
    reads forest, forest.Repr
  {
    && Partitions(forest, result)
    && EndpointsIn(edges, forest.indexSet)
    && KruskalState(edges, considered, heap, result)
  }

  /**
   * One round of the main loop: the lightest edge leaves the queue and is
   * joined exactly when its endpoints are still apart.
   */
  method TakeEdge<V(==)>(forest: ArrayDisjointSet<V>, heap: multiset<Edge<V>>, ghost edges: seq<Edge<V>>,
                         ghost considered: seq<Edge<V>>, ghost result: seq<Edge<V>>)
    returns (edge: Edge<V>, rest: multiset<Edge<V>>, joined: bool)
    requires heap != multiset{} && LoopState(forest, edges, considered, heap, result)
    modifies forest.Repr
    ensures forest.Repr == old(forest.Repr) && |rest| == |heap| - 1
    ensures joined <==> !Connected(result, edge.vertex1, edge.vertex2)
    ensures LoopState(forest, edges, considered + [edge], rest, if joined then result + [edge] else result)
  {
    edge, rest := RemoveMin(heap);
    KruskalStep(edges, considered, heap, result, edge);
    assert edge.vertex1 in forest.indexSet && edge.vertex2 in forest.indexSet by {
      assert edge in multiset(edges);
      var j :| 0 <= j < |edges| && edges[j] == edge;
    }
    joined := JoinIfApart(forest, edge, result);
  }

  /** With every vertex a singleton set and every edge queued, the main loop can start. */
  lemma LoopStart<V>(g: Graph<V>, forest: ArrayDisjointSet<V>, heap: multiset<Edge<V>>)
    requires Listed(g) && Partitions(forest, [])
    requires forall v :: v in forest.indexSet <==> v in g.rawVertices
    requires heap == multiset(g.rawEdges)
    ensures LoopState(forest, g.rawEdges, [], heap, [])
  {
    assert KruskalFilter<V>([]) == [];
  }

  /** Both endpoints of every edge are listed vertices (true of every constructed graph, by `EdgesListed`). */
  ghost predicate Listed<V>(g: Graph<V>)
  {
    forall j :: 0 <= j < |g.rawEdges| ==> g.rawEdges[j].vertex1 in g.rawVertices && g.rawEdges[j].vertex2 in g.rawVertices
  }

  /**
   * The first loop of the spanning tree method on a fresh forest: every
   * vertex becomes a singleton set, and with the queue `heap` holding every
   * edge the main loop can start.
   */
  method NewForest<V(==)>(g: Graph<V>, ghost heap: multiset<Edge<V>>) returns (forest: ArrayDisjointSet<V>, made: Outcome<SetError>)
    requires Listed(g) && heap == multiset(g.rawEdges)
    ensures fresh(forest.Repr)
    ensures made.Pass? <==> Distinct(g.rawVertices)
    ensures made.Fail? ==> made.error == DuplicateItem
    ensures made.Pass? ==> LoopState(forest, g.rawEdges, [], heap, [])
  {
    forest := new ArrayDisjointSet<V>();
    made := MakeSets(forest, g.rawVertices);
    if made.Pass? {
      LoopStart(g, forest, heap);
    }
  }

  /**
   * The main loop of the spanning tree method: edges leave the queue
   * lightest first, and the loop stops when the queue is empty or once
   * `n - 1` edges are kept.
   */
  method KruskalLoop<V(==)>(forest: ArrayDisjointSet<V>, heap: multiset<Edge<V>>, ghost edges: seq<Edge<V>>, n: int)
    returns (result: seq<Edge<V>>, ghost considered: seq<Edge<V>>, ghost left: multiset<Edge<V>>)
    requires LoopState(forest, edges, [], heap, [])
    modifies forest.Repr
    ensures KruskalState(edges, considered, left, result)
    ensures left == multiset{} || |result| >= n - 1
  {
    var convertedEdges := 0;
    var edgeHeap := heap;
    result, considered := [], [];
    while edgeHeap != multiset{}
      invariant forest.Repr == old(forest.Repr) && LoopState(forest, edges, considered, edgeHeap, result)
      invariant convertedEdges == |result|
      decreases |edgeHeap|
    {
      var edge, joined;
      edge, edgeHeap, joined := TakeEdge(forest, edgeHeap, edges, considered, result);
      considered := considered + [edge];
      if joined {
        result := result + [edge];
        convertedEdges := convertedEdges + 1;
        if convertedEdges >= n - 1 {
          break;
        }
      }
    }
    left := edgeHeap;
  }

  /**
   * The minimum spanning tree method.  It fails exactly when a vertex is
   * listed twice (`makeSet` refuses it); otherwise it delivers what
   * `KruskalOutcome` describes, with `considered` the order in which the
   * queue gave out edges.
   */
  method FindMinimumSpanningTree<V(==)>(g: Graph<V>) returns (res: Result<seq<Edge<V>>, SetError>, ghost considered: seq<Edge<V>>)
    requires WellFormed(g)
    ensures res.Failure? <==> !Distinct(g.rawVertices)
    ensures res.Failure? ==> res.error == DuplicateItem
    ensures res.Success? ==> KruskalOutcome(g, considered, res.value)
  {
    considered := [];
    var edgeHeap := FillHeap(g.rawEdges);
    EdgesListed(g);
    var forest, made := NewForest(g, edgeHeap);
    if made.Fail? {
      return Failure(made.error), considered;
    }
    var result;
    ghost var left: multiset<Edge<V>>;
    result, considered, left := KruskalLoop(forest, edgeHeap, g.rawEdges, |g.rawVertices|);
    KruskalDone(g, considered, left, result);
    res := Success(result);
  }
}
