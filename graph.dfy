/**
 * The weighted undirected graph: vertices get dense ids in list order, and an
 * adjacency map sends every id to its bucket of (neighbour id, neighbour,
 * edge) entries.  The graph never changes after it is built, so it is a value
 * here, produced by `NewGraph` (the list constructor).
 */
module Graphs {
  import opened Wrappers

  /** An undirected edge and its weight; the weight is an integer so that negative ones can be refused. */
  datatype Edge<V> = Edge(vertex1: V, vertex2: V, weight: int)

  /** An entry of a vertex's bucket (`ListNode`): the neighbour's id, the neighbour, the edge. */
  datatype ListNode<V> = ListNode(index: nat, vertex: V, edge: Edge<V>)

  datatype Graph<V> = Graph(
    rawVertices: seq<V>,
    rawEdges: seq<Edge<V>>,
    mapper: map<V, nat>,
    adjList: map<nat, seq<ListNode<V>>>)

  datatype GraphError = InvalidEdge

  /**
   * An edge the constructor accepts: both endpoints have ids (are listed
   * vertices, see `Mapper`) and the weight is not negative.
   */
  predicate ValidEdge<V(==)>(m: map<V, nat>, e: Edge<V>)
  {
    e.vertex1 in m && e.vertex2 in m && e.weight >= 0
  }

  predicate Distinct<V(==)>(s: seq<V>)
  {
    forall i, j :: 0 <= i < j < |s| ==> s[i] != s[j]
  }

  /**
   * The id map the constructor's first loop builds: position `i` is put
   * under id `i`, so a vertex listed twice keeps the id of its last position.
   */
  function Mapper<V(==)>(vs: seq<V>): (m: map<V, nat>)
    ensures m.Keys == set v | v in vs
    ensures forall v :: v in m ==> m[v] < |vs| && vs[m[v]] == v
  {
    if vs == [] then map[]
    else Mapper(vs[..|vs| - 1])[vs[|vs| - 1] := |vs| - 1]
  }

  /** A vertex listed more than once gets the id of its last position. */
  lemma {:induction false} MapperLast<V>(vs: seq<V>)
    ensures forall i :: 0 <= i < |vs| ==> vs[i] in Mapper(vs) && i <= Mapper(vs)[vs[i]]
  {
    if vs != [] {
      var pre := vs[..|vs| - 1];
      MapperLast(pre);
      forall i | 0 <= i < |vs| ensures vs[i] in Mapper(vs) && i <= Mapper(vs)[vs[i]] {
        if i < |vs| - 1 {
          assert vs[i] == pre[i];
        }
      }
    }
  }

  /** With no repeated vertex, the vertex at position `i` has id `i`, and ids are one-to-one. */
  lemma MapperPositions<V>(vs: seq<V>)
    ensures forall x, y :: x in Mapper(vs) && y in Mapper(vs) && x != y ==> Mapper(vs)[x] != Mapper(vs)[y]
    ensures Distinct(vs) ==> forall i :: 0 <= i < |vs| ==> Mapper(vs)[vs[i]] == i
  {
    var m := Mapper(vs);
    if Distinct(vs) {
      forall i | 0 <= i < |vs| ensures m[vs[i]] == i {
        assert vs[m[vs[i]]] == vs[i];
      }
    }
  }

  /** The buckets after one edge: the first endpoint's bucket gains the second endpoint, then vice versa. */
  function AddEdge<V(==)>(adj: map<nat, seq<ListNode<V>>>, m: map<V, nat>, e: Edge<V>): (r: map<nat, seq<ListNode<V>>>)
    ensures forall k :: k in r <==> k in adj
  {
    if e.vertex1 in m && e.vertex2 in m && m[e.vertex1] in adj && m[e.vertex2] in adj then
      var i1, i2 := m[e.vertex1], m[e.vertex2];
      var adj1 := adj[i1 := adj[i1] + [ListNode(m[e.vertex2], e.vertex2, e)]];
      adj1[i2 := adj1[i2] + [ListNode(m[e.vertex1], e.vertex1, e)]]
    else adj
  }

  /**
   * Adding an edge appends, and only appends: one entry to each endpoint's
   * bucket, so two to the bucket of a self-loop's vertex.
   */
  lemma AddEdgeBuckets<V>(adj: map<nat, seq<ListNode<V>>>, m: map<V, nat>, e: Edge<V>, k: nat)
    requires e.vertex1 in m && e.vertex2 in m && m[e.vertex1] in adj && m[e.vertex2] in adj
    requires k in adj
    ensures |AddEdge(adj, m, e)[k]| == |adj[k]| + (if k == m[e.vertex1] then 1 else 0) + (if k == m[e.vertex2] then 1 else 0)
    ensures AddEdge(adj, m, e)[k][..|adj[k]|] == adj[k]
  {
  }

  /** Every endpoint of every edge has an id below `n`. */
  ghost predicate EndpointsBelow<V>(m: map<V, nat>, n: nat, es: seq<Edge<V>>)
  {
    forall j :: 0 <= j < |es| ==>
      es[j].vertex1 in m && es[j].vertex2 in m && m[es[j].vertex1] < n && m[es[j].vertex2] < n
  }

  /** `n` empty buckets, under the ids `0 .. n-1`. */
  function EmptyBuckets<V>(n: nat): (adj: map<nat, seq<ListNode<V>>>)
    ensures forall k :: k in adj <==> 0 <= k < n
    ensures forall k :: k in adj ==> adj[k] == []
  {
    if n == 0 then map[] else EmptyBuckets(n - 1)[n - 1 := []]
  }

  /** The buckets after the constructor's second loop has handled the first `j` edges of `es`. */
  ghost function Adjacency<V>(m: map<V, nat>, n: nat, es: seq<Edge<V>>, j: nat): (adj: map<nat, seq<ListNode<V>>>)
    requires j <= |es|
    ensures forall k :: k in adj <==> 0 <= k < n
  {
    if j == 0 then EmptyBuckets(n)
    else AddEdge(Adjacency(m, n, es, j - 1), m, es[j - 1])
  }

  /** The graph the list constructor builds from `vertices` and `edges`. */
  ghost function Built<V>(vertices: seq<V>, edges: seq<Edge<V>>): Graph<V>
  {
    Graph(vertices, edges, Mapper(vertices), Adjacency(Mapper(vertices), |vertices|, edges, |edges|))
  }

  /** What every successfully constructed graph satisfies. */
  ghost predicate WellFormed<V>(g: Graph<V>)
  {
    && g == Built(g.rawVertices, g.rawEdges)
    && (forall j :: 0 <= j < |g.rawEdges| ==> ValidEdge(g.mapper, g.rawEdges[j]))
  }

  /**
   * An entry of bucket `k` names a neighbour by its id and carries an input
   * edge that joins the vertex of id `k` to that neighbour.
   */
  ghost predicate EntryOk<V>(m: map<V, nat>, es: seq<Edge<V>>, k: nat, en: ListNode<V>)
  {
    && en.vertex in m && en.index == m[en.vertex]
    && en.edge in es
    && ((en.edge.vertex1 in m && m[en.edge.vertex1] == k && en.edge.vertex2 == en.vertex) ||
        (en.edge.vertex2 in m && m[en.edge.vertex2] == k && en.edge.vertex1 == en.vertex))
  }

  /** Each bucket holds only well-formed entries. */
  lemma {:induction false} AdjacencySound<V>(m: map<V, nat>, n: nat, es: seq<Edge<V>>, j: nat)
    requires EndpointsBelow(m, n, es) && j <= |es|
    ensures forall k, i :: 0 <= k < n && 0 <= i < |Adjacency(m, n, es, j)[k]| ==>
              EntryOk(m, es, k, Adjacency(m, n, es, j)[k][i])
  {
    if j > 0 {
      AdjacencySound(m, n, es, j - 1);
      var adj0, adj, e := Adjacency(m, n, es, j - 1), Adjacency(m, n, es, j), es[j - 1];
      forall k, i | 0 <= k < n && 0 <= i < |adj[k]| ensures EntryOk(m, es, k, adj[k][i]) {
        AddEdgeBuckets(adj0, m, e, k);
        if i < |adj0[k]| {
          assert adj[k][i] == adj[k][..|adj0[k]|][i] == adj0[k][i];
        }
      }
    }
  }

  /** Each edge is found in both endpoints' buckets, naming the other endpoint (a self-loop twice in one bucket). */
  lemma {:induction false} AdjacencyComplete<V>(m: map<V, nat>, n: nat, es: seq<Edge<V>>, j: nat)
    requires EndpointsBelow(m, n, es) && j <= |es|
    ensures forall i :: 0 <= i < j ==>
              var e := es[i];
              && ListNode(m[e.vertex2], e.vertex2, e) in Adjacency(m, n, es, j)[m[e.vertex1]]
              && ListNode(m[e.vertex1], e.vertex1, e) in Adjacency(m, n, es, j)[m[e.vertex2]]
  {
    if j > 0 {
      AdjacencyComplete(m, n, es, j - 1);
      var adj0, adj, e := Adjacency(m, n, es, j - 1), Adjacency(m, n, es, j), es[j - 1];
      forall k, x | 0 <= k < n && x in adj0[k] ensures x in adj[k] {
        AddEdgeBuckets(adj0, m, e, k);
        assert adj[k][..|adj0[k]|] == adj0[k];
      }
    }
  }

  /** The total number of bucket entries over the ids `0 .. n-1`. */
  ghost function BucketTotal<V>(adj: map<nat, seq<ListNode<V>>>, n: nat): nat
    requires forall k :: 0 <= k < n ==> k in adj
  {
    if n == 0 then 0 else BucketTotal(adj, n - 1) + |adj[n - 1]|
  }

  lemma {:induction false} AddEdgeTotal<V>(adj: map<nat, seq<ListNode<V>>>, m: map<V, nat>, e: Edge<V>, n: nat)
    requires e.vertex1 in m && e.vertex2 in m && m[e.vertex1] in adj && m[e.vertex2] in adj
    requires forall k :: 0 <= k < n ==> k in adj
    ensures BucketTotal(AddEdge(adj, m, e), n) ==
              BucketTotal(adj, n) + (if m[e.vertex1] < n then 1 else 0) + (if m[e.vertex2] < n then 1 else 0)
  {
    if n > 0 {
      AddEdgeTotal(adj, m, e, n - 1);
      AddEdgeBuckets(adj, m, e, n - 1);
    }
  }

  /** Every edge contributes two bucket entries: after `j` edges the buckets hold `2 * j` entries in all. */
  lemma {:induction false} AdjacencyTotal<V>(m: map<V, nat>, n: nat, es: seq<Edge<V>>, j: nat)
    requires EndpointsBelow(m, n, es) && j <= |es|
    ensures BucketTotal(Adjacency(m, n, es, j), n) == 2 * j
  {
    if j == 0 {
      EmptyTotal<V>(n, n);
    } else {
      AdjacencyTotal(m, n, es, j - 1);
      AddEdgeTotal(Adjacency(m, n, es, j - 1), m, es[j - 1], n);
    }
  }

  /** The endpoints of every edge of a constructed graph are listed vertices. */
  lemma EdgesListed<V>(g: Graph<V>)
    requires WellFormed(g)
    ensures forall j :: 0 <= j < |g.rawEdges| ==> g.rawEdges[j].vertex1 in g.rawVertices && g.rawEdges[j].vertex2 in g.rawVertices
  {
    forall j | 0 <= j < |g.rawEdges| ensures g.rawEdges[j].vertex1 in g.rawVertices && g.rawEdges[j].vertex2 in g.rawVertices {
      assert ValidEdge(g.mapper, g.rawEdges[j]);
      assert g.rawEdges[j].vertex1 in g.mapper.Keys && g.rawEdges[j].vertex2 in g.mapper.Keys;
    }
  }

  /** The facts about a constructed graph that the algorithms rely on. */
  lemma GraphFacts<V>(g: Graph<V>)
    requires WellFormed(g)
    ensures EndpointsBelow(g.mapper, |g.rawVertices|, g.rawEdges)
    ensures forall v :: v in g.mapper ==> g.mapper[v] in g.adjList
    ensures forall k, i :: k in g.adjList && 0 <= i < |g.adjList[k]| ==> EntryOk(g.mapper, g.rawEdges, k, g.adjList[k][i])
    ensures forall i :: 0 <= i < |g.rawEdges| ==>
              var e := g.rawEdges[i];
              && ListNode(g.mapper[e.vertex2], e.vertex2, e) in g.adjList[g.mapper[e.vertex1]]
              && ListNode(g.mapper[e.vertex1], e.vertex1, e) in g.adjList[g.mapper[e.vertex2]]
  {
    var m, n, es := g.mapper, |g.rawVertices|, g.rawEdges;
    AdjacencySound(m, n, es, |es|);
    AdjacencyComplete(m, n, es, |es|);
  }

  lemma {:induction false} EmptyTotal<V>(n: nat, k: nat)
    requires k <= n
    ensures BucketTotal(EmptyBuckets<V>(n), k) == 0
  {
    if k > 0 {
      EmptyTotal<V>(n, k - 1);
    }
  }

  /** The number of distinct items of a sequence is at most its length, and equal exactly when none repeats. */
  lemma {:induction false} DistinctCount<V>(s: seq<V>)
    ensures |set v | v in s| <= |s|
    ensures |set v | v in s| == |s| <==> Distinct(s)
  {
    if s != [] {
      var pre, x := s[..|s| - 1], s[|s| - 1];
      DistinctCount(pre);
      assert (set v | v in s) == (set v | v in pre) + {x} by {
        assert s == pre + [x];
      }
      if x in pre {
        assert !Distinct(s) by {
          var i :| 0 <= i < |pre| && pre[i] == x;
          assert s[i] == s[|s| - 1];
        }
      } else {
        assert Distinct(s) <==> Distinct(pre) by {
          if Distinct(pre) {
            forall i, j | 0 <= i < j < |s| ensures s[i] != s[j] {
              if j < |s| - 1 {
                assert s[i] == pre[i] && s[j] == pre[j];
              } else {
                assert s[i] == pre[i];
              }
            }
          }
          if Distinct(s) {
            forall i, j | 0 <= i < j < |pre| ensures pre[i] != pre[j] {
              assert s[i] == pre[i] && s[j] == pre[j];
            }
          }
        }
      }
    }
  }

  /** The constructor's first loop: ids in list order and one empty bucket per position. */
  method AssignIds<V(==)>(vertices: seq<V>) returns (mapper: map<V, nat>, adjList: map<nat, seq<ListNode<V>>>)
    ensures mapper == Mapper(vertices)
    ensures adjList == EmptyBuckets(|vertices|)
  {
    var curID := 0;
    mapper, adjList := map[], map[];
    for i := 0 to |vertices|
      invariant curID == i
      invariant mapper == Mapper(vertices[..i])
      invariant adjList == EmptyBuckets(i)
    {
      assert vertices[..i + 1][..i] == vertices[..i];
      mapper := mapper[vertices[i] := curID];
      adjList := adjList[i := []];
      curID := curID + 1;
    }
    assert vertices[..|vertices|] == vertices;
  }

  /**
   * The list constructor: ids in list order, then both buckets of every
   * edge, refusing an edge with an unlisted endpoint or a negative weight.
   */
  method NewGraph<V(==)>(vertices: seq<V>, edges: seq<Edge<V>>) returns (r: Result<Graph<V>, GraphError>)
    ensures r.Success? <==> forall j :: 0 <= j < |edges| ==> ValidEdge(Mapper(vertices), edges[j])
    ensures r.Failure? ==> r.error == InvalidEdge
    ensures r.Success? ==> r.value == Built(vertices, edges) && WellFormed(r.value)
  {
    var mapper, adjList := AssignIds(vertices);
    ghost var n := |vertices|;
    for j := 0 to |edges|
      invariant forall j' :: 0 <= j' < j ==> ValidEdge(mapper, edges[j'])
      invariant adjList == Adjacency(mapper, n, edges, j)
    {
      var vertexOne := edges[j].vertex1;
      var vertexTwo := edges[j].vertex2;
      var weight := edges[j].weight;
      if vertexOne !in mapper || vertexTwo !in mapper || weight < 0 {
        return Failure(InvalidEdge);
      }
      ghost var before := adjList;
      var indexOne := mapper[vertexOne];
      adjList := adjList[indexOne := adjList[indexOne] + [ListNode(mapper[vertexTwo], vertexTwo, edges[j])]];
      var indexTwo := mapper[vertexTwo];
      adjList := adjList[indexTwo := adjList[indexTwo] + [ListNode(mapper[vertexOne], vertexOne, edges[j])]];
      assert adjList == AddEdge(before, mapper, edges[j]);
    }
    r := Success(Graph(vertices, edges, mapper, adjList));
  }

  /**
   * The number of listed vertices: never below the number of distinct
   * vertices, and equal to it exactly when no vertex is listed twice.
   */
  function NumVertices<V(==)>(g: Graph<V>): (r: nat)
    ensures WellFormed(g) ==> r >= |g.mapper| && (r == |g.mapper| <==> Distinct(g.rawVertices))
  {
    DistinctCount(g.rawVertices);
    assert WellFormed(g) ==> |g.mapper| == |g.mapper.Keys|;
    |g.rawVertices|
  }

  /** The number of input edges: half the number of bucket entries. */
  function NumEdges<V(==)>(g: Graph<V>): (r: nat)
    ensures WellFormed(g) ==> 2 * r == BucketTotal(g.adjList, |g.rawVertices|)
  {
    EdgeTotal(g);
    |g.rawEdges|
  }

  lemma EdgeTotal<V>(g: Graph<V>)
    ensures WellFormed(g) ==> 2 * |g.rawEdges| == BucketTotal(g.adjList, |g.rawVertices|)
  {
    if WellFormed(g) {
      AdjacencyTotal(g.mapper, |g.rawVertices|, g.rawEdges, |g.rawEdges|);
    }
  }
}
