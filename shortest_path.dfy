/**
 * The shortest-path search (`findShortestPathBetween`): every vertex gets a
 * path node holding a tentative distance and a predecessor, a worklist of
 * vertices is drained by repeatedly removing one of lowest distance, and
 * every bucket entry of the removed vertex whose neighbour is not yet
 * processed relaxes that neighbour.  The path is then read off the
 * predecessor links (`generateTrace`).
 */
module ShortestPath {
  import opened Wrappers
  import opened Graphs

  /** A tentative distance: a finite value or the source's positive infinity. */
  datatype Dist = Fin(d: int) | Inf

  /** `a < b` on distances, with infinity above every finite value and not below itself. */
  predicate Below(a: Dist, b: Dist)
  {
    match a
    case Inf => false
    case Fin(x) => b.Inf? || x < b.d
  }

  /** `a <= b` on distances. */
  predicate AtMost(a: Dist, b: Dist)
  {
    !Below(b, a)
  }

  /** A distance plus an edge weight; infinity absorbs. */
  function Plus(a: Dist, w: int): Dist
  {
    if a.Inf? then Inf else Fin(a.d + w)
  }

  /** The per-vertex working state (`PathNode`). */
  datatype PathNode<V> = PathNode(distance: Dist, predecessor: Option<V>)

  /** The path nodes, keyed by vertex id (`pathy`). */
  type PathMap<V> = map<nat, PathNode<V>>

  /**
   * The exceptions of the search: a vertex without an id (the dictionary
   * lookup fails) and an end vertex left at infinite distance.
   */
  datatype PathError = UnknownVertex | NoPathExists

  /** The facts about a constructed graph that the search relies on. */
  ghost predicate Searchable<V>(g: Graph<V>)
  {
    && (forall x :: x in g.mapper ==> x in g.rawVertices)
    && (forall x :: x in g.rawVertices ==> x in g.mapper)
    && (forall x, y :: x in g.mapper && y in g.mapper && x != y ==> g.mapper[x] != g.mapper[y])
    && (forall k :: k in g.mapper.Values ==> k in g.adjList)
    && (forall k, i :: k in g.adjList && 0 <= i < |g.adjList[k]| ==>
          && EntryOk(g.mapper, g.rawEdges, k, g.adjList[k][i])
          && g.adjList[k][i].index in g.mapper.Values
          && g.adjList[k][i].edge.weight >= 0)
  }

  lemma SearchableGraph<V>(g: Graph<V>)
    requires WellFormed(g)
    ensures Searchable(g)
  {
    GraphFacts(g);
    MapperPositions(g.rawVertices);
    assert g.mapper.Keys == set v | v in g.rawVertices;
    forall k | k in g.mapper.Values ensures k in g.adjList {
      var x :| x in g.mapper && g.mapper[x] == k;
    }
    forall k, i | k in g.adjList && 0 <= i < |g.adjList[k]|
      ensures g.adjList[k][i].index in g.mapper.Values && g.adjList[k][i].edge.weight >= 0
    {
      var en := g.adjList[k][i];
      assert EntryOk(g.mapper, g.rawEdges, k, en);
      assert g.mapper[en.vertex] in g.mapper.Values;
      var j :| 0 <= j < |g.rawEdges| && g.rawEdges[j] == en.edge;
      assert ValidEdge(g.mapper, g.rawEdges[j]);
    }
  }

  /** The ids of the listed vertices. */
  ghost function Ids<V>(m: map<V, nat>, list: seq<V>): set<nat>
  {
    set x | x in list && x in m :: m[x]
  }

  /** Every vertex of `list` has an id with a path node. */
  ghost predicate Tracked<V>(m: map<V, nat>, pathy: PathMap<V>, list: seq<V>)
  {
    forall x :: x in list ==> x in m && m[x] in pathy
  }

  /**
   * The path nodes as the search creates them: one per vertex id, at
   * distance 0 for the start vertex and infinity for every other, and no
   * predecessor.
   */
  method InitPathNodes<V(==)>(g: Graph<V>, start: V) returns (pathy: PathMap<V>)
    requires Searchable(g)
    ensures pathy.Keys == g.mapper.Values
    ensures forall k :: k in pathy ==>
              pathy[k] == PathNode(if start in g.mapper && k == g.mapper[start] then Fin(0) else Inf, None)
  {
    var vs := g.rawVertices;
    pathy := map[];
    for i := 0 to |vs|
      invariant pathy.Keys == set j | 0 <= j < i :: g.mapper[vs[j]]
      invariant forall k :: k in pathy ==>
                  pathy[k] == PathNode(if start in g.mapper && k == g.mapper[start] then Fin(0) else Inf, None)
    {
      var vertex := vs[i];
      var index := g.mapper[vertex];
      if vertex == start {
        pathy := pathy[index := PathNode(Fin(0), None)];
      } else {
        pathy := pathy[index := PathNode(Inf, None)];
      }
    }
    forall k | k in g.mapper.Values ensures k in pathy {
      var x :| x in g.mapper && g.mapper[x] == k;
      var j :| 0 <= j < |vs| && vs[j] == x;
    }
  }

  /**
   * `removeLowestDistanceVertex`: deletes and returns the first vertex of
   * the list whose distance is strictly below that of every vertex before
   * it and no more than that of every vertex after it.  When every distance
   * is infinite the source's position stays -1 and the delete fails: that
   * is `None`, with the list unchanged.
   */
  method RemoveLowestDistanceVertex<V(==)>(m: map<V, nat>, list: seq<V>, pathObj: PathMap<V>)
    returns (removed: Option<V>, rest: seq<V>, removeMe: int)
    requires Tracked(m, pathObj, list)
    ensures removed.None? <==> forall i :: 0 <= i < |list| ==> pathObj[m[list[i]]].distance.Inf?
    ensures removed.None? ==> removeMe == -1 && rest == list
    ensures removed.Some? ==>
              && 0 <= removeMe < |list| && removed.value == list[removeMe]
              && rest == list[..removeMe] + list[removeMe + 1..]
              && pathObj[m[list[removeMe]]].distance.Fin?
              && (forall i :: 0 <= i < removeMe ==> Below(pathObj[m[list[removeMe]]].distance, pathObj[m[list[i]]].distance))
              && (forall i :: 0 <= i < |list| ==> AtMost(pathObj[m[list[removeMe]]].distance, pathObj[m[list[i]]].distance))
  {
    var minDistance := Inf;
    removeMe := -1;
    for i := 0 to |list|
      invariant -1 <= removeMe < i
      invariant removeMe == -1 ==> minDistance == Inf && forall j :: 0 <= j < i ==> pathObj[m[list[j]]].distance.Inf?
      invariant removeMe >= 0 ==> minDistance == pathObj[m[list[removeMe]]].distance && minDistance.Fin?
      invariant removeMe >= 0 ==> forall j :: 0 <= j < removeMe ==> Below(minDistance, pathObj[m[list[j]]].distance)
      invariant forall j :: 0 <= j < i ==> AtMost(minDistance, pathObj[m[list[j]]].distance)
    {
      var index := m[list[i]];
      var d := pathObj[index].distance;
      if Below(d, minDistance) {
        minDistance := d;
        removeMe := i;
      }
    }
    if removeMe == -1 {
      return None, list, removeMe;
    }
    removed := Some(list[removeMe]);
    rest := list[..removeMe] + list[removeMe + 1..];
  }

  /**
   * The bucket scan of `generateTrace`: the position of the first entry of
   * `pList` whose neighbour id is `pid`, if there is one.
   */
  method FirstEntryTo<V>(pList: seq<ListNode<V>>, pid: nat) returns (found: Option<nat>)
    ensures found.None? <==> forall j :: 0 <= j < |pList| ==> pList[j].index != pid
    ensures found.Some? ==> FirstIndex(pList, pid, found.value)
  {
    for i := 0 to |pList|
      invariant forall j :: 0 <= j < i ==> pList[j].index != pid
    {
      if pList[i].index == pid {
        return Some(i);
      }
    }
    return None;
  }

  /** `k` is the first position of `bucket` whose entry names `b`. */
  predicate FirstIndex<V>(bucket: seq<ListNode<V>>, b: nat, k: nat)
  {
    k < |bucket| && bucket[k].index == b && forall j :: 0 <= j < k ==> bucket[j].index != b
  }

  /**
   * The bookkeeping of the search: one path node per vertex id, the
   * processed vertices as a set of ids `proc`, and for each processed id the
   * order in which it was first processed.
   */
  ghost predicate Shape<V>(g: Graph<V>, pathy: PathMap<V>, processed: seq<V>, proc: set<nat>, stamp: map<nat, nat>)
  {
    && pathy.Keys == g.mapper.Values
    && proc <= pathy.Keys
    && Stamps(proc, stamp)
    && (forall x :: x in processed ==> x in g.mapper && g.mapper[x] in proc)
    && (forall x :: x in g.mapper && g.mapper[x] in proc ==> x in processed)
  }

  /** Each processed id has a distinct-order stamp below the number of processed ids. */
  ghost predicate Stamps(proc: set<nat>, stamp: map<nat, nat>)
  {
    stamp.Keys == proc && forall k :: k in stamp ==> stamp[k] < |proc|
  }

  /**
   * The start is at distance 0 with no predecessor, finite distances are
   * never negative, every other vertex has a predecessor exactly when its
   * distance is finite, and processed and queued vertices are at finite
   * distance.
   */
  ghost predicate Distances<V>(g: Graph<V>, s: nat, pathy: PathMap<V>, proc: set<nat>, unprocessed: seq<V>)
  {
    && s in pathy && pathy[s] == PathNode(Fin(0), None)
    && (forall k :: k in pathy && pathy[k].distance.Fin? ==> pathy[k].distance.d >= 0)
    && (forall k :: k in pathy && k != s ==> (pathy[k].predecessor.None? <==> pathy[k].distance.Inf?))
    && (forall k :: k in proc ==> k in pathy && pathy[k].distance.Fin?)
    && (forall x :: x in unprocessed ==> x in g.mapper && g.mapper[x] in pathy && pathy[g.mapper[x]].distance.Fin?)
  }

  /**
   * Every vertex at finite distance is processed, queued, without bucket
   * entries, or in `exempt` (the vertex being processed).
   */
  ghost predicate Frontier<V>(g: Graph<V>, pathy: PathMap<V>, proc: set<nat>, unprocessed: seq<V>, exempt: set<nat>)
  {
    forall k :: k in pathy && pathy[k].distance.Fin? ==>
      k in proc || k in Ids(g.mapper, unprocessed) || k in exempt || (k in g.adjList && g.adjList[k] == [])
  }

  /**
   * Entry `en` of the bucket of the processed id `p` is settled: its
   * neighbour is processed, or no farther than `p`'s distance plus the
   * entry's weight.
   */
  ghost predicate SettledEntry<V>(pathy: PathMap<V>, proc: set<nat>, p: nat, en: ListNode<V>)
  {
    || en.index in proc
    || (p in pathy && en.index in pathy && AtMost(pathy[en.index].distance, Plus(pathy[p].distance, en.edge.weight)))
  }

  /**
   * Every entry of every processed bucket is settled, except the entries
   * of `u` from position `from` on (none when `u` is not an id).
   */
  ghost predicate SettledExcept<V>(g: Graph<V>, pathy: PathMap<V>, proc: set<nat>, u: int, from: nat)
  {
    forall p, k :: p in proc && p in g.adjList && 0 <= k < |g.adjList[p]| && (p != u || k < from) ==>
      SettledEntry(pathy, proc, p, g.adjList[p][k])
  }

  /** Every entry of every processed bucket is settled. */
  ghost predicate Settled<V>(g: Graph<V>, pathy: PathMap<V>, proc: set<nat>)
  {
    forall p, k :: p in proc && p in g.adjList && 0 <= k < |g.adjList[p]| ==>
      SettledEntry(pathy, proc, p, g.adjList[p][k])
  }

  /** Some entry of `a`'s bucket names `v` and gives `v` its distance through `a`. */
  ghost predicate RelaxedBy<V>(g: Graph<V>, pathy: PathMap<V>, a: nat, v: nat)
  {
    && a in g.adjList && a in pathy && v in pathy
    && exists k :: 0 <= k < |g.adjList[a]| && g.adjList[a][k].index == v &&
         pathy[v].distance == Plus(pathy[a].distance, g.adjList[a][k].edge.weight)
  }

  /** No entry of `a`'s bucket naming `v` would bring `v` closer. */
  ghost predicate NoCheaper<V>(g: Graph<V>, pathy: PathMap<V>, a: nat, v: nat)
  {
    && a in g.adjList && a in pathy && v in pathy
    && forall k :: 0 <= k < |g.adjList[a]| && g.adjList[a][k].index == v ==>
         AtMost(pathy[v].distance, Plus(pathy[a].distance, g.adjList[a][k].edge.weight))
  }

  /**
   * The predecessor of `v`, if any, is a processed neighbour other than
   * `v` through which `v` got its distance; once `v` is processed too, the
   * predecessor was processed first and none of its entries naming `v` is
   * cheaper.
   */
  ghost predicate PredOk<V>(g: Graph<V>, pathy: PathMap<V>, proc: set<nat>, stamp: map<nat, nat>, v: nat)
  {
    v in pathy &&
    (pathy[v].predecessor.Some? ==>
      var x := pathy[v].predecessor.value;
      && x in g.mapper && g.mapper[x] in proc && g.mapper[x] in stamp && g.mapper[x] != v
      && RelaxedBy(g, pathy, g.mapper[x], v)
      && (v in proc ==> v in stamp && stamp[g.mapper[x]] < stamp[v] && NoCheaper(g, pathy, g.mapper[x], v)))
  }

  ghost predicate Preds<V>(g: Graph<V>, pathy: PathMap<V>, proc: set<nat>, stamp: map<nat, nat>)
  {
    forall v :: v in pathy ==> PredOk(g, pathy, proc, stamp, v)
  }

  /** The invariant of the search, with `exempt` and the unsettled bucket tail of `u` as in `Frontier` and `SettledExcept`. */
  ghost predicate SearchInv<V>(g: Graph<V>, s: nat, pathy: PathMap<V>, processed: seq<V>, unprocessed: seq<V>,
                               proc: set<nat>, stamp: map<nat, nat>, exempt: set<nat>, u: int, from: nat)
  {
    && Shape(g, pathy, processed, proc, stamp)
    && Distances(g, s, pathy, proc, unprocessed)
    && Frontier(g, pathy, proc, unprocessed, exempt)
    && SettledExcept(g, pathy, proc, u, from)
    && Preds(g, pathy, proc, stamp)
  }

  /** Marking `index` processed keeps the bookkeeping, with the next stamp for an id processed for the first time. */
  lemma MarkShape<V>(g: Graph<V>, pathy: PathMap<V>, processed: seq<V>, proc: set<nat>, stamp: map<nat, nat>, smallV: V)
    requires smallV in g.mapper && g.mapper[smallV] in pathy
    requires forall x :: x in g.mapper && x != smallV ==> g.mapper[x] != g.mapper[smallV]
    requires Shape(g, pathy, processed, proc, stamp)
    ensures var index := g.mapper[smallV];
            Shape(g, pathy, processed + [smallV], proc + {index}, if index in proc then stamp else stamp[index := |proc|])
  {
    var index := g.mapper[smallV];
    if index !in proc {
      assert |proc + {index}| == |proc| + 1;
    } else {
      assert proc + {index} == proc;
    }
  }

  /** A vertex at finite distance stays processed, queued or bucketless when more ids become processed. */
  lemma FrontierGrows<V>(g: Graph<V>, pathy: PathMap<V>, proc: set<nat>, proc': set<nat>, unprocessed: seq<V>, exempt: set<nat>)
    requires proc <= proc' && Frontier(g, pathy, proc, unprocessed, exempt)
    ensures Frontier(g, pathy, proc', unprocessed, exempt)
  {
  }

  /**
   * Marking `index` keeps every settled entry settled; the entries of
   * `index` itself are not yet scanned when it was not processed before.
   */
  lemma MarkSettled<V>(g: Graph<V>, pathy: PathMap<V>, proc: set<nat>, index: nat, from: nat)
    requires SettledExcept(g, pathy, proc, index, from)
    requires index !in proc ==> from == 0
    ensures SettledExcept(g, pathy, proc + {index}, index, from)
  {
    forall p, k | p in proc + {index} && p in g.adjList && 0 <= k < |g.adjList[p]| && (p != index || k < from)
      ensures SettledEntry(pathy, proc + {index}, p, g.adjList[p][k])
    {
      assert SettledEntry(pathy, proc, p, g.adjList[p][k]);
    }
  }

  /**
   * Marking `index` keeps every predecessor link; when `index` is newly
   * processed its predecessor was processed first and, being settled, has
   * no cheaper entry naming it.
   */
  lemma MarkPreds<V>(g: Graph<V>, pathy: PathMap<V>, proc: set<nat>, stamp: map<nat, nat>, index: nat)
    requires Preds(g, pathy, proc, stamp) && Settled(g, pathy, proc) && Stamps(proc, stamp)
    ensures Preds(g, pathy, proc + {index}, if index in proc then stamp else stamp[index := |proc|])
  {
    var proc', stamp' := proc + {index}, if index in proc then stamp else stamp[index := |proc|];
    forall v | v in pathy ensures PredOk(g, pathy, proc', stamp', v) {
      assert PredOk(g, pathy, proc, stamp, v);
      if pathy[v].predecessor.Some? && v == index && index !in proc {
        var mx := g.mapper[pathy[v].predecessor.value];
        forall k | 0 <= k < |g.adjList[mx]| && g.adjList[mx][k].index == v
          ensures AtMost(pathy[v].distance, Plus(pathy[mx].distance, g.adjList[mx][k].edge.weight))
        {
          assert SettledEntry(pathy, proc, mx, g.adjList[mx][k]);
        }
      }
    }
  }

  /**
   * Marking the vertex being processed, as every round of the bucket scan
   * does first: the invariant is kept.
   */
  lemma MarkProcessed<V>(g: Graph<V>, s: nat, pathy: PathMap<V>, processed: seq<V>, unprocessed: seq<V>,
                         proc: set<nat>, stamp: map<nat, nat>, smallV: V, from: nat)
    requires Searchable(g) && smallV in g.mapper
    requires var index := g.mapper[smallV];
             && SearchInv(g, s, pathy, processed, unprocessed, proc, stamp, {index}, index, from)
             && pathy[index].distance.Fin?
             && (index !in proc ==> from == 0)
    ensures var index := g.mapper[smallV];
            SearchInv(g, s, pathy, processed + [smallV], unprocessed, proc + {index},
                      if index in proc then stamp else stamp[index := |proc|], {index}, index, from)
  {
    var index := g.mapper[smallV];
    MarkShape(g, pathy, processed, proc, stamp, smallV);
    FrontierGrows(g, pathy, proc, proc + {index}, unprocessed, {index});
    MarkSettled(g, pathy, proc, index, from);
    if index !in proc {
      assert Settled(g, pathy, proc) by {
        assert SettledExcept(g, pathy, proc, index, from);
      }
    } else {
      assert proc + {index} == proc;
    }
    if index !in proc {
      MarkPreds(g, pathy, proc, stamp, index);
    }
  }

  /** The path nodes after relaxing neighbour `v` through `index` with `tentativity`. */
  function Relax<V>(pathy: PathMap<V>, v: nat, tentativity: Dist, smallV: V): PathMap<V>
    requires v in pathy
  {
    if Below(tentativity, pathy[v].distance) then pathy[v := PathNode(tentativity, Some(smallV))] else pathy
  }

  /**
   * Every node of `pathy'` is the node of `pathy`, or one at a strictly
   * lower distance whose predecessor is `smallV`; no key is added or lost.
   */
  ghost predicate LoweredVia<V>(pathy: PathMap<V>, pathy': PathMap<V>, smallV: V)
  {
    && pathy'.Keys == pathy.Keys
    && forall k :: k in pathy ==>
         pathy'[k] == pathy[k] || (Below(pathy'[k].distance, pathy[k].distance) && pathy'[k].predecessor == Some(smallV))
  }

  /**
   * A relaxation touches only `v`: its distance does not rise and ends at
   * most `tentativity`, and its node changes, taking `smallV` as
   * predecessor, exactly when the distance drops.
   */
  lemma RelaxLowers<V>(pathy: PathMap<V>, v: nat, tentativity: Dist, smallV: V)
    requires v in pathy
    ensures var r := Relax(pathy, v, tentativity, smallV);
            && LoweredVia(pathy, r, smallV)
            && (forall k :: k in pathy && k != v ==> r[k] == pathy[k])
            && AtMost(r[v].distance, pathy[v].distance) && AtMost(r[v].distance, tentativity)
            && (r[v] != pathy[v] <==> Below(r[v].distance, pathy[v].distance))
            && (Below(r[v].distance, pathy[v].distance) <==> Below(tentativity, pathy[v].distance))
  {
  }

  /** Lowering twice through the same vertex is lowering through it. */
  lemma LoweredTrans<V>(p0: PathMap<V>, p1: PathMap<V>, p2: PathMap<V>, smallV: V)
    requires LoweredVia(p0, p1, smallV) && LoweredVia(p1, p2, smallV)
    ensures LoweredVia(p0, p2, smallV)
  {
  }

  /** Lowering never raises a distance. */
  lemma LoweredAtMost<V>(pathy: PathMap<V>, pathy': PathMap<V>, smallV: V)
    requires LoweredVia(pathy, pathy', smallV)
    ensures forall k :: k in pathy ==> AtMost(pathy'[k].distance, pathy[k].distance)
  {
  }

  /** `marked` is `processed` followed by `i` copies of `smallV`. */
  ghost predicate Marked<V>(processed: seq<V>, marked: seq<V>, smallV: V, i: nat)
  {
    && |marked| == |processed| + i && marked[..|processed|] == processed
    && forall j :: |processed| <= j < |marked| ==> marked[j] == smallV
  }

  /** One more copy of `smallV` at the end. */
  lemma MarkedGrow<V>(processed: seq<V>, marked: seq<V>, smallV: V, i: nat)
    requires Marked(processed, marked, smallV, i)
    ensures Marked(processed, marked + [smallV], smallV, i + 1)
  {
    assert (marked + [smallV])[..|processed|] == marked[..|processed|];
  }

  /** Relaxing an unprocessed neighbour from a processed vertex at finite distance keeps the distance facts. */
  lemma RelaxDistances<V>(g: Graph<V>, s: nat, pathy: PathMap<V>, proc: set<nat>, unprocessed: seq<V>,
                          index: nat, e: ListNode<V>, smallV: V)
    requires Distances(g, s, pathy, proc, unprocessed)
    requires index in proc && e.index in pathy && e.index !in proc && e.edge.weight >= 0
    requires e.vertex in g.mapper && g.mapper[e.vertex] == e.index
    ensures Distances(g, s, Relax(pathy, e.index, Plus(pathy[index].distance, e.edge.weight), smallV), proc, unprocessed + [e.vertex])
  {
  }

  /** The relaxed neighbour is queued, so the frontier is kept. */
  lemma RelaxFrontier<V>(g: Graph<V>, pathy: PathMap<V>, proc: set<nat>, unprocessed: seq<V>, exempt: set<nat>,
                         e: ListNode<V>, tentativity: Dist, smallV: V)
    requires Frontier(g, pathy, proc, unprocessed, exempt)
    requires e.index in pathy && e.vertex in g.mapper && g.mapper[e.vertex] == e.index
    ensures Frontier(g, Relax(pathy, e.index, tentativity, smallV), proc, unprocessed + [e.vertex], exempt)
  {
    var pathy', unprocessed' := Relax(pathy, e.index, tentativity, smallV), unprocessed + [e.vertex];
    forall k | k in pathy' && pathy'[k].distance.Fin?
      ensures k in proc || k in Ids(g.mapper, unprocessed') || k in exempt || (k in g.adjList && g.adjList[k] == [])
    {
      if k == e.index {
        assert e.vertex in unprocessed';
      } else if k in Ids(g.mapper, unprocessed) {
        var x :| x in unprocessed && x in g.mapper && g.mapper[x] == k;
        assert x in unprocessed';
      }
    }
  }

  /** Distances of unprocessed vertices only shrink, so settled entries stay settled, and the relaxing entry is settled. */
  lemma RelaxSettled<V>(g: Graph<V>, pathy: PathMap<V>, proc: set<nat>, u: int, from: nat, index: nat, e: ListNode<V>, smallV: V)
    requires SettledExcept(g, pathy, proc, u, from)
    requires index in proc && index in pathy && e.index in pathy && e.index !in proc
    ensures var pathy' := Relax(pathy, e.index, Plus(pathy[index].distance, e.edge.weight), smallV);
            && SettledExcept(g, pathy', proc, u, from)
            && SettledEntry(pathy', proc, index, e)
  {
    var pathy' := Relax(pathy, e.index, Plus(pathy[index].distance, e.edge.weight), smallV);
    forall p, k | p in proc && p in g.adjList && 0 <= k < |g.adjList[p]| && (p != u || k < from)
      ensures SettledEntry(pathy', proc, p, g.adjList[p][k])
    {
      assert SettledEntry(pathy, proc, p, g.adjList[p][k]);
    }
  }

  /** The relaxed neighbour gets `smallV` as a predecessor it is relaxed by; other links are untouched. */
  lemma RelaxPreds<V>(g: Graph<V>, pathy: PathMap<V>, proc: set<nat>, stamp: map<nat, nat>, smallV: V, i: nat)
    requires Preds(g, pathy, proc, stamp)
    requires smallV in g.mapper && g.mapper[smallV] in proc && g.mapper[smallV] in stamp
    requires g.mapper[smallV] in g.adjList && g.mapper[smallV] in pathy && i < |g.adjList[g.mapper[smallV]]|
    requires var e := g.adjList[g.mapper[smallV]][i]; e.index in pathy && e.index !in proc
    ensures var index := g.mapper[smallV];
            var e := g.adjList[index][i];
            Preds(g, Relax(pathy, e.index, Plus(pathy[index].distance, e.edge.weight), smallV), proc, stamp)
  {
    var index := g.mapper[smallV];
    var e := g.adjList[index][i];
    var relax := Below(Plus(pathy[index].distance, e.edge.weight), pathy[e.index].distance);
    var pathy' := Relax(pathy, e.index, Plus(pathy[index].distance, e.edge.weight), smallV);
    forall v | v in pathy' ensures PredOk(g, pathy', proc, stamp, v) {
      assert PredOk(g, pathy, proc, stamp, v);
      if relax && v == e.index {
        assert RelaxedBy(g, pathy', index, v) by {
          assert g.adjList[index][i].index == v;
        }
      } else if pathy'[v].predecessor.Some? {
        var mx := g.mapper[pathy'[v].predecessor.value];
        assert RelaxedBy(g, pathy, mx, v);
        var k :| 0 <= k < |g.adjList[mx]| && g.adjList[mx][k].index == v &&
                 pathy[v].distance == Plus(pathy[mx].distance, g.adjList[mx][k].edge.weight);
        assert RelaxedBy(g, pathy', mx, v);
        if v in proc {
          assert NoCheaper(g, pathy', mx, v) by {
            assert NoCheaper(g, pathy, mx, v);
          }
        }
      }
    }
  }

  /**
   * Relaxing through entry `i` of the processed vertex `smallV`, whose
   * neighbour is not processed: the neighbour is queued and, when the path
   * through `smallV` is strictly shorter, takes that distance and `smallV`
   * as predecessor.  The invariant is kept and the entry is settled.
   */
  lemma RelaxKeeps<V>(g: Graph<V>, s: nat, pathy: PathMap<V>, processed: seq<V>, unprocessed: seq<V>,
                      proc: set<nat>, stamp: map<nat, nat>, smallV: V, from: nat, i: nat)
    requires Searchable(g) && smallV in g.mapper
    requires var index := g.mapper[smallV];
             && index in proc && i < |g.adjList[index]|
             && SearchInv(g, s, pathy, processed, unprocessed, proc, stamp, {index}, index, from)
             && g.adjList[index][i].index !in proc
    ensures var index := g.mapper[smallV];
            var e := g.adjList[index][i];
            var pathy' := Relax(pathy, e.index, Plus(pathy[index].distance, e.edge.weight), smallV);
            && SearchInv(g, s, pathy', processed, unprocessed + [e.vertex], proc, stamp, {index}, index, from)
            && SettledEntry(pathy', proc, index, e)
            && pathy'[index] == pathy[index]
  {
    var index := g.mapper[smallV];
    var e := g.adjList[index][i];
    assert EntryOk(g.mapper, g.rawEdges, index, e) && e.index in g.mapper.Values && e.edge.weight >= 0;
    var tentativity := Plus(pathy[index].distance, e.edge.weight);
    RelaxDistances(g, s, pathy, proc, unprocessed, index, e, smallV);
    RelaxFrontier(g, pathy, proc, unprocessed, {index}, e, tentativity, smallV);
    RelaxSettled(g, pathy, proc, index, from, index, e, smallV);
    RelaxPreds(g, pathy, proc, stamp, smallV, i);
  }

  /**
   * The invariant of the bucket scan of `smallV`, whose path node is `u`:
   * after `i` entries, `smallV` is processed (when `i > 0`), its first `i`
   * entries are settled (all when it was processed before), and the
   * worklist has only grown, by vertices whose ids are not processed.
   */
  ghost predicate ScanInv<V>(g: Graph<V>, s: nat, smallV: V, u: PathNode<V>, firstVisit: bool, i: nat,
                             proc0: set<nat>, stamp0: map<nat, nat>, unprocessed0: seq<V>,
                             processed: seq<V>, unprocessed: seq<V>, pathy: PathMap<V>, proc: set<nat>, stamp: map<nat, nat>)
  {
    smallV in g.mapper && g.mapper[smallV] in g.adjList &&
    var index := g.mapper[smallV];
    && i <= |g.adjList[index]|
    && firstVisit == (index !in proc0)
    && proc == (if i == 0 then proc0 else proc0 + {index})
    && stamp == (if i == 0 || !firstVisit then stamp0 else stamp0[index := |proc0|])
    && index in pathy && pathy[index] == u && u.distance.Fin?
    && SearchInv(g, s, pathy, processed, unprocessed, proc, stamp, {index}, index,
                 if firstVisit then i else |g.adjList[index]|)
    && Grown(g, unprocessed0, unprocessed, proc)
    && |unprocessed| <= |unprocessed0| + i
  }

  /** `unprocessed` extends `unprocessed0` by vertices whose ids are not in `proc`. */
  ghost predicate Grown<V>(g: Graph<V>, unprocessed0: seq<V>, unprocessed: seq<V>, proc: set<nat>)
  {
    && |unprocessed0| <= |unprocessed| && unprocessed[..|unprocessed0|] == unprocessed0
    && forall j :: |unprocessed0| <= j < |unprocessed| ==> unprocessed[j] in g.mapper && g.mapper[unprocessed[j]] !in proc
  }

  lemma GrownMark<V>(g: Graph<V>, unprocessed0: seq<V>, unprocessed: seq<V>, proc: set<nat>, index: nat)
    requires Grown(g, unprocessed0, unprocessed, proc)
    requires forall x :: x in unprocessed[|unprocessed0|..] ==> x in g.mapper && g.mapper[x] != index
    ensures Grown(g, unprocessed0, unprocessed, proc + {index})
  {
    forall j | |unprocessed0| <= j < |unprocessed| ensures g.mapper[unprocessed[j]] != index {
      assert unprocessed[j] in unprocessed[|unprocessed0|..];
    }
  }

  lemma GrownAdd<V>(g: Graph<V>, unprocessed0: seq<V>, unprocessed: seq<V>, proc: set<nat>, x: V)
    requires Grown(g, unprocessed0, unprocessed, proc) && x in g.mapper && g.mapper[x] !in proc
    ensures Grown(g, unprocessed0, unprocessed + [x], proc)
  {
    assert (unprocessed + [x])[..|unprocessed0|] == unprocessed[..|unprocessed0|];
  }

  /** The stamps after marking `index` processed. */
  ghost function Stamped(stamp: map<nat, nat>, proc: set<nat>, index: nat): map<nat, nat>
  {
    if index in proc then stamp else stamp[index := |proc|]
  }

  /** A round of the bucket scan whose entry names a processed neighbour only marks `smallV`. */
  lemma ScanSkip<V>(g: Graph<V>, s: nat, smallV: V, u: PathNode<V>, firstVisit: bool, i: nat,
                    proc0: set<nat>, stamp0: map<nat, nat>, unprocessed0: seq<V>,
                    processed: seq<V>, unprocessed: seq<V>, pathy: PathMap<V>, proc: set<nat>, stamp: map<nat, nat>)
    requires Searchable(g)
    requires ScanInv(g, s, smallV, u, firstVisit, i, proc0, stamp0, unprocessed0, processed, unprocessed, pathy, proc, stamp)
    requires i < |g.adjList[g.mapper[smallV]]|
    requires g.adjList[g.mapper[smallV]][i].vertex in processed + [smallV]
    ensures var index := g.mapper[smallV];
            ScanInv(g, s, smallV, u, firstVisit, i + 1, proc0, stamp0, unprocessed0,
                    processed + [smallV], unprocessed, pathy, proc + {index}, Stamped(stamp, proc, index))
  {
    var index := g.mapper[smallV];
    var from := if firstVisit then i else |g.adjList[index]|;
    MarkProcessed(g, s, pathy, processed, unprocessed, proc, stamp, smallV, from);
    GrownMark(g, unprocessed0, unprocessed, proc, index);
    var e := g.adjList[index][i];
    assert EntryOk(g.mapper, g.rawEdges, index, e);
    SettleNext(g, pathy, proc + {index}, index, from, i);
  }

  /** A round of the bucket scan whose entry names an unprocessed neighbour marks `smallV`, queues the neighbour and relaxes it. */
  lemma ScanRelax<V>(g: Graph<V>, s: nat, smallV: V, u: PathNode<V>, firstVisit: bool, i: nat,
                     proc0: set<nat>, stamp0: map<nat, nat>, unprocessed0: seq<V>,
                     processed: seq<V>, unprocessed: seq<V>, pathy: PathMap<V>, proc: set<nat>, stamp: map<nat, nat>)
    requires Searchable(g)
    requires ScanInv(g, s, smallV, u, firstVisit, i, proc0, stamp0, unprocessed0, processed, unprocessed, pathy, proc, stamp)
    requires i < |g.adjList[g.mapper[smallV]]|
    requires g.adjList[g.mapper[smallV]][i].vertex !in processed + [smallV]
    ensures var index := g.mapper[smallV];
            var e := g.adjList[index][i];
            && e.index in pathy
            && ScanInv(g, s, smallV, u, firstVisit, i + 1, proc0, stamp0, unprocessed0,
                       processed + [smallV], unprocessed + [e.vertex],
                       Relax(pathy, e.index, Plus(u.distance, e.edge.weight), smallV),
                       proc + {index}, Stamped(stamp, proc, index))
  {
    var index := g.mapper[smallV];
    var from := if firstVisit then i else |g.adjList[index]|;
    var proc', stamp' := proc + {index}, Stamped(stamp, proc, index);
    MarkProcessed(g, s, pathy, processed, unprocessed, proc, stamp, smallV, from);
    GrownMark(g, unprocessed0, unprocessed, proc, index);
    var e := g.adjList[index][i];
    assert EntryOk(g.mapper, g.rawEdges, index, e) && e.index in g.mapper.Values;
    RelaxKeeps(g, s, pathy, processed + [smallV], unprocessed, proc', stamp', smallV, from, i);
    GrownAdd(g, unprocessed0, unprocessed, proc', e.vertex);
    var pathy' := Relax(pathy, e.index, Plus(u.distance, e.edge.weight), smallV);
    SettleNext(g, pathy', proc', index, from, i);
  }

  /**
   * One round of the bucket scan (the body of the inner loop): mark
   * `smallV` processed, and when the neighbour of entry `i` is not
   * processed, queue it and relax it through `smallV`.
   */
  method ScanEntry<V(==)>(g: Graph<V>, ghost s: nat, smallV: V, u: PathNode<V>, ghost firstVisit: bool, i: nat,
                          ghost proc0: set<nat>, ghost stamp0: map<nat, nat>, ghost unprocessed0: seq<V>,
                          processed: seq<V>, unprocessed: seq<V>, pathy: PathMap<V>, ghost proc: set<nat>, ghost stamp: map<nat, nat>)
    returns (processed': seq<V>, unprocessed': seq<V>, pathy': PathMap<V>, ghost proc': set<nat>, ghost stamp': map<nat, nat>)
    requires Searchable(g)
    requires ScanInv(g, s, smallV, u, firstVisit, i, proc0, stamp0, unprocessed0, processed, unprocessed, pathy, proc, stamp)
    requires i < |g.adjList[g.mapper[smallV]]|
    ensures ScanInv(g, s, smallV, u, firstVisit, i + 1, proc0, stamp0, unprocessed0, processed', unprocessed', pathy', proc', stamp')
    ensures processed' == processed + [smallV]
    ensures var e := g.adjList[g.mapper[smallV]][i];
            && e.index in pathy
            && unprocessed' == (if e.vertex in processed + [smallV] then unprocessed else unprocessed + [e.vertex])
            && pathy' == (if e.vertex in processed + [smallV] then pathy
                          else Relax(pathy, e.index, Plus(u.distance, e.edge.weight), smallV))
    ensures LoweredVia(pathy, pathy', smallV)
  {
    var index := g.mapper[smallV];
    processed', unprocessed', pathy' := processed + [smallV], unprocessed, pathy;
    proc', stamp' := proc + {index}, Stamped(stamp, proc, index);
    var e := g.adjList[index][i];
    if e.vertex !in processed' {
      ScanRelax(g, s, smallV, u, firstVisit, i, proc0, stamp0, unprocessed0, processed, unprocessed, pathy, proc, stamp);
      unprocessed' := unprocessed' + [e.vertex];
      var v := pathy'[e.index];
      var tentativity := Plus(u.distance, e.edge.weight);
      if Below(tentativity, v.distance) {
        pathy' := pathy'[e.index := PathNode(tentativity, Some(smallV))];
      }
      RelaxLowers(pathy, e.index, tentativity, smallV);
    } else {
      ScanSkip(g, s, smallV, u, firstVisit, i, proc0, stamp0, unprocessed0, processed, unprocessed, pathy, proc, stamp);
      assert EntryOk(g.mapper, g.rawEdges, index, e);
    }
  }

  /**
   * One round of the search loop after `smallV` left the worklist: every
   * entry of its bucket marks `smallV` processed, and an entry whose
   * neighbour is not processed queues the neighbour and lowers its
   * distance, with `smallV` as predecessor, when the path through `smallV`
   * is strictly shorter.  The search invariant is kept; `smallV` becomes
   * processed unless its bucket is empty, and every vertex queued has an
   * unprocessed id.
   */
  method ProcessVertex<V(==)>(g: Graph<V>, ghost s: nat, smallV: V, processed: seq<V>, unprocessed: seq<V>,
                              pathy: PathMap<V>, ghost proc: set<nat>, ghost stamp: map<nat, nat>)
    returns (processed': seq<V>, unprocessed': seq<V>, pathy': PathMap<V>, ghost proc': set<nat>, ghost stamp': map<nat, nat>)
    requires Searchable(g) && smallV in g.mapper
    requires SearchInv(g, s, pathy, processed, unprocessed, proc, stamp, {g.mapper[smallV]}, -1, 0)
    requires pathy[g.mapper[smallV]].distance.Fin?
    ensures SearchInv(g, s, pathy', processed', unprocessed', proc', stamp', {}, -1, 0)
    ensures proc' == if g.adjList[g.mapper[smallV]] == [] then proc else proc + {g.mapper[smallV]}
    ensures g.adjList[g.mapper[smallV]] == [] ==> unprocessed' == unprocessed
    ensures Grown(g, unprocessed, unprocessed', proc')
    ensures Marked(processed, processed', smallV, |g.adjList[g.mapper[smallV]]|)
    ensures LoweredVia(pathy, pathy', smallV)
    ensures forall k :: k in pathy ==> AtMost(pathy'[k].distance, pathy[k].distance)
  {
    var index := g.mapper[smallV];
    var u := pathy[index];
    var bucket := g.adjList[index];
    ghost var firstVisit := index !in proc;
    processed', unprocessed', pathy', proc', stamp' := processed, unprocessed, pathy, proc, stamp;
    ScanStart(g, s, smallV, processed, unprocessed, pathy, proc, stamp);
    for i := 0 to |bucket|
      invariant ScanInv(g, s, smallV, u, firstVisit, i, proc, stamp, unprocessed, processed', unprocessed', pathy', proc', stamp')
      invariant Marked(processed, processed', smallV, i)
      invariant LoweredVia(pathy, pathy', smallV)
    {
      ghost var before, marked := pathy', processed';
      processed', unprocessed', pathy', proc', stamp' :=
        ScanEntry(g, s, smallV, u, firstVisit, i, proc, stamp, unprocessed,
                  processed', unprocessed', pathy', proc', stamp');
      MarkedGrow(processed, marked, smallV, i);
      LoweredTrans(pathy, before, pathy', smallV);
    }
    LoweredAtMost(pathy, pathy', smallV);
    ScanEnd(g, s, smallV, u, firstVisit, proc, stamp, unprocessed, processed', unprocessed', pathy', proc', stamp');
  }

  lemma ScanStart<V>(g: Graph<V>, s: nat, smallV: V, processed: seq<V>, unprocessed: seq<V>,
                     pathy: PathMap<V>, proc: set<nat>, stamp: map<nat, nat>)
    requires Searchable(g) && smallV in g.mapper
    requires SearchInv(g, s, pathy, processed, unprocessed, proc, stamp, {g.mapper[smallV]}, -1, 0)
    requires pathy[g.mapper[smallV]].distance.Fin?
    ensures var index := g.mapper[smallV];
            ScanInv(g, s, smallV, pathy[index], index !in proc, 0, proc, stamp, unprocessed,
                    processed, unprocessed, pathy, proc, stamp)
  {
    var index := g.mapper[smallV];
    assert index in g.mapper.Values;
    assert SettledExcept(g, pathy, proc, index, if index !in proc then 0 else |g.adjList[index]|) by {
      assert SettledExcept(g, pathy, proc, -1, 0);
    }
    assert unprocessed[..|unprocessed|] == unprocessed;
  }

  lemma ScanEnd<V>(g: Graph<V>, s: nat, smallV: V, u: PathNode<V>, firstVisit: bool,
                   proc0: set<nat>, stamp0: map<nat, nat>, unprocessed0: seq<V>,
                   processed: seq<V>, unprocessed: seq<V>, pathy: PathMap<V>, proc: set<nat>, stamp: map<nat, nat>)
    requires smallV in g.mapper && g.mapper[smallV] in g.adjList
    requires ScanInv(g, s, smallV, u, firstVisit, |g.adjList[g.mapper[smallV]]|, proc0, stamp0, unprocessed0,
                     processed, unprocessed, pathy, proc, stamp)
    ensures SearchInv(g, s, pathy, processed, unprocessed, proc, stamp, {}, -1, 0)
    ensures proc == if g.adjList[g.mapper[smallV]] == [] then proc0 else proc0 + {g.mapper[smallV]}
    ensures g.adjList[g.mapper[smallV]] == [] ==> unprocessed == unprocessed0
    ensures Grown(g, unprocessed0, unprocessed, proc)
  {
    var index := g.mapper[smallV];
    assert SettledExcept(g, pathy, proc, -1, 0) by {
      assert SettledExcept(g, pathy, proc, index, |g.adjList[index]|);
    }
    assert Frontier(g, pathy, proc, unprocessed, {}) by {
      assert g.adjList[index] == [] || index in proc;
    }
    if g.adjList[index] == [] {
      assert unprocessed == unprocessed[..|unprocessed0|];
    }
  }

  /** Once entry `i` of `u`'s bucket is settled, the unsettled tail starts after it. */
  lemma SettleNext<V>(g: Graph<V>, pathy: PathMap<V>, proc: set<nat>, u: nat, from: nat, i: nat)
    requires u in g.adjList && i < |g.adjList[u]| && (from == i || from == |g.adjList[u]|)
    requires SettledExcept(g, pathy, proc, u, from)
    requires SettledEntry(pathy, proc, u, g.adjList[u][i])
    ensures SettledExcept(g, pathy, proc, u, if from == i then i + 1 else from)
  {
  }

  /** Some entry of `a`'s bucket names `b`. */
  ghost predicate Adjacent<V>(g: Graph<V>, a: nat, b: nat)
  {
    a in g.adjList && exists k :: 0 <= k < |g.adjList[a]| && g.adjList[a][k].index == b
  }

  /** `ws` is a sequence of vertex ids, each adjacent to the next. */
  ghost predicate IsWalk<V>(g: Graph<V>, ws: seq<nat>)
  {
    |ws| > 0 && forall i :: 0 <= i < |ws| - 1 ==> Adjacent(g, ws[i], ws[i + 1])
  }

  /** Some walk leads from id `a` to id `b`. */
  ghost predicate Reachable<V>(g: Graph<V>, a: nat, b: nat)
  {
    exists ws :: IsWalk(g, ws) && ws[0] == a && ws[|ws| - 1] == b
  }

  /** `edge` is an input edge between the vertices of ids `a` and `b`. */
  ghost predicate Joins<V>(g: Graph<V>, a: nat, b: nat, edge: Edge<V>)
  {
    && edge in g.rawEdges && edge.vertex1 in g.mapper && edge.vertex2 in g.mapper
    && ((g.mapper[edge.vertex1] == a && g.mapper[edge.vertex2] == b) ||
        (g.mapper[edge.vertex1] == b && g.mapper[edge.vertex2] == a))
  }

  /** `path` walks along `walk`: its `i`-th edge joins the `i`-th id of the walk to the next. */
  ghost predicate Along<V>(g: Graph<V>, walk: seq<nat>, path: seq<Edge<V>>)
  {
    && IsWalk(g, walk) && |walk| == |path| + 1
    && forall i :: 0 <= i < |path| ==> Joins(g, walk[i], walk[i + 1], path[i])
  }

  /** Every neighbour of a vertex at finite distance is at finite distance. */
  ghost predicate Closed<V>(g: Graph<V>, pathy: PathMap<V>)
  {
    forall a, k :: a in pathy && pathy[a].distance.Fin? && a in g.adjList && 0 <= k < |g.adjList[a]| ==>
      g.adjList[a][k].index in pathy && pathy[g.adjList[a][k].index].distance.Fin?
  }

  /** Once the worklist is empty, the vertices at finite distance are closed under adjacency. */
  lemma DrainedClosed<V>(g: Graph<V>, s: nat, pathy: PathMap<V>, processed: seq<V>, proc: set<nat>, stamp: map<nat, nat>)
    requires Searchable(g)
    requires SearchInv(g, s, pathy, processed, [], proc, stamp, {}, -1, 0)
    ensures Closed(g, pathy)
  {
    forall a, k | a in pathy && pathy[a].distance.Fin? && a in g.adjList && 0 <= k < |g.adjList[a]|
      ensures g.adjList[a][k].index in pathy && pathy[g.adjList[a][k].index].distance.Fin?
    {
      assert a in proc;
      assert SettledEntry(pathy, proc, a, g.adjList[a][k]);
      assert g.adjList[a][k].index in g.mapper.Values;
    }
  }

  /** In a closed set of vertices, a walk from a vertex at finite distance ends at finite distance. */
  lemma {:induction false} WalkFinite<V>(g: Graph<V>, pathy: PathMap<V>, ws: seq<nat>)
    requires Closed(g, pathy) && IsWalk(g, ws)
    requires ws[0] in pathy && pathy[ws[0]].distance.Fin?
    ensures ws[|ws| - 1] in pathy && pathy[ws[|ws| - 1]].distance.Fin?
  {
    if |ws| > 1 {
      var pre := ws[..|ws| - 1];
      assert IsWalk(g, pre) by {
        forall i | 0 <= i < |pre| - 1 ensures Adjacent(g, pre[i], pre[i + 1]) {
          assert Adjacent(g, ws[i], ws[i + 1]);
        }
      }
      WalkFinite(g, pathy, pre);
      var a := ws[|ws| - 2];
      assert Adjacent(g, a, ws[|ws| - 1]);
      var k :| 0 <= k < |g.adjList[a]| && g.adjList[a][k].index == ws[|ws| - 1];
    }
  }

  /** The number of worklist entries whose ids are processed. */
  ghost function CountIn<V>(m: map<V, nat>, list: seq<V>, proc: set<nat>): nat
  {
    if list == [] then 0
    else CountIn(m, list[..|list| - 1], proc) + (if list[|list| - 1] in m && m[list[|list| - 1]] in proc then 1 else 0)
  }

  lemma {:induction false} CountAppend<V>(m: map<V, nat>, a: seq<V>, b: seq<V>, proc: set<nat>)
    ensures CountIn(m, a + b, proc) == CountIn(m, a, proc) + CountIn(m, b, proc)
    decreases |b|
  {
    if b == [] {
      assert a + b == a;
    } else {
      var pre := b[..|b| - 1];
      CountAppend(m, a, pre, proc);
      assert (a + b)[..|a + b| - 1] == a + pre;
    }
  }

  lemma {:induction false} CountFresh<V>(m: map<V, nat>, b: seq<V>, proc: set<nat>)
    requires forall j :: 0 <= j < |b| ==> b[j] in m && m[b[j]] !in proc
    ensures CountIn(m, b, proc) == 0
  {
    if b != [] {
      CountFresh(m, b[..|b| - 1], proc);
    }
  }

  /** Removing the entry at `k` lowers the count by one exactly when its id is processed. */
  lemma CountRemove<V>(m: map<V, nat>, list: seq<V>, k: nat, proc: set<nat>)
    requires k < |list|
    ensures CountIn(m, list, proc) ==
              CountIn(m, list[..k] + list[k + 1..], proc) + (if list[k] in m && m[list[k]] in proc then 1 else 0)
  {
    assert list == (list[..k] + [list[k]]) + list[k + 1..];
    CountAppend(m, list[..k] + [list[k]], list[k + 1..], proc);
    CountAppend(m, list[..k], [list[k]], proc);
    CountAppend(m, list[..k], list[k + 1..], proc);
    assert [list[k]][..0] == [];
  }

  /** The start of the search: only the start vertex is queued, at distance 0. */
  lemma SearchStart<V>(g: Graph<V>, start: V, pathy: PathMap<V>)
    requires Searchable(g) && start in g.mapper
    requires pathy.Keys == g.mapper.Values
    requires forall k :: k in pathy ==>
               pathy[k] == PathNode(if k == g.mapper[start] then Fin(0) else Inf, None)
    ensures SearchInv(g, g.mapper[start], pathy, [], [start], {}, map[], {}, -1, 0)
  {
    assert g.mapper[start] in g.mapper.Values;
    assert Frontier(g, pathy, {}, [start], {}) by {
      assert g.mapper[start] in Ids(g.mapper, [start]);
    }
  }

  /** Taking entry `k` out of the worklist exempts its id from the frontier. */
  lemma PopKeeps<V>(g: Graph<V>, s: nat, pathy: PathMap<V>, processed: seq<V>, unprocessed: seq<V>,
                    proc: set<nat>, stamp: map<nat, nat>, k: nat)
    requires SearchInv(g, s, pathy, processed, unprocessed, proc, stamp, {}, -1, 0)
    requires k < |unprocessed|
    ensures unprocessed[k] in g.mapper
    ensures SearchInv(g, s, pathy, processed, unprocessed[..k] + unprocessed[k + 1..], proc, stamp,
                      {g.mapper[unprocessed[k]]}, -1, 0)
  {
    var rest := unprocessed[..k] + unprocessed[k + 1..];
    forall x | x in unprocessed ensures x in rest || x == unprocessed[k] {
      var j :| 0 <= j < |unprocessed| && unprocessed[j] == x;
      if j < k {
        assert rest[j] == x;
      } else if j > k {
        assert rest[j - 1] == x;
      }
    }
    forall x | x in rest ensures x in unprocessed {
      var j :| 0 <= j < |rest| && rest[j] == x;
      if j < k {
        assert unprocessed[j] == x;
      } else {
        assert unprocessed[j + 1] == x;
      }
    }
    assert unprocessed[k] in unprocessed;
    assert Frontier(g, pathy, proc, rest, {g.mapper[unprocessed[k]]}) by {
      forall i | i in pathy && pathy[i].distance.Fin? && i in Ids(g.mapper, unprocessed)
        ensures i in Ids(g.mapper, rest) || i == g.mapper[unprocessed[k]]
      {
        var x :| x in unprocessed && x in g.mapper && g.mapper[x] == i;
      }
    }
  }

  /**
   * One round of the search loop makes progress: a vertex becomes
   * processed, or a queued copy of a processed vertex is used up, or the
   * worklist shrinks.
   */
  lemma Progress<V>(g: Graph<V>, unprocessed: seq<V>, k: nat, unprocessed': seq<V>, proc: set<nat>, proc': set<nat>)
    requires k < |unprocessed| && unprocessed[k] in g.mapper && proc <= g.mapper.Values
    requires g.mapper[unprocessed[k]] in g.adjList
    requires var u := g.mapper[unprocessed[k]];
             && proc' == (if g.adjList[u] == [] then proc else proc + {u})
             && (g.adjList[u] == [] ==> unprocessed' == unprocessed[..k] + unprocessed[k + 1..])
    requires Grown(g, unprocessed[..k] + unprocessed[k + 1..], unprocessed', proc')
    ensures proc' <= g.mapper.Values
    ensures || |g.mapper.Values - proc'| < |g.mapper.Values - proc|
            || (&& |g.mapper.Values - proc'| == |g.mapper.Values - proc|
                && (|| CountIn(g.mapper, unprocessed', proc') < CountIn(g.mapper, unprocessed, proc)
                    || (CountIn(g.mapper, unprocessed', proc') == CountIn(g.mapper, unprocessed, proc)
                        && |unprocessed'| < |unprocessed|)))
  {
    var u := g.mapper[unprocessed[k]];
    if u !in proc && g.adjList[u] != [] {
      FewerUnprocessed(g.mapper.Values, proc, u);
    } else if u in proc {
      assert proc' == proc;
      QueuedCopy(g, unprocessed, k, unprocessed', proc);
    } else {
      CountRemove(g.mapper, unprocessed, k, proc);
    }
  }

  /** Processing a new id leaves fewer ids unprocessed. */
  lemma FewerUnprocessed(all: set<nat>, proc: set<nat>, u: nat)
    requires u in all && u !in proc
    ensures |all - (proc + {u})| < |all - proc|
  {
    assert all - (proc + {u}) == (all - proc) - {u};
  }

  /** Popping a queued copy of a processed id uses up one such copy; the vertices queued in its place are unprocessed. */
  lemma QueuedCopy<V>(g: Graph<V>, unprocessed: seq<V>, k: nat, unprocessed': seq<V>, proc: set<nat>)
    requires k < |unprocessed| && unprocessed[k] in g.mapper && g.mapper[unprocessed[k]] in proc
    requires Grown(g, unprocessed[..k] + unprocessed[k + 1..], unprocessed', proc)
    ensures CountIn(g.mapper, unprocessed', proc) < CountIn(g.mapper, unprocessed, proc)
  {
    var rest := unprocessed[..k] + unprocessed[k + 1..];
    CountRemove(g.mapper, unprocessed, k, proc);
    var added := unprocessed'[|rest|..];
    assert unprocessed' == rest + added;
    CountAppend(g.mapper, rest, added, proc);
    CountFresh(g.mapper, added, proc);
  }

  /**
   * `edge` is what the trace collects for the step from id `a` to id `b`:
   * `b`'s predecessor has id `a`, and `edge` is the edge of the first entry
   * of `a`'s bucket that names `b`.
   */
  ghost predicate TraceStep<V>(g: Graph<V>, pathy: PathMap<V>, a: nat, b: nat, edge: Edge<V>)
  {
    && b in pathy && pathy[b].predecessor.Some?
    && pathy[b].predecessor.value in g.mapper && g.mapper[pathy[b].predecessor.value] == a
    && a in g.adjList
    && exists k: nat :: FirstIndex(g.adjList[a], b, k) && g.adjList[a][k].edge == edge
  }

  /**
   * One step back along the predecessor links from `pid`: the predecessor
   * is at finite distance, its bucket names `pid`, and it was processed
   * earlier than `pid` (so the walk back terminates).
   */
  ghost predicate PredLink<V>(g: Graph<V>, list: PathMap<V>, proc: set<nat>, stamp: map<nat, nat>, pid: nat)
    requires pid in list && list[pid].predecessor.Some?
  {
    var x := list[pid].predecessor.value;
    && x in g.mapper && g.mapper[x] in list && list[g.mapper[x]].distance.Fin?
    && g.mapper[x] in g.adjList && g.mapper[x] in stamp
    && (exists k :: 0 <= k < |g.adjList[g.mapper[x]]| && g.adjList[g.mapper[x]][k].index == pid)
    && stamp[g.mapper[x]] < (if pid in stamp then stamp[pid] else |proc|)
  }

  /**
   * What the trace relies on: every vertex at finite distance other than
   * the start `s` has a predecessor, and every predecessor link is a step
   * back.
   */
  ghost predicate Linked<V>(g: Graph<V>, s: nat, list: PathMap<V>, proc: set<nat>, stamp: map<nat, nat>)
  {
    && (forall pid :: pid in list && pid != s && list[pid].distance.Fin? ==> list[pid].predecessor.Some?)
    && (forall pid :: pid in list && list[pid].predecessor.Some? ==> PredLink(g, list, proc, stamp, pid))
  }

  /** The search's invariant makes the predecessor links a forest rooted at the start. */
  lemma SearchLinked<V>(g: Graph<V>, s: nat, list: PathMap<V>, proc: set<nat>, stamp: map<nat, nat>)
    requires Searchable(g) && list.Keys == g.mapper.Values && Stamps(proc, stamp)
    requires Distances(g, s, list, proc, []) && Preds(g, list, proc, stamp)
    ensures Linked(g, s, list, proc, stamp)
  {
    forall pid | pid in list && list[pid].predecessor.Some? ensures PredLink(g, list, proc, stamp, pid) {
      assert PredOk(g, list, proc, stamp, pid);
    }
  }

  /** Reading the ids collected backwards from the end in reverse order gives a walk of trace steps from the start. */
  lemma TraceReversed<V>(g: Graph<V>, list: PathMap<V>, back: seq<nat>, path: seq<Edge<V>>,
                         dup: seq<Edge<V>>, walk: seq<nat>)
    requires BackTrace(g, list, back, path)
    requires |dup| == |path| && forall j :: 0 <= j < |path| ==> dup[j] == path[|path| - 1 - j]
    requires |walk| == |back| && forall j :: 0 <= j < |back| ==> walk[j] == back[|back| - 1 - j]
    ensures forall i :: 0 <= i < |dup| ==> TraceStep(g, list, walk[i], walk[i + 1], dup[i])
  {
    forall i | 0 <= i < |dup| ensures TraceStep(g, list, walk[i], walk[i + 1], dup[i]) {
      var j := |path| - 1 - i;
      assert TraceStep(g, list, back[j + 1], back[j], path[j]);
    }
  }

  /** The closing loop of `generateTrace`: `path` read from its last element to its first. */
  method Reverse<T>(path: seq<T>) returns (dup: seq<T>)
    ensures |dup| == |path| && forall j :: 0 <= j < |path| ==> dup[j] == path[|path| - 1 - j]
  {
    dup := [];
    for i := 0 to |path|
      invariant |dup| == i && forall j :: 0 <= j < i ==> dup[j] == path[|path| - 1 - j]
    {
      dup := dup + [path[|path| - i - 1]];
    }
  }

  /**
   * `generateTrace`: from the end vertex, follow predecessor links back to
   * the start, collecting at each step the edge of the first entry of the
   * predecessor's bucket that names the current vertex, then reverse.  The
   * result walks from the start to the end.
   */
  method GenerateTrace<V(==)>(g: Graph<V>, s: V, e: V, list: PathMap<V>, ghost proc: set<nat>, ghost stamp: map<nat, nat>)
    returns (dup: seq<Edge<V>>, ghost walk: seq<nat>)
    requires s in g.mapper && e in g.mapper && g.mapper[e] in list
    requires Linked(g, g.mapper[s], list, proc, stamp)
    requires list[g.mapper[e]].distance.Fin?
    ensures |walk| == |dup| + 1 && walk[0] == g.mapper[s] && walk[|dup|] == g.mapper[e]
    ensures forall i :: 0 <= i < |dup| ==> TraceStep(g, list, walk[i], walk[i + 1], dup[i])
    ensures dup == [] <==> list[g.mapper[e]].predecessor.None?
  {
    var path: seq<Edge<V>> := [];
    var pid := g.mapper[e];
    ghost var back: seq<nat> := [pid];
    while list[pid].predecessor.Some?
      invariant pid in list && list[pid].distance.Fin?
      invariant BackTrace(g, list, back, path) && back[0] == g.mapper[e] && back[|path|] == pid
      decreases if pid in stamp then stamp[pid] else |proc|
    {
      LinkStep(g, g.mapper[s], list, proc, stamp, pid);
      var master := g.mapper[list[pid].predecessor.value];
      var pList := g.adjList[master];
      var found := FirstEntryTo(pList, pid);
      assert found.Some?;
      if found.Some? {
        BackTraceGrow(g, list, back, path, master, pList[found.value].edge);
        path := path + [pList[found.value].edge];
      }
      back := back + [master];
      pid := master;
    }
    assert path == [] ==> pid == g.mapper[e];
    assert path != [] ==> TraceStep(g, list, back[1], back[0], path[0]);
    dup := Reverse(path);
    walk := seq(|back|, j requires 0 <= j < |back| => back[|back| - 1 - j]);
    TraceReversed(g, list, back, path, dup, walk);
  }

  /** `path` was collected walking back along `back`: its `i`-th edge is the trace step from `back[i + 1]` to `back[i]`. */
  ghost predicate BackTrace<V>(g: Graph<V>, list: PathMap<V>, back: seq<nat>, path: seq<Edge<V>>)
  {
    |back| == |path| + 1 && forall i :: 0 <= i < |path| ==> TraceStep(g, list, back[i + 1], back[i], path[i])
  }

  /** The predecessor link of `pid`, spelled out. */
  lemma LinkStep<V>(g: Graph<V>, s: nat, list: PathMap<V>, proc: set<nat>, stamp: map<nat, nat>, pid: nat)
    requires Linked(g, s, list, proc, stamp) && pid in list && list[pid].predecessor.Some?
    ensures PredLink(g, list, proc, stamp, pid)
  {
  }

  /** Collecting the first entry of `master`'s bucket naming the last id of `back` extends the backward trace. */
  lemma BackTraceGrow<V>(g: Graph<V>, list: PathMap<V>, back: seq<nat>, path: seq<Edge<V>>, master: nat, edge: Edge<V>)
    requires BackTrace(g, list, back, path)
    requires TraceStep(g, list, master, back[|path|], edge)
    ensures BackTrace(g, list, back + [master], path + [edge])
  {
    var back', path' := back + [master], path + [edge];
    forall i | 0 <= i < |path'| ensures TraceStep(g, list, back'[i + 1], back'[i], path'[i]) {
      if i < |path| {
        assert back'[i + 1] == back[i + 1] && back'[i] == back[i] && path'[i] == path[i];
      }
    }
  }

  /**
   * What the search leaves behind: one node per vertex id, the start at 0
   * without predecessor, every other vertex with a predecessor exactly
   * when its distance is finite, the vertices at finite distance closed
   * under adjacency, and every predecessor link realised by an entry of the
   * predecessor's bucket that no other entry naming the same vertex beats.
   */
  ghost predicate Labelled<V>(g: Graph<V>, s: nat, nodes: PathMap<V>)
  {
    && nodes.Keys == g.mapper.Values
    && s in nodes && nodes[s] == PathNode(Fin(0), None)
    && (forall k :: k in nodes && nodes[k].distance.Fin? ==> nodes[k].distance.d >= 0)
    && (forall k :: k in nodes && k != s ==> (nodes[k].predecessor.None? <==> nodes[k].distance.Inf?))
    && Closed(g, nodes)
    && (forall b :: b in nodes && nodes[b].predecessor.Some? ==>
          var x := nodes[b].predecessor.value;
          && x in g.mapper && g.mapper[x] != b
          && RelaxedBy(g, nodes, g.mapper[x], b) && NoCheaper(g, nodes, g.mapper[x], b))
  }

  /** The drained search state is labelled. */
  lemma DrainedLabelled<V>(g: Graph<V>, s: nat, pathy: PathMap<V>, processed: seq<V>, proc: set<nat>, stamp: map<nat, nat>)
    requires Searchable(g)
    requires SearchInv(g, s, pathy, processed, [], proc, stamp, {}, -1, 0)
    ensures Labelled(g, s, pathy)
  {
    DrainedClosed(g, s, pathy, processed, proc, stamp);
    forall b | b in pathy && pathy[b].predecessor.Some?
      ensures var x := pathy[b].predecessor.value;
              && x in g.mapper && g.mapper[x] != b
              && RelaxedBy(g, pathy, g.mapper[x], b) && NoCheaper(g, pathy, g.mapper[x], b)
    {
      assert PredOk(g, pathy, proc, stamp, b);
      var a := g.mapper[pathy[b].predecessor.value];
      if b !in proc {
        forall k | 0 <= k < |g.adjList[a]| && g.adjList[a][k].index == b
          ensures AtMost(pathy[b].distance, Plus(pathy[a].distance, g.adjList[a][k].edge.weight))
        {
          assert SettledEntry(pathy, proc, a, g.adjList[a][k]);
        }
      }
    }
  }

  /**
   * The initialisation and the loop of `findShortestPathBetween` for a
   * start vertex that has an id: afterwards the path nodes are labelled
   * and their predecessor links lead back to the start.
   */
  method Search<V(==)>(g: Graph<V>, start: V) returns (pathy: PathMap<V>, ghost proc: set<nat>, ghost stamp: map<nat, nat>)
    requires Searchable(g) && start in g.mapper
    ensures Labelled(g, g.mapper[start], pathy)
    ensures Linked(g, g.mapper[start], pathy, proc, stamp)
  {
    var unprocessed: seq<V> := [];
    var processed: seq<V> := [];
    pathy := InitPathNodes(g, start);
    unprocessed := unprocessed + [start];
    ghost var s := g.mapper[start];
    proc, stamp := {}, map[];
    SearchStart(g, start, pathy);
    while unprocessed != []
      invariant SearchInv(g, s, pathy, processed, unprocessed, proc, stamp, {}, -1, 0)
      decreases |g.mapper.Values - proc|, CountIn(g.mapper, unprocessed, proc), |unprocessed|
    {
      assert unprocessed[0] in unprocessed;
      var removed, rest, removeMe := RemoveLowestDistanceVertex(g.mapper, unprocessed, pathy);
      var smallV := removed.value;
      PopKeeps(g, s, pathy, processed, unprocessed, proc, stamp, removeMe);
      ghost var unprocessed0, proc0 := unprocessed, proc;
      processed, unprocessed, pathy, proc, stamp := ProcessVertex(g, s, smallV, processed, rest, pathy, proc, stamp);
      Progress(g, unprocessed0, removeMe, unprocessed, proc0, proc);
    }
    DrainedLabelled(g, s, pathy, processed, proc, stamp);
    SearchLinked(g, s, pathy, proc, stamp);
  }

  /** A search that never reached `t` leaves no walk from the start to `t`. */
  lemma Unreached<V>(g: Graph<V>, s: nat, nodes: PathMap<V>, t: nat)
    requires Labelled(g, s, nodes) && t in nodes && nodes[t].distance.Inf?
    ensures !Reachable(g, s, t)
  {
    if Reachable(g, s, t) {
      var ws :| IsWalk(g, ws) && ws[0] == s && ws[|ws| - 1] == t;
      WalkFinite(g, nodes, ws);
    }
  }

  /** The trace steps of a walk join its consecutive ids by input edges. */
  lemma TraceAlong<V>(g: Graph<V>, nodes: PathMap<V>, walk: seq<nat>, path: seq<Edge<V>>)
    requires Searchable(g)
    requires |walk| == |path| + 1
    requires forall i :: 0 <= i < |path| ==> TraceStep(g, nodes, walk[i], walk[i + 1], path[i])
    ensures Along(g, walk, path)
  {
    forall i | 0 <= i < |path| ensures Adjacent(g, walk[i], walk[i + 1]) && Joins(g, walk[i], walk[i + 1], path[i]) {
      var a := walk[i];
      assert TraceStep(g, nodes, a, walk[i + 1], path[i]);
      var k: nat :| FirstIndex(g.adjList[a], walk[i + 1], k) && g.adjList[a][k].edge == path[i];
      assert EntryOk(g.mapper, g.rawEdges, a, g.adjList[a][k]);
    }
  }

  /**
   * `findShortestPathBetween`.  An unknown start or end vertex fails the
   * way the dictionary lookup does.  Otherwise the result is a path exactly
   * when the end is reachable from the start, and it walks from the start
   * to the end along input edges, following the predecessor links of the
   * labelled path nodes and taking the first bucket entry of each step.  A
   * start equal to the end gives the empty path.
   */
  method FindShortestPathBetween<V(==)>(g: Graph<V>, start: V, end: V)
    returns (res: Result<seq<Edge<V>>, PathError>, ghost walk: seq<nat>, ghost nodes: PathMap<V>)
    requires WellFormed(g)
    ensures start !in g.mapper || end !in g.mapper ==> res == Failure(UnknownVertex)
    ensures start in g.mapper && end in g.mapper ==>
              && Labelled(g, g.mapper[start], nodes)
              && (res.Success? <==> Reachable(g, g.mapper[start], g.mapper[end]))
              && (res.Failure? ==> res.error == NoPathExists)
              && (start == end ==> res == Success([]))
    ensures res.Success? ==>
              && Along(g, walk, res.value)
              && walk[0] == g.mapper[start] && walk[|walk| - 1] == g.mapper[end]
              && forall i :: 0 <= i < |res.value| ==> TraceStep(g, nodes, walk[i], walk[i + 1], res.value[i])
  {
    SearchableGraph(g);
    if start !in g.mapper {
      return Failure(UnknownVertex), [], map[];
    }
    var pathy;
    ghost var proc, stamp;
    pathy, proc, stamp := Search(g, start);
    nodes := pathy;
    if end !in g.mapper {
      return Failure(UnknownVertex), [], nodes;
    }
    if pathy[g.mapper[end]].distance == Inf {
      Unreached(g, g.mapper[start], pathy, g.mapper[end]);
      return Failure(NoPathExists), [], nodes;
    }
    var path;
    path, walk := GenerateTrace(g, start, end, pathy, proc, stamp);
    TraceAlong(g, pathy, walk, path);
    WalkReaches(g, walk, path);
    res := Success(path);
  }

  /** A walk along a path witnesses reachability between its ends. */
  lemma WalkReaches<V>(g: Graph<V>, walk: seq<nat>, path: seq<Edge<V>>)
    requires Along(g, walk, path)
    ensures Reachable(g, walk[0], walk[|walk| - 1])
  {
  }

  /** The total weight of a path. */
  function Weight<V>(path: seq<Edge<V>>): int
  {
    if path == [] then 0 else Weight(path[..|path| - 1]) + path[|path| - 1].weight
  }

  /**
   * Along the trace, each vertex is at most its predecessor's distance plus
   * the weight of the collected edge, so the trace weighs at least the end
   * vertex's distance.
   */
  lemma {:induction false} TraceBound<V>(g: Graph<V>, s: nat, nodes: PathMap<V>, walk: seq<nat>, path: seq<Edge<V>>)
    requires Labelled(g, s, nodes)
    requires |walk| == |path| + 1 && walk[0] == s
    requires forall i :: 0 <= i < |path| ==> TraceStep(g, nodes, walk[i], walk[i + 1], path[i])
    ensures walk[|path|] in nodes && nodes[walk[|path|]].distance.Fin?
    ensures nodes[walk[|path|]].distance.d <= Weight(path)
  {
    if path != [] {
      var n := |path| - 1;
      TraceBound(g, s, nodes, walk[..n + 1], path[..n]);
      assert path[..n] == path[..|path| - 1];
      var a, b := walk[n], walk[n + 1];
      assert TraceStep(g, nodes, a, b, path[n]);
      var k: nat :| FirstIndex(g.adjList[a], b, k) && g.adjList[a][k].edge == path[n];
      assert NoCheaper(g, nodes, a, b);
    }
  }

  /** Position `k` of `bucket` holds a lightest entry naming `b`, the first such. */
  predicate CheapestIndex<V>(bucket: seq<ListNode<V>>, b: nat, k: nat)
  {
    && k < |bucket| && bucket[k].index == b
    && (forall j :: 0 <= j < |bucket| && bucket[j].index == b ==> bucket[k].edge.weight <= bucket[j].edge.weight)
    && (forall j :: 0 <= j < k && bucket[j].index == b ==> bucket[k].edge.weight < bucket[j].edge.weight)
  }

  /** Like `TraceStep`, but `edge` is a lightest entry of `a`'s bucket naming `b`. */
  ghost predicate CheapStep<V>(g: Graph<V>, nodes: PathMap<V>, a: nat, b: nat, edge: Edge<V>)
  {
    && b in nodes && nodes[b].predecessor.Some?
    && nodes[b].predecessor.value in g.mapper && g.mapper[nodes[b].predecessor.value] == a
    && a in g.adjList
    && exists k: nat :: CheapestIndex(g.adjList[a], b, k) && g.adjList[a][k].edge == edge
  }

  /** The bucket scan of the corrected trace: the first lightest entry naming `pid`. */
  method CheapestEntryTo<V>(pList: seq<ListNode<V>>, pid: nat) returns (found: Option<nat>)
    ensures found.None? <==> forall j :: 0 <= j < |pList| ==> pList[j].index != pid
    ensures found.Some? ==> CheapestIndex(pList, pid, found.value)
  {
    found := None;
    for i := 0 to |pList|
      invariant found.None? <==> forall j :: 0 <= j < i ==> pList[j].index != pid
      invariant found.Some? ==> found.value < i && CheapestIndex(pList[..i], pid, found.value)
    {
      if pList[i].index == pid && (found.None? || pList[i].edge.weight < pList[found.value].edge.weight) {
        found := Some(i);
      }
    }
    if found.Some? {
      assert pList[..|pList|] == pList;
    }
  }

  /**
   * Along a trace of lightest entries, each vertex is exactly its
   * predecessor's distance plus the collected edge's weight, so the trace
   * weighs exactly the end vertex's distance.
   */
  lemma {:induction false} CheapTraceWeight<V>(g: Graph<V>, s: nat, nodes: PathMap<V>, walk: seq<nat>, path: seq<Edge<V>>)
    requires Labelled(g, s, nodes)
    requires |walk| == |path| + 1 && walk[0] == s
    requires forall i :: 0 <= i < |path| ==> CheapStep(g, nodes, walk[i], walk[i + 1], path[i])
    ensures walk[|path|] in nodes && nodes[walk[|path|]].distance.Fin?
    ensures nodes[walk[|path|]].distance.d == Weight(path)
  {
    if path != [] {
      var n := |path| - 1;
      CheapTraceWeight(g, s, nodes, walk[..n + 1], path[..n]);
      assert path[..n] == path[..|path| - 1];
      var a, b := walk[n], walk[n + 1];
      assert CheapStep(g, nodes, a, b, path[n]);
      var k: nat :| CheapestIndex(g.adjList[a], b, k) && g.adjList[a][k].edge == path[n];
      assert NoCheaper(g, nodes, a, b) && RelaxedBy(g, nodes, a, b);
      var k' :| 0 <= k' < |g.adjList[a]| && g.adjList[a][k'].index == b &&
                nodes[b].distance == Plus(nodes[a].distance, g.adjList[a][k'].edge.weight);
    }
  }

  /**
   * `generateTrace` with the bucket scan corrected to take a lightest entry
   * naming the current vertex; by `CheapTraceWeight`, the returned path
   * weighs exactly the end vertex's distance.
   */
  method GenerateCheapestTrace<V(==)>(g: Graph<V>, s: V, e: V, list: PathMap<V>, ghost proc: set<nat>, ghost stamp: map<nat, nat>)
    returns (dup: seq<Edge<V>>, ghost walk: seq<nat>)
    requires s in g.mapper && e in g.mapper
    requires g.mapper[e] in list && Linked(g, g.mapper[s], list, proc, stamp)
    requires list[g.mapper[e]].distance.Fin?
    ensures |walk| == |dup| + 1 && walk[0] == g.mapper[s] && walk[|dup|] == g.mapper[e]
    ensures forall i :: 0 <= i < |dup| ==> CheapStep(g, list, walk[i], walk[i + 1], dup[i])
  {
    var path: seq<Edge<V>> := [];
    var pid := g.mapper[e];
    ghost var back: seq<nat> := [pid];
    while list[pid].predecessor.Some?
      invariant pid in list && list[pid].distance.Fin?
      invariant |back| == |path| + 1 && back[0] == g.mapper[e] && back[|path|] == pid
      invariant forall i :: 0 <= i < |path| ==> CheapStep(g, list, back[i + 1], back[i], path[i])
      decreases if pid in stamp then stamp[pid] else |proc|
    {
      assert PredLink(g, list, proc, stamp, pid);
      var master := g.mapper[list[pid].predecessor.value];
      var pList := g.adjList[master];
      var found := CheapestEntryTo(pList, pid);
      assert found.Some?;
      if found.Some? {
        path := path + [pList[found.value].edge];
      }
      back := back + [master];
      pid := master;
    }
    dup := Reverse(path);
    walk := seq(|back|, j requires 0 <= j < |back| => back[|back| - 1 - j]);
    CheapReversed(g, list, back, path, dup, walk);
  }

  /** `TraceReversed` for the corrected trace. */
  lemma CheapReversed<V>(g: Graph<V>, list: PathMap<V>, back: seq<nat>, path: seq<Edge<V>>,
                         dup: seq<Edge<V>>, walk: seq<nat>)
    requires |back| == |path| + 1
    requires forall i :: 0 <= i < |path| ==> CheapStep(g, list, back[i + 1], back[i], path[i])
    requires |dup| == |path| && forall j :: 0 <= j < |path| ==> dup[j] == path[|path| - 1 - j]
    requires |walk| == |back| && forall j :: 0 <= j < |back| ==> walk[j] == back[|back| - 1 - j]
    ensures forall i :: 0 <= i < |dup| ==> CheapStep(g, list, walk[i], walk[i + 1], dup[i])
  {
    forall i | 0 <= i < |dup| ensures CheapStep(g, list, walk[i], walk[i + 1], dup[i]) {
      var j := |path| - 1 - i;
      assert CheapStep(g, list, back[j + 1], back[j], path[j]);
    }
  }

  /**
   * Two vertices 1 and 2 joined by two parallel edges, of weights 5 and 1
   * in that order, as the list constructor builds it (`DetourBuilt`).
   */
  function DetourGraph(): Graph<int>
  {
    var e5, e1 := Edge(1, 2, 5), Edge(1, 2, 1);
    Graph([1, 2], [e5, e1], map[1 := 0, 2 := 1],
          map[0 := [ListNode(1, 2, e5), ListNode(1, 2, e1)], 1 := [ListNode(0, 1, e5), ListNode(0, 1, e1)]])
  }

  /** `DetourGraph` is what the list constructor builds from its vertices and edges. */
  lemma DetourBuilt()
    ensures WellFormed(DetourGraph())
  {
    var g := DetourGraph();
    DetourIds();
    DetourBuckets();
    assert Built(g.rawVertices, g.rawEdges) == g;
    assert ValidEdge(g.mapper, g.rawEdges[0]) && ValidEdge(g.mapper, g.rawEdges[1]);
  }

  lemma DetourIds()
    ensures Mapper([1, 2]) == map[1 := 0, 2 := 1]
  {
    assert Mapper([1]) == map[1 := 0];
  }

  lemma DetourBuckets()
    requires Mapper([1, 2]) == map[1 := 0, 2 := 1]
    ensures Adjacency(Mapper([1, 2]), 2, DetourGraph().rawEdges, 2) == DetourGraph().adjList
  {
    var m := map[1 := 0, 2 := 1];
    var e5, e1 := Edge(1, 2, 5), Edge(1, 2, 1);
    var adj0 := EmptyBuckets<int>(2);
    assert adj0 == map[0 := [], 1 := []] by {
      assert EmptyBuckets<int>(1) == map[0 := []];
    }
    var adj1 := map[0 := [ListNode(1, 2, e5)], 1 := [ListNode(0, 1, e5)]];
    assert AddEdge(adj0, m, e5) == adj1 by {
      assert [] + [ListNode(1, 2, e5)] == [ListNode(1, 2, e5)];
      assert [] + [ListNode(0, 1, e5)] == [ListNode(0, 1, e5)];
    }
    assert AddEdge(adj1, m, e1) == DetourGraph().adjList by {
      assert [ListNode(1, 2, e5)] + [ListNode(1, 2, e1)] == [ListNode(1, 2, e5), ListNode(1, 2, e1)];
      assert [ListNode(0, 1, e5)] + [ListNode(0, 1, e1)] == [ListNode(0, 1, e5), ListNode(0, 1, e1)];
    }
    assert Adjacency(m, 2, DetourGraph().rawEdges, 1) == adj1;
  }

  /**
   * On `DetourGraph`, the search from 1 to 2 labels vertex 2 (id 1) with
   * distance 1, yet the trace collects the first entry of vertex 1's
   * bucket, the edge of weight 5.
   */
  lemma FirstEntryDetour(nodes: PathMap<int>, walk: seq<nat>, path: seq<Edge<int>>)
    requires Labelled(DetourGraph(), 0, nodes)
    requires |walk| == |path| + 1 && walk[0] == 0 && walk[|path|] == 1
    requires forall i :: 0 <= i < |path| ==> TraceStep(DetourGraph(), nodes, walk[i], walk[i + 1], path[i])
    ensures 1 in nodes && nodes[1].distance == Fin(1)
    ensures path == [Edge(1, 2, 5)] && Weight(path) == 5
  {
    var g := DetourGraph();
    assert g.mapper[2] == 1 && 1 in g.mapper.Values;
    assert path != [];
    assert TraceStep(g, nodes, 0, walk[1], path[0]);
    assert walk[1] == 1;
    // vertex 2 has a predecessor other than itself, so the walk ends there
    assert |path| == 1;
    assert RelaxedBy(g, nodes, 0, 1) && NoCheaper(g, nodes, 0, 1);
    assert AtMost(nodes[1].distance, Fin(1)) by {
      assert g.adjList[0][1].index == 1;
    }
    assert FirstIndex(g.adjList[0], 1, 0);
    var k: nat :| FirstIndex(g.adjList[0], 1, k) && g.adjList[0][k].edge == path[0];
    assert k == 0;
    assert path == [] + [path[0]];
  }

  /** `TraceAlong` for the corrected trace. */
  lemma CheapAlong<V>(g: Graph<V>, nodes: PathMap<V>, walk: seq<nat>, path: seq<Edge<V>>)
    requires Searchable(g)
    requires |walk| == |path| + 1
    requires forall i :: 0 <= i < |path| ==> CheapStep(g, nodes, walk[i], walk[i + 1], path[i])
    ensures Along(g, walk, path)
  {
    forall i | 0 <= i < |path| ensures Adjacent(g, walk[i], walk[i + 1]) && Joins(g, walk[i], walk[i + 1], path[i]) {
      var a := walk[i];
      assert CheapStep(g, nodes, a, walk[i + 1], path[i]);
      var k: nat :| CheapestIndex(g.adjList[a], walk[i + 1], k) && g.adjList[a][k].edge == path[i];
      assert EntryOk(g.mapper, g.rawEdges, a, g.adjList[a][k]);
    }
  }

  /**
   * `findShortestPathBetween` with the corrected trace: the same outcomes,
   * and a returned path weighs exactly the distance the search gave the
   * end vertex.
   */
  method FindLightestPathBetween<V(==)>(g: Graph<V>, start: V, end: V)
    returns (res: Result<seq<Edge<V>>, PathError>, ghost walk: seq<nat>, ghost nodes: PathMap<V>)
    requires WellFormed(g)
    ensures start !in g.mapper || end !in g.mapper ==> res == Failure(UnknownVertex)
    ensures start in g.mapper && end in g.mapper ==>
              && Labelled(g, g.mapper[start], nodes)
              && (res.Success? <==> Reachable(g, g.mapper[start], g.mapper[end]))
              && (res.Failure? ==> res.error == NoPathExists)
              && (res.Success? ==> nodes[g.mapper[end]].distance == Fin(Weight(res.value)))
    ensures res.Success? ==>
              && Along(g, walk, res.value)
              && walk[0] == g.mapper[start] && walk[|walk| - 1] == g.mapper[end]
  {
    SearchableGraph(g);
    if start !in g.mapper {
      return Failure(UnknownVertex), [], map[];
    }
    var pathy;
    ghost var proc, stamp;
    pathy, proc, stamp := Search(g, start);
    nodes := pathy;
    if end !in g.mapper {
      return Failure(UnknownVertex), [], nodes;
    }
    if pathy[g.mapper[end]].distance == Inf {
      Unreached(g, g.mapper[start], pathy, g.mapper[end]);
      return Failure(NoPathExists), [], nodes;
    }
    var path;
    path, walk := GenerateCheapestTrace(g, start, end, pathy, proc, stamp);
    CheapAlong(g, pathy, walk, path);
    WalkReaches(g, walk, path);
    CheapTraceWeight(g, g.mapper[start], pathy, walk, path);
    res := Success(path);
  }
}
