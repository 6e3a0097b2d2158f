/**
 * Connectivity under a sequence of edges, as a reference for what the
 * disjoint-set forest computes during Kruskal's algorithm: joining the edges
 * one after another, each edge merges the components of its two endpoints.
 */
module Components {
  import opened Graphs

  /** The component label of `x` once the edges of `es` are joined in order: joining (a, b) relabels b's component with a's label. */
  ghost function Comp<V>(es: seq<Edge<V>>, x: V): V
  {
    if es == [] then x
    else
      var pre, e := es[..|es| - 1], es[|es| - 1];
      if Comp(pre, x) == Comp(pre, e.vertex2) then Comp(pre, e.vertex1) else Comp(pre, x)
  }

  /** `x` and `y` are joined by the edges of `es`. */
  ghost predicate Connected<V>(es: seq<Edge<V>>, x: V, y: V)
  {
    Comp(es, x) == Comp(es, y)
  }

  /** Every edge of `es` joined two components that were still apart: `es` is a forest. */
  ghost predicate Acyclic<V>(es: seq<Edge<V>>)
  {
    if es == [] then true
    else
      var pre, e := es[..|es| - 1], es[|es| - 1];
      Acyclic(pre) && !Connected(pre, e.vertex1, e.vertex2)
  }

  /** Kruskal's selection from the edges in the order given: an edge is kept exactly when its endpoints are still apart. */
  ghost function KruskalFilter<V>(cs: seq<Edge<V>>): seq<Edge<V>>
  {
    if cs == [] then []
    else
      var acc, e := KruskalFilter(cs[..|cs| - 1]), cs[|cs| - 1];
      if Connected(acc, e.vertex1, e.vertex2) then acc else acc + [e]
  }

  lemma CompAppend<V>(es: seq<Edge<V>>, e: Edge<V>, x: V)
    ensures Comp(es + [e], x) == if Comp(es, x) == Comp(es, e.vertex2) then Comp(es, e.vertex1) else Comp(es, x)
  {
    assert (es + [e])[..|es|] == es;
  }

  /**
   * After joining `e`, two vertices are connected exactly when they were
   * connected before, or one was with `e`'s first endpoint and the other with
   * its second.
   */
  lemma ConnectedAfterJoin<V>(es: seq<Edge<V>>, e: Edge<V>, x: V, y: V)
    ensures Connected(es + [e], x, y) <==>
              || Connected(es, x, y)
              || (Connected(es, x, e.vertex1) && Connected(es, y, e.vertex2))
              || (Connected(es, x, e.vertex2) && Connected(es, y, e.vertex1))
  {
    CompAppend(es, e, x);
    CompAppend(es, e, y);
  }

  /** Joining more edges never separates two vertices. */
  lemma {:induction false} ConnectedMonotone<V>(es: seq<Edge<V>>, more: seq<Edge<V>>, x: V, y: V)
    requires Connected(es, x, y)
    ensures Connected(es + more, x, y)
    decreases |more|
  {
    if more == [] {
      assert es + more == es;
    } else {
      var pre := more[..|more| - 1];
      ConnectedMonotone(es, pre, x, y);
      assert es + more == (es + pre) + [more[|more| - 1]];
      ConnectedAfterJoin(es + pre, more[|more| - 1], x, y);
    }
  }

  /** Kruskal's selection is a forest. */
  lemma {:induction false} KruskalAcyclic<V>(cs: seq<Edge<V>>)
    ensures Acyclic(KruskalFilter(cs))
  {
    if cs != [] {
      var acc, e := KruskalFilter(cs[..|cs| - 1]), cs[|cs| - 1];
      KruskalAcyclic(cs[..|cs| - 1]);
      if !Connected(acc, e.vertex1, e.vertex2) {
        assert (acc + [e])[..|acc|] == acc;
      }
    }
  }

  /** Kruskal's selection keeps some of the given edges, each at most as often as given, in the given order. */
  lemma {:induction false} KruskalSubset<V>(cs: seq<Edge<V>>)
    ensures multiset(KruskalFilter(cs)) <= multiset(cs)
  {
    if cs != [] {
      var pre := cs[..|cs| - 1];
      KruskalSubset(pre);
      assert cs == pre + [cs[|cs| - 1]];
    }
  }

  /** Every given edge ends up with its endpoints joined by the selection. */
  lemma {:induction false} KruskalSpans<V>(cs: seq<Edge<V>>)
    ensures forall i :: 0 <= i < |cs| ==> Connected(KruskalFilter(cs), cs[i].vertex1, cs[i].vertex2)
  {
    if cs != [] {
      var pre, e := cs[..|cs| - 1], cs[|cs| - 1];
      var acc := KruskalFilter(pre);
      KruskalSpans(pre);
      var more := if Connected(acc, e.vertex1, e.vertex2) then [] else [e];
      assert KruskalFilter(cs) == acc + more;
      forall i | 0 <= i < |cs| ensures Connected(KruskalFilter(cs), cs[i].vertex1, cs[i].vertex2) {
        if i < |cs| - 1 {
          assert cs[i] == pre[i];
          ConnectedMonotone(acc, more, cs[i].vertex1, cs[i].vertex2);
        } else if more == [] {
          assert acc + more == acc;
        } else {
          ConnectedAfterJoin(acc, e, e.vertex1, e.vertex2);
        }
      }
    }
  }

  /** The component labels of the vertices of `s`. */
  ghost function Labels<V>(es: seq<Edge<V>>, s: set<V>): set<V>
  {
    set x | x in s :: Comp(es, x)
  }

  /** All endpoints of `es` lie in `s`. */
  ghost predicate Within<V>(es: seq<Edge<V>>, s: set<V>)
  {
    forall i :: 0 <= i < |es| ==> es[i].vertex1 in s && es[i].vertex2 in s
  }

  lemma {:induction false} CompWithin<V>(es: seq<Edge<V>>, s: set<V>, x: V)
    requires Within(es, s) && x in s
    ensures Comp(es, x) in s
  {
    if es != [] {
      var pre := es[..|es| - 1];
      assert Within(pre, s) by {
        forall i | 0 <= i < |pre| ensures pre[i] == es[i] { }
      }
      CompWithin(pre, s, x);
      CompWithin(pre, s, es[|es| - 1].vertex1);
    }
  }

  /**
   * A forest over the vertex set `s` has exactly `|s|` minus its number of
   * edges components: each edge merges two components into one.
   */
  lemma {:induction false} ForestCount<V>(es: seq<Edge<V>>, s: set<V>)
    requires Acyclic(es) && Within(es, s)
    ensures |Labels(es, s)| + |es| == |s|
  {
    if es == [] {
      assert Labels(es, s) == s;
    } else {
      var pre, e := es[..|es| - 1], es[|es| - 1];
      assert Within(pre, s) by {
        forall i | 0 <= i < |pre| ensures pre[i] == es[i] { }
      }
      ForestCount(pre, s);
      var a, b := Comp(pre, e.vertex1), Comp(pre, e.vertex2);
      assert a != b;
      assert a in Labels(pre, s) && b in Labels(pre, s);
      assert es == pre + [e];
      assert Labels(es, s) == Labels(pre, s) - {b} by {
        forall z | z in Labels(es, s) ensures z in Labels(pre, s) - {b} {
          var x :| x in s && Comp(es, x) == z;
          CompAppend(pre, e, x);
        }
        forall z | z in Labels(pre, s) - {b} ensures z in Labels(es, s) {
          var x :| x in s && Comp(pre, x) == z;
          CompAppend(pre, e, x);
        }
      }
    }
  }

  /**
   * Hence a forest over a non-empty vertex set has fewer edges than
   * vertices, and one with one edge fewer than vertices connects them all.
   */
  lemma ForestBound<V>(es: seq<Edge<V>>, s: set<V>)
    requires Acyclic(es) && Within(es, s) && s != {}
    ensures |es| <= |s| - 1
    ensures |es| == |s| - 1 ==> forall x, y :: x in s && y in s ==> Connected(es, x, y)
  {
    ForestCount(es, s);
    var x :| x in s;
    assert Comp(es, x) in Labels(es, s);
    if |es| == |s| - 1 {
      forall y, z | y in s && z in s ensures Connected(es, y, z) {
        assert Comp(es, y) in Labels(es, s) && Comp(es, z) in Labels(es, s);
        OneLabel(Labels(es, s), Comp(es, y), Comp(es, z));
      }
    }
  }

  /** Set-cardinality helper for `ForestBound`: a singleton set has one member. */
  lemma OneLabel<V>(l: set<V>, a: V, b: V)
    requires |l| == 1 && a in l && b in l
    ensures a == b
  {
    var rest := l - {a};
    assert |rest| == 0;
    assert b in rest || b == a;
  }
}
