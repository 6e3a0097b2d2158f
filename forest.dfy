/**
 * Facts about the `pointers` array of the disjoint-set forest, stated on its
 * contents as a sequence.  A slot holding a value `<= Self` is a root and
 * encodes the root's rank as `-(rank + 1)`; any other slot holds the id of
 * the node's parent.  The ghost sequence `rank` gives every registered id a
 * rank that strictly grows along parent pointers, which is what makes the
 * forest acyclic.
 */
module Forest {

  /** The sentinel the source calls `self`: the stored value of a root of rank 0. */
  const Self: int := -1

  /** The stored value of a root of rank `rank` (`-newRank + self` in `unionUtil`). */
  function EncodeRank(rank: nat): (v: int)
    ensures v <= Self
  {
    -(rank as int) + Self
  }

  /** The rank of a root whose slot holds `v` (`Math.abs(pointers[root]) + self` in `union`). */
  function DecodeRank(v: int): (rank: nat)
    requires v <= Self
    ensures EncodeRank(rank) == v
  {
    (if v < 0 then -v else v) + Self
  }

  /**
   * `p` is a well-formed forest over the ids `0 .. |rank|-1`: each slot is a
   * root whose decoded rank is its ghost rank, or points at a registered id of
   * strictly larger rank.
   */
  ghost predicate WellRanked(p: seq<int>, rank: seq<nat>)
  {
    && |rank| <= |p|
    && forall i :: 0 <= i < |rank| ==>
         if p[i] <= Self then rank[i] == DecodeRank(p[i])
         else p[i] < |rank| && rank[i] < rank[p[i]]
  }

  /** An upper bound on all ranks; the distance to it measures recursion up the forest. */
  ghost function MaxRank(rank: seq<nat>): (m: nat)
    ensures forall i :: 0 <= i < |rank| ==> rank[i] <= m
  {
    if rank == [] then 0
    else
      var m := MaxRank(rank[..|rank| - 1]);
      if rank[|rank| - 1] > m then rank[|rank| - 1] else m
  }

  /** The root reached from `i` by following parent pointers. */
  ghost function Root(p: seq<int>, rank: seq<nat>, i: int): (r: int)
    requires WellRanked(p, rank) && 0 <= i < |rank|
    ensures 0 <= r < |rank| && p[r] <= Self
    ensures rank[i] <= rank[r]
    ensures p[i] > Self ==> rank[i] < rank[r]
    decreases MaxRank(rank) - rank[i]
  {
    if p[i] <= Self then i else Root(p, rank, p[i])
  }

  /** The ids visited from `i` up to and including its root. */
  ghost function Chain(p: seq<int>, rank: seq<nat>, i: int): (c: seq<int>)
    requires WellRanked(p, rank) && 0 <= i < |rank|
    ensures |c| > 0 && c[0] == i && c[|c| - 1] == Root(p, rank, i)
    ensures forall k :: 0 <= k < |c| ==> 0 <= c[k] < |rank| && rank[i] <= rank[c[k]]
    ensures forall k :: 0 < k < |c| ==> rank[i] < rank[c[k]]
    decreases MaxRank(rank) - rank[i]
  {
    if p[i] <= Self then [i] else [i] + Chain(p, rank, p[i])
  }

  /**
   * The pointers after the recursive find on `i`: the parent's chain is
   * compressed first, then `i` is re-pointed at the root.
   */
  ghost function Compress(p: seq<int>, rank: seq<nat>, i: int): (q: seq<int>)
    requires WellRanked(p, rank) && 0 <= i < |rank|
    ensures |q| == |p|
    decreases MaxRank(rank) - rank[i]
  {
    if p[i] <= Self then p
    else Compress(p, rank, p[i])[i := Root(p, rank, p[i])]
  }

  /**
   * Compression re-points exactly the non-root nodes of `i`'s chain at the
   * root and leaves every other slot as it was.
   */
  lemma {:induction false} CompressShape(p: seq<int>, rank: seq<nat>, i: int, k: int)
    requires WellRanked(p, rank) && 0 <= i < |rank| && 0 <= k < |p|
    ensures Compress(p, rank, i)[k] ==
              if k in Chain(p, rank, i) && p[k] > Self then Root(p, rank, i) else p[k]
    decreases MaxRank(rank) - rank[i]
  {
    if p[i] > Self {
      if k != i {
        CompressShape(p, rank, p[i], k);
        assert Chain(p, rank, i) == [i] + Chain(p, rank, p[i]);
      }
    }
  }

  /**
   * Re-pointing one non-root node directly at its root keeps the forest well
   * formed and changes no node's root.
   */
  lemma RepointWellRanked(p: seq<int>, rank: seq<nat>, x: int)
    requires WellRanked(p, rank) && 0 <= x < |rank| && p[x] > Self
    ensures WellRanked(p[x := Root(p, rank, x)], rank)
  {
  }

  lemma {:induction false} RepointRoot(p: seq<int>, rank: seq<nat>, x: int, j: int)
    requires WellRanked(p, rank) && 0 <= x < |rank| && p[x] > Self && 0 <= j < |rank|
    requires WellRanked(p[x := Root(p, rank, x)], rank)
    ensures Root(p[x := Root(p, rank, x)], rank, j) == Root(p, rank, j)
    decreases MaxRank(rank) - rank[j]
  {
    var q := p[x := Root(p, rank, x)];
    if p[j] <= Self {
    } else if j == x {
      assert q[Root(p, rank, x)] <= Self;
    } else {
      RepointRoot(p, rank, x, p[j]);
    }
  }

  /** Compression keeps the forest well formed and keeps every node's root: the partition is unchanged. */
  lemma {:induction false} CompressKeepsRoots(p: seq<int>, rank: seq<nat>, i: int)
    requires WellRanked(p, rank) && 0 <= i < |rank|
    ensures WellRanked(Compress(p, rank, i), rank)
    ensures forall j :: 0 <= j < |rank| ==> Root(Compress(p, rank, i), rank, j) == Root(p, rank, j)
    decreases MaxRank(rank) - rank[i]
  {
    if p[i] > Self {
      var q1 := Compress(p, rank, p[i]);
      CompressKeepsRoots(p, rank, p[i]);
      CompressShape(p, rank, p[i], i);
      assert i !in Chain(p, rank, p[i]) by {
        forall k | 0 <= k < |Chain(p, rank, p[i])| ensures Chain(p, rank, p[i])[k] != i {
          assert rank[p[i]] <= rank[Chain(p, rank, p[i])[k]];
        }
      }
      assert q1[i] == p[i];
      assert Root(q1, rank, i) == Root(p, rank, i) by {
        assert Root(q1, rank, i) == Root(q1, rank, q1[i]);
      }
      RepointWellRanked(q1, rank, i);
      forall j | 0 <= j < |rank| ensures Root(Compress(p, rank, i), rank, j) == Root(p, rank, j) {
        RepointRoot(q1, rank, i, j);
      }
    }
  }

  /**
   * After compressing from `i`, the chain from `i` has at most two nodes, so a
   * second find from `i` writes nothing new: path compression is idempotent.
   */
  lemma CompressIdempotent(p: seq<int>, rank: seq<nat>, i: int)
    requires WellRanked(p, rank) && 0 <= i < |rank|
    ensures WellRanked(Compress(p, rank, i), rank)
    ensures Compress(Compress(p, rank, i), rank, i) == Compress(p, rank, i)
  {
    CompressKeepsRoots(p, rank, i);
    var q := Compress(p, rank, i);
    var r := Root(p, rank, i);
    CompressShape(p, rank, i, i);
    CompressShape(p, rank, i, r);
    if p[i] > Self {
      assert q[i] == r && q[r] == p[r];
      assert Compress(q, rank, q[i]) == q;
      assert Root(q, rank, q[i]) == r;
      assert Compress(q, rank, i) == q[i := r];
    }
  }

  /**
   * A new registered id whose slot holds `Self` is a rank-0 root of its own,
   * and the ids registered before keep their roots.
   */
  lemma {:induction false} ExtendRoot(p: seq<int>, rank: seq<nat>, q: seq<int>, j: int)
    requires WellRanked(p, rank) && |q| > |rank|
    requires q[..|rank|] == p[..|rank|] && q[|rank|] == Self
    requires 0 <= j < |rank|
    ensures WellRanked(q, rank + [0])
    ensures Root(q, rank + [0], j) == Root(p, rank, j)
    ensures Root(q, rank + [0], |rank|) == |rank|
    decreases MaxRank(rank) - rank[j]
  {
    ExtendWellRanked(p, rank, q);
    assert q[j] == p[..|rank|][j];
    if p[j] > Self {
      ExtendRoot(p, rank, q, p[j]);
    }
  }

  lemma ExtendRoots(p: seq<int>, rank: seq<nat>, q: seq<int>)
    requires WellRanked(p, rank) && |q| > |rank|
    requires q[..|rank|] == p[..|rank|] && q[|rank|] == Self
    ensures WellRanked(q, rank + [0])
    ensures forall j :: 0 <= j < |rank| ==> Root(q, rank + [0], j) == Root(p, rank, j)
    ensures Root(q, rank + [0], |rank|) == |rank|
  {
    ExtendWellRanked(p, rank, q);
    forall j | 0 <= j < |rank| ensures Root(q, rank + [0], j) == Root(p, rank, j) {
      ExtendRoot(p, rank, q, j);
    }
  }

  lemma ExtendWellRanked(p: seq<int>, rank: seq<nat>, q: seq<int>)
    requires WellRanked(p, rank) && |q| > |rank|
    requires q[..|rank|] == p[..|rank|] && q[|rank|] == Self
    ensures WellRanked(q, rank + [0])
  {
    var rank' := rank + [0];
    forall i | 0 <= i < |rank'|
      ensures if q[i] <= Self then rank'[i] == DecodeRank(q[i])
              else q[i] < |rank'| && rank'[i] < rank'[q[i]]
    {
      if i < |rank| {
        assert q[i] == p[..|rank|][i] == p[i];
      }
    }
  }

  /**
   * Linking two distinct roots: `child` is attached under `root`, which is
   * stored again with rank `newRank`.  When `newRank` is at least the root's
   * rank and above the child's, the forest stays well formed and exactly the
   * nodes whose root was `child` now have root `root`.
   */
  lemma LinkWellRanked(p: seq<int>, rank: seq<nat>, root: int, child: int, newRank: nat)
    requires WellRanked(p, rank)
    requires 0 <= root < |rank| && 0 <= child < |rank| && root != child
    requires p[root] <= Self && p[child] <= Self
    requires rank[root] <= newRank && rank[child] < newRank
    ensures WellRanked(p[child := root][root := EncodeRank(newRank)], rank[root := newRank])
  {
  }

  lemma {:induction false} LinkRoot(p: seq<int>, rank: seq<nat>, root: int, child: int, newRank: nat, j: int)
    requires WellRanked(p, rank)
    requires 0 <= root < |rank| && 0 <= child < |rank| && root != child
    requires p[root] <= Self && p[child] <= Self
    requires rank[root] <= newRank && rank[child] < newRank
    requires 0 <= j < |rank|
    requires WellRanked(p[child := root][root := EncodeRank(newRank)], rank[root := newRank])
    ensures Root(p[child := root][root := EncodeRank(newRank)], rank[root := newRank], j) ==
              if Root(p, rank, j) == child then root else Root(p, rank, j)
    decreases MaxRank(rank) - rank[j]
  {
    var q := p[child := root][root := EncodeRank(newRank)];
    var rank' := rank[root := newRank];
    if p[j] <= Self {
      if j == child {
        assert Root(q, rank', j) == Root(q, rank', root);
      }
    } else {
      LinkRoot(p, rank, root, child, newRank, p[j]);
      assert Root(q, rank', j) == Root(q, rank', q[j]);
    }
  }
}
