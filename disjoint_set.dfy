/**
 * The array-backed disjoint-set forest with path compression and
 * union-by-rank.  Items are registered with `MakeSet`, which hands out the
 * dense ids 0, 1, 2, ... from an instance counter; `pointers` holds the forest
 * over those ids in the encoding described in module Forest.
 */
module DisjointSet {
  import opened Wrappers
  import opened Forest

  /** The exceptions the source throws (all `IllegalArgumentException` there). */
  datatype SetError = DuplicateItem | UnknownItem | SameComponent

  /** Capacity of a fresh `pointers` array. */
  const InitialSize: nat := 10

  /** What the id lookup answers for an item that was never registered. */
  const NullIndex: int := -1

  /** `ids` maps the registered items one-to-one onto `0 .. n-1`. */
  ghost predicate DenseIds<T>(ids: map<T, int>, n: nat)
  {
    && (forall x :: x in ids ==> 0 <= ids[x] < n)
    && (forall x, y :: x in ids && y in ids && x != y ==> ids[x] != ids[y])
    && |ids| == n
  }

  /** Giving a new item the next id keeps the ids dense and one-to-one. */
  lemma DenseIdsExtend<T>(ids: map<T, int>, n: nat, item: T)
    requires DenseIds(ids, n) && item !in ids
    ensures DenseIds(ids[item := n], n + 1)
  {
  }

  class ArrayDisjointSet<T(==)> {
    var pointers: array<int>
    var indexSet: map<T, int>
    var nextUniqueID: int

    /** Rank of every registered id; for a root it is the rank its slot encodes. */
    ghost var rank: seq<nat>
    ghost var Repr: set<object>

    ghost predicate Valid()
      reads this, Repr
    {
      && Repr == {this, pointers}
      && InitialSize <= pointers.Length
      && nextUniqueID == |rank| - 1
      && WellRanked(pointers[..], rank)
      && DenseIds(indexSet, |rank|)
    }

    /** The root of id `i` in the current forest. */
    ghost function Find(i: int): (r: int)
      reads this, Repr
      requires Valid() && 0 <= i < |rank|
      ensures 0 <= r < |rank| && pointers[r] <= Self
    {
      Root(pointers[..], rank, i)
    }

    /** The representative of a registered item: the root of its id. */
    ghost function Rep(x: T): int
      reads this, Repr
      requires Valid() && x in indexSet
    {
      Find(indexSet[x])
    }

    constructor ()
      ensures Valid() && fresh(Repr)
      ensures indexSet == map[] && nextUniqueID == -1 && pointers.Length == InitialSize
    {
      indexSet := map[];
      pointers := new int[InitialSize](_ => 0);
      nextUniqueID := -1;
      rank := [];
      Repr := {this, pointers};
    }

    /** The id of `item`, or `NullIndex` when it was never registered. */
    function GetUniqueID(item: T): (id: int)
      reads this, Repr
      requires Valid()
      ensures id == NullIndex <==> item !in indexSet
      ensures item in indexSet ==> id == indexSet[item] && 0 <= id < |rank|
    {
      if item in indexSet then indexSet[item] else NullIndex
    }

    /** Takes the next id from the counter and records it for `item`. */
    method ApplyUniqueID(item: T) returns (id: int)
      modifies this
      ensures id == old(nextUniqueID) + 1 && nextUniqueID == id
      ensures indexSet == old(indexSet)[item := id]
      ensures pointers == old(pointers) && rank == old(rank) && Repr == old(Repr)
    {
      nextUniqueID := nextUniqueID + 1;
      indexSet := indexSet[item := nextUniqueID];
      id := nextUniqueID;
    }

    /** Replaces `pointers` by an array of twice the length holding the old entries first. */
    method Expand()
      modifies this
      ensures fresh(pointers) && pointers.Length == 2 * old(pointers.Length)
      ensures pointers[..old(pointers.Length)] == old(pointers[..])
      ensures forall i :: old(pointers.Length) <= i < pointers.Length ==> pointers[i] == 0
      ensures indexSet == old(indexSet) && nextUniqueID == old(nextUniqueID)
      ensures rank == old(rank) && Repr == old(Repr)
    {
      var newPointers := new int[2 * pointers.Length](_ => 0);
      for i := 0 to pointers.Length
        modifies newPointers
        invariant newPointers[..i] == pointers[..i]
        invariant forall k :: pointers.Length <= k < newPointers.Length ==> newPointers[k] == 0
      {
        newPointers[i] := pointers[i];
      }
      pointers := newPointers;
    }

    /**
     * Registers `item` as a singleton set under the next id, growing the
     * array when that id does not fit; an already registered item is refused
     * and nothing changes.
     */
    method MakeSet(item: T) returns (res: Outcome<SetError>)
      requires Valid()
      modifies Repr
      ensures Valid() && fresh(Repr - old(Repr))
      ensures old(item in indexSet) ==>
                && res == Fail(DuplicateItem)
                && indexSet == old(indexSet) && rank == old(rank)
                && pointers == old(pointers) && pointers[..] == old(pointers[..])
      ensures old(item !in indexSet) ==>
                && res == Pass
                && indexSet == old(indexSet)[item := old(|rank|)]
                && |rank| == old(|rank|) + 1
                && indexSet[item] < pointers.Length && pointers[indexSet[item]] == Self
                && Rep(item) == indexSet[item]
                && pointers[..old(|rank|)] == old(pointers[..|rank|])
                && forall x :: x in old(indexSet) ==> Rep(x) == old(Rep(x))
    {
      var index := GetUniqueID(item);
      if index != NullIndex {
        return Fail(DuplicateItem);
      }
      ghost var p0, ids0, rank0 := pointers[..], indexSet, rank;
      ghost var n := |rank|;
      DenseIdsExtend(indexSet, n, item);
      index := ApplyUniqueID(item);
      if index >= pointers.Length {
        Expand();
      }
      pointers[index] := Self;
      assert pointers[..n] == p0[..n];
      ExtendRoots(p0, rank, pointers[..]);
      rank := rank + [0];
      Repr := {this, pointers};
      res := Pass;
      assert Valid();
      forall x | x in ids0 ensures Rep(x) == Root(p0, rank0, ids0[x]) {
        assert indexSet[x] == ids0[x] < n;
      }
    }

    /**
     * Follows parent pointers from `ptr` to the root and re-points every
     * visited node at it on the way back (the recursive `findSetUtil`).
     */
    method FindSetUtil(ptr: int) returns (root: int)
      requires Valid() && 0 <= ptr < |rank|
      modifies pointers
      ensures Valid()
      ensures indexSet == old(indexSet) && rank == old(rank) && nextUniqueID == old(nextUniqueID)
      ensures pointers == old(pointers) && Repr == old(Repr)
      ensures root == Root(old(pointers[..]), rank, ptr)
      ensures pointers[..] == Compress(old(pointers[..]), rank, ptr)
      decreases MaxRank(rank) - rank[ptr]
    {
      ghost var p0 := pointers[..];
      if pointers[ptr] <= Self {
        return ptr;
      }
      root := FindSetUtil(pointers[ptr]);
      pointers[ptr] := root;
      CompressKeepsRoots(p0, rank, ptr);
    }

    /**
     * The representative id of a registered item, compressing its path; an
     * unregistered item is refused.  No item's representative changes.
     */
    method FindSet(item: T) returns (res: Result<int, SetError>)
      requires Valid()
      modifies pointers
      ensures Valid()
      ensures indexSet == old(indexSet) && rank == old(rank) && nextUniqueID == old(nextUniqueID)
      ensures pointers == old(pointers) && Repr == old(Repr)
      ensures item !in indexSet ==> res == Failure(UnknownItem) && pointers[..] == old(pointers[..])
      ensures item in indexSet ==>
                && res == Success(old(Rep(item)))
                && pointers[..] == Compress(old(pointers[..]), rank, indexSet[item])
      ensures forall x :: x in indexSet ==> Rep(x) == old(Rep(x))
      ensures forall k :: 0 <= k < pointers.Length && old(pointers[k]) <= Self ==> pointers[k] == old(pointers[k])
    {
      var index := GetUniqueID(item);
      if index == NullIndex {
        return Failure(UnknownItem);
      }
      ghost var p0 := pointers[..];
      var root := FindSetUtil(index);
      CompressKeepsRoots(p0, rank, index);
      forall k | 0 <= k < pointers.Length && p0[k] <= Self ensures pointers[k] == p0[k] {
        CompressShape(p0, rank, index, k);
        assert pointers[k] == pointers[..][k];
      }
      res := Success(root);
    }

    /**
     * Merges the sets of two registered items by rank: the root of lower rank
     * goes under the other; on equal ranks the first item's root stays root
     * and its rank grows by one.  Unknown items and items already in one set
     * are refused; no representative changes then.
     */
    method Union(item1: T, item2: T) returns (res: Outcome<SetError>)
      requires Valid()
      modifies Repr
      ensures Valid() && Repr == old(Repr)
      ensures indexSet == old(indexSet) && nextUniqueID == old(nextUniqueID)
      ensures item1 !in indexSet || item2 !in indexSet ==>
                && res == Fail(UnknownItem) && rank == old(rank)
                && forall x :: x in indexSet ==> Rep(x) == old(Rep(x))
      ensures item1 in indexSet && item2 in indexSet && old(Rep(item1)) == old(Rep(item2)) ==>
                && res == Fail(SameComponent) && rank == old(rank)
                && forall x :: x in indexSet ==> Rep(x) == old(Rep(x))
      ensures item1 in indexSet && item2 in indexSet && old(Rep(item1)) != old(Rep(item2)) ==>
                && res == Pass
                && Rep(item1) == Rep(item2)
                && (forall x :: x in indexSet ==>
                      Rep(x) == if old(Rep(x)) == old(Rep(item1)) || old(Rep(x)) == old(Rep(item2))
                                then Rep(item1) else old(Rep(x)))
                && var rootA, rootB := old(Rep(item1)), old(Rep(item2));
                   var rankA, rankB := old(DecodeRank(pointers[Rep(item1)])), old(DecodeRank(pointers[Rep(item2)]));
                   && Rep(item1) == (if rankA >= rankB then rootA else rootB)
                   && (rankA == rankB ==> pointers[rootB] == rootA && pointers[rootA] == EncodeRank(rankA + 1))
                   && (rankA < rankB ==> pointers[rootA] == rootB && pointers[rootB] == EncodeRank(rankB))
                   && (rankA > rankB ==> pointers[rootB] == rootA && pointers[rootA] == EncodeRank(rankA))
                   && (rankA == rankB ==> rank == old(rank)[rootA := rankA + 1])
                   && (rankA < rankB ==> rank == old(rank)[rootB := rankB])
                   && (rankA > rankB ==> rank == old(rank)[rootA := rankA])
                   && (forall k :: 0 <= k < pointers.Length && k != rootA && k != rootB && old(pointers[k]) <= Self ==>
                         pointers[k] == old(pointers[k]))
    {
      var found := FindRoots(item1, item2);
      if found.Failure? {
        return Fail(found.error);
      }
      var rootA, rootB := found.value.0, found.value.1;
      if rootA == rootB {
        return Fail(SameComponent);
      }
      label Found:
      assert old(pointers[rootA]) == pointers[rootA] && old(pointers[rootB]) == pointers[rootB];
      LinkItems(item1, item2, rootA, rootB);
      res := Pass;
      forall x | x in indexSet
        ensures Rep(x) == if old(Rep(x)) == rootA || old(Rep(x)) == rootB then Rep(item1) else old(Rep(x))
      {
        assert old@Found(Rep(x)) == old(Rep(x));
      }
      forall k | 0 <= k < pointers.Length && k != rootA && k != rootB && old(pointers[k]) <= Self
        ensures pointers[k] == old(pointers[k])
      {
        assert old@Found(pointers[k]) == old(pointers[k]);
      }
    }

    /**
     * The two `findSet` calls that open `union`: the roots of both items, or
     * `UnknownItem` for the first unregistered one.  Compression changes no
     * representative, no rank and no root slot.
     */
    method FindRoots(item1: T, item2: T) returns (found: Result<(int, int), SetError>)
      requires Valid()
      modifies Repr
      ensures Valid() && Repr == old(Repr) && pointers == old(pointers)
      ensures indexSet == old(indexSet) && rank == old(rank) && nextUniqueID == old(nextUniqueID)
      ensures item1 !in indexSet || item2 !in indexSet ==> found == Failure(UnknownItem)
      ensures item1 in indexSet && item2 in indexSet ==> found == Success((old(Rep(item1)), old(Rep(item2))))
      ensures forall x :: x in indexSet ==> Rep(x) == old(Rep(x))
      ensures forall k :: 0 <= k < pointers.Length && old(pointers[k]) <= Self ==> pointers[k] == old(pointers[k])
    {
      var resA := FindSet(item1);
      if resA.Failure? {
        return Failure(resA.error);
      }
      label AfterA:
      var resB := FindSet(item2);
      assert forall x :: x in indexSet ==> Rep(x) == old(Rep(x)) by {
        forall x | x in indexSet ensures Rep(x) == old(Rep(x)) {
          assert Rep(x) == old@AfterA(Rep(x));
        }
      }
      if resB.Failure? {
        return Failure(resB.error);
      }
      found := Success((resA.value, resB.value));
    }

    /** The successful end of `union`: links the distinct roots of two registered items by rank. */
    method LinkItems(ghost item1: T, ghost item2: T, rootA: int, rootB: int)
      requires Valid() && item1 in indexSet && item2 in indexSet
      requires rootA == Rep(item1) && rootB == Rep(item2) && rootA != rootB
      modifies this, pointers
      ensures Valid() && Repr == old(Repr) && pointers == old(pointers)
      ensures indexSet == old(indexSet) && nextUniqueID == old(nextUniqueID)
      ensures Rep(item1) == Rep(item2)
      ensures forall x :: x in indexSet ==>
                Rep(x) == if old(Rep(x)) == rootA || old(Rep(x)) == rootB then Rep(item1) else old(Rep(x))
      ensures var rankA, rankB := old(DecodeRank(pointers[rootA])), old(DecodeRank(pointers[rootB]));
              && Rep(item1) == (if rankA >= rankB then rootA else rootB)
              && (rankA == rankB ==> pointers[rootB] == rootA && pointers[rootA] == EncodeRank(rankA + 1))
              && (rankA < rankB ==> pointers[rootA] == rootB && pointers[rootB] == EncodeRank(rankB))
              && (rankA > rankB ==> pointers[rootB] == rootA && pointers[rootA] == EncodeRank(rankA))
      ensures var rankA, rankB := old(DecodeRank(pointers[rootA])), old(DecodeRank(pointers[rootB]));
              && (rankA == rankB ==> pointers[..] == old(pointers[..])[rootB := rootA][rootA := EncodeRank(rankA + 1)])
              && (rankA == rankB ==> rank == old(rank)[rootA := rankA + 1])
              && (rankA < rankB ==> pointers[..] == old(pointers[..])[rootA := rootB][rootB := EncodeRank(rankB)])
              && (rankA < rankB ==> rank == old(rank)[rootB := rankB])
              && (rankA > rankB ==> pointers[..] == old(pointers[..])[rootB := rootA][rootA := EncodeRank(rankA)])
              && (rankA > rankB ==> rank == old(rank)[rootA := rankA])
      ensures forall k :: 0 <= k < pointers.Length && k != rootA && k != rootB ==> pointers[k] == old(pointers[k])
    {
      LinkByRank(rootA, rootB);
      forall x | x in indexSet
        ensures Rep(x) == if old(Rep(x)) == rootA || old(Rep(x)) == rootB then Rep(item1) else old(Rep(x))
      {
      }
    }

    /**
     * The rank comparison of `union` on two distinct roots: the root of lower
     * rank is attached under the other, whose rank stays; on equal ranks
     * `rootA` stays root and its rank grows by one.
     */
    method LinkByRank(rootA: int, rootB: int)
      requires Valid() && 0 <= rootA < |rank| && 0 <= rootB < |rank| && rootA != rootB
      requires pointers[rootA] <= Self && pointers[rootB] <= Self
      modifies this, pointers
      ensures Valid()
      ensures indexSet == old(indexSet) && nextUniqueID == old(nextUniqueID)
      ensures pointers == old(pointers) && Repr == old(Repr)
      ensures var rankA, rankB := old(DecodeRank(pointers[rootA])), old(DecodeRank(pointers[rootB]));
              && (rankA == rankB ==> pointers[rootB] == rootA && pointers[rootA] == EncodeRank(rankA + 1))
              && (rankA < rankB ==> pointers[rootA] == rootB && pointers[rootB] == EncodeRank(rankB))
              && (rankA > rankB ==> pointers[rootB] == rootA && pointers[rootA] == EncodeRank(rankA))
      ensures var rankA, rankB := old(DecodeRank(pointers[rootA])), old(DecodeRank(pointers[rootB]));
              && (rankA == rankB ==> pointers[..] == old(pointers[..])[rootB := rootA][rootA := EncodeRank(rankA + 1)])
              && (rankA == rankB ==> rank == old(rank)[rootA := rankA + 1])
              && (rankA < rankB ==> pointers[..] == old(pointers[..])[rootA := rootB][rootB := EncodeRank(rankB)])
              && (rankA < rankB ==> rank == old(rank)[rootB := rankB])
              && (rankA > rankB ==> pointers[..] == old(pointers[..])[rootB := rootA][rootA := EncodeRank(rankA)])
              && (rankA > rankB ==> rank == old(rank)[rootA := rankA])
      ensures forall k :: 0 <= k < pointers.Length && k != rootA && k != rootB ==> pointers[k] == old(pointers[k])
      ensures forall j :: 0 <= j < |rank| ==>
                Find(j) == if old(Find(j)) == rootA || old(Find(j)) == rootB then Find(rootA) else old(Find(j))
      ensures Find(rootA) == Find(rootB)
      ensures Find(rootA) == if old(DecodeRank(pointers[rootA])) >= old(DecodeRank(pointers[rootB])) then rootA else rootB
    {
      var rankA := DecodeRank(pointers[rootA]);
      var rankB := DecodeRank(pointers[rootB]);
      assert old(Find(rootA)) == rootA && old(Find(rootB)) == rootB;
      if rankA == rankB {
        UnionUtil(rootA, rootB, rankA + 1);
      } else if rankA < rankB {
        UnionUtil(rootB, rootA, rankB);
      } else {
        UnionUtil(rootA, rootB, rankA);
      }
    }

    /** Attaches root `child` under root `root`, which is then stored with rank `newRank`. */
    method UnionUtil(root: int, child: int, newRank: nat)
      requires Valid() && 0 <= root < |rank| && 0 <= child < |rank| && root != child
      requires pointers[root] <= Self && pointers[child] <= Self
      requires DecodeRank(pointers[root]) <= newRank && DecodeRank(pointers[child]) < newRank
      modifies this, pointers
      ensures Valid()
      ensures indexSet == old(indexSet) && nextUniqueID == old(nextUniqueID)
      ensures pointers == old(pointers) && Repr == old(Repr)
      ensures pointers[..] == old(pointers[..])[child := root][root := EncodeRank(newRank)]
      ensures pointers[child] == root && pointers[root] == EncodeRank(newRank)
      ensures rank == old(rank)[root := newRank]
      ensures forall k :: 0 <= k < pointers.Length && k != root && k != child ==> pointers[k] == old(pointers[k])
      ensures forall j :: 0 <= j < |rank| ==>
                Find(j) == if old(Find(j)) == child then root else old(Find(j))
    {
      ghost var p0 := pointers[..];
      pointers[child] := root;
      pointers[root] := EncodeRank(newRank);
      LinkWellRanked(p0, rank, root, child, newRank);
      ghost var rank0 := rank;
      rank := rank[root := newRank];
      forall j | 0 <= j < |rank|
        ensures Root(pointers[..], rank, j) == if Root(p0, rank0, j) == child then root else Root(p0, rank0, j)
      {
        LinkRoot(p0, rank0, root, child, newRank, j);
      }
    }
  }
}
