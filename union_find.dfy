/** The union-find structure over the elements `0..n-1`, with its five pairs
    of find and union operations. The `parent` and `rank` lists are arrays
    that the operations update in place. A ghost depth witness shows that
    the parent pointers form a forest, and gives the termination measure for
    the pointer-chasing loops and for the recursive compressing find. */
module DisjointSet {
  import opened Forest

  class UnionFind {
    /** The element count as given; a negative count gives empty arrays. */
    const n: int
    const parent: array<int>
    const rank: array<int>
    /** Depth witness: a non-root lies strictly deeper than its parent. */
    ghost var depth: seq<nat>

    /** The arrays have one entry per element and the parent pointers form
        a forest. */
    ghost predicate Valid()
      reads this, parent, rank
    {
      && parent != rank
      && parent.Length == rank.Length == (if n < 0 then 0 else n)
      && IsForest(parent[..], depth)
    }

    /** The representative of `k`'s set. */
    ghost function RootOf(k: int): int
      reads this, parent, rank
      requires Valid() && 0 <= k < parent.Length
    {
      Root(parent[..], depth, k)
    }

    /** The elements visited on the way from `k` to its root. */
    ghost function PathOf(k: int): set<int>
      reads this, parent, rank
      requires Valid() && 0 <= k < parent.Length
    {
      Path(parent[..], depth, k)
    }

    /** The representative of every element. */
    ghost function Reps(): seq<int>
      reads this, parent, rank
      requires Valid()
    {
      Representatives(parent[..], depth)
    }

    /** The number of sets. */
    ghost function SetCount(): nat
      reads this, parent
    {
      |RootSet(parent[..])|
    }

    /** The rank rule of the union-by-rank variants holds throughout. */
    ghost predicate RanksOrdered()
      reads this, parent, rank
    {
      RankOrdered(parent[..], rank[..])
    }

    /** `n` singleton sets: every element is its own parent, every rank 0. */
    constructor (n: int)
      ensures this.n == n && Valid() && fresh(parent) && fresh(rank)
      ensures parent.Length == (if n < 0 then 0 else n)
      ensures forall k :: 0 <= k < parent.Length ==> parent[k] == k && rank[k] == 0
      ensures forall k :: 0 <= k < parent.Length ==> RootOf(k) == k
      ensures SetCount() == parent.Length
      ensures Flat(parent[..]) && RanksOrdered()
    {
      var size := if n < 0 then 0 else n;
      this.n := n;
      parent := new int[size](k => k);
      rank := new int[size](_ => 0);
      depth := seq(size, _ => 0);
      new;
      IdentityRoots(parent[..]);
    }

    // -------------------------------------------------------------------
    // 1. Quick-find: `parent[k]` is directly the representative of `k`.
    // -------------------------------------------------------------------

    /** Reads the entry; on a flat array that is the representative. */
    function FindQuickFind(i: int): (r: int)
      reads this, parent, rank
      requires Valid() && 0 <= i < parent.Length
      ensures 0 <= r < parent.Length
      ensures Flat(parent[..]) ==> parent[r] == r && r == RootOf(i)
    {
      assert Flat(parent[..]) ==> parent[parent[i]] == parent[i] && parent[i] == RootOf(i) by {
        if Flat(parent[..]) {
          FlatRoots(parent[..], depth);
        }
      }
      parent[i]
    }

    /** Re-points every member of `j`'s set at `i`'s representative. */
    method UnionQuickFind(i: int, j: int)
      requires Valid() && Flat(parent[..]) && 0 <= i < parent.Length && 0 <= j < parent.Length
      modifies this, parent
      ensures Valid() && Flat(parent[..])
      ensures parent[..] == Relabel(old(parent[..]), old(parent[i]), old(parent[j]))
      ensures old(parent[i]) == old(parent[j]) ==> parent[..] == old(parent[..])
      ensures FindQuickFind(i) == FindQuickFind(j)
      ensures Reps() == Relabel(old(Reps()), old(RootOf(i)), old(RootOf(j)))
      ensures Merged(old(Reps()), Reps(), i, j)
      ensures SetCount() == old(SetCount()) - (if old(RootOf(i)) == old(RootOf(j)) then 0 else 1)
    {
      ghost var p0, d0 := parent[..], depth;
      var rootI := FindQuickFind(i);
      var rootJ := FindQuickFind(j);
      if rootI != rootJ {
        var k := 0;
        while k < n
          invariant 0 <= k <= parent.Length
          invariant forall m :: 0 <= m < k ==> parent[m] == Relabel(p0, rootI, rootJ)[m]
          invariant forall m :: k <= m < parent.Length ==> parent[m] == p0[m]
        {
          if parent[k] == rootJ {
            parent[k] := rootI;
          }
          k := k + 1;
        }
        assert parent[..] == Relabel(p0, rootI, rootJ);
      } else {
        assert Relabel(p0, rootI, rootJ) == p0;
      }
      QuickFindUnion(p0, d0, parent[..], i, j);
      depth := FlatDepth(parent[..]);
      MergedByRelabel(Representatives(p0, d0), i, j, Root(p0, d0, j), Root(p0, d0, i));
    }

    // -------------------------------------------------------------------
    // Linking two distinct roots, shared by the tree-based unions.
    // -------------------------------------------------------------------

    /** Makes root `a` a child of root `b`. */
    method Link(a: int, b: int)
      requires Valid() && 0 <= a < parent.Length && 0 <= b < parent.Length
      requires parent[a] == a && parent[b] == b && a != b
      modifies this, parent
      ensures Valid()
      ensures parent[..] == old(parent[..])[a := b]
      ensures Reps() == Relabel(old(Reps()), b, a)
      ensures SetCount() == old(SetCount()) - 1
    {
      ghost var p0 := parent[..];
      Forest.Link(p0, depth, a, b);
      depth := LinkDepth(p0, depth, a, b);
      parent[a] := b;
      assert parent[..] == p0[a := b];
    }

    // -------------------------------------------------------------------
    // 2. Quick-union: plain root linking.
    // -------------------------------------------------------------------

    /** Follows parent pointers to the root; changes nothing. */
    method FindQuickUnion(i: int) returns (r: int)
      requires Valid() && 0 <= i < parent.Length
      ensures 0 <= r < parent.Length && parent[r] == r
      ensures r in PathOf(i) && r == RootOf(i)
    {
      PathFacts(parent[..], depth, i);
      r := i;
      while r != parent[r]
        invariant 0 <= r < parent.Length
        invariant r in PathOf(i)
        decreases depth[r]
      {
        r := parent[r];
      }
    }

    /** Puts the root of `i` under the root of `j`. */
    method UnionQuickUnion(i: int, j: int)
      requires Valid() && 0 <= i < parent.Length && 0 <= j < parent.Length
      modifies this, parent
      ensures Valid()
      ensures var a, b := old(RootOf(i)), old(RootOf(j));
        parent[..] == if a == b then old(parent[..]) else old(parent[..])[a := b]
      ensures Reps() == Relabel(old(Reps()), old(RootOf(j)), old(RootOf(i)))
      ensures RootOf(i) == RootOf(j)
      ensures Merged(old(Reps()), Reps(), i, j)
      ensures SetCount() == old(SetCount()) - (if old(RootOf(i)) == old(RootOf(j)) then 0 else 1)
    {
      ghost var reps0 := Reps();
      var rootI := FindQuickUnion(i);
      var rootJ := FindQuickUnion(j);
      if rootI != rootJ {
        Link(rootI, rootJ);
      } else {
        assert Relabel(reps0, rootJ, rootI) == reps0;
      }
      MergedByRelabel(reps0, i, j, rootI, rootJ);
    }

    // -------------------------------------------------------------------
    // 3. Union by rank: the lower-rank root goes under the higher one.
    // -------------------------------------------------------------------

    /** Follows parent pointers to the root; changes nothing. */
    method FindUnionByRank(i: int) returns (r: int)
      requires Valid() && 0 <= i < parent.Length
      ensures 0 <= r < parent.Length && parent[r] == r
      ensures r in PathOf(i) && r == RootOf(i)
    {
      PathFacts(parent[..], depth, i);
      r := i;
      while r != parent[r]
        invariant 0 <= r < parent.Length
        invariant r in PathOf(i)
        decreases depth[r]
      {
        r := parent[r];
      }
    }

    /** The rank rule applied to the distinct roots `a` and `b`. */
    method LinkByRank(a: int, b: int)
      requires Valid() && 0 <= a < parent.Length && 0 <= b < parent.Length
      requires parent[a] == a && parent[b] == b && a != b
      modifies this, parent, rank
      ensures Valid()
      ensures old(rank[a]) < old(rank[b]) ==>
        parent[..] == old(parent[..])[a := b] && rank[..] == old(rank[..])
      ensures old(rank[a]) > old(rank[b]) ==>
        parent[..] == old(parent[..])[b := a] && rank[..] == old(rank[..])
      ensures old(rank[a]) == old(rank[b]) ==>
        parent[..] == old(parent[..])[b := a] && rank[..] == old(rank[..])[a := old(rank[a]) + 1]
      ensures var (loser, winner) := if old(rank[a]) < old(rank[b]) then (a, b) else (b, a);
        Reps() == Relabel(old(Reps()), winner, loser)
      ensures forall k :: 0 <= k < rank.Length ==> old(rank[k]) <= rank[k]
      ensures SetCount() == old(SetCount()) - 1
      ensures old(RanksOrdered()) ==> RanksOrdered()
    {
      ghost var p0, rk0 := parent[..], rank[..];
      if rank[a] < rank[b] {
        Link(a, b);
        if RankOrdered(p0, rk0) {
          LinkKeepsRankOrder(p0, rk0, rank[..], a, b);
        }
      } else if rank[a] > rank[b] {
        Link(b, a);
        if RankOrdered(p0, rk0) {
          LinkKeepsRankOrder(p0, rk0, rank[..], b, a);
        }
      } else {
        Link(b, a);
        rank[a] := rank[a] + 1;
        if RankOrdered(p0, rk0) {
          LinkKeepsRankOrder(p0, rk0, rank[..], b, a);
        }
      }
    }

    /** Links the two roots by the rank rule. */
    method UnionUnionByRank(i: int, j: int)
      requires Valid() && 0 <= i < parent.Length && 0 <= j < parent.Length
      modifies this, parent, rank
      ensures Valid()
      ensures var a, b := old(RootOf(i)), old(RootOf(j));
        if a == b then parent[..] == old(parent[..]) && rank[..] == old(rank[..])
        else if old(rank[a]) < old(rank[b]) then
          parent[..] == old(parent[..])[a := b] && rank[..] == old(rank[..])
        else if old(rank[a]) > old(rank[b]) then
          parent[..] == old(parent[..])[b := a] && rank[..] == old(rank[..])
        else
          parent[..] == old(parent[..])[b := a] && rank[..] == old(rank[..])[a := old(rank[a]) + 1]
      ensures forall k :: 0 <= k < rank.Length ==> old(rank[k]) <= rank[k]
      ensures var a, b := old(RootOf(i)), old(RootOf(j));
        var (loser, winner) := if old(rank[a]) < old(rank[b]) then (a, b) else (b, a);
        Reps() == Relabel(old(Reps()), winner, loser)
      ensures RootOf(i) == RootOf(j)
      ensures Merged(old(Reps()), Reps(), i, j)
      ensures SetCount() == old(SetCount()) - (if old(RootOf(i)) == old(RootOf(j)) then 0 else 1)
      ensures old(RanksOrdered()) ==> RanksOrdered()
    {
      ghost var reps0 := Reps();
      var rootI := FindUnionByRank(i);
      var rootJ := FindUnionByRank(j);
      ghost var (loser, winner) := if rank[rootI] < rank[rootJ] then (rootI, rootJ) else (rootJ, rootI);
      if rootI != rootJ {
        LinkByRank(rootI, rootJ);
      } else {
        assert Relabel(reps0, winner, loser) == reps0;
      }
      MergedByRelabel(reps0, i, j, loser, winner);
    }

    // -------------------------------------------------------------------
    // 4. Path compression: the recursive find re-points every element it
    //    passes at the root.
    // -------------------------------------------------------------------

    /** Finds the root and, as the recursion unwinds, re-points every
        element on the way at it. */
    method FindPathCompression(i: int) returns (r: int)
      requires Valid() && 0 <= i < parent.Length
      modifies parent
      ensures Valid()
      ensures r == old(RootOf(i)) && parent[i] == r
      ensures parent[..] == Compress(old(parent[..]), depth, i)
      ensures Reps() == old(Reps())
      ensures SetCount() == old(SetCount())
      ensures old(RanksOrdered()) ==> RanksOrdered()
      decreases depth[i]
    {
      ghost var p0 := parent[..];
      if i != parent[i] {
        CompressStep(p0, depth, i);
        var root := FindPathCompression(parent[i]);
        parent[i] := root;
        assert parent[..] == Compress(p0, depth, p0[i])[i := root];
      }
      CompressPreserves(p0, depth, i);
      if RankOrdered(p0, rank[..]) {
        CompressKeepsRankOrder(p0, depth, rank[..], i);
      }
      r := parent[i];
    }

    /** Finds both roots with compression, then puts the root of `i` under
        the root of `j`. */
    method UnionPathCompression(i: int, j: int)
      requires Valid() && 0 <= i < parent.Length && 0 <= j < parent.Length
      modifies this, parent
      ensures Valid()
      ensures parent[..] == CompressAndLink(old(parent[..]), old(depth), i, j, old(RootOf(i)), old(RootOf(j)))
      ensures Reps() == Relabel(old(Reps()), old(RootOf(j)), old(RootOf(i)))
      ensures RootOf(i) == RootOf(j)
      ensures Merged(old(Reps()), Reps(), i, j)
      ensures SetCount() == old(SetCount()) - (if old(RootOf(i)) == old(RootOf(j)) then 0 else 1)
    {
      ghost var p0, d0, reps0 := parent[..], depth, Reps();
      CompressPreserves(p0, d0, i);
      var rootI := FindPathCompression(i);
      ghost var p1 := parent[..];
      assert p1 == Compress(p0, d0, i);
      var rootJ := FindPathCompression(j);
      ghost var p2 := parent[..];
      assert p2 == Compress(p1, d0, j);
      if rootI != rootJ {
        Link(rootI, rootJ);
        assert parent[..] == p2[rootI := rootJ];
      } else {
        assert Relabel(reps0, rootJ, rootI) == reps0;
      }
      assert parent[..] == CompressAndLink(p0, d0, i, j, rootI, rootJ);
      MergedByRelabel(reps0, i, j, rootI, rootJ);
    }

    // -------------------------------------------------------------------
    // 5. Optimized: union by rank combined with path compression.
    // -------------------------------------------------------------------

    /** Finds the root and, as the recursion unwinds, re-points every
        element on the way at it. */
    method FindOptimized(i: int) returns (r: int)
      requires Valid() && 0 <= i < parent.Length
      modifies parent
      ensures Valid()
      ensures r == old(RootOf(i)) && parent[i] == r
      ensures parent[..] == Compress(old(parent[..]), depth, i)
      ensures Reps() == old(Reps())
      ensures SetCount() == old(SetCount())
      ensures old(RanksOrdered()) ==> RanksOrdered()
      decreases depth[i]
    {
      ghost var p0 := parent[..];
      if i != parent[i] {
        CompressStep(p0, depth, i);
        var root := FindOptimized(parent[i]);
        parent[i] := root;
        assert parent[..] == Compress(p0, depth, p0[i])[i := root];
      }
      CompressPreserves(p0, depth, i);
      if RankOrdered(p0, rank[..]) {
        CompressKeepsRankOrder(p0, depth, rank[..], i);
      }
      r := parent[i];
    }

    /** Finds both roots with compression, then links them by the rank rule. */
    method UnionOptimized(i: int, j: int)
      requires Valid() && 0 <= i < parent.Length && 0 <= j < parent.Length
      modifies this, parent, rank
      ensures Valid()
      ensures var a, b := old(RootOf(i)), old(RootOf(j));
        var lower := old(rank[a]) < old(rank[b]);
        parent[..] == CompressAndLink(old(parent[..]), old(depth), i, j, if lower then a else b, if lower then b else a)
      ensures var a, b := old(RootOf(i)), old(RootOf(j));
        rank[..] == if a != b && old(rank[a]) == old(rank[b]) then old(rank[..])[a := old(rank[a]) + 1]
                    else old(rank[..])
      ensures forall k :: 0 <= k < rank.Length ==> old(rank[k]) <= rank[k]
      ensures var a, b := old(RootOf(i)), old(RootOf(j));
        var (loser, winner) := if old(rank[a]) < old(rank[b]) then (a, b) else (b, a);
        Reps() == Relabel(old(Reps()), winner, loser)
      ensures RootOf(i) == RootOf(j)
      ensures Merged(old(Reps()), Reps(), i, j)
      ensures SetCount() == old(SetCount()) - (if old(RootOf(i)) == old(RootOf(j)) then 0 else 1)
      ensures old(RanksOrdered()) ==> RanksOrdered()
    {
      ghost var p0, d0, reps0 := parent[..], depth, Reps();
      CompressPreserves(p0, d0, i);
      var rootI := FindOptimized(i);
      ghost var p1 := parent[..];
      assert p1 == Compress(p0, d0, i);
      var rootJ := FindOptimized(j);
      ghost var p2 := parent[..];
      assert p2 == Compress(p1, d0, j);
      ghost var (loser, winner) := if rank[rootI] < rank[rootJ] then (rootI, rootJ) else (rootJ, rootI);
      if rootI != rootJ {
        LinkByRank(rootI, rootJ);
        assert parent[..] == p2[loser := winner];
      } else {
        assert Relabel(reps0, winner, loser) == reps0;
      }
      assert parent[..] == CompressAndLink(p0, d0, i, j, loser, winner);
      MergedByRelabel(reps0, i, j, loser, winner);
    }
  }
}
