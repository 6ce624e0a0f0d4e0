/** Parent arrays of a disjoint-set forest, viewed as values.

    A parent array `p` over the elements `0..|p|-1` stores for every element
    either the element itself (it is a root, the representative of its set)
    or another element one step closer to the root. This module defines where
    following parent pointers leads, which elements a walk visits, and how
    each rewrite the union-find performs (linking two roots, compressing a
    path, relabelling a flat array) changes roots and sets. */
module Forest {

  /** Every entry of `p` names an element of `0..|p|-1`. */
  ghost predicate InRange(p: seq<int>)
  {
    forall k :: 0 <= k < |p| ==> 0 <= p[k] < |p|
  }

  /** `d` witnesses that `p` has no cycles: an element that is not a root
      lies strictly deeper than its parent. */
  ghost predicate IsForest(p: seq<int>, d: seq<nat>)
  {
    && InRange(p)
    && |d| == |p|
    && forall k :: 0 <= k < |p| && p[k] != k ==> d[p[k]] < d[k]
  }

  /** The root reached by following parent pointers from `i`. */
  ghost function Root(p: seq<int>, d: seq<nat>, i: int): (r: int)
    requires IsForest(p, d) && 0 <= i < |p|
    ensures 0 <= r < |p| && p[r] == r
    ensures p[i] == i ==> r == i
    ensures p[i] != i ==> d[r] < d[i]
    decreases d[i]
  {
    if p[i] == i then i else Root(p, d, p[i])
  }

  /** The elements visited when following parent pointers from `i`, from `i`
      itself up to and including its root. */
  ghost function Path(p: seq<int>, d: seq<nat>, i: int): (s: set<int>)
    requires IsForest(p, d) && 0 <= i < |p|
    ensures i in s
    decreases d[i]
  {
    if p[i] == i then {i} else {i} + Path(p, d, p[i])
  }

  /** The path from `i` ends at `i`'s root, climbs strictly, and every element
      on it has the same root as `i`; it is closed under taking parents. */
  lemma {:induction false} PathFacts(p: seq<int>, d: seq<nat>, i: int)
    requires IsForest(p, d) && 0 <= i < |p|
    ensures Root(p, d, i) in Path(p, d, i)
    ensures forall k :: k in Path(p, d, i) ==>
      0 <= k < |p| && d[k] <= d[i] && Root(p, d, k) == Root(p, d, i)
    ensures forall k :: k in Path(p, d, i) && p[k] != k ==> p[k] in Path(p, d, i)
    decreases d[i]
  {
    if p[i] != i {
      PathFacts(p, d, p[i]);
    }
  }

  /** An array where every element is its own parent has one root per element. */
  lemma {:induction false} IdentityRoots(p: seq<int>)
    requires forall k :: 0 <= k < |p| ==> p[k] == k
    ensures |RootSet(p)| == |p|
  {
    if p != [] {
      var q := p[..|p| - 1];
      IdentityRoots(q);
      assert RootSet(p) == RootSet(q) + {|p| - 1};
    }
  }

  /** The roots of `p`: one per set. */
  ghost function RootSet(p: seq<int>): set<int>
  {
    set k | 0 <= k < |p| && p[k] == k
  }

  /** The root of every element, as a sequence indexed by element. */
  ghost function Representatives(p: seq<int>, d: seq<nat>): (reps: seq<int>)
    requires IsForest(p, d)
    ensures |reps| == |p|
    ensures forall k :: 0 <= k < |p| ==> reps[k] == Root(p, d, k)
  {
    seq(|p|, k requires 0 <= k < |p| && IsForest(p, d) => Root(p, d, k))
  }

  /** Every entry equal to `b` becomes `a`. On a parent array this is the
      quick-find rewrite; on representatives it moves the set of `b` into
      the set of `a`. */
  ghost function Relabel(p: seq<int>, a: int, b: int): seq<int>
  {
    seq(|p|, k requires 0 <= k < |p| => if p[k] == b then a else p[k])
  }

  /** A walk from `k` that starts inside the path from `i` stays inside it. */
  lemma {:induction false} PathClosed(p: seq<int>, d: seq<nat>, i: int, k: int)
    requires IsForest(p, d) && 0 <= i < |p| && 0 <= k < |p| && k in Path(p, d, i)
    ensures Path(p, d, k) <= Path(p, d, i)
    decreases d[i]
  {
    if k != i {
      PathClosed(p, d, p[i], k);
    }
  }

  // ---------------------------------------------------------------------
  // Linking: one root is made a child of another.
  // ---------------------------------------------------------------------

  /** A depth witness for `p[a := b]`: the whole tree of `a` moves below `b`. */
  ghost function LinkDepth(p: seq<int>, d: seq<nat>, a: int, b: int): seq<nat>
    requires IsForest(p, d) && 0 <= b < |p|
  {
    seq(|p|, k requires 0 <= k < |p| && IsForest(p, d) =>
      if Root(p, d, k) == a then d[k] + d[b] + 1 else d[k])
  }

  lemma LinkIsForest(p: seq<int>, d: seq<nat>, a: int, b: int)
    requires IsForest(p, d) && 0 <= a < |p| && 0 <= b < |p|
    requires p[a] == a && p[b] == b && a != b
    ensures IsForest(p[a := b], LinkDepth(p, d, a, b))
  {
    var q, e := p[a := b], LinkDepth(p, d, a, b);
    forall k | 0 <= k < |q| && q[k] != k
      ensures e[q[k]] < e[k]
    {
      if k != a {
        assert Root(p, d, k) == Root(p, d, p[k]);
      }
    }
  }

  /** After linking root `a` under root `b`, the members of `a`'s set have
      root `b`; every other element keeps its root. */
  lemma {:induction false} LinkRootAt(p: seq<int>, d: seq<nat>, a: int, b: int, k: int)
    requires IsForest(p, d) && 0 <= a < |p| && 0 <= b < |p| && 0 <= k < |p|
    requires p[a] == a && p[b] == b && a != b
    ensures IsForest(p[a := b], LinkDepth(p, d, a, b))
    ensures Root(p[a := b], LinkDepth(p, d, a, b), k)
            == if Root(p, d, k) == a then b else Root(p, d, k)
    decreases d[k]
  {
    LinkIsForest(p, d, a, b);
    var q, e := p[a := b], LinkDepth(p, d, a, b);
    if k == a {
      assert Root(q, e, k) == Root(q, e, b);
    } else if p[k] != k {
      LinkRootAt(p, d, a, b, p[k]);
      assert Root(q, e, k) == Root(q, e, p[k]);
    }
  }

  /** Linking two distinct roots: the forest stays acyclic, the sets of `a`
      and `b` become one with root `b`, and there is exactly one root less. */
  lemma Link(p: seq<int>, d: seq<nat>, a: int, b: int)
    requires IsForest(p, d) && 0 <= a < |p| && 0 <= b < |p|
    requires p[a] == a && p[b] == b && a != b
    ensures IsForest(p[a := b], LinkDepth(p, d, a, b))
    ensures forall k :: 0 <= k < |p| ==>
      Root(p[a := b], LinkDepth(p, d, a, b), k) == if Root(p, d, k) == a then b else Root(p, d, k)
    ensures Representatives(p[a := b], LinkDepth(p, d, a, b)) == Relabel(Representatives(p, d), b, a)
    ensures RootSet(p[a := b]) == RootSet(p) - {a}
    ensures |RootSet(p[a := b])| == |RootSet(p)| - 1
  {
    LinkIsForest(p, d, a, b);
    forall k | 0 <= k < |p|
      ensures Root(p[a := b], LinkDepth(p, d, a, b), k) == if Root(p, d, k) == a then b else Root(p, d, k)
    {
      LinkRootAt(p, d, a, b, k);
    }
    assert RootSet(p[a := b]) == RootSet(p) - {a};
  }

  // ---------------------------------------------------------------------
  // Path compression: every element on the path from `i` is re-pointed at
  // the root.
  // ---------------------------------------------------------------------

  /** The parent array after compressing the path from `i`. */
  ghost function Compress(p: seq<int>, d: seq<nat>, i: int): seq<int>
    requires IsForest(p, d) && 0 <= i < |p|
  {
    var path, r := Path(p, d, i), Root(p, d, i);
    seq(|p|, k requires 0 <= k < |p| => if k in path then r else p[k])
  }

  lemma CompressIsForest(p: seq<int>, d: seq<nat>, i: int)
    requires IsForest(p, d) && 0 <= i < |p|
    ensures IsForest(Compress(p, d, i), d)
    ensures RootSet(Compress(p, d, i)) == RootSet(p)
  {
    PathFacts(p, d, i);
    var q := Compress(p, d, i);
    assert RootSet(q) == RootSet(p);
  }

  /** Compressing a path changes no element's root. */
  lemma {:induction false} CompressRootAt(p: seq<int>, d: seq<nat>, i: int, k: int)
    requires IsForest(p, d) && 0 <= i < |p| && 0 <= k < |p|
    ensures IsForest(Compress(p, d, i), d)
    ensures Root(Compress(p, d, i), d, k) == Root(p, d, k)
    decreases d[k]
  {
    CompressIsForest(p, d, i);
    PathFacts(p, d, i);
    var q := Compress(p, d, i);
    if k in Path(p, d, i) {
      var r := Root(p, d, i);
      assert r in Path(p, d, i);
      if q[k] != k {
        assert Root(q, d, k) == Root(q, d, r);
      }
    } else if p[k] != k {
      CompressRootAt(p, d, i, p[k]);
      assert Root(q, d, k) == Root(q, d, p[k]);
    }
  }

  /** Compressing the path from `i`: the forest stays acyclic with the same
      depth witness, every element keeps its root, the roots stay the same. */
  lemma CompressPreserves(p: seq<int>, d: seq<nat>, i: int)
    requires IsForest(p, d) && 0 <= i < |p|
    ensures IsForest(Compress(p, d, i), d)
    ensures forall k :: 0 <= k < |p| ==> Root(Compress(p, d, i), d, k) == Root(p, d, k)
    ensures RootSet(Compress(p, d, i)) == RootSet(p)
    ensures Representatives(Compress(p, d, i), d) == Representatives(p, d)
  {
    CompressIsForest(p, d, i);
    forall k | 0 <= k < |p|
      ensures Root(Compress(p, d, i), d, k) == Root(p, d, k)
    {
      CompressRootAt(p, d, i, k);
    }
  }

  /** Compressing from a non-root `i` is compressing from its parent and then
      re-pointing `i` itself, which is the order the recursive find follows. */
  lemma CompressStep(p: seq<int>, d: seq<nat>, i: int)
    requires IsForest(p, d) && 0 <= i < |p| && p[i] != i
    ensures i !in Path(p, d, p[i])
    ensures Compress(p, d, i) == Compress(p, d, p[i])[i := Root(p, d, i)]
  {
    PathFacts(p, d, p[i]);
    var q, q' := Compress(p, d, i), Compress(p, d, p[i])[i := Root(p, d, i)];
    assert forall k :: 0 <= k < |p| ==> q[k] == q'[k];
  }

  /** After the path from `i` is compressed, the path from `j` only visits
      elements it visited before; those it no longer visits were on the path
      from `i`. */
  lemma {:induction false} PathAfterCompress(p: seq<int>, d: seq<nat>, i: int, j: int)
    requires IsForest(p, d) && 0 <= i < |p| && 0 <= j < |p|
    ensures IsForest(Compress(p, d, i), d)
    ensures Path(Compress(p, d, i), d, j) <= Path(p, d, j)
    ensures Path(p, d, j) - Path(Compress(p, d, i), d, j) <= Path(p, d, i)
    decreases d[j]
  {
    CompressPreserves(p, d, i);
    PathFacts(p, d, i);
    PathFacts(p, d, j);
    var q, r := Compress(p, d, i), Root(p, d, i);
    if q[j] == j {
      assert p[j] == j;
    } else if j in Path(p, d, i) {
      assert r in Path(p, d, i) && q[r] == r;
      assert Path(q, d, j) == {j, r};
      PathClosed(p, d, i, j);
    } else {
      PathAfterCompress(p, d, i, p[j]);
    }
  }

  /** Compressing the path from `i` and then the path from `j` re-points
      exactly the elements of both paths at their roots. */
  lemma CompressTwice(p: seq<int>, d: seq<nat>, i: int, j: int)
    requires IsForest(p, d) && 0 <= i < |p| && 0 <= j < |p|
    ensures IsForest(Compress(p, d, i), d)
    ensures forall k :: 0 <= k < |p| ==>
      Compress(Compress(p, d, i), d, j)[k]
      == if k in Path(p, d, i) || k in Path(p, d, j) then Root(p, d, k) else p[k]
  {
    CompressPreserves(p, d, i);
    PathAfterCompress(p, d, i, j);
    PathFacts(p, d, i);
    PathFacts(p, d, j);
  }

  /** The parent array a compressing union leaves: both paths compressed,
      then root `loser` (if the roots differ) re-pointed at `winner`. */
  ghost function CompressAndLink(p: seq<int>, d: seq<nat>, i: int, j: int, loser: int, winner: int): seq<int>
    requires IsForest(p, d) && 0 <= i < |p| && 0 <= j < |p| && 0 <= loser < |p|
  {
    CompressPreserves(p, d, i);
    var q := Compress(Compress(p, d, i), d, j);
    if loser != winner then q[loser := winner] else q
  }

  /** What a compressing union does to each entry: the losing root now
      points at the winning one, the elements of both paths point at their
      roots, every other entry is as before. */
  lemma CompressAndLinkAt(p: seq<int>, d: seq<nat>, i: int, j: int, loser: int, winner: int)
    requires IsForest(p, d) && 0 <= i < |p| && 0 <= j < |p|
    requires (loser == Root(p, d, i) && winner == Root(p, d, j))
          || (loser == Root(p, d, j) && winner == Root(p, d, i))
    ensures |CompressAndLink(p, d, i, j, loser, winner)| == |p|
    ensures forall k :: 0 <= k < |p| ==>
      CompressAndLink(p, d, i, j, loser, winner)[k]
      == if loser != winner && k == loser then winner
         else if k in Path(p, d, i) || k in Path(p, d, j) then Root(p, d, k)
         else p[k]
  {
    CompressTwice(p, d, i, j);
  }

  // ---------------------------------------------------------------------
  // Flat arrays, as the quick-find variant keeps them.
  // ---------------------------------------------------------------------

  /** Every entry is itself a root: `p[k]` is the representative of `k`. */
  ghost predicate Flat(p: seq<int>)
  {
    InRange(p) && forall k :: 0 <= k < |p| ==> p[p[k]] == p[k]
  }

  /** A depth witness for a flat array: roots at depth 0, the rest at 1. */
  ghost function FlatDepth(p: seq<int>): seq<nat>
  {
    seq(|p|, k requires 0 <= k < |p| => if p[k] == k then 0 else 1)
  }

  /** A flat array is a forest, witnessed by `FlatDepth`. */
  lemma FlatIsForest(p: seq<int>)
    requires Flat(p)
    ensures IsForest(p, FlatDepth(p))
  {
  }

  /** In a flat array, reading the entry is finding the root. */
  lemma FlatRoots(p: seq<int>, d: seq<nat>)
    requires Flat(p) && IsForest(p, d)
    ensures forall k :: 0 <= k < |p| ==> Root(p, d, k) == p[k]
    ensures Representatives(p, d) == p
  {
    forall k | 0 <= k < |p|
      ensures Root(p, d, k) == p[k]
    {
      if p[k] != k {
        assert Root(p, d, k) == Root(p, d, p[k]);
      }
    }
  }

  /** Relabelling one root's set with another root keeps the array flat and
      removes exactly one root. */
  lemma RelabelFlat(p: seq<int>, a: int, b: int)
    requires Flat(p) && 0 <= a < |p| && 0 <= b < |p| && p[a] == a && p[b] == b && a != b
    ensures Flat(Relabel(p, a, b))
    ensures RootSet(Relabel(p, a, b)) == RootSet(p) - {b}
    ensures |RootSet(Relabel(p, a, b))| == |RootSet(p)| - 1
  {
    var q := Relabel(p, a, b);
    assert RootSet(q) == RootSet(p) - {b};
  }

  /** A quick-find union on a flat array: relabelling the set of `j` to the
      representative of `i` keeps the array flat, moves exactly the members
      of `j`'s set into `i`'s and removes one set when they were different. */
  lemma QuickFindUnion(p0: seq<int>, d0: seq<nat>, p1: seq<int>, i: int, j: int)
    requires Flat(p0) && IsForest(p0, d0) && 0 <= i < |p0| && 0 <= j < |p0|
    requires p1 == Relabel(p0, p0[i], p0[j])
    ensures Flat(p1) && IsForest(p1, FlatDepth(p1))
    ensures p0[i] == p0[j] ==> p1 == p0
    ensures Representatives(p1, FlatDepth(p1))
         == Relabel(Representatives(p0, d0), Root(p0, d0, i), Root(p0, d0, j))
    ensures |RootSet(p1)| == |RootSet(p0)| - (if Root(p0, d0, i) == Root(p0, d0, j) then 0 else 1)
  {
    FlatRoots(p0, d0);
    if p0[i] == p0[j] {
      assert p1 == p0;
    } else {
      RelabelFlat(p0, p0[i], p0[j]);
    }
    FlatIsForest(p1);
    FlatRoots(p1, FlatDepth(p1));
  }

  // ---------------------------------------------------------------------
  // Ranks, as the union-by-rank variants keep them.
  // ---------------------------------------------------------------------

  /** Ranks are non-negative and grow strictly from child to parent. */
  ghost predicate RankOrdered(p: seq<int>, rk: seq<int>)
  {
    && InRange(p)
    && |rk| == |p|
    && (forall k :: 0 <= k < |rk| ==> 0 <= rk[k])
    && forall k :: 0 <= k < |p| && p[k] != k ==> rk[k] < rk[p[k]]
  }

  /** Under ordered ranks, a non-root has a smaller rank than its root. */
  lemma {:induction false} RankBelowRoot(p: seq<int>, d: seq<nat>, rk: seq<int>, k: int)
    requires IsForest(p, d) && RankOrdered(p, rk) && 0 <= k < |p| && p[k] != k
    ensures rk[k] < rk[Root(p, d, k)]
    decreases d[k]
  {
    if p[p[k]] != p[k] {
      RankBelowRoot(p, d, rk, p[k]);
    }
  }

  /** Path compression keeps ranks ordered: ranks do not change and each
      re-pointed element now hangs directly under its root. */
  lemma CompressKeepsRankOrder(p: seq<int>, d: seq<nat>, rk: seq<int>, i: int)
    requires IsForest(p, d) && RankOrdered(p, rk) && 0 <= i < |p|
    ensures RankOrdered(Compress(p, d, i), rk)
  {
    CompressPreserves(p, d, i);
    PathFacts(p, d, i);
    var q := Compress(p, d, i);
    forall k | 0 <= k < |q| && q[k] != k
      ensures rk[k] < rk[q[k]]
    {
      if k in Path(p, d, i) {
        RankBelowRoot(p, d, rk, k);
      }
    }
  }

  /** Linking root `a` under root `b` keeps ranks ordered when, in the new
      ranks, `a` ranks below `b` and only `b`'s rank may have grown. */
  lemma LinkKeepsRankOrder(p: seq<int>, rk: seq<int>, rk': seq<int>, a: int, b: int)
    requires RankOrdered(p, rk) && 0 <= a < |p| && 0 <= b < |p| && p[a] == a && p[b] == b
    requires |rk'| == |rk| && rk[b] <= rk'[b] && rk'[a] < rk'[b]
    requires forall k :: 0 <= k < |rk| && k != b ==> rk'[k] == rk[k]
    ensures RankOrdered(p[a := b], rk')
  {
  }

  // ---------------------------------------------------------------------
  // Sets as a partition: what a union does to "same set".
  // ---------------------------------------------------------------------

  /** `x` and `y` are in the same set under `reps` and under `reps'` alike. */
  ghost predicate SamePartition(reps: seq<int>, reps': seq<int>)
  {
    |reps| == |reps'| &&
    forall x, y :: 0 <= x < |reps| && 0 <= y < |reps| ==> (reps[x] == reps[y] <==> reps'[x] == reps'[y])
  }

  /** `after` puts `x` and `y` in one set exactly when `before` did, or one of
      them was with `i` and the other with `j`. */
  ghost predicate Merged(before: seq<int>, after: seq<int>, i: int, j: int)
    requires 0 <= i < |before| && 0 <= j < |before|
  {
    |after| == |before| &&
    forall x, y :: 0 <= x < |before| && 0 <= y < |before| ==>
      (after[x] == after[y] <==>
        || before[x] == before[y]
        || (before[x] == before[i] && before[y] == before[j])
        || (before[x] == before[j] && before[y] == before[i]))
  }

  /** Re-pointing one of the two sets' representatives at the other's is
      exactly the merge of the sets of `i` and `j`. */
  lemma MergedByRelabel(before: seq<int>, i: int, j: int, loser: int, winner: int)
    requires 0 <= i < |before| && 0 <= j < |before|
    requires (loser == before[i] && winner == before[j]) || (loser == before[j] && winner == before[i])
    ensures Merged(before, Relabel(before, winner, loser), i, j)
  {
  }

  /** Unions are variant-independent: whatever representatives two
      implementations choose, if they agree on "same set" before a union of
      `i` and `j`, they agree after it. */
  lemma MergedAgree(before: seq<int>, after: seq<int>, before': seq<int>, after': seq<int>, i: int, j: int)
    requires SamePartition(before, before') && 0 <= i < |before| && 0 <= j < |before|
    requires Merged(before, after, i, j) && Merged(before', after', i, j)
    ensures SamePartition(after, after')
  {
  }
}
