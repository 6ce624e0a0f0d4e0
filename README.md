# Disjoint sets and graph representations in Dafny

This project models two small Python classes and proves what they compute.

`UnionFind` (zadachaobedinitnaiti.py) is a disjoint-set forest over the
elements `0..n-1`. It keeps two lists that it updates in place: `parent` and
`rank`. It offers five find/union pairs:

- quick-find: a flat representative array; a union rewrites every member of one class;
- quick-union: plain root linking;
- union by rank: the lower-rank root goes under the higher; on a tie, `root_j` goes under `root_i` and `rank[root_i]` grows by one;
- path compression: a recursive find that re-points each visited element at the root;
- optimized: rank linking with path compression.

`Graph` (predstavleniegrafov.py) turns a vertex count and a list of
`(source, destination)` edges into an adjacency matrix, an adjacency list,
or the edge list itself.

The project has three modules:

- `Forest` (forest.dfy) treats a parent array as a value. It defines the root of an element, the path to it, and the set of roots. It also defines the three rewrites the unions perform: linking a root under another, compressing a path, and relabelling a flat array. It proves what each rewrite does to roots, to the partition into sets, and to the rank order. Acyclicity is witnessed by a depth sequence `d`: every non-root lies strictly deeper than its parent.
- `DisjointSet` (union_find.dfy) is the `UnionFind` class. `parent` and `rank` are `array<int>`, and the methods overwrite them in place. A ghost field `depth` holds the acyclicity witness. It gives the termination measure of the pointer-chasing `while` loops and of the recursive compressing finds. `Reps()` is the sequence of every element's representative. Each union is specified three ways:
  - the new `parent` (and `rank`) array it writes;
  - the new `Reps()`, as a relabelling of the old one;
  - the merged partition (`Merged`) and the set count.
- `GraphRepresentation` (graph.dfy) is the `Graph` class. Both builders are loops over the edges that are proved against declarative specifications: `MatrixOf` and `ListOf`/`Destinations`.

## Model

| member | source | states |
|---|---|---|
| DisjointSet.UnionFind.constructor | zadachaobedinitnaiti.py:9-11 | `parent` and `rank` have length `n` (empty for negative `n`); `parent[k] == k` and `rank[k] == 0` for every element; every element is its own root; there are `n` sets; the array is flat and the ranks are ordered |
| DisjointSet.UnionFind.FindQuickFind | zadachaobedinitnaiti.py:14-16 | the result is an element; on a flat array it is a root and it is the representative of `i` |
| DisjointSet.UnionFind.UnionQuickFind | zadachaobedinitnaiti.py:18-25 | the new `parent` is the old one with exactly the entries equal to `root_j` replaced by `root_i`; it is unchanged when the roots agree; the array stays flat, so afterwards `find_quick_find(i) == find_quick_find(j)`; the members of `j`'s set move to `root_i`; the sets of `i` and `j` are merged; the set count drops by one exactly when the roots differed |
| DisjointSet.UnionFind.Link | zadachaobedinitnaiti.py:38-39 | writing `parent[a] := b` for distinct roots keeps the forest acyclic, moves the members of `a`'s set to root `b`, and removes one set |
| DisjointSet.UnionFind.FindQuickUnion | zadachaobedinitnaiti.py:28-32 | the loop terminates; it returns a root that lies on the path from `i` and is `i`'s representative; nothing is modified |
| DisjointSet.UnionFind.UnionQuickUnion | zadachaobedinitnaiti.py:34-39 | the only write is `parent[root_i] := root_j`, and only when the roots differ; the forest stays acyclic; `i` and `j` end with the same root; the members of `i`'s set move to `root_j`; the sets are merged; the set count drops by one exactly when the roots differed |
| DisjointSet.UnionFind.FindUnionByRank | zadachaobedinitnaiti.py:42-46 | the loop terminates; it returns a root that lies on the path from `i` and is `i`'s representative; nothing is modified |
| DisjointSet.UnionFind.LinkByRank | zadachaobedinitnaiti.py:53-59 | for distinct roots `a` and `b`: lower rank goes under higher with ranks unchanged; on a tie `b` goes under `a` and only `rank[a]` grows, by exactly 1; no rank decreases; the loser's set moves to the winner; one set fewer; the rank order is preserved |
| DisjointSet.UnionFind.UnionUnionByRank | zadachaobedinitnaiti.py:48-59 | the exact new `parent` and `rank` arrays in each of the four cases (same root, lower, higher, tie); no rank decreases; the loser's set moves to the winner's root; `i` and `j` end with the same root; the sets are merged; the set count drops by one exactly when the roots differed; the rank order is preserved |
| DisjointSet.UnionFind.FindPathCompression | zadachaobedinitnaiti.py:62-66 | returns the old root of `i`, which `parent[i]` now holds; the new `parent` is the old one with every element on the path from `i` pointing at the root; every element keeps its representative; the set count and the rank order are preserved |
| DisjointSet.UnionFind.UnionPathCompression | zadachaobedinitnaiti.py:68-73 | the new `parent` is both paths compressed and then `root_i` linked under `root_j` if they differ; the members of `i`'s set move to `root_j`; `i` and `j` end with the same root; the sets are merged; the set count drops by one exactly when the roots differed |
| DisjointSet.UnionFind.FindOptimized | zadachaobedinitnaiti.py:76-80 | the same contract as the path-compressing find: returns the old root, compresses exactly the path from `i`, keeps every representative, the set count and the rank order |
| DisjointSet.UnionFind.UnionOptimized | zadachaobedinitnaiti.py:82-93 | the new `parent` is both paths compressed and then the lower-rank root (on a tie `root_j`) linked under the other; `rank[root_i]` grows by one exactly on a tie between distinct roots and no other rank changes; the loser's set moves to the winner; the sets are merged; the set count drops by one exactly when the roots differed; the rank order is preserved |
| Forest.Root | zadachaobedinitnaiti.py:28-32 | following parent pointers from `i` ends at a root; a root is its own root; a non-root's root lies strictly shallower |
| Forest.Path | zadachaobedinitnaiti.py:29-31 | the walk from `i` contains `i` |
| Forest.PathFacts | zadachaobedinitnaiti.py:28-32 | the walk from `i` contains `i`'s root, is closed under taking parents, and every element on it is an element with the same root as `i` |
| Forest.PathClosed | zadachaobedinitnaiti.py:29-31 | the walk from any element on `i`'s path is part of `i`'s path |
| Forest.IdentityRoots | zadachaobedinitnaiti.py:10 | when every element is its own parent there are as many roots as elements |
| Forest.Representatives | zadachaobedinitnaiti.py:28-32 | find applied to every element: one entry per element, entry `k` is `k`'s root; this is the abstraction (`Reps()`) over which every union contract states its effect |
| Forest.LinkIsForest | zadachaobedinitnaiti.py:38-39 | putting one root under another root leaves no cycle |
| Forest.LinkRootAt | zadachaobedinitnaiti.py:38-39 | after root `a` goes under root `b`, an element's new root is `b` if its root was `a`, and its old root otherwise |
| Forest.Link | zadachaobedinitnaiti.py:38-39 | linking distinct roots keeps the forest acyclic, relabels the representatives of `a`'s set to `b`, removes exactly `a` from the roots, and lowers the root count by one |
| Forest.CompressIsForest | zadachaobedinitnaiti.py:62-66 | compressing a path keeps the forest acyclic under the same depth witness and keeps the same roots |
| Forest.CompressRootAt | zadachaobedinitnaiti.py:62-66 | compressing a path changes no element's root |
| Forest.CompressPreserves | zadachaobedinitnaiti.py:62-66 | compressing a path keeps the forest acyclic, every element's root, the set of roots and the representative sequence |
| Forest.CompressStep | zadachaobedinitnaiti.py:64-65 | for a non-root `i`, `i` is not on its parent's path, and compressing from `i` is compressing from `parent[i]` and then setting `parent[i]` to the root: the order the recursion unwinds in |
| Forest.PathAfterCompress | zadachaobedinitnaiti.py:70-71 | after compressing the path from `i`, the path from `j` visits only elements it visited before, and anything it no longer visits was on `i`'s path |
| Forest.CompressTwice | zadachaobedinitnaiti.py:70-71 | compressing from `i` and then from `j` makes exactly the elements of both original paths point at their roots and leaves every other entry as it was |
| Forest.CompressAndLinkAt | zadachaobedinitnaiti.py:68-73 | entry by entry, a compressing union leaves the losing root pointing at the winning one, every element of both paths pointing at its root, and every other entry unchanged |
| Forest.FlatIsForest | zadachaobedinitnaiti.py:14-16 | a flat array (every entry a root) is a forest: roots at depth 0 and every other element at depth 1 witness that it has no cycle |
| Forest.FlatRoots | zadachaobedinitnaiti.py:14-16 | in a flat forest, reading `parent[k]` gives `k`'s root, so the representative sequence is the array itself |
| Forest.RelabelFlat | zadachaobedinitnaiti.py:22-25 | relabelling one root's entries with another root keeps the array flat and removes exactly that root |
| Forest.QuickFindUnion | zadachaobedinitnaiti.py:18-25 | on a flat array, the quick-find rewrite yields a flat array (the identity when the roots agree), moves exactly `j`'s set to `i`'s root, and lowers the set count by one exactly when the roots differ |
| Forest.RankBelowRoot | zadachaobedinitnaiti.py:53-59 | when ranks grow strictly towards the root, every non-root ranks strictly below its root |
| Forest.CompressKeepsRankOrder | zadachaobedinitnaiti.py:76-80 | path compression keeps ranks strictly increasing from child to parent |
| Forest.LinkKeepsRankOrder | zadachaobedinitnaiti.py:53-59 | linking root `a` under root `b` keeps the rank order when `a` ranks below `b` afterwards and only `b`'s rank may have grown |
| Forest.MergedByRelabel | zadachaobedinitnaiti.py:34-39 | moving the set of one of the two roots to the other is exactly the union of the sets of `i` and `j`: two elements are together afterwards iff they were together, or one was with `i` and the other with `j` |
| Forest.MergedAgree | zadachaobedinitnaiti.py:18-93 | the unions of all five variants are interchangeable: if two representative arrays give the same "same set" relation before a union of `i` and `j`, they give the same one after it |
| GraphRepresentation.Graph.constructor | predstavleniegrafov.py:2-9 | the graph stores the vertex count it was given |
| GraphRepresentation.Vertices | predstavleniegrafov.py:39 | the key set holds exactly the vertices `0..vertices-1` |
| GraphRepresentation.Graph.AdjacencyMatrix | predstavleniegrafov.py:12-25 | the result is `vertices` x `vertices`, and entry `[s][d]` is 1 exactly when `(s, d)` is one of the edges and 0 otherwise |
| GraphRepresentation.SameEdgesSameMatrix | predstavleniegrafov.py:23-24 | two edge lists with the same edges give the same matrix, whatever their order or repetitions |
| GraphRepresentation.RepeatedEdge | predstavleniegrafov.py:23-24 | listing an edge again does not change the matrix: setting an entry to 1 is idempotent |
| GraphRepresentation.Graph.AdjacencyList | predstavleniegrafov.py:29-42 | the keys are exactly `0..vertices-1`; the list of `s` holds the destinations of the edges leaving `s`, in edge order, whatever integers they are; the list lengths add up to the number of edges |
| GraphRepresentation.Destinations | predstavleniegrafov.py:40-41 | a vertex has no more destinations than there are edges |
| GraphRepresentation.DestinationsMembers | predstavleniegrafov.py:40-41 | `d` is in the destination list of `s` exactly when `(s, d)` is an edge |
| GraphRepresentation.DestinationsPrefix | predstavleniegrafov.py:40-41 | handling one more edge appends its destination to its source's list and leaves every other list as it was |
| GraphRepresentation.MatrixAgreesWithList | predstavleniegrafov.py:22-42 | the matrix and the adjacency list agree: `matrix[s][d] == 1` exactly when `d` is in the list of `s` |
| GraphRepresentation.SizeSumEmpty | predstavleniegrafov.py:39 | the freshly built lists have total length 0 |
| GraphRepresentation.SizeSumUnchanged | predstavleniegrafov.py:40-41 | changing the list under a key outside `0..count-1` leaves the total length of those lists as it was |
| GraphRepresentation.SizeSumUpdate | predstavleniegrafov.py:40-41 | replacing one list changes the total length by the difference of the two lengths |
| GraphRepresentation.AppendEdge | predstavleniegrafov.py:40-41 | one iteration of the loop turns the adjacency list of the first `k` edges into that of the first `k + 1` and adds one to the total length |
| GraphRepresentation.Graph.EdgeList | predstavleniegrafov.py:46-56 | the input is returned unchanged, and it holds exactly the pairs that the adjacency matrix marks with 1 |

## Left out

- The demonstration blocks run as scripts (zadachaobedinitnaiti.py:98-142, predstavleniegrafov.py:59-86): they only print.
- Element arguments outside `[0, n)` are preconditions; Python would raise `IndexError` for large indices and silently wrap negative ones, and neither behaviour is modelled.
- GraphRepresentation.Graph.AdjacencyMatrix: requires both endpoints of every edge in `[0, vertices)`. The matrix is a list of lists, so Python would raise `IndexError` for a large endpoint and silently wrap a negative one; neither is modelled.
- GraphRepresentation.Graph.AdjacencyList: requires only the source of every edge to be a key, i.e. in `[0, vertices)`; a source outside the keys raises `KeyError` in Python (no wrap-around, since the list is a dict), which is not modelled. The destination is never used as an index and is stored as given, so it is unconstrained.
- A negative `n` or `vertices` is not rejected: `list(range(n))`, `[0] * n` and `range(vertices)` are empty, so the structures are empty; the model follows the code.
- DisjointSet.UnionFind.UnionQuickFind: requires a flat parent array (every entry a root), which the source does not check. After a tree-building union the array may not be flat. Then `find_quick_find` does not return a root, and the quick-find rewrite can create a cycle (e.g. `parent = [0, 0, 1, 2]`, `union_quick_find(3, 1)` gives `[2, 2, 1, 2]`). Mixing the quick-find pair with the other variants on one object is therefore not modelled.
- DisjointSet.UnionFind.FindQuickFind: promises the representative only on a flat array; on any other array it only promises an element.
- Python's recursion-depth limit on the compressing finds is not modelled; the recursion is bounded by the depth witness.
- Amortized running times and tree-height bounds are not stated or proved; only the rank order itself (ranks grow strictly from child to parent) is.
- The graph methods return values: the matrix as a sequence of rows and the adjacency list as a map. Two things are not captured:
  - the insertion order of the Python dictionary's keys;
  - that `edge_list` returns the very same list object, so a caller who mutates the result also mutates the input.
- Concurrency: the code is single-threaded and has no locking.
