/** Three representations of a directed graph on the vertices
    `0..vertices-1`, all built from one list of `(source, destination)`
    edges: an adjacency matrix, an adjacency list and the edge list itself. */
module GraphRepresentation {

  type Edge = (int, int)

  /** Every endpoint of every edge is a vertex of a graph of `size` vertices. */
  ghost predicate EdgesWithin(edges: seq<Edge>, size: int)
  {
    forall k :: 0 <= k < |edges| ==> 0 <= edges[k].0 < size && 0 <= edges[k].1 < size
  }

  /** The vertices `0..size-1`, as a set. */
  function Vertices(size: int): (vs: set<int>)
    ensures forall s :: s in vs <==> 0 <= s < size
    decreases size
  {
    if size <= 0 then {} else Vertices(size - 1) + {size - 1}
  }

  // ---------------------------------------------------------------------
  // The adjacency matrix.
  // ---------------------------------------------------------------------

  /** The `size` by `size` matrix with a 1 exactly at the edges. */
  ghost function MatrixOf(edges: seq<Edge>, size: nat): seq<seq<int>>
  {
    seq(size, s => seq(size, d => if (s, d) in edges then 1 else 0))
  }

  /** The matrix depends only on which edges occur, not on their order or
      on how often each is listed. */
  lemma SameEdgesSameMatrix(edges: seq<Edge>, edges': seq<Edge>, size: nat)
    requires forall e :: e in edges <==> e in edges'
    ensures MatrixOf(edges, size) == MatrixOf(edges', size)
  {
    forall s | 0 <= s < size
      ensures MatrixOf(edges, size)[s] == MatrixOf(edges', size)[s]
    {
    }
  }

  /** Listing an edge a second time leaves the matrix as it was: setting an
      entry to 1 twice is the same as setting it once. */
  lemma RepeatedEdge(edges: seq<Edge>, e: Edge, size: nat)
    requires e in edges
    ensures MatrixOf(edges + [e], size) == MatrixOf(edges, size)
  {
    SameEdgesSameMatrix(edges + [e], edges, size);
  }

  // ---------------------------------------------------------------------
  // The adjacency list.
  // ---------------------------------------------------------------------

  /** The destinations of the edges leaving `s`, in edge order. */
  ghost function Destinations(edges: seq<Edge>, s: int): (ds: seq<int>)
    ensures |ds| <= |edges|
  {
    if |edges| == 0 then []
    else
      var last := edges[|edges| - 1];
      Destinations(edges[..|edges| - 1], s) + (if last.0 == s then [last.1] else [])
  }

  /** `d` is among the destinations of `s` exactly when `(s, d)` is an edge. */
  lemma {:induction false} DestinationsMembers(edges: seq<Edge>, s: int)
    ensures forall d :: d in Destinations(edges, s) <==> (s, d) in edges
  {
    if |edges| > 0 {
      var last := edges[|edges| - 1];
      assert edges == edges[..|edges| - 1] + [last];
      DestinationsMembers(edges[..|edges| - 1], s);
    }
  }

  /** Taking one more edge extends the destinations of its source by its
      destination and leaves every other vertex's destinations alone. */
  lemma DestinationsPrefix(edges: seq<Edge>, k: int, s: int)
    requires 0 <= k < |edges|
    ensures Destinations(edges[..k + 1], s)
         == Destinations(edges[..k], s) + (if edges[k].0 == s then [edges[k].1] else [])
  {
    assert edges[..k + 1][..k] == edges[..k];
  }

  /** The adjacency list of the edges: every vertex of `0..size-1` mapped to
      its destinations. */
  ghost function ListOf(edges: seq<Edge>, size: nat): map<int, seq<int>>
  {
    map s | s in Vertices(size) :: Destinations(edges, s)
  }

  /** The matrix and the adjacency list describe the same edges. */
  lemma MatrixAgreesWithList(edges: seq<Edge>, size: nat, s: int, d: int)
    requires 0 <= s < size && 0 <= d < size
    ensures MatrixOf(edges, size)[s][d] == 1 <==> d in ListOf(edges, size)[s]
  {
    DestinationsMembers(edges, s);
  }

  /** The total length of the lists stored under the keys `0..count-1`. */
  ghost function SizeSum(adj: map<int, seq<int>>, count: nat): nat
    requires forall s :: 0 <= s < count ==> s in adj
  {
    if count == 0 then 0 else SizeSum(adj, count - 1) + |adj[count - 1]|
  }

  /** A map of empty lists has total length zero. */
  lemma {:induction false} SizeSumEmpty(adj: map<int, seq<int>>, count: nat)
    requires forall s :: 0 <= s < count ==> s in adj && adj[s] == []
    ensures SizeSum(adj, count) == 0
  {
    if count > 0 {
      SizeSumEmpty(adj, count - 1);
    }
  }

  /** Keys at or above `count` do not contribute to the total. */
  lemma {:induction false} SizeSumUnchanged(adj: map<int, seq<int>>, count: nat, s: int, xs: seq<int>)
    requires forall t :: 0 <= t < count ==> t in adj
    requires count <= s
    ensures SizeSum(adj[s := xs], count) == SizeSum(adj, count)
  {
    if count > 0 {
      SizeSumUnchanged(adj, count - 1, s, xs);
    }
  }

  /** Replacing the list under one key changes the total by the difference
      of the two lengths. */
  lemma {:induction false} SizeSumUpdate(adj: map<int, seq<int>>, count: nat, s: int, xs: seq<int>)
    requires forall t :: 0 <= t < count ==> t in adj
    requires 0 <= s < count
    ensures SizeSum(adj[s := xs], count) == SizeSum(adj, count) - |adj[s]| + |xs|
  {
    if s < count - 1 {
      SizeSumUpdate(adj, count - 1, s, xs);
    } else {
      SizeSumUnchanged(adj, count - 1, s, xs);
    }
  }

  /** Appending the destination of edge `k` to the list of its source turns
      the lists of the first `k` edges into those of the first `k + 1`, and
      adds one to the total length. */
  lemma AppendEdge(adj: map<int, seq<int>>, edges: seq<Edge>, k: int, size: nat)
    requires 0 <= k < |edges| && 0 <= edges[k].0 < size
    requires adj == ListOf(edges[..k], size)
    ensures adj[edges[k].0 := adj[edges[k].0] + [edges[k].1]] == ListOf(edges[..k + 1], size)
    ensures SizeSum(adj[edges[k].0 := adj[edges[k].0] + [edges[k].1]], size) == SizeSum(adj, size) + 1
  {
    var adj', target := adj[edges[k].0 := adj[edges[k].0] + [edges[k].1]], ListOf(edges[..k + 1], size);
    assert adj'.Keys == target.Keys;
    forall s | s in adj'
      ensures adj'[s] == target[s]
    {
      DestinationsPrefix(edges, k, s);
    }
    SizeSumUpdate(adj, size, edges[k].0, adj[edges[k].0] + [edges[k].1]);
  }

  // ---------------------------------------------------------------------
  // The graph object and its three representations.
  // ---------------------------------------------------------------------

  class Graph {
    /** The vertex count as given; a negative count gives an empty graph. */
    const vertices: int

    constructor (vertices: int)
      ensures this.vertices == vertices
    {
      this.vertices := vertices;
    }

    /** The number of vertices that the representations range over. */
    function Order(): nat
    {
      if vertices < 0 then 0 else vertices
    }

    /** Starts from an all-zero matrix and sets the entry of every edge to 1. */
    method AdjacencyMatrix(edges: seq<Edge>) returns (matrix: seq<seq<int>>)
      requires EdgesWithin(edges, vertices)
      ensures |matrix| == Order()
      ensures forall s :: 0 <= s < Order() ==> |matrix[s]| == Order()
      ensures forall s, d :: 0 <= s < Order() && 0 <= d < Order() ==>
        matrix[s][d] == if (s, d) in edges then 1 else 0
      ensures matrix == MatrixOf(edges, Order())
    {
      var size := Order();
      matrix := seq(size, _ => seq(size, _ => 0));
      for k := 0 to |edges|
        invariant |matrix| == size
        invariant forall s :: 0 <= s < size ==> |matrix[s]| == size
        invariant forall s, d :: 0 <= s < size && 0 <= d < size ==>
          matrix[s][d] == if (s, d) in edges[..k] then 1 else 0
      {
        var (source, destination) := edges[k];
        assert edges[..k + 1] == edges[..k] + [edges[k]];
        matrix := matrix[source := matrix[source][destination := 1]];
      }
      assert edges[..|edges|] == edges;
      forall s | 0 <= s < size
        ensures matrix[s] == MatrixOf(edges, size)[s]
      {
      }
    }

    /** Starts from an empty list for every vertex and appends the
        destination of every edge to the list of its source. */
    method AdjacencyList(edges: seq<Edge>) returns (adjList: map<int, seq<int>>)
      requires forall k :: 0 <= k < |edges| ==> 0 <= edges[k].0 < vertices
      ensures adjList.Keys == Vertices(Order())
      ensures forall s :: 0 <= s < Order() ==> adjList[s] == Destinations(edges, s)
      ensures adjList == ListOf(edges, Order())
      ensures SizeSum(adjList, Order()) == |edges|
    {
      var size := Order();
      adjList := map s | s in Vertices(size) :: [];
      assert adjList == ListOf(edges[..0], size);
      SizeSumEmpty(adjList, size);
      for k := 0 to |edges|
        invariant adjList == ListOf(edges[..k], size)
        invariant SizeSum(adjList, size) == k
      {
        var (source, destination) := edges[k];
        AppendEdge(adjList, edges, k, size);
        adjList := adjList[source := adjList[source] + [destination]];
      }
      assert edges[..|edges|] == edges;
    }

    /** The edge list is the input itself, and it holds exactly the pairs
        that the adjacency matrix marks. */
    function EdgeList(edges: seq<Edge>): (r: seq<Edge>)
      ensures r == edges
      ensures forall s, d :: 0 <= s < Order() && 0 <= d < Order() ==>
        ((s, d) in r <==> MatrixOf(edges, Order())[s][d] == 1)
    {
      edges
    }
  }
}
