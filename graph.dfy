/**
 * The graph read from a graph file: vertex ids 1..n mapped to neighbour lists,
 * plus the edge-set vocabulary (all edges, covered and uncovered edges, vertex
 * covers) that the rest of the model shares.
 */
module Graphs {
  import opened Wrappers
  import opened Seqs

  /** Vertex id -> neighbour list, as the source's `adj` dictionary. */
  type Adjacency = map<int, seq<int>>

  /** An undirected edge, stored with its smaller endpoint first (the source uses a frozenset). */
  datatype Edge = Edge(lo: int, hi: int)

  function EdgeOf(u: int, w: int): (e: Edge)
    ensures e.lo <= e.hi && {e.lo, e.hi} == {u, w}
  {
    if u <= w then Edge(u, w) else Edge(w, u)
  }

  predicate Touches(e: Edge, s: set<int>) {
    e.lo in s || e.hi in s
  }

  /** Every edge listed in some neighbour list. */
  function Edges(adj: Adjacency): set<Edge> {
    set k, n | k in adj && n in adj[k] :: EdgeOf(k, n)
  }

  /** The edges joining `x` to each of `nbrs`. */
  function EdgesAt(x: int, nbrs: seq<int>): set<Edge> {
    set n | n in nbrs :: EdgeOf(x, n)
  }

  predicate Symmetric(adj: Adjacency) {
    forall k, n :: k in adj && n in adj[k] ==> n in adj && k in adj[n]
  }

  predicate Loopless(adj: Adjacency) {
    forall k :: k in adj ==> k !in adj[k]
  }

  predicate DistinctLists(adj: Adjacency) {
    forall k :: k in adj ==> Distinct(adj[k])
  }

  /** What a graph file describes: an undirected graph without loops or repeated neighbours. */
  predicate Simple(adj: Adjacency) {
    Symmetric(adj) && Loopless(adj) && DistinctLists(adj)
  }

  /** A set of vertices is a cover iff every edge has an endpoint in it. */
  predicate IsVertexCover(adj: Adjacency, s: set<int>): (r: bool)
    ensures adj.Keys <= s ==> r
    ensures (forall k :: k in adj ==> adj[k] == []) ==> r
    ensures r && s == {} ==> forall k :: k in adj ==> adj[k] == []
  {
    EmptyCoverNoEdges(adj, s);
    forall k, n :: k in adj && n in adj[k] ==> k in s || n in s
  }

  /** Only a graph without edges is covered by no vertex at all. */
  lemma EmptyCoverNoEdges(adj: Adjacency, s: set<int>)
    ensures s == {} && (forall k, n :: k in adj && n in adj[k] ==> k in s || n in s) ==>
      forall k :: k in adj ==> adj[k] == []
  {
    if s == {} && forall k, n :: k in adj && n in adj[k] ==> k in s || n in s {
      forall k | k in adj ensures adj[k] == [] {
        if adj[k] != [] {
          var n := adj[k][0];
          var touched := k in s || n in s;  // the terms the cover condition is instantiated on
          assert false;
        }
      }
    }
  }

  function CoveredEdges(adj: Adjacency, s: set<int>): set<Edge> {
    set e | e in Edges(adj) && Touches(e, s)
  }

  function UncoveredEdges(adj: Adjacency, s: set<int>): set<Edge> {
    set e | e in Edges(adj) && !Touches(e, s)
  }

  /** Number of remaining neighbours of `k` once the vertices of `s` are gone. */
  function Degree(adj: Adjacency, s: set<int>, k: int): nat
    requires k in adj
  {
    |Without(adj[k], s)|
  }

  lemma {:induction false} CoverIffNothingUncovered(adj: Adjacency, s: set<int>)
    ensures IsVertexCover(adj, s) <==> UncoveredEdges(adj, s) == {}
  {
    if IsVertexCover(adj, s) {
      forall e | e in Edges(adj) ensures Touches(e, s) {
        var k, n :| k in adj && n in adj[k] && e == EdgeOf(k, n);
      }
    } else {
      var k, n :| k in adj && n in adj[k] && k !in s && n !in s;
      assert EdgeOf(k, n) in UncoveredEdges(adj, s);
    }
  }

  lemma CoveredUncoveredPartition(adj: Adjacency, s: set<int>)
    ensures CoveredEdges(adj, s) + UncoveredEdges(adj, s) == Edges(adj)
    ensures CoveredEdges(adj, s) !! UncoveredEdges(adj, s)
  {
  }

  /** Joining `x` to distinct neighbours gives as many distinct edges. */
  lemma {:induction false} EdgesAtCard(x: int, nbrs: seq<int>)
    requires Distinct(nbrs)
    ensures |EdgesAt(x, nbrs)| == |nbrs|
  {
    if nbrs != [] {
      EdgesAtCard(x, nbrs[1..]);
      assert nbrs[0] !in nbrs[1..] by {
        forall i | 0 <= i < |nbrs[1..]| ensures nbrs[1..][i] != nbrs[0] {
          assert nbrs[1..][i] == nbrs[i + 1];
        }
      }
      assert EdgesAt(x, nbrs) == {EdgeOf(x, nbrs[0])} + EdgesAt(x, nbrs[1..]) by {
        assert forall n :: n in nbrs <==> n == nbrs[0] || n in nbrs[1..];
      }
      assert EdgeOf(x, nbrs[0]) !in EdgesAt(x, nbrs[1..]);
    }
  }

  /** Any edge at `c` in a symmetric graph is listed in `c`'s own neighbour list. */
  lemma EdgeAtEndpoint(adj: Adjacency, e: Edge, c: int) returns (other: int)
    requires Symmetric(adj) && e in Edges(adj) && (e.lo == c || e.hi == c)
    ensures c in adj && other in adj[c] && e == EdgeOf(c, other)
  {
    var k, n :| k in adj && n in adj[k] && e == EdgeOf(k, n);
    if k == c {
      other := n;
    } else {
      other := k;
    }
  }

  /** The endpoint of `e` that is not `c` (or `c` itself on a loop). */
  function Other(e: Edge, c: int): int {
    if e.lo == c then e.hi else e.lo
  }

  /** An edge at `c` joins `c` to a vertex outside `s` iff its other endpoint is outside `s`. */
  lemma ChangesAtEndpoint(adj: Adjacency, s: set<int>, c: int, e: Edge)
    requires Symmetric(adj) && e in Edges(adj) && (e.lo == c || e.hi == c)
    ensures c in adj && Other(e, c) in adj[c]
    ensures e in EdgesAt(c, Without(adj[c], s)) <==> Other(e, c) !in s
  {
    var other := EdgeAtEndpoint(adj, e, c);
    assert other == Other(e, c);
    assert other !in s ==> e in EdgesAt(c, Without(adj[c], s));
    if e in EdgesAt(c, Without(adj[c], s)) {
      var n :| n in Without(adj[c], s) && e == EdgeOf(c, n);
      assert n == Other(e, c);
    }
  }

  /** Every edge of `EdgesAt(c, _)` has `c` as an endpoint. */
  lemma EdgesAtEndpoint(c: int, nbrs: seq<int>, e: Edge)
    requires e in EdgesAt(c, nbrs)
    ensures e.lo == c || e.hi == c
  {
    var n :| n in nbrs && e == EdgeOf(c, n);
  }

  /** The edge `e` is covered by `s + {c}` iff it was covered by `s` or joins `c` to a vertex outside `s`. */
  lemma TouchesAfterAdd(adj: Adjacency, s: set<int>, c: int, e: Edge)
    requires Symmetric(adj) && c in adj && e in Edges(adj)
    ensures Touches(e, s + {c}) <==> Touches(e, s) || e in EdgesAt(c, Without(adj[c], s))
  {
    if e.lo == c || e.hi == c {
      ChangesAtEndpoint(adj, s, c, e);
    } else if e in EdgesAt(c, Without(adj[c], s)) {
      EdgesAtEndpoint(c, Without(adj[c], s), e);
    }
  }

  /** The edge `e` is covered by `s - {c}` iff it was covered by `s` and does not join `c` to a vertex outside `s`. */
  lemma TouchesAfterRemove(adj: Adjacency, s: set<int>, c: int, e: Edge)
    requires Symmetric(adj) && Loopless(adj) && c in adj && c in s && e in Edges(adj)
    ensures Touches(e, s - {c}) <==> Touches(e, s) && e !in EdgesAt(c, Without(adj[c], s))
  {
    if e.lo == c || e.hi == c {
      ChangesAtEndpoint(adj, s, c, e);
      assert Other(e, c) != c;
    } else if e in EdgesAt(c, Without(adj[c], s)) {
      EdgesAtEndpoint(c, Without(adj[c], s), e);
    }
  }

  /**
   * Adding `c` to `s` covers exactly the edges from `c` to its neighbours outside `s`,
   * and those were uncovered before.
   */
  lemma UncoveredAfterAdd(adj: Adjacency, s: set<int>, c: int)
    requires Symmetric(adj) && c in adj && c !in s
    ensures EdgesAt(c, Without(adj[c], s)) <= UncoveredEdges(adj, s)
    ensures UncoveredEdges(adj, s + {c}) == UncoveredEdges(adj, s) - EdgesAt(c, Without(adj[c], s))
    ensures CoveredEdges(adj, s + {c}) == CoveredEdges(adj, s) + EdgesAt(c, Without(adj[c], s))
  {
    var changes := EdgesAt(c, Without(adj[c], s));
    forall e | e in changes ensures e in UncoveredEdges(adj, s) {
      var n :| n in Without(adj[c], s) && e == EdgeOf(c, n);
    }
    forall e | e in Edges(adj) ensures Touches(e, s + {c}) <==> Touches(e, s) || e in changes {
      TouchesAfterAdd(adj, s, c, e);
    }
  }

  /**
   * Removing `c` from `s` uncovers exactly the edges from `c` to its neighbours outside `s`,
   * and those were covered before.
   */
  lemma CoveredAfterRemove(adj: Adjacency, s: set<int>, c: int)
    requires Symmetric(adj) && Loopless(adj) && c in adj && c in s
    ensures EdgesAt(c, Without(adj[c], s)) <= CoveredEdges(adj, s)
    ensures CoveredEdges(adj, s - {c}) == CoveredEdges(adj, s) - EdgesAt(c, Without(adj[c], s))
    ensures UncoveredEdges(adj, s - {c}) == UncoveredEdges(adj, s) + EdgesAt(c, Without(adj[c], s))
  {
    var changes := EdgesAt(c, Without(adj[c], s));
    forall e | e in changes ensures e in CoveredEdges(adj, s) {
      var n :| n in Without(adj[c], s) && e == EdgeOf(c, n);
    }
    forall e | e in Edges(adj) ensures Touches(e, s - {c}) <==> Touches(e, s) && e !in changes {
      TouchesAfterRemove(adj, s, c, e);
    }
  }

  /** Errors the graph's lookups raise. */
  datatype GraphError =
    | NotFound(node: int)      // `ValueError`: the node is not a key of `adj`
    | MissingAttribute         // `AttributeError`: see `NeighboursAsWritten`

  /** Errors of reading the header row. */
  datatype LoadError =
    | MissingHeader            // `lines[0]` on an empty file
    | BadHeader(fields: nat)   // unpacking a header that does not hold exactly three integers

  /** The neighbour lookup without its access counter. */
  function Neighbours(adj: Adjacency, node: int): (r: Result<seq<int>, GraphError>)
    ensures r.Failure? <==> node !in adj
    ensures r.Success? ==> r.value == adj[node]
    ensures r.Failure? ==> r.error == NotFound(node)
  {
    if node in adj then Success(adj[node]) else Failure(NotFound(node))
  }

  /**
   * `get_neighbours` as graph.py is written: the constructor creates the counter as
   * `self.__accesses_count`, which Python stores as `_Graph__accesses_count`, so the
   * increment of `self._accesses_count` reads an attribute that does not exist.
   */
  function NeighboursAsWritten(adj: Adjacency, node: int): (r: Result<seq<int>, GraphError>)
    ensures r.Failure?
    ensures node in adj ==> r.error == MissingAttribute
  {
    if node in adj then Failure(MissingAttribute) else Failure(NotFound(node))
  }

  /** As written, even a lookup of a vertex of the graph raises; the corrected lookup returns its list. */
  lemma AsWrittenLookupFails(adj: Adjacency, node: int)
    requires node in adj
    ensures NeighboursAsWritten(adj, node) == Failure(MissingAttribute)
    ensures Neighbours(adj, node) == Success(adj[node])
  {
  }

  /**
   * Reads the neighbour rows that follow the header: the k-th row becomes the list of
   * vertex k. Returns the dictionary and its key order.
   */
  method ReadAdjacency(lines: seq<seq<int>>) returns (adj: Adjacency, order: seq<int>)
    ensures order == Range(1, |lines| + 1)
    ensures forall k :: k in adj <==> 1 <= k <= |lines|
    ensures forall k :: 1 <= k <= |lines| ==> adj[k] == lines[k - 1]
  {
    adj, order := map[], [];
    var current := 1;
    for i := 0 to |lines|
      invariant current == i + 1
      invariant order == Range(1, current)
      invariant forall k :: k in adj <==> 1 <= k < current
      invariant forall k :: 1 <= k < current ==> adj[k] == lines[k - 1]
    {
      adj := adj[current := lines[i]];
      order := order + [current];
      current := current + 1;
    }
  }

  class Graph {
    /** Vertex and edge counts from the header row. */
    const v: int
    const e: int
    /** The neighbour lists; algorithms that share them (a shallow copy) can change them. */
    var adj: Adjacency
    /** The dictionary's key order (insertion order). */
    const order: seq<int>
    /** Number of successful `get_neighbours` calls. */
    var accesses: nat

    ghost predicate Valid()
      reads this
    {
      Distinct(order) && (forall k :: k in adj <==> k in order)
    }

    /** Builds the graph from the header row and the neighbour rows of a graph file. */
    constructor (rows: seq<seq<int>>)
      requires |rows| > 0 && |rows[0]| == 3
      ensures Valid()
      ensures v == rows[0][0] && e == rows[0][1] && accesses == 0
      ensures order == Range(1, |rows|)
      ensures forall k :: 1 <= k < |rows| ==> k in adj && adj[k] == rows[k]
    {
      var m, keys := ReadAdjacency(rows[1..]);
      v, e := rows[0][0], rows[0][1];
      adj, order := m, keys;
      accesses := 0;
    }

    /** The neighbour list of `node`, counting the access; fails on an unknown vertex. */
    method GetNeighbours(node: int) returns (r: Result<seq<int>, GraphError>)
      modifies this`accesses
      ensures r == Neighbours(adj, node)
      ensures accesses == if node in adj then old(accesses) + 1 else old(accesses)
    {
      if node !in adj {
        return Failure(NotFound(node));
      }
      accesses := accesses + 1;
      r := Success(adj[node]);
    }

    /** Every vertex, in key order. */
    function AllNodes(): (r: seq<int>)
      reads this
      requires Valid()
      ensures Distinct(r)
      ensures forall k :: k in r <==> k in adj
    {
      order
    }

    /** The unordered edges of the graph. */
    function AllEdges(): (r: set<Edge>)
      reads this
      ensures forall k, n :: k in adj && n in adj[k] ==> EdgeOf(k, n) in r
      ensures forall e :: e in r ==> (e.lo in adj && e.hi in adj[e.lo]) || (e.hi in adj && e.lo in adj[e.hi])
    {
      Edges(adj)
    }

    /** `is_vertex_cover` on the solution list, against the current neighbour lists. */
    predicate IsCover(solution: seq<int>): (r: bool)
      reads this
      ensures r <==> UncoveredEdges(adj, set x | x in solution) == {}
    {
      CoverIffNothingUncovered(adj, set x | x in solution);
      IsVertexCover(adj, set x | x in solution)
    }

    /** The number of edges the solution covers (`count_covered_edges`). */
    function CountCoveredEdges(solution: seq<int>): (r: nat)
      reads this
      ensures r <= |Edges(adj)|
      ensures r == |Edges(adj)| <==> IsCover(solution)
    {
      var s := set x | x in solution;
      CoveredUncoveredPartition(adj, s);
      CoverIffNothingUncovered(adj, s);
      |CoveredEdges(adj, s)|
    }
  }

  /**
   * Loads a graph from already-split integer rows, raising on a missing or malformed
   * header as the source's unpacking does.
   */
  method Load(rows: seq<seq<int>>) returns (r: Result<Graph, LoadError>)
    ensures |rows| == 0 ==> r == Failure(MissingHeader)
    ensures |rows| > 0 && |rows[0]| != 3 ==> r == Failure(BadHeader(|rows[0]|))
    ensures |rows| > 0 && |rows[0]| == 3 ==> r.Success?
    ensures r.Success? ==> |rows| > 0 && |rows[0]| == 3 && fresh(r.value) && r.value.Valid()
    ensures r.Success? ==> r.value.v == rows[0][0] && r.value.e == rows[0][1]
    ensures r.Success? ==> r.value.order == Range(1, |rows|)
    ensures r.Success? ==> forall k :: 1 <= k < |rows| ==> k in r.value.adj && r.value.adj[k] == rows[k]
  {
    if |rows| == 0 {
      return Failure(MissingHeader);
    }
    if |rows[0]| != 3 {
      return Failure(BadHeader(|rows[0]|));
    }
    var g := new Graph(rows);
    r := Success(g);
  }
}
