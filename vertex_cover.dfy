/**
 * The incremental cover state of vertex_cover.py: a solution set together with the
 * covered and uncovered edge sets, kept in step by `add_vertex` and `remove_vertex`.
 */
module CoverState {
  import opened Wrappers
  import opened Seqs
  import opened Graphs

  /** The four fields the source keeps in step. */
  datatype CoverView = CoverView(solution: set<int>, quality: int, covered: set<Edge>, uncovered: set<Edge>)

  /** Errors `add_vertex` and `remove_vertex` raise. */
  datatype CoverError =
    | Lookup(cause: GraphError)    // `get_neighbours` on an unknown vertex
    | NotInSolution(node: int)     // `set.remove` of a vertex outside the solution (`KeyError`)

  /**
   * The invariant add/remove keep: covered and uncovered partition the edges, the covered
   * ones are exactly those touching the solution, and the quality is the solution's size.
   */
  predicate Consistent(adj: Adjacency, c: CoverView) {
    && c.covered + c.uncovered == Edges(adj)
    && c.covered !! c.uncovered
    && c.covered == CoveredEdges(adj, c.solution)
    && c.quality == |c.solution|
  }

  /** The vertices at either end of some edge of `es`. */
  function Endpoints(es: set<Edge>): set<int> {
    (set e | e in es :: e.lo) + (set e | e in es :: e.hi)
  }

  /** `get_changes`: the edges from `node` to its neighbours outside the solution. */
  function Changes(adj: Adjacency, solution: set<int>, node: int): (r: Result<set<Edge>, GraphError>)
    ensures r.Failure? <==> node !in adj
  {
    match Neighbours(adj, node)
    case Failure(err) => Failure(err)
    case Success(nbrs) => Success(EdgesAt(node, Without(nbrs, solution)))
  }

  /** `get_gain` and `get_loss`: how many neighbours of `node` lie outside the solution. */
  function OutsideCount(adj: Adjacency, solution: set<int>, node: int): (r: Result<nat, GraphError>)
    ensures r.Failure? <==> node !in adj
  {
    match Neighbours(adj, node)
    case Failure(err) => Failure(err)
    case Success(nbrs) => Success(|(set n | n in nbrs) - solution|)
  }

  /** The state after `add_vertex(node)`; on an unknown vertex it raises before changing anything. */
  function AddF(adj: Adjacency, c: CoverView, node: int): (r: Result<CoverView, CoverError>)
    ensures r.Failure? <==> node !in adj
    ensures r.Failure? ==> r.error == Lookup(NotFound(node))
    ensures r.Success? ==> r.value.solution == c.solution + {node} && r.value.quality == |r.value.solution|
  {
    match Changes(adj, c.solution, node)
    case Failure(err) => Failure(Lookup(err))
    case Success(ch) =>
      var s := c.solution + {node};
      Success(CoverView(s, |s|, c.covered + ch, c.uncovered - ch))
  }

  /**
   * The state after `remove_vertex(node)`, whether or not it raised: an unknown vertex
   * raises before any change, a vertex outside the solution raises after the edge sets
   * were updated and before the solution and quality are.
   */
  function RemoveF(adj: Adjacency, c: CoverView, node: int): (r: CoverView)
    ensures node !in adj ==> r == c
    ensures node in adj && node in c.solution ==> r.solution == c.solution - {node} && r.quality == |r.solution|
    ensures node !in c.solution ==> r.solution == c.solution && r.quality == c.quality
  {
    match Changes(adj, c.solution, node)
    case Failure(_) => c
    case Success(ch) =>
      if node in c.solution then
        var s := c.solution - {node};
        CoverView(s, |s|, c.covered - ch, c.uncovered + ch)
      else
        c.(covered := c.covered - ch, uncovered := c.uncovered + ch)
  }

  /** What `remove_vertex(node)` raises, if anything. */
  function RemoveError(adj: Adjacency, c: CoverView, node: int): (r: Option<CoverError>)
    ensures r.None? <==> node in adj && node in c.solution
  {
    if node !in adj then Some(Lookup(NotFound(node)))
    else if node !in c.solution then Some(NotInSolution(node))
    else None
  }

  lemma ConsistentUncovered(adj: Adjacency, c: CoverView)
    ensures Consistent(adj, c) ==> c.uncovered == UncoveredEdges(adj, c.solution)
  {
    CoveredUncoveredPartition(adj, c.solution);
  }

  /** For a vertex outside the solution, the changes are exactly its uncovered edges. */
  lemma ChangesOfOutsider(adj: Adjacency, c: CoverView, node: int)
    ensures Symmetric(adj) && Consistent(adj, c) && node in adj && node !in c.solution ==>
              Changes(adj, c.solution, node).value == set e | e in c.uncovered && (e.lo == node || e.hi == node)
  {
    if !(Symmetric(adj) && Consistent(adj, c) && node in adj && node !in c.solution) {
      return;
    }
    ConsistentUncovered(adj, c);
    var ch := EdgesAt(node, Without(adj[node], c.solution));
    UncoveredAfterAdd(adj, c.solution, node);
    forall e | e in c.uncovered && (e.lo == node || e.hi == node) ensures e in ch {
      var other := EdgeAtEndpoint(adj, e, node);
      assert other !in c.solution;
      assert other in Without(adj[node], c.solution);
    }
  }

  /** For a vertex of the solution, the changes are the covered edges no other solution vertex covers. */
  lemma ChangesOfMember(adj: Adjacency, c: CoverView, node: int)
    requires Simple(adj) && Consistent(adj, c) && node in adj && node in c.solution
    ensures Changes(adj, c.solution, node).value
         == set e | e in c.covered && (e.lo == node || e.hi == node) && !Touches(e, c.solution - {node})
  {
    var ch := EdgesAt(node, Without(adj[node], c.solution));
    CoveredAfterRemove(adj, c.solution, node);
    forall e | e in c.covered && (e.lo == node || e.hi == node) && !Touches(e, c.solution - {node})
      ensures e in ch
    {
      var other := EdgeAtEndpoint(adj, e, node);
      assert other != node;
      assert other in Without(adj[node], c.solution);
    }
  }

  /** `add_vertex` keeps the invariant. */
  lemma AddKeepsConsistent(adj: Adjacency, c: CoverView, node: int)
    requires Symmetric(adj) && Consistent(adj, c) && node in adj
    ensures AddF(adj, c, node).Success?
    ensures Consistent(adj, AddF(adj, c, node).value)
  {
    var ch := EdgesAt(node, Without(adj[node], c.solution));
    ConsistentUncovered(adj, c);
    if node !in c.solution {
      UncoveredAfterAdd(adj, c.solution, node);
    } else {
      assert c.solution + {node} == c.solution;
      forall e | e in ch ensures e in c.covered {
        var n :| n in Without(adj[node], c.solution) && e == EdgeOf(node, n);
        assert n in adj[node];
      }
    }
  }

  /** `remove_vertex` keeps the invariant, also when it raises. */
  lemma RemoveKeepsConsistent(adj: Adjacency, c: CoverView, node: int)
    requires Simple(adj) && Consistent(adj, c)
    ensures Consistent(adj, RemoveF(adj, c, node))
    ensures RemoveError(adj, c, node).Some? ==> RemoveF(adj, c, node) == c
  {
    if node in adj {
      var ch := EdgesAt(node, Without(adj[node], c.solution));
      ConsistentUncovered(adj, c);
      if node in c.solution {
        CoveredAfterRemove(adj, c.solution, node);
      } else {
        UncoveredAfterAdd(adj, c.solution, node);
        assert c.covered - ch == c.covered;
        assert c.uncovered + ch == c.uncovered;
      }
    }
  }

  /** Adding a vertex outside the solution and removing it again restores the state exactly. */
  lemma AddThenRemove(adj: Adjacency, c: CoverView, node: int)
    requires Simple(adj) && Consistent(adj, c) && node in adj && node !in c.solution
    ensures AddF(adj, c, node).Success?
    ensures RemoveError(adj, AddF(adj, c, node).value, node) == None
    ensures RemoveF(adj, AddF(adj, c, node).value, node) == c
  {
    var ch := EdgesAt(node, Without(adj[node], c.solution));
    ConsistentUncovered(adj, c);
    UncoveredAfterAdd(adj, c.solution, node);
    var added := AddF(adj, c, node).value;
    assert Without(adj[node], added.solution) == Without(adj[node], c.solution) by {
      WithoutWithout(adj[node], c.solution, {node});
      WithoutNoop(Without(adj[node], c.solution), {node});
    }
    assert added.solution - {node} == c.solution;
    assert added.covered - ch == c.covered;
    assert added.uncovered + ch == c.uncovered;
  }

  /** How many of `nodes`, from the front, are vertices of the graph. */
  function KnownPrefix(adj: Adjacency, nodes: seq<int>): (k: nat)
    ensures k <= |nodes|
    ensures forall j :: 0 <= j < k ==> nodes[j] in adj
    ensures k < |nodes| ==> nodes[k] !in adj
    decreases |nodes|
  {
    if nodes == [] || nodes[0] !in adj then 0 else 1 + KnownPrefix(adj, nodes[1..])
  }

  /**
   * The state after `add_vertices(nodes)` and what it raises: `add_vertex` for each
   * vertex in turn, stopping at the first that raises and keeping what was done.
   */
  function AddAll(adj: Adjacency, c: CoverView, nodes: seq<int>): (CoverView, Option<CoverError>)
    decreases |nodes|
  {
    if nodes == [] then (c, None)
    else match AddF(adj, c, nodes[0])
      case Failure(err) => (c, Some(err))
      case Success(c1) => AddAll(adj, c1, nodes[1..])
  }

  /**
   * `add_vertices` adds the vertices before the first unknown one, and raises exactly
   * when there is an unknown one, on that vertex.
   */
  lemma {:induction false} AddAllOutcome(adj: Adjacency, c: CoverView, nodes: seq<int>)
    ensures AddAll(adj, c, nodes).0.solution == c.solution + Elems(nodes[..KnownPrefix(adj, nodes)])
    ensures AddAll(adj, c, nodes).1 ==
      if KnownPrefix(adj, nodes) < |nodes| then Some(Lookup(NotFound(nodes[KnownPrefix(adj, nodes)]))) else None
    decreases |nodes|
  {
    if nodes != [] && nodes[0] in adj {
      var c1 := AddF(adj, c, nodes[0]).value;
      var k := KnownPrefix(adj, nodes);
      assert AddAll(adj, c, nodes) == AddAll(adj, c1, nodes[1..]);
      assert k == 1 + KnownPrefix(adj, nodes[1..]);
      AddAllOutcome(adj, c1, nodes[1..]);
      assert nodes[..k][1..] == nodes[1..][..k - 1];
      ElemsCons(nodes[..k]);
      assert c1.solution == c.solution + {nodes[0]};
    } else {
      assert nodes[..KnownPrefix(adj, nodes)] == [];
    }
  }

  /** `add_vertices` keeps the invariant, also when it raises. */
  lemma {:induction false} AddAllKeepsConsistent(adj: Adjacency, c: CoverView, nodes: seq<int>)
    requires Symmetric(adj) && Consistent(adj, c)
    ensures Consistent(adj, AddAll(adj, c, nodes).0)
    decreases |nodes|
  {
    if nodes != [] && nodes[0] in adj {
      AddKeepsConsistent(adj, c, nodes[0]);
      AddAllKeepsConsistent(adj, AddF(adj, c, nodes[0]).value, nodes[1..]);
    }
  }

  /** How many of `nodes`, from the front, `remove_vertices` takes out of the solution `s` before one raises. */
  function RemovablePrefix(adj: Adjacency, s: set<int>, nodes: seq<int>): (k: nat)
    ensures k <= |nodes|
    decreases |nodes|
  {
    if nodes == [] || nodes[0] !in adj || nodes[0] !in s then 0
    else 1 + RemovablePrefix(adj, s - {nodes[0]}, nodes[1..])
  }

  /**
   * The vertices `remove_vertices` gets through are known, in the solution and not
   * repeated; the one it stops at is unknown, outside the solution or a repeat.
   */
  lemma {:induction false} RemovablePrefixIsFirstFailure(adj: Adjacency, s: set<int>, nodes: seq<int>)
    ensures forall j :: 0 <= j < RemovablePrefix(adj, s, nodes) ==>
              nodes[j] in adj && nodes[j] in s && nodes[j] !in nodes[..j]
    ensures RemovablePrefix(adj, s, nodes) < |nodes| ==>
              var k := RemovablePrefix(adj, s, nodes);
              nodes[k] !in adj || nodes[k] !in s || nodes[k] in nodes[..k]
    decreases |nodes|
  {
    if nodes != [] && nodes[0] in adj && nodes[0] in s {
      var k := RemovablePrefix(adj, s, nodes);
      var tail := nodes[1..];
      RemovablePrefixIsFirstFailure(adj, s - {nodes[0]}, tail);
      forall j | 0 <= j < k ensures nodes[j] in adj && nodes[j] in s && nodes[j] !in nodes[..j] {
        if j > 0 {
          assert nodes[j] == tail[j - 1];
          assert nodes[..j] == [nodes[0]] + tail[..j - 1];
        }
      }
      if k < |nodes| {
        assert nodes[k] == tail[k - 1];
        assert nodes[..k] == [nodes[0]] + tail[..k - 1];
      }
    }
  }

  /**
   * The state after `remove_vertices(nodes)` and what it raises: `remove_vertex` for
   * each vertex in turn; the one that raises has already updated the edge sets.
   */
  function RemoveAll(adj: Adjacency, c: CoverView, nodes: seq<int>): (CoverView, Option<CoverError>)
    decreases |nodes|
  {
    if nodes == [] then (c, None)
    else
      var c1 := RemoveF(adj, c, nodes[0]);
      match RemoveError(adj, c, nodes[0])
      case Some(err) => (c1, Some(err))
      case None => RemoveAll(adj, c1, nodes[1..])
  }

  /**
   * `remove_vertices` takes out the vertices before the first it cannot remove, and
   * raises exactly when there is one: `ValueError` for an unknown vertex, `KeyError`
   * for one outside the solution.
   */
  lemma {:induction false} RemoveAllOutcome(adj: Adjacency, c: CoverView, nodes: seq<int>)
    ensures RemoveAll(adj, c, nodes).0.solution == c.solution - Elems(nodes[..RemovablePrefix(adj, c.solution, nodes)])
    ensures RemoveAll(adj, c, nodes).1 ==
      var k := RemovablePrefix(adj, c.solution, nodes);
      if k == |nodes| then None
      else if nodes[k] !in adj then Some(Lookup(NotFound(nodes[k])))
      else Some(NotInSolution(nodes[k]))
    decreases |nodes|
  {
    if nodes != [] && nodes[0] in adj && nodes[0] in c.solution {
      var c1 := RemoveF(adj, c, nodes[0]);
      var k := RemovablePrefix(adj, c.solution, nodes);
      RemoveAllOutcome(adj, c1, nodes[1..]);
      assert nodes[..k][1..] == nodes[1..][..k - 1];
      ElemsCons(nodes[..k]);
    }
  }

  /** `remove_vertices` keeps the invariant, also when it raises. */
  lemma {:induction false} RemoveAllKeepsConsistent(adj: Adjacency, c: CoverView, nodes: seq<int>)
    requires Simple(adj) && Consistent(adj, c)
    ensures Consistent(adj, RemoveAll(adj, c, nodes).0)
    decreases |nodes|
  {
    if nodes != [] {
      RemoveKeepsConsistent(adj, c, nodes[0]);
      if RemoveError(adj, c, nodes[0]).None? {
        RemoveAllKeepsConsistent(adj, RemoveF(adj, c, nodes[0]), nodes[1..]);
      }
    }
  }

  /** The gain of a vertex outside the solution is the number of edges adding it covers. */
  lemma GainIsNewlyCovered(adj: Adjacency, c: CoverView, node: int)
    requires Simple(adj) && Consistent(adj, c) && node in adj && node !in c.solution
    ensures OutsideCount(adj, c.solution, node).value == |Changes(adj, c.solution, node).value|
    ensures |AddF(adj, c, node).value.uncovered| == |c.uncovered| - OutsideCount(adj, c.solution, node).value
    ensures |AddF(adj, c, node).value.covered| == |c.covered| + OutsideCount(adj, c.solution, node).value
  {
    ChangeCount(adj, c.solution, node);
    ConsistentUncovered(adj, c);
    UncoveredAfterAdd(adj, c.solution, node);
  }

  /** The loss of a solution vertex is the number of edges removing it uncovers. */
  lemma LossIsNewlyUncovered(adj: Adjacency, c: CoverView, node: int)
    requires Simple(adj) && Consistent(adj, c) && node in adj && node in c.solution
    ensures OutsideCount(adj, c.solution, node).value == |Changes(adj, c.solution, node).value|
    ensures |RemoveF(adj, c, node).covered| == |c.covered| - OutsideCount(adj, c.solution, node).value
    ensures |RemoveF(adj, c, node).uncovered| == |c.uncovered| + OutsideCount(adj, c.solution, node).value
  {
    ChangeCount(adj, c.solution, node);
    ConsistentUncovered(adj, c);
    CoveredAfterRemove(adj, c.solution, node);
  }

  lemma GainWhenOutside(adj: Adjacency, c: CoverView, node: int)
    ensures Simple(adj) && Consistent(adj, c) && node in adj && node !in c.solution ==>
              OutsideCount(adj, c.solution, node).value == |AddF(adj, c, node).value.covered| - |c.covered|
  {
    if Simple(adj) && Consistent(adj, c) && node in adj && node !in c.solution {
      GainIsNewlyCovered(adj, c, node);
    }
  }

  lemma LossWhenInside(adj: Adjacency, c: CoverView, node: int)
    ensures Simple(adj) && Consistent(adj, c) && node in adj && node in c.solution ==>
              OutsideCount(adj, c.solution, node).value == |c.covered| - |RemoveF(adj, c, node).covered|
  {
    if Simple(adj) && Consistent(adj, c) && node in adj && node in c.solution {
      LossIsNewlyUncovered(adj, c, node);
    }
  }

  lemma ChangeCount(adj: Adjacency, s: set<int>, node: int)
    requires DistinctLists(adj) && node in adj
    ensures OutsideCount(adj, s, node).value == |Changes(adj, s, node).value|
  {
    var rest := Without(adj[node], s);
    WithoutDistinct(adj[node], s);
    EdgesAtCard(node, rest);
    DistinctCard(rest);
    assert (set n | n in rest) == (set n | n in adj[node]) - s;
  }

  /** The endpoints of the uncovered edges are the vertices outside the solution with a neighbour outside it. */
  lemma CandidatesAreOpenVertices(adj: Adjacency, c: CoverView)
    requires Symmetric(adj) && Consistent(adj, c)
    ensures Endpoints(c.uncovered)
         == set k | k in adj && k !in c.solution && exists n :: n in adj[k] && n !in c.solution
  {
    ConsistentUncovered(adj, c);
    var open := set k | k in adj && k !in c.solution && exists n :: n in adj[k] && n !in c.solution;
    forall k | k in Endpoints(c.uncovered) ensures k in open {
      var e :| e in c.uncovered && (e.lo == k || e.hi == k);
      var other := EdgeAtEndpoint(adj, e, k);
    }
    forall k | k in open ensures k in Endpoints(c.uncovered) {
      var n :| n in adj[k] && n !in c.solution;
      var e := EdgeOf(k, n);
      assert e in c.uncovered;
    }
  }

  class VertexCover {
    /** The graph the state is bound to (the source inherits it from `Graph`). */
    const adj: Adjacency
    var solution: set<int>
    var quality: int
    var covered: set<Edge>
    var uncovered: set<Edge>

    function View(): CoverView
      reads this
    {
      CoverView(solution, quality, covered, uncovered)
    }

    ghost predicate Valid()
      reads this
    {
      Simple(adj) && Consistent(adj, View())
    }

    /** A fresh state: empty solution, quality 0, nothing covered, every edge uncovered. */
    constructor (g: Graph)
      requires Simple(g.adj)
      ensures adj == g.adj
      ensures solution == {} && quality == 0 && covered == {} && uncovered == Edges(adj)
      ensures Valid()
    {
      adj := g.adj;
      solution := {};
      quality := 0;
      covered := {};
      uncovered := Edges(g.adj);
      new;
      assert CoveredEdges(adj, {}) == {};
    }

    /** Cover test by the uncovered set, exact only while the state is kept by add/remove. */
    function IsVertexCoverNew(): (r: bool)
      reads this
      ensures Valid() ==> (r <==> IsVertexCover(adj, solution))
    {
      ConsistentUncovered(adj, View());
      CoverIffNothingUncovered(adj, solution);
      |uncovered| == 0
    }

    /** Replaces the solution without touching the edge sets or the quality. */
    method SetSolution(nodes: seq<int>)
      modifies this`solution
      ensures solution == set x | x in nodes
    {
      solution := set x | x in nodes;
    }

    method GetSolution() returns (r: seq<int>)
      ensures Distinct(r) && forall x :: x in r <==> x in solution
    {
      r := ListOf(solution);
    }

    function GetSolutionQualityNew(): (r: int)
      reads this
      ensures Valid() ==> r == |solution|
    {
      quality
    }

    function GetCoveredEdgesNew(): (r: set<Edge>)
      reads this
      ensures Valid() ==> r == CoveredEdges(adj, solution)
    {
      covered
    }

    function GetUncoveredEdgesNew(): (r: set<Edge>)
      reads this
      ensures Valid() ==> r == UncoveredEdges(adj, solution)
    {
      ConsistentUncovered(adj, View());
      uncovered
    }

    method UpdateSolution()
      modifies this`quality
      ensures quality == |solution|
    {
      quality := |solution|;
    }

    /** `get_changes(node)` on the current solution. */
    function GetChanges(node: int): (r: Result<set<Edge>, GraphError>)
      reads this
      ensures r.Failure? <==> node !in adj
      ensures Valid() && node in adj && node !in solution ==>
                r.value == set e | e in uncovered && (e.lo == node || e.hi == node)
    {
      ChangesOfOutsider(adj, View(), node);
      Changes(adj, solution, node)
    }

    /** `get_gain(node)`: for a vertex outside the solution, the number of edges adding it covers. */
    function GetGain(node: int): (r: Result<nat, GraphError>)
      reads this
      ensures r.Failure? <==> node !in adj
      ensures Valid() && node in adj && node !in solution ==>
                r.value == |AddF(adj, View(), node).value.covered| - |covered|
    {
      GainWhenOutside(adj, View(), node);
      OutsideCount(adj, solution, node)
    }

    /** `get_loss(node)`: for a solution vertex, the number of edges removing it uncovers. */
    function GetLoss(node: int): (r: Result<nat, GraphError>)
      reads this
      ensures r.Failure? <==> node !in adj
      ensures Valid() && node in adj && node in solution ==>
                r.value == |covered| - |RemoveF(adj, View(), node).covered|
    {
      LossWhenInside(adj, View(), node);
      OutsideCount(adj, solution, node)
    }

    method AddVertex(node: int) returns (err: Option<CoverError>)
      modifies this
      ensures err == if node in adj then None else Some(Lookup(NotFound(node)))
      ensures View() == if node in adj then AddF(adj, old(View()), node).value else old(View())
      ensures solution == if node in adj then old(solution) + {node} else old(solution)
      ensures old(Valid()) ==> Valid()
    {
      var changes := Changes(adj, solution, node);
      if changes.Failure? {
        return Some(Lookup(changes.error));
      }
      covered := covered + changes.value;
      uncovered := uncovered - changes.value;
      solution := solution + {node};
      UpdateSolution();
      err := None;
      if old(Valid()) {
        AddKeepsConsistent(adj, old(View()), node);
      }
    }

    method RemoveVertex(node: int) returns (err: Option<CoverError>)
      modifies this
      ensures err == RemoveError(adj, old(View()), node)
      ensures View() == RemoveF(adj, old(View()), node)
      ensures solution == if err.None? then old(solution) - {node} else old(solution)
      ensures old(Valid()) ==> Valid()
    {
      var changes := Changes(adj, solution, node);
      if changes.Failure? {
        return Some(Lookup(changes.error));
      }
      covered := covered - changes.value;
      uncovered := uncovered + changes.value;
      if node !in solution {
        return Some(NotInSolution(node));
      }
      solution := solution - {node};
      UpdateSolution();
      err := None;
      if old(Valid()) {
        RemoveKeepsConsistent(adj, old(View()), node);
      }
    }

    /** `add_vertices`: adds each vertex in turn, stopping at the first that raises. */
    method AddVertices(nodes: seq<int>) returns (err: Option<CoverError>)
      modifies this
      ensures (View(), err) == AddAll(adj, old(View()), nodes)
      ensures solution == old(solution) + Elems(nodes[..KnownPrefix(adj, nodes)])
      ensures err.None? <==> KnownPrefix(adj, nodes) == |nodes|
      ensures err.None? <==> forall x :: x in nodes ==> x in adj
      ensures err.Some? ==> err == Some(Lookup(NotFound(nodes[KnownPrefix(adj, nodes)])))
      ensures old(Valid()) ==> Valid()
    {
      err := None;
      var i := 0;
      while i < |nodes| && err.None?
        invariant 0 <= i <= |nodes|
        invariant AddAll(adj, old(View()), nodes) == if err.None? then AddAll(adj, View(), nodes[i..]) else (View(), err)
      {
        assert nodes[i..][1..] == nodes[i + 1..];
        err := AddVertex(nodes[i]);
        i := i + 1;
      }
      AddAllOutcome(adj, old(View()), nodes);
      var k := KnownPrefix(adj, nodes);
      if k < |nodes| {
        assert nodes[k] in nodes;
      }
      if old(Valid()) {
        AddAllKeepsConsistent(adj, old(View()), nodes);
      }
    }

    /** `remove_vertices`: removes each vertex in turn, stopping at the first that raises. */
    method RemoveVertices(nodes: seq<int>) returns (err: Option<CoverError>)
      modifies this
      ensures (View(), err) == RemoveAll(adj, old(View()), nodes)
      ensures solution == old(solution) - Elems(nodes[..RemovablePrefix(adj, old(solution), nodes)])
      ensures err.None? <==> RemovablePrefix(adj, old(solution), nodes) == |nodes|
      ensures err.None? <==> forall i :: 0 <= i < |nodes| ==>
                nodes[i] in adj && nodes[i] in old(solution) && nodes[i] !in nodes[..i]
      ensures old(Valid()) ==> Valid()
    {
      err := None;
      var i := 0;
      while i < |nodes| && err.None?
        invariant 0 <= i <= |nodes|
        invariant RemoveAll(adj, old(View()), nodes) == if err.None? then RemoveAll(adj, View(), nodes[i..]) else (View(), err)
      {
        assert nodes[i..][1..] == nodes[i + 1..];
        err := RemoveVertex(nodes[i]);
        i := i + 1;
      }
      RemoveAllOutcome(adj, old(View()), nodes);
      RemovablePrefixIsFirstFailure(adj, old(solution), nodes);
      if old(Valid()) {
        RemoveAllKeepsConsistent(adj, old(View()), nodes);
      }
    }

    /** `add_remove_vertices`: all the additions, then all the removals. */
    method AddRemoveVertices(add: seq<int>, remove: seq<int>) returns (err: Option<CoverError>)
      modifies this
      ensures AddAll(adj, old(View()), add).1.Some? ==> (View(), err) == AddAll(adj, old(View()), add)
      ensures AddAll(adj, old(View()), add).1.None? ==> (View(), err) == RemoveAll(adj, AddAll(adj, old(View()), add).0, remove)
      ensures err.None? <==> (forall x :: x in add ==> x in adj) && forall i :: 0 <= i < |remove| ==>
                remove[i] in adj && remove[i] in old(solution) + Elems(add) && remove[i] !in remove[..i]
      ensures err.None? ==> solution == (old(solution) + Elems(add)) - Elems(remove)
      ensures old(Valid()) ==> Valid()
    {
      err := AddVertices(add);
      if err.Some? {
        return;
      }
      assert add[..|add|] == add;
      ghost var added := solution;
      assert added == old(solution) + Elems(add);
      err := RemoveVertices(remove);
      assert remove[..|remove|] == remove;
    }

    /** `get_add_candidates`: every endpoint of an uncovered edge, once. */
    method GetAddCandidates() returns (r: seq<int>)
      ensures Distinct(r)
      ensures forall k :: k in r <==> k in Endpoints(uncovered)
      ensures Valid() ==> forall k :: k in r <==>
                k in adj && k !in solution && exists n :: n in adj[k] && n !in solution
    {
      var candidates: set<int> := {};
      var rest := uncovered;
      while rest != {}
        invariant rest <= uncovered
        invariant candidates == Endpoints(uncovered - rest)
        decreases rest
      {
        var e :| e in rest;
        candidates := candidates + {e.lo, e.hi};
        rest := rest - {e};
      }
      r := ListOf(candidates);
      if Valid() {
        CandidatesAreOpenVertices(adj, View());
      }
    }

    /** `fix_covered_edges`: recomputes the covered set and the quality from the solution. */
    method FixCoveredEdges()
      modifies this`covered, this`quality
      ensures covered == CoveredEdges(adj, solution) && quality == |solution|
    {
      covered := CoveredEdges(adj, solution);
      UpdateSolution();
    }

    /** `fix_uncovered_edges`: recomputes the uncovered set and the quality from the solution. */
    method FixUncoveredEdges()
      modifies this`uncovered, this`quality
      ensures uncovered == UncoveredEdges(adj, solution) && quality == |solution|
    {
      uncovered := UncoveredEdges(adj, solution);
      UpdateSolution();
    }

    /** `fix_all`: after any `set_solution`, brings the state back to the invariant. */
    method FixAll()
      requires Simple(adj)
      modifies this
      ensures solution == old(solution) && Valid()
    {
      FixCoveredEdges();
      FixUncoveredEdges();
      CoveredUncoveredPartition(adj, solution);
    }
  }
}
