/**
 * The greedy maximum-degree approximation: while edges remain, take a vertex of
 * largest remaining degree, add it to the solution and delete it and its edges from
 * a working copy of the adjacency dictionary. The copy is shallow, so removing a
 * vertex from a neighbour list also changes the list the graph itself holds.
 */
module Approx {
  import opened Wrappers
  import opened Seqs
  import opened Graphs
  import opened Degrees

  /**
   * `c` is what the scan picks once the vertices `taken` are gone: it has remaining
   * degree at least one, no remaining vertex has a larger degree, and every vertex
   * before it in key order that is still present has a strictly smaller one.
   */
  ghost predicate GreedyChoice(g0: Adjacency, order: seq<int>, taken: set<int>, c: int) {
    && c in g0 && c !in taken
    && Degree(g0, taken, c) >= 1
    && (forall k :: k in g0 && k !in taken ==> Degree(g0, taken, k) <= Degree(g0, taken, c))
    && (forall j, l :: 0 <= j < l < |order| && order[l] == c && order[j] in g0 && order[j] !in taken ==>
          Degree(g0, taken, order[j]) < Degree(g0, taken, c))
  }

  /**
   * The working dictionary after the vertices `s` were chosen: every remaining vertex
   * is unchosen and holds its original list minus `s`, and every unchosen vertex with
   * a neighbour left is still present.
   */
  ghost predicate Remaining(g0: Adjacency, s: set<int>, rem: Adjacency) {
    && (forall k :: k in rem ==> k in g0 && k !in s && rem[k] == Without(g0[k], s))
    && (forall k :: k in g0 && k !in s && Without(g0[k], s) != [] ==> k in rem)
  }

  /** A neighbour `n` of the chosen `c` still lists `c`, and removing it leaves `n`'s list minus `s + {c}`. */
  lemma NeighbourLosesChosen(g0: Adjacency, s: set<int>, c: int, n: int)
    requires Simple(g0) && c in g0 && c !in s && n in Without(g0[c], s)
    ensures n in g0 && n !in s && c in Without(g0[n], s)
    ensures RemoveFirst(Without(g0[n], s), c) == Without(g0[n], s + {c})
  {
    assert c in g0[n];
    WithoutDistinct(g0[n], s);
    RemoveFirstIsWithout(Without(g0[n], s), c);
    WithoutWithout(g0[n], s, {c});
  }

  /**
   * The state of the loop at lines 83-87 once the neighbours in `done` are handled:
   * each of them lost `c` and is gone if that emptied its list, the others are as in
   * `rem`; `shared` follows the handled lists; `gone` are the deleted keys.
   */
  ghost predicate Unlinked(rem: Adjacency, shared: Adjacency, live: seq<int>, c: int, done: set<int>,
                           rem': Adjacency, shared': Adjacency, live': seq<int>, gone: set<int>)
    requires c in rem && forall n :: n in rem[c] ==> n in rem && c in rem[n]
  {
    && (forall k :: k in done ==> k in rem[c])
    && c in rem' && rem'[c] == rem[c]
    && (forall k :: k in rem' <==> k in rem && !(k in done && RemoveFirst(rem[k], c) == []))
    && (forall k :: k in rem' ==> rem'[k] == if k in done then RemoveFirst(rem[k], c) else rem[k])
    && shared'.Keys == shared.Keys
    && (forall k :: k in shared ==> shared'[k] == if k in done then RemoveFirst(rem[k], c) else shared[k])
    && (forall k :: k in gone <==> k in rem && k !in rem')
    && live' == Without(live, gone)
  }

  /** One pass of the loop at lines 83-87, for the neighbour `n`. */
  method UnlinkOne(ghost rem: Adjacency, ghost shared: Adjacency, ghost live: seq<int>, c: int, ghost done: set<int>,
                   cur: Adjacency, sh: Adjacency, order: seq<int>, ghost gone: set<int>, n: int)
    returns (cur': Adjacency, sh': Adjacency, order': seq<int>, ghost gone': set<int>)
    requires c in rem && c !in rem[c] && forall m :: m in rem[c] ==> m in rem && c in rem[m]
    requires forall k :: k in rem ==> k in shared
    requires Unlinked(rem, shared, live, c, done, cur, sh, order, gone)
    requires n in rem[c] && n !in done
    ensures Unlinked(rem, shared, live, c, done + {n}, cur', sh', order', gone')
  {
    cur' := cur[n := RemoveFirst(cur[n], c)];
    sh' := sh[n := cur'[n]];
    order', gone' := order, gone;
    if |cur'[n]| == 0 {
      cur' := cur' - {n};
      WithoutWithout(live, gone, {n});
      order' := Without(order, {n});
      gone' := gone + {n};
    }
  }

  /**
   * Lines 83-87: every neighbour `n` of `c` loses `c` from its list (the list it
   * shares with the graph, `shared`), and a neighbour left with no neighbours is
   * deleted from the working dictionary and from its key order `live`.
   */
  method UnlinkNeighbours(rem: Adjacency, live: seq<int>, shared: Adjacency, c: int)
    returns (rem': Adjacency, live': seq<int>, shared': Adjacency)
    requires c in rem && c !in rem[c] && Distinct(rem[c])
    requires forall n :: n in rem[c] ==> n in rem && c in rem[n]
    requires forall k :: k in rem ==> k in shared && shared[k] == rem[k]
    ensures c in rem' && rem'[c] == rem[c]
    ensures forall k :: k in rem' <==> k in rem && !(k in rem[c] && RemoveFirst(rem[k], c) == [])
    ensures forall k :: k in rem' ==> rem'[k] == if k in rem[c] then RemoveFirst(rem[k], c) else rem[k]
    ensures shared'.Keys == shared.Keys
    ensures forall k :: k in shared ==> shared'[k] == if k in rem[c] then RemoveFirst(rem[k], c) else shared[k]
    ensures live' == Without(live, rem.Keys - rem'.Keys)
  {
    var nbrs := rem[c];
    rem', live', shared' := rem, live, shared;
    ghost var done: set<int> := {};
    ghost var gone: set<int> := {};
    WithoutNoop(live, {});
    for i := 0 to |nbrs|
      invariant done == set j | 0 <= j < i :: nbrs[j]
      invariant Unlinked(rem, shared, live, c, done, rem', shared', live', gone)
    {
      assert nbrs[i] !in done;
      rem', shared', live', gone := UnlinkOne(rem, shared, live, c, done, rem', shared', live', gone, nbrs[i]);
      done := done + {nbrs[i]};
    }
    UnlinkedAll(rem, shared, live, c, done, rem', shared', live', gone);
  }

  /** Once every neighbour is handled, the loop state is the one `UnlinkNeighbours` promises. */
  lemma UnlinkedAll(rem: Adjacency, shared: Adjacency, live: seq<int>, c: int, done: set<int>,
                    rem': Adjacency, shared': Adjacency, live': seq<int>, gone: set<int>)
    requires c in rem && forall n :: n in rem[c] ==> n in rem && c in rem[n]
    requires Unlinked(rem, shared, live, c, done, rem', shared', live', gone)
    requires done == set j | 0 <= j < |rem[c]| :: rem[c][j]
    ensures forall k :: k in rem' <==> k in rem && !(k in rem[c] && RemoveFirst(rem[k], c) == [])
    ensures forall k :: k in rem' ==> rem'[k] == if k in rem[c] then RemoveFirst(rem[k], c) else rem[k]
    ensures forall k :: k in shared ==> shared'[k] == if k in rem[c] then RemoveFirst(rem[k], c) else shared[k]
    ensures live' == Without(live, rem.Keys - rem'.Keys)
  {
    assert forall k :: k in done <==> k in rem[c];
    assert forall k :: k in rem.Keys - rem'.Keys <==> k in gone;
    assert rem.Keys - rem'.Keys == gone;
  }

  /** A vertex not adjacent to `c` keeps its list when `c` joins the chosen set. */
  lemma NonNeighbourKeeps(g0: Adjacency, s: set<int>, c: int, k: int)
    requires Symmetric(g0) && c in g0 && c !in s && k in g0 && k !in s && k !in Without(g0[c], s)
    ensures Without(g0[k], s + {c}) == Without(g0[k], s)
  {
    assert c !in g0[k];
    WithoutAbsent(g0[k], s, c);
  }

  /**
   * Lines 81-91 for the chosen vertex `c`: its neighbours are unlinked from it, then
   * `c` is deleted. The result is again the working dictionary for the chosen set
   * `s + {c}`, and `shared` (the graph's lists) now hold the original lists minus
   * `s + {c}` for every vertex that was present other than `c`.
   */
  method DeleteChosen(rem: Adjacency, live: seq<int>, shared: Adjacency, c: int,
                      ghost g0: Adjacency, ghost s: set<int>)
    returns (rem': Adjacency, live': seq<int>, shared': Adjacency)
    requires Simple(g0) && Remaining(g0, s, rem) && c in rem
    requires forall k :: k in rem ==> k in shared && shared[k] == rem[k]
    ensures Remaining(g0, s + {c}, rem')
    ensures forall k :: k in rem' <==> k in rem && k != c && !(k in rem[c] && Without(g0[k], s + {c}) == [])
    ensures live' == Without(live, rem.Keys - rem'.Keys)
    ensures shared'.Keys == shared.Keys
    ensures forall k :: k in shared ==>
              shared'[k] == if k in rem && k != c then Without(g0[k], s + {c}) else shared[k]
  {
    WithoutDistinct(g0[c], s);
    forall n | n in rem[c] ensures n in rem && c in rem[n] && RemoveFirst(rem[n], c) == Without(g0[n], s + {c}) {
      NeighbourLosesChosen(g0, s, c, n);
    }
    var r1, l1, sh := UnlinkNeighbours(rem, live, shared, c);
    ghost var gone := rem.Keys - r1.Keys;
    WithoutWithout(live, gone, {c});
    rem' := r1 - {c};
    assert rem.Keys - rem'.Keys == gone + {c};
    live' := Without(l1, {c});
    shared' := sh;
    forall k | k in rem && k != c && k !in rem[c]
      ensures Without(g0[k], s + {c}) == rem[k]
    {
      NonNeighbourKeeps(g0, s, c, k);
    }
    forall k | k in g0 && k !in s + {c} && Without(g0[k], s + {c}) != []
      ensures k in rem'
    {
      WithoutWithout(g0[k], s, {c});
    }
  }

  /** Some unchosen vertex with an uncovered edge is still in the working dictionary. */
  lemma UncoveredHasLiveEndpoint(g0: Adjacency, s: set<int>, rem: Adjacency) returns (k: int)
    requires Remaining(g0, s, rem) && UncoveredEdges(g0, s) != {}
    ensures k in rem && |rem[k]| >= 1
  {
    var e :| e in UncoveredEdges(g0, s);
    var u, n :| u in g0 && n in g0[u] && e == EdgeOf(u, n);
    assert n in Without(g0[u], s);
    k := u;
  }

  /**
   * The vertex the scan returns on the working dictionary is the greedy choice for
   * the original graph: the key order of the working dictionary is the graph's key
   * order with the deleted vertices left out, and a deleted unchosen vertex has no
   * neighbour left.
   */
  lemma ScanIsGreedy(g0: Adjacency, order: seq<int>, s: set<int>, rem: Adjacency, live: seq<int>)
    returns (c: int)
    requires Distinct(order) && forall k :: k in order <==> k in g0
    requires Remaining(g0, s, rem) && UncoveredEdges(g0, s) != {}
    requires Filtered(order, g0.Keys - rem.Keys, live)
    requires forall j :: 0 <= j < |live| ==> live[j] in rem
    ensures |live| > 0 && FirstMax(live, rem) >= 0 && c == live[FirstMax(live, rem)]
    ensures c in rem && GreedyChoice(g0, order, s, c)
  {
    FilteredIsWithout(order, g0.Keys - rem.Keys, live);
    WithoutDistinct(order, g0.Keys - rem.Keys);
    var w := UncoveredHasLiveEndpoint(g0, s, rem);
    assert w in live;
    var m := FirstMax(live, rem);
    c := live[m];
    var iw :| 0 <= iw < |live| && live[iw] == w;
    assert |rem[c]| >= |rem[w]| >= 1;
    forall k | k in g0 && k !in s ensures Degree(g0, s, k) <= Degree(g0, s, c) {
      if k in rem {
        var ik :| 0 <= ik < |live| && live[ik] == k;
      }
    }
    forall j, l | 0 <= j < l < |order| && order[l] == c && order[j] in g0 && order[j] !in s
      ensures Degree(g0, s, order[j]) < Degree(g0, s, c)
    {
      if order[j] in rem {
        var a, b := WithoutKeepsOrder(order, g0.Keys - rem.Keys, j, l);
        assert live[b] == c;
      }
    }
  }

  /** Adding the chosen vertex removes exactly its remaining degree from the uncovered edges. */
  lemma ChosenCoversDegree(g0: Adjacency, s: set<int>, c: int)
    requires Simple(g0) && c in g0 && c !in s
    ensures |UncoveredEdges(g0, s + {c})| == |UncoveredEdges(g0, s)| - Degree(g0, s, c)
  {
    UncoveredAfterAdd(g0, s, c);
    WithoutDistinct(g0[c], s);
    EdgesAtCard(c, Without(g0[c], s));
    SubsetCard(UncoveredEdges(g0, s), EdgesAt(c, Without(g0[c], s)));
  }

  /**
   * The graph whose lists the loop filtered has the same covers-or-not verdict for the
   * solution as the original: an edge lost from a list always has a chosen endpoint.
   */
  lemma FilteredGraphSameVerdict(g0: Adjacency, adj: Adjacency, solution: seq<int>)
    requires adj.Keys == g0.Keys
    requires forall k :: k in adj && k !in solution ==> adj[k] == Without(g0[k], Elems(solution))
    ensures IsVertexCover(adj, Elems(solution)) <==> IsVertexCover(g0, Elems(solution))
  {
    var S := Elems(solution);
    if IsVertexCover(g0, S) {
      forall k, n | k in adj && n in adj[k] ensures k in S || n in S {
        if k !in solution {
          assert n in g0[k];
        }
      }
    } else {
      var k, n :| k in g0 && n in g0[k] && k !in S && n !in S;
      assert n in adj[k];
    }
  }

  /**
   * `before[i]` is the set of vertices chosen before step `i`: it starts empty and
   * each step adds the vertex it chose.
   */
  ghost predicate ChosenBefore(solution: seq<int>, before: seq<set<int>>) {
    && |before| == |solution| + 1
    && before[0] == {}
    && forall i {:trigger solution[i]} :: 0 <= i < |solution| ==> before[i + 1] == before[i] + {solution[i]}
  }

  /**
   * What the shared neighbour lists hold after the vertices of `solution` were chosen
   * in that order: an unchosen vertex has lost every chosen neighbour, a chosen one
   * only those chosen before it (its list is no longer touched once it is deleted).
   */
  ghost predicate SharedLists(g0: Adjacency, adj: Adjacency, solution: seq<int>, before: seq<set<int>>)
    requires |before| == |solution| + 1
  {
    && adj.Keys == g0.Keys
    && (forall k :: k in adj && k !in solution ==> adj[k] == Without(g0[k], Elems(solution)))
    && (forall i :: 0 <= i < |solution| ==> solution[i] in adj)
    && (forall i :: 0 <= i < |solution| ==> adj[solution[i]] == Without(g0[solution[i]], before[i]))
  }

  /** The shared lists after `c` is chosen and `DeleteChosen` has run. */
  lemma SharedListsStep(g0: Adjacency, s: set<int>, rem: Adjacency, adj: Adjacency, adj': Adjacency,
                        solution: seq<int>, before: seq<set<int>>, c: int)
    requires s == Elems(solution) && |before| == |solution| + 1 && before[|solution|] == s
    requires Remaining(g0, s, rem) && c in rem && SharedLists(g0, adj, solution, before)
    requires adj'.Keys == adj.Keys
    requires forall k :: k in adj ==> adj'[k] == if k in rem && k != c then Without(g0[k], s + {c}) else adj[k]
    ensures SharedLists(g0, adj', solution + [c], before + [s + {c}])
  {
    assert Elems(solution + [c]) == s + {c};
    SharedUnchosenStep(g0, s, rem, adj, adj', solution, before, c);
    SharedChosenStep(g0, s, rem, adj, adj', solution, before, c);
  }

  /** An unchosen vertex's list has lost `c` as well (a list `rem` no longer holds was already empty). */
  lemma SharedUnchosenStep(g0: Adjacency, s: set<int>, rem: Adjacency, adj: Adjacency, adj': Adjacency,
                           solution: seq<int>, before: seq<set<int>>, c: int)
    requires s == Elems(solution) && |before| == |solution| + 1
    requires Remaining(g0, s, rem) && c in rem && SharedLists(g0, adj, solution, before)
    requires adj'.Keys == adj.Keys
    requires forall k :: k in adj ==> adj'[k] == if k in rem && k != c then Without(g0[k], s + {c}) else adj[k]
    ensures forall k :: k in adj' && k !in solution + [c] ==> adj'[k] == Without(g0[k], s + {c})
  {
    forall k | k in adj' && k !in solution + [c] ensures adj'[k] == Without(g0[k], s + {c}) {
      assert k !in solution;
      if k !in rem {
        WithoutEmptyGrows(g0[k], s, {c});
      }
    }
  }

  /** A chosen vertex's list keeps what it had; `c`'s list is its remaining one. */
  lemma SharedChosenStep(g0: Adjacency, s: set<int>, rem: Adjacency, adj: Adjacency, adj': Adjacency,
                         solution: seq<int>, before: seq<set<int>>, c: int)
    requires s == Elems(solution) && |before| == |solution| + 1 && before[|solution|] == s
    requires Remaining(g0, s, rem) && c in rem && SharedLists(g0, adj, solution, before)
    requires adj'.Keys == adj.Keys
    requires forall k :: k in adj ==> adj'[k] == if k in rem && k != c then Without(g0[k], s + {c}) else adj[k]
    ensures forall i :: 0 <= i < |solution| + 1 ==> (solution + [c])[i] in adj'
    ensures forall i :: 0 <= i < |solution| + 1 ==>
      adj'[(solution + [c])[i]] == Without(g0[(solution + [c])[i]], (before + [s + {c}])[i])
  {
    var sol' := solution + [c];
    var before' := before + [s + {c}];
    forall i | 0 <= i < |sol'|
      ensures sol'[i] in adj' && adj'[sol'[i]] == Without(g0[sol'[i]], before'[i])
    {
      if i < |solution| {
        SharedKeptEntry(g0, s, rem, adj, adj', solution, before, c, i);
        assert sol'[i] == solution[i] && before'[i] == before[i];
      } else {
        assert sol'[i] == c && before'[i] == s;
      }
    }
  }

  /** An earlier chosen vertex is no longer in the working dictionary, so its list is untouched. */
  lemma SharedKeptEntry(g0: Adjacency, s: set<int>, rem: Adjacency, adj: Adjacency, adj': Adjacency,
                        solution: seq<int>, before: seq<set<int>>, c: int, i: int)
    requires s == Elems(solution) && |before| == |solution| + 1
    requires Remaining(g0, s, rem) && SharedLists(g0, adj, solution, before)
    requires adj'.Keys == adj.Keys
    requires forall k :: k in adj ==> adj'[k] == if k in rem && k != c then Without(g0[k], s + {c}) else adj[k]
    requires 0 <= i < |solution|
    ensures solution[i] in adj' && adj'[solution[i]] == Without(g0[solution[i]], before[i])
  {
    var k := solution[i];
    assert k in s;
    assert k !in rem;
    assert k in adj && adj[k] == Without(g0[k], before[i]);
    assert adj'[k] == adj[k];
  }

  /** Lines 69-74: the scan over the working dictionary picks the greedy choice. */
  method ScanMaxDegree(rem: Adjacency, live: seq<int>,
                       ghost g0: Adjacency, ghost order: seq<int>, ghost chosen: set<int>)
    returns (c: int, d: int)
    requires Simple(g0) && Distinct(order) && forall k :: k in order <==> k in g0
    requires Remaining(g0, chosen, rem) && UncoveredEdges(g0, chosen) != {}
    requires Filtered(order, g0.Keys - rem.Keys, live)
    ensures c in rem && GreedyChoice(g0, order, chosen, c) && d == Degree(g0, chosen, c) && d >= 1
    ensures |UncoveredEdges(g0, chosen + {c})| == |UncoveredEdges(g0, chosen)| - d
  {
    FilteredIsWithout(order, g0.Keys - rem.Keys, live);
    forall j | 0 <= j < |live| ensures live[j] in rem {
      assert live[j] in live;
    }
    c, d := FindMaxDeg(live, rem);
    ghost var best := ScanIsGreedy(g0, order, chosen, rem, live);
    assert c == best;
    ChosenCoversDegree(g0, chosen, c);
  }

  /**
   * Lines 81-91 seen from the loop: the working dictionary, its key order and the
   * shared lists are again those for the solution extended by `c`.
   */
  method DeleteFromWorking(rem: Adjacency, live: seq<int>, shared: Adjacency, c: int,
                           ghost g0: Adjacency, ghost order: seq<int>, ghost solution: seq<int>,
                           ghost before: seq<set<int>>, ghost chosen: set<int>)
    returns (rem': Adjacency, live': seq<int>, shared': Adjacency)
    requires Simple(g0) && chosen == Elems(solution) && Remaining(g0, chosen, rem) && c in rem
    requires Filtered(order, g0.Keys - rem.Keys, live)
    requires |before| == |solution| + 1 && before[|solution|] == chosen && SharedLists(g0, shared, solution, before)
    ensures Remaining(g0, chosen + {c}, rem')
    ensures Filtered(order, g0.Keys - rem'.Keys, live')
    ensures SharedLists(g0, shared', solution + [c], before + [chosen + {c}])
  {
    rem', live', shared' := DeleteChosen(rem, live, shared, c, g0, chosen);
    SharedListsStep(g0, chosen, rem, shared, shared', solution, before, c);
    LiveAfterDelete(order, g0.Keys, rem.Keys, rem'.Keys, live, live');
  }

  /** Deleting keys from the working dictionary in two rounds leaves the key order of one round. */
  lemma LiveAfterDelete(order: seq<int>, k0: set<int>, k1: set<int>, k2: set<int>, live: seq<int>, live': seq<int>)
    requires forall k :: k in k2 ==> k in k1
    requires forall k :: k in k1 ==> k in k0
    requires Filtered(order, k0 - k1, live) && live' == Without(live, k1 - k2)
    ensures Filtered(order, k0 - k2, live')
  {
    FilteredIsWithout(order, k0 - k1, live);
    FilteredIsWithout(order, k0 - k2, live');
    WithoutWithout(order, k0 - k1, k1 - k2);
    forall x ensures x in (k0 - k1) + (k1 - k2) <==> x in k0 - k2 {
    }
    assert (k0 - k1) + (k1 - k2) == k0 - k2;
  }

  /** The state before the first round: nothing chosen, the working dictionary is the graph's. */
  lemma FirstRound(g0: Adjacency, order: seq<int>)
    requires forall k :: k in g0 <==> k in order
    ensures Remaining(g0, {}, g0)
    ensures Filtered(order, g0.Keys - g0.Keys, order)
    ensures ChosenBefore([], [{}]) && SharedLists(g0, g0, [], [{}])
    ensures |UncoveredEdges(g0, {})| == |Edges(g0)|
  {
    NothingFiltered(g0);
    assert Elems([]) == {};
    assert g0.Keys - g0.Keys == {};
    WithoutNoop(order, {});
    FilteredIsWithout(order, {}, order);
    NothingCovered(g0);
  }

  lemma NothingFiltered(g0: Adjacency)
    ensures forall k :: k in g0 ==> Without(g0[k], {}) == g0[k]
  {
    forall k | k in g0 ensures Without(g0[k], {}) == g0[k] {
      WithoutNoop(g0[k], {});
    }
  }

  lemma NothingCovered(g0: Adjacency)
    ensures |UncoveredEdges(g0, {})| == |Edges(g0)|
  {
    CoveredUncoveredPartition(g0, {});
    assert CoveredEdges(g0, {}) == {};
  }

  /** Appending the greedy choice `c` keeps the facts about the solution so far. */
  lemma ExtendSolution(g0: Adjacency, order: seq<int>, solution: seq<int>, before: seq<set<int>>,
                       chosen: set<int>, c: int)
    requires chosen == Elems(solution) && Distinct(solution)
    requires ChosenBefore(solution, before) && before[|solution|] == chosen
    requires forall i :: 0 <= i < |solution| ==> GreedyChoice(g0, order, before[i], solution[i])
    requires GreedyChoice(g0, order, chosen, c)
    ensures chosen + {c} == Elems(solution + [c]) && Distinct(solution + [c])
    ensures ChosenBefore(solution + [c], before + [chosen + {c}])
    ensures (before + [chosen + {c}])[|solution + [c]|] == chosen + {c}
    ensures forall i :: 0 <= i < |solution + [c]| ==>
              GreedyChoice(g0, order, (before + [chosen + {c}])[i], (solution + [c])[i])
  {
    assert c !in chosen;
    ExtendDistinct(solution, chosen, c);
    ExtendChosenBefore(solution, before, chosen, c);
    ExtendGreedy(g0, order, solution, before, chosen, c);
  }

  lemma ExtendDistinct(solution: seq<int>, chosen: set<int>, c: int)
    requires chosen == Elems(solution) && Distinct(solution) && c !in chosen
    ensures chosen + {c} == Elems(solution + [c]) && Distinct(solution + [c])
  {
    var sol' := solution + [c];
    forall i, j | 0 <= i < j < |sol'| ensures sol'[i] != sol'[j] {
      assert sol'[i] == solution[i] && solution[i] in chosen;
      if j < |solution| {
        assert sol'[j] == solution[j];
      }
    }
  }

  lemma ExtendChosenBefore(solution: seq<int>, before: seq<set<int>>, chosen: set<int>, c: int)
    requires ChosenBefore(solution, before) && before[|solution|] == chosen
    ensures ChosenBefore(solution + [c], before + [chosen + {c}])
  {
    var sol', before' := solution + [c], before + [chosen + {c}];
    forall i | 0 <= i < |sol'| ensures before'[i + 1] == before'[i] + {sol'[i]} {
      if i < |solution| {
        assert sol'[i] == solution[i] && before'[i] == before[i] && before'[i + 1] == before[i + 1];
      }
    }
  }

  lemma ExtendGreedy(g0: Adjacency, order: seq<int>, solution: seq<int>, before: seq<set<int>>,
                     chosen: set<int>, c: int)
    requires |before| == |solution| + 1 && before[|solution|] == chosen
    requires forall i :: 0 <= i < |solution| ==> GreedyChoice(g0, order, before[i], solution[i])
    requires GreedyChoice(g0, order, chosen, c)
    ensures forall i :: 0 <= i < |solution + [c]| ==>
              GreedyChoice(g0, order, (before + [chosen + {c}])[i], (solution + [c])[i])
  {
    var sol', before' := solution + [c], before + [chosen + {c}];
    forall i | 0 <= i < |sol'| ensures GreedyChoice(g0, order, before'[i], sol'[i]) {
      if i < |solution| {
        assert sol'[i] == solution[i] && before'[i] == before[i];
      } else {
        assert sol'[i] == c && before'[i] == chosen;
      }
    }
  }

  /**
   * What holds at the top of the loop at line 64 once the vertices of `solution` were
   * chosen (`before[i]` being those chosen before step `i`): the working dictionary
   * `rem`, its key order `live` and the shared lists are those for `chosen`, `ge`
   * counts the uncovered edges, and every step took the greedy choice.
   */
  ghost predicate RoundState(g0: Adjacency, order: seq<int>, e: int, solution: seq<int>, before: seq<set<int>>,
                             chosen: set<int>, rem: Adjacency, live: seq<int>, shared: Adjacency, ge: int)
  {
    && chosen == Elems(solution) && Distinct(solution)
    && ChosenBefore(solution, before) && before[|solution|] == chosen
    && Remaining(g0, chosen, rem)
    && Filtered(order, g0.Keys - rem.Keys, live)
    && SharedLists(g0, shared, solution, before)
    && ge == |UncoveredEdges(g0, chosen)|
    && |solution| + ge <= e
    && (forall i :: 0 <= i < |solution| ==> GreedyChoice(g0, order, before[i], solution[i]))
  }

  /** One round of the loop at lines 64-91: choose `c`, delete it, update the edge count. */
  method Round(g0: Adjacency, order: seq<int>, e: int, rem: Adjacency, live: seq<int>, shared: Adjacency, ge: int,
               ghost solution: seq<int>, ghost before: seq<set<int>>, ghost chosen: set<int>)
    returns (c: int, rem': Adjacency, live': seq<int>, shared': Adjacency, ge': int)
    requires Simple(g0) && Distinct(order) && (forall k :: k in g0 <==> k in order)
    requires RoundState(g0, order, e, solution, before, chosen, rem, live, shared, ge) && ge != 0
    ensures RoundState(g0, order, e, solution + [c], before + [chosen + {c}], chosen + {c}, rem', live', shared', ge')
    ensures 0 <= ge' < ge
  {
    var d;
    c, d := ScanMaxDegree(rem, live, g0, order, chosen);
    rem', live', shared' := DeleteFromWorking(rem, live, shared, c, g0, order, solution, before, chosen);
    ExtendSolution(g0, order, solution, before, chosen, c);
    ge' := ge - d;
  }

  /**
   * The loop of lines 64-95 on the graph's lists `g0` with key order `order` and edge
   * count `e`: each round picks the greedy choice, deletes it from the working
   * dictionary and polls the timer; `polls` polls answer false before one answers true.
   * Returns the solution, the sets chosen before each step (ghost), and the lists the
   * graph shares with the working dictionary.
   */
  method GreedyRounds(g0: Adjacency, order: seq<int>, e: int, polls: nat)
    returns (solution: seq<int>, ghost before: seq<set<int>>, shared: Adjacency)
    requires Simple(g0) && Distinct(order) && (forall k :: k in g0 <==> k in order) && e == |Edges(g0)|
    ensures Distinct(solution) && |solution| <= e && |solution| <= polls + 1
    ensures ChosenBefore(solution, before)
    ensures forall i :: 0 <= i < |solution| ==> GreedyChoice(g0, order, before[i], solution[i])
    ensures SharedLists(g0, shared, solution, before)
    ensures !IsVertexCover(g0, Elems(solution)) ==> |solution| == polls + 1
  {
    var rem := g0;
    shared := g0;
    var live := order;
    var ge := e;
    solution := [];
    before := [{}];
    ghost var chosen: set<int> := {};
    var polled := 0;
    FirstRound(g0, order);
    assert chosen == Elems(solution);
    while ge != 0
      invariant RoundState(g0, order, e, solution, before, chosen, rem, live, shared, ge)
      invariant |solution| == polled <= polls
      decreases ge
    {
      var c;
      c, rem, live, shared, ge := Round(g0, order, e, rem, live, shared, ge, solution, before, chosen);
      solution := solution + [c];
      before := before + [chosen + {c}];
      chosen := chosen + {c};
      if polled == polls {
        CoverIffNothingUncovered(g0, chosen);
        return;
      }
      polled := polled + 1;
    }
    CoverIffNothingUncovered(g0, chosen);
  }

  /**
   * `get_vertex_cover` (lines 35-110). `polls` is how many times `timer.cutoff()`
   * answers false before it answers true. Returns the quality (None when the solution
   * is not a cover), the solution and, as a ghost, the sets chosen before each step;
   * the graph's neighbour lists end up filtered, because the working dictionary
   * shares them.
   */
  method Greedy(g: Graph, polls: nat) returns (quality: Option<int>, solution: seq<int>, ghost before: seq<set<int>>)
    requires g.Valid() && Simple(g.adj) && g.e == |Edges(g.adj)|
    modifies g`adj
    ensures Distinct(solution) && forall x :: x in solution ==> x in old(g.adj)
    ensures |solution| <= g.e && |solution| <= polls + 1
    ensures ChosenBefore(solution, before)
    ensures forall i :: 0 <= i < |solution| ==> GreedyChoice(old(g.adj), g.order, before[i], solution[i])
    ensures quality.Some? <==> IsVertexCover(old(g.adj), Elems(solution))
    ensures quality.Some? ==> quality.value == |solution|
    ensures quality.None? ==> |solution| == polls + 1
    ensures SharedLists(old(g.adj), g.adj, solution, before)
  {
    ghost var g0 := g.adj;
    var shared;
    solution, before, shared := GreedyRounds(g.adj, g.order, g.e, polls);
    g.adj := shared;
    FilteredGraphSameVerdict(g0, shared, solution);
    assert (set x | x in solution) == Elems(solution);
    if g.IsCover(solution) {
      quality := Some(|solution|);
    } else {
      quality := None;
    }
  }
}
