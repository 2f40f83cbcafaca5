# Minimum Vertex Cover — a verified model of the core

This project models, in Dafny, the core of a small Python program that computes vertex
covers of undirected graphs:

- **the graph** (`graph.py`): loading a graph from its header row and one neighbour row per
  vertex, neighbour lookup with an access counter, and the list of vertices;
- **the incremental cover state** (`vertex_cover.py`): a solution set with its covered and
  uncovered edge sets, kept in step by `add_vertex` / `remove_vertex`, and the queries
  `get_changes`, `get_gain`, `get_loss` and `get_add_candidates`;
- **the greedy approximation** (`algos/Approx.py`): repeatedly take a vertex of maximum
  remaining degree and delete it and its edges from a shallow copy of the graph;
- **branch and bound** (`algos/BnB.py`): a depth-first search over include/exclude
  decisions with a working copy of the graph, an upper bound from the best cover found so far,
  the lower bound edges / max degree, and backtracking that puts popped vertices' edges back;
- **the bookkeeping** (`utils.py`): the time-limit test, the trace of records kept next to
  the graph counters, and the text of the `.trace` and `.sol` files.

Modules follow the source files: `Graphs` (graph.dfy), `CoverState` (vertex_cover.dfy),
`Approx` (approx.dfy), `BranchAndBound` (bnb.dfy) and `Utils` (utils.dfy). Shared pieces sit in
`Wrappers` (Option/Result), `Seqs` (the Python list operations the core uses) and `Degrees`
(the maximum-degree scan both algorithms run).

Modelling choices:

- A graph is a map from vertex to neighbour list (`Adjacency`). The dictionary's insertion
  order is kept as a separate sequence where the source iterates over keys.
- Edges are unordered pairs, written `Edge(lo, hi)` with `lo <= hi`; the source uses `frozenset`s.
- Raised exceptions are values: `GraphError`, `CoverError`, and `Crash` for branch and bound.
- The algorithms take `polls: nat`, the number of `timer.cutoff()` polls that answer false.
  `Utils.PollsBeforeCutoff` shows why that is enough: on a clock that never goes back, the
  polls that answer "stop" are exactly those from some point on.
- The greedy algorithm's shallow copy is modelled faithfully: the vertex lists the
  algorithm edits are the graph's own lists, and `Approx.Greedy` states what they hold afterwards.
- Branch and bound's working graph is a value `Work(keys, adj, e)`. The main loop is a `while`
  loop over a `Search` state; the steps are methods proved equal to specification functions.
- Elapsed times are whole hundredths of a second, since the timer rounds them to two decimals.

## Model

| member | source | states |
|---|---|---|
| `Graphs.IsVertexCover` | algos/BnB.py:107 | the cover test of `is_vertex_cover`: the whole vertex set is a cover, any set covers a graph without edges, and the empty set covers only a graph without edges |
| `Graphs.EmptyCoverNoEdges` | algos/BnB.py:107 | only a graph without edges passes the cover test with no vertex chosen |
| `Graphs.CoverIffNothingUncovered` | vertex_cover.py:38-41 | a vertex set is a cover exactly when it leaves no edge uncovered |
| `Graphs.CoveredUncoveredPartition` | vertex_cover.py:117-127 | covered and uncovered edges of a solution are disjoint and together are all edges |
| `Graphs.EdgesAtCard` | algos/BnB.py:76 | a vertex with distinct neighbours has as many edges as list entries, so the counter drops by exactly its edges |
| `Graphs.EdgeAtEndpoint` | vertex_cover.py:97-98 | in a symmetric graph every edge at `c` comes from an entry of `c`'s own list |
| `Graphs.ChangesAtEndpoint` | vertex_cover.py:97-98 | an edge at `c` is among `c`'s changes iff its other end is outside the solution |
| `Graphs.TouchesAfterAdd` | vertex_cover.py:66-72 | after adding `c`, an edge is covered iff it was covered or is one of `c`'s changes |
| `Graphs.TouchesAfterRemove` | vertex_cover.py:78-84 | after removing `c`, an edge is covered iff it was covered and is not one of `c`'s changes |
| `Graphs.UncoveredAfterAdd` | vertex_cover.py:66-72 | adding a vertex moves exactly its changes from the uncovered to the covered edges |
| `Graphs.CoveredAfterRemove` | vertex_cover.py:78-84 | removing a member moves exactly its changes from the covered to the uncovered edges |
| `Graphs.Neighbours` | graph.py:47-59 | the lookup fails exactly for an unknown vertex, with that vertex in the error, and otherwise returns its list unchanged |
| `Graphs.NeighboursAsWritten` | graph.py:29-59 | as written, every lookup raises: an unknown vertex fails the membership test and a known one fails on the counter attribute |
| `Graphs.AsWrittenLookupFails` | graph.py:57 | for a vertex of the graph, the lookup as written raises where the intended one returns the list |
| `Graphs.ReadAdjacency` | graph.py:41-45 | row k becomes the list of vertex k, the keys are exactly 1..rows in that order, and an empty row gives an isolated vertex |
| `Graphs.Graph.constructor` | graph.py:21-45 | v and e come from the header, the third header number is dropped, the access count starts at 0 and rows are numbered from 1 |
| `Graphs.Graph.GetNeighbours` | graph.py:47-59 | returns the lookup's result and raises the access count by one exactly on success |
| `Graphs.Graph.AllNodes` | graph.py:61-63 | lists each vertex of the graph once and nothing else |
| `Graphs.Graph.AllEdges` | vertex_cover.py:36 | `get_all_edges`: every neighbour-list entry gives an edge, and every edge comes from an entry of one of its endpoints' lists |
| `Graphs.Graph.IsCover` | algos/Approx.py:98 | `is_vertex_cover` on a solution list holds exactly when no edge is left uncovered |
| `Graphs.Graph.CountCoveredEdges` | algos/Approx.py:105 | the number of covered edges is at most the edge count and reaches it iff the solution is a cover |
| `Graphs.Load` | graph.py:39 | a missing header or one without exactly three numbers raises; a header of three numbers always loads, and the graph is built as the constructor states |
| `CoverState.Changes` | vertex_cover.py:94-99 | the changes are defined exactly when the vertex is in the graph |
| `CoverState.OutsideCount` | vertex_cover.py:101-107 | the gain/loss count is defined exactly when the vertex is in the graph |
| `CoverState.AddF` | vertex_cover.py:66-72 | `add_vertex` raises exactly on an unknown vertex, naming it; otherwise the solution gains the vertex and the quality is its new size |
| `CoverState.RemoveF` | vertex_cover.py:78-84 | `remove_vertex` leaves an unknown vertex's state unchanged, takes a member out and sets the quality to the new size, and leaves a non-member's solution and quality alone |
| `CoverState.RemoveError` | vertex_cover.py:78-84 | `remove_vertex` raises exactly when the vertex is unknown or not in the solution |
| `CoverState.ConsistentUncovered` | vertex_cover.py:58-61 | while the state is kept by add/remove, the stored uncovered set is the set of edges the solution misses |
| `CoverState.ChangesOfOutsider` | vertex_cover.py:94-99 | for a vertex outside the solution, its changes are exactly the uncovered edges at it |
| `CoverState.ChangesOfMember` | vertex_cover.py:94-99 | for a member, its changes are exactly the covered edges at it that no other member covers |
| `CoverState.AddKeepsConsistent` | vertex_cover.py:66-72 | adding a known vertex succeeds and keeps the partition, the covered set and the quality right |
| `CoverState.RemoveKeepsConsistent` | vertex_cover.py:78-84 | removing keeps the state consistent, and a remove that raises leaves the state as it was |
| `CoverState.AddThenRemove` | vertex_cover.py:66-84 | removing a vertex just added restores the previous state exactly |
| `CoverState.KnownPrefix` | vertex_cover.py:74-76 | the vertices before the returned position are in the graph and the one at it is not |
| `CoverState.AddAllOutcome` | vertex_cover.py:74-76 | `add_vertices` adds exactly the vertices before the first unknown one, and raises exactly when there is one, naming it |
| `CoverState.AddAllKeepsConsistent` | vertex_cover.py:74-76 | `add_vertices` keeps the edge sets and quality consistent, also when it raises part-way |
| `CoverState.RemovablePrefix` | vertex_cover.py:109-111 | the number of vertices `remove_vertices` gets through is at most the list's length |
| `CoverState.RemovablePrefixIsFirstFailure` | vertex_cover.py:109-111 | the vertices it gets through are known, in the solution and not repeated; the one it stops at is unknown, outside the solution or a repeat |
| `CoverState.RemoveAllOutcome` | vertex_cover.py:109-111 | `remove_vertices` takes out exactly the vertices before the first it cannot remove, and raises exactly then: `ValueError` for an unknown vertex, `KeyError` otherwise |
| `CoverState.RemoveAllKeepsConsistent` | vertex_cover.py:109-111 | `remove_vertices` keeps the state consistent, also when it raises part-way |
| `CoverState.GainIsNewlyCovered` | vertex_cover.py:105-107 | the gain of an outsider is the number of edges adding it covers |
| `CoverState.LossIsNewlyUncovered` | vertex_cover.py:101-103 | the loss of a member is the number of edges removing it uncovers |
| `CoverState.GainWhenOutside` | vertex_cover.py:105-107 | the gain equals the growth of the covered set on adding |
| `CoverState.LossWhenInside` | vertex_cover.py:101-103 | the loss equals the shrinking of the covered set on removing |
| `CoverState.ChangeCount` | vertex_cover.py:97-107 | with duplicate-free lists, the gain/loss count is the number of changed edges |
| `CoverState.CandidatesAreOpenVertices` | vertex_cover.py:86-92 | the endpoints of uncovered edges are exactly the outsiders with a neighbour outside the solution |
| `CoverState.VertexCover.constructor` | vertex_cover.py:26-36 | a fresh state: empty solution, quality 0, nothing covered, every edge uncovered |
| `CoverState.VertexCover.IsVertexCoverNew` | vertex_cover.py:38-41 | while the state is consistent, the answer is whether the solution is a cover |
| `CoverState.VertexCover.SetSolution` | vertex_cover.py:43-45 | the solution becomes the set of the given list and nothing else changes |
| `CoverState.VertexCover.GetSolution` | vertex_cover.py:47-48 | lists each member of the solution once |
| `CoverState.VertexCover.GetSolutionQualityNew` | vertex_cover.py:50-51 | while consistent, the stored quality is the solution's size |
| `CoverState.VertexCover.GetCoveredEdgesNew` | vertex_cover.py:53-56 | while consistent, the stored covered set is the edges touching the solution |
| `CoverState.VertexCover.GetUncoveredEdgesNew` | vertex_cover.py:58-61 | while consistent, the stored uncovered set is the edges the solution misses |
| `CoverState.VertexCover.UpdateSolution` | vertex_cover.py:63-64 | the quality becomes the solution's size and nothing else changes |
| `CoverState.VertexCover.GetChanges` | vertex_cover.py:94-99 | fails exactly on an unknown vertex; for an outsider, the uncovered edges at it |
| `CoverState.VertexCover.GetGain` | vertex_cover.py:105-107 | fails exactly on an unknown vertex; for an outsider, how many edges adding it would cover |
| `CoverState.VertexCover.GetLoss` | vertex_cover.py:101-103 | fails exactly on an unknown vertex; for a member, how many edges removing it would uncover |
| `CoverState.VertexCover.AddVertex` | vertex_cover.py:66-72 | raises exactly on an unknown vertex, changing nothing; otherwise moves the vertex's changes to covered, adds it and updates the quality; keeps the invariant |
| `CoverState.VertexCover.RemoveVertex` | vertex_cover.py:78-84 | raises on an unknown vertex (no change) or a non-member (edge sets already updated); otherwise the mirror of add; keeps the invariant |
| `CoverState.VertexCover.AddVertices` | vertex_cover.py:74-76 | the state is the fold of `add_vertex` that stops at the first raise; the solution gains the vertices before the first unknown one; raises iff some vertex is unknown, naming the first; the invariant is kept either way |
| `CoverState.VertexCover.RemoveVertices` | vertex_cover.py:109-111 | the state is the fold of `remove_vertex` that stops at the first raise; the solution loses the vertices before it; succeeds iff every vertex is known, in the solution and not repeated; the invariant is kept either way |
| `CoverState.VertexCover.AddRemoveVertices` | vertex_cover.py:113-115 | a raising `add_vertices` ends the call with its state; otherwise the state is that of `remove_vertices` on the result; succeeds iff every addition is known and every removal is known, in the old solution or the additions, and not repeated, and then the solution is old plus additions minus removals; the invariant is kept either way |
| `CoverState.VertexCover.GetAddCandidates` | vertex_cover.py:86-92 | each endpoint of an uncovered edge once; while consistent, the outsiders with a neighbour outside the solution |
| `CoverState.VertexCover.FixCoveredEdges` | vertex_cover.py:117-119 | the covered set and quality are recomputed from the solution |
| `CoverState.VertexCover.FixUncoveredEdges` | vertex_cover.py:121-123 | the uncovered set and quality are recomputed from the solution |
| `CoverState.VertexCover.FixAll` | vertex_cover.py:125-127 | after any solution change, restores the invariant without touching the solution |
| `Degrees.FirstMax` | algos/BnB.py:175-181 | the scan settles on a key of maximum degree that is the first such key, or -1 when there are no keys |
| `Degrees.FindMaxDeg` | algos/BnB.py:175-181 | the loop returns that key and its degree, or (-1, -1) on an empty dictionary |
| `Approx.NeighbourLosesChosen` | algos/Approx.py:83-84 | a neighbour of the chosen vertex still lists it, and removing it equals filtering it out |
| `Approx.UnlinkOne` | algos/Approx.py:84-87 | one pass of the neighbour loop removes the chosen vertex from one list, deletes that key if emptied, and updates the shared list |
| `Approx.UnlinkNeighbours` | algos/Approx.py:83-87 | after the loop, each neighbour's list lost the chosen vertex, emptied ones are deleted, and the graph's shared lists changed in step |
| `Approx.UnlinkedAll` | algos/Approx.py:83-87 | once every neighbour is handled, the loop's invariant gives the final dictionary and shared lists |
| `Approx.NonNeighbourKeeps` | algos/Approx.py:83-87 | a vertex not adjacent to the chosen one keeps its list |
| `Approx.DeleteChosen` | algos/Approx.py:81-89 | deleting the chosen vertex leaves the graph minus the chosen set, with emptied vertices gone |
| `Approx.UncoveredHasLiveEndpoint` | algos/Approx.py:64-74 | while an edge is uncovered some remaining vertex has degree at least 1 |
| `Approx.ScanIsGreedy` | algos/Approx.py:69-74 | the scan over remaining keys picks the first vertex of maximum remaining degree in the graph's key order |
| `Approx.ChosenCoversDegree` | algos/Approx.py:82 | the edge counter drop equals the number of edges the chosen vertex newly covers |
| `Approx.FilteredGraphSameVerdict` | algos/Approx.py:98 | the cover test on the shallow-copied lists gives the same answer as on the original graph |
| `Approx.SharedListsStep` | algos/Approx.py:59-89 | after each round, every list the graph shares with the working copy is its original list minus the vertices chosen before it was dropped |
| `Approx.ScanMaxDegree` | algos/Approx.py:69-77 | the scan returns a greedy choice of positive degree, and taking it lowers the uncovered edges by that degree |
| `Approx.DeleteFromWorking` | algos/Approx.py:81-91 | the deletion step keeps the working copy, the key order and the shared lists in their invariants |
| `Approx.LiveAfterDelete` | algos/Approx.py:91 | the key view after deletions is the key order without the deleted keys |
| `Approx.FirstRound` | algos/Approx.py:59-62 | the copied state satisfies the loop invariant before the first round |
| `Approx.NothingFiltered` | algos/Approx.py:59 | with nothing chosen the copy's lists are the graph's lists |
| `Approx.NothingCovered` | algos/Approx.py:61 | with nothing chosen every edge is uncovered, so the counter starts at the edge count |
| `Approx.ExtendSolution` | algos/Approx.py:77 | appending a greedy choice keeps the solution duplicate-free and every entry a greedy choice |
| `Approx.Round` | algos/Approx.py:64-95 | one round keeps the loop invariant and strictly lowers the edge counter |
| `Approx.GreedyRounds` | algos/Approx.py:64-95 | the loop yields distinct greedy choices, at most e of them and at most polls+1, and stops early only by the timer |
| `Approx.Greedy` | algos/Approx.py:35-110 | quality is set iff the greedy solution covers the graph, and then it is the solution's size; each vertex is the first of maximum remaining degree; the graph's lists end as the shared copies |
| `BranchAndBound.Put` | algos/BnB.py:147 | a dictionary assignment sets one list and keeps every key listed once in the key order |
| `BranchAndBound.DropEffect` | algos/BnB.py:78-80 | `list.remove` then `del` on emptying: the list loses one occurrence of the vertex, the key goes exactly when that was its only entry, and every other key and the counter are unchanged |
| `BranchAndBound.Delete` | algos/BnB.py:80 | `del` drops one key and keeps every other key listed once |
| `BranchAndBound.Unlink` | algos/BnB.py:77-81 | detaching a vertex from its neighbours leaves the counter alone and keeps the key order |
| `BranchAndBound.Remove` | algos/BnB.py:85-92 | removing a vertex lowers the counter by its degree and keeps the key order; it crashes on a missing key |
| `BranchAndBound.Exclude` | algos/BnB.py:71-82 | removing all the neighbours keeps the key order |
| `BranchAndBound.InCover` | algos/BnB.py:72 | each neighbour is recorded as included, in list order |
| `BranchAndBound.Branch` | algos/BnB.py:69-92 | taking an entry keeps the key order |
| `BranchAndBound.Reattach` | algos/BnB.py:144-151 | putting a vertex's edges back keeps it a key, leaves the counter alone and keeps the key order |
| `BranchAndBound.Included` | algos/BnB.py:140-142 | the vertices recorded as included are exactly those with flag 1, no more entries than decisions |
| `BranchAndBound.PopDecision` | algos/BnB.py:136-152 | a restore step pops exactly the last decision, crashes exactly when its vertex is not in the graph, and keeps the key order |
| `BranchAndBound.Restore` | algos/BnB.py:135-152 | the restore loop leaves exactly the first `id` decisions on the stack, crashes exactly when a popped vertex is not in the graph, and keeps the key order |
| `BranchAndBound.KeysInDictionary` | algos/BnB.py:177 | every key in the key order is in the dictionary |
| `BranchAndBound.TopVertex` | algos/BnB.py:123 | the vertex pushed next has maximum degree in the working graph |
| `BranchAndBound.MaxDegree` | algos/BnB.py:185 | the maximum degree bounds every degree and is -1 exactly on an empty dictionary |
| `BranchAndBound.Trunc` | algos/BnB.py:194 | `int()` truncates toward zero: the largest integer not above a non-negative argument, the least not below a negative one |
| `BranchAndBound.Ceil` | algos/BnB.py:193-197 | `ceil` returns the least integer not below its argument |
| `BranchAndBound.UnlinkAll` | algos/BnB.py:77-81 | the loop equals its specification `Unlink` |
| `BranchAndBound.RemoveVertex` | algos/BnB.py:85-92 | the include step equals its specification `Remove` |
| `BranchAndBound.ExcludeAll` | algos/BnB.py:71-82 | the exclude loop equals its specification `Exclude` |
| `BranchAndBound.TakeEntry` | algos/BnB.py:69-92 | taking an entry equals its specification `Branch` |
| `BranchAndBound.ReattachAll` | algos/BnB.py:144-151 | the reattach loop equals its specification `Reattach` |
| `BranchAndBound.SolutionOf` | algos/BnB.py:160-162 | extracting the solution equals `Included` |
| `BranchAndBound.VCSize` | algos/BnB.py:200-205 | `VC_Size` counts exactly the included vertices |
| `BranchAndBound.Pop` | algos/BnB.py:136-152 | one restore step equals its specification `PopDecision` |
| `BranchAndBound.Backtrack` | algos/BnB.py:134-152 | the restore loop equals its specification `Restore` |
| `BranchAndBound.EdgeBound` | algos/BnB.py:184-187 | divides by zero exactly when the max degree is 0; for a positive max degree d the bound is the integer b with (b-1)*d < e <= b*d; on an empty dictionary it is -e |
| `BranchAndBound.CeilBracket` | algos/BnB.py:193-197 | the ceiling of e/d is the integer c with (c-1)*d < e <= c*d |
| `BranchAndBound.Lowerbound` | algos/BnB.py:184-187 | equals `EdgeBound`: the ceiling of edges over max degree, and a division by zero when the max degree is 0 |
| `BranchAndBound.IndexOf` | algos/BnB.py:134 | `list.index` finds the first position holding the value |
| `BranchAndBound.Improve` | algos/BnB.py:98-109 | a complete cover below the bound becomes the incumbent and the new bound, and its size is appended to the records exactly when it covers the original graph; the incumbent invariants, including that a covering incumbent is the last record, are kept |
| `BranchAndBound.Settle` | algos/BnB.py:97-127 | a complete cover below the bound becomes the incumbent and is recorded exactly when it covers the original graph, and the path ends; an incomplete one raises `ZeroDivisionError` exactly on a zero max degree, and pushes the exclude and then the include child of a max-degree vertex iff lower bound + size is below the upper bound, otherwise ends the path; the incumbent invariants are kept |
| `BranchAndBound.Reverted` | algos/BnB.py:129-157 | backtracking keeps the frontier, bound and incumbent, and only shortens the decision stack |
| `BranchAndBound.Revert` | algos/BnB.py:129-157 | equals `Reverted`; with the parent on the stack it restores to just after the parent, the stack becoming its prefix up to the parent; with the root sentinel it resets to an empty stack and the starting graph; with an unknown parent or an empty frontier it changes nothing |
| `BranchAndBound.Conclude` | algos/BnB.py:97-157 | what follows taking an entry adds at most one record and keeps the working graph's keys listed |
| `BranchAndBound.Step` | algos/BnB.py:65-157 | one pass of the loop adds at most one record |
| `BranchAndBound.TakesTop` | algos/BnB.py:65-124 | the frontier is a stack: a pass takes its last entry, and a pass that does not fail leaves the entries below it, or those plus the exclude and then the include child of one vertex with the taken entry as parent, so the include child comes off next; a failed take fails the pass with the records unchanged |
| `BranchAndBound.Finish` | algos/BnB.py:97-157 | settling then backtracking equals `Conclude`, and keeps the record and incumbent invariants |
| `BranchAndBound.Iterate` | algos/BnB.py:65-157 | one pass equals `Step`: a crash ends the run `Run` with that crash, otherwise the run continues from the new state with one poll fewer; the record and incumbent invariants are kept |
| `BranchAndBound.Run` | algos/BnB.py:65-157 | the loop, stopped by the timer after `polls` passes or by an empty frontier, only appends to the records, at most one per pass |
| `BranchAndBound.Explore` | algos/BnB.py:65-157 | the loop equals `Run` from the given state, and keeps the record and incumbent invariants |
| `BranchAndBound.GetVertexCover` | algos/BnB.py:20-173 | the outcome is the search `Run` from the initial state (bound v, both children of a max-degree vertex under the root); every record is the size of a cover of the graph, records strictly decrease and stay below v; a finished run has a quality iff its solution is a cover, and then no record is smaller and the quality repeats the last record, or the solution is empty when nothing was recorded |
| `BranchAndBound.IncidentCard` | algos/BnB.py:185-186 | s vertices of degree at most d touch at most s*d edges |
| `BranchAndBound.NoEdgesWithoutDegree` | algos/BnB.py:185 | a graph whose max degree is at most 0 has no edges |
| `BranchAndBound.EdgeBoundDefined` | algos/BnB.py:184-187 | with an exact counter and edges left, the lower bound does not divide by zero |
| `BranchAndBound.CoverTouchesAll` | algos/BnB.py:113 | every edge touches a vertex of any cover |
| `BranchAndBound.CeilOfShare` | algos/BnB.py:193-197 | if e <= m*d then the ceiling of e/d is at most m |
| `BranchAndBound.EdgeBoundAdmissible` | algos/BnB.py:111-113 | on a simple working graph with an exact counter, the lower bound never exceeds the size of any cover |
| `BranchAndBound.UnlinkOnSimple` | algos/BnB.py:77-81 | on duplicate-free symmetric lists the detach loop succeeds and removes exactly the vertex from each neighbour's list, deleting emptied ones |
| `BranchAndBound.RemoveOnSimple` | algos/BnB.py:85-92 | on a simple graph, including a vertex succeeds and deletes it from the graph |
| `BranchAndBound.DeletedKeepsSimple` | algos/BnB.py:85-92 | deleting a vertex keeps the graph simple |
| `BranchAndBound.DeletedEdges` | algos/BnB.py:85-92 | deleting a vertex removes exactly its edges |
| `BranchAndBound.DeletedKeepsCount` | algos/BnB.py:86 | an exact edge counter stays exact after a deletion |
| `BranchAndBound.ExcludeOnSimple` | algos/BnB.py:70-82 | on a simple graph, excluding a vertex succeeds, removes all its neighbours, keeps the graph simple and the counter exact |
| `BranchAndBound.BranchOnSimple` | algos/BnB.py:69-92 | on a simple graph both decisions succeed, keep it simple and keep the counter exact |
| `BranchAndBound.ReattachList` | algos/BnB.py:144-151 | the popped vertex's list gains, in order, its original neighbours outside the cover |
| `BranchAndBound.ReattachKeys` | algos/BnB.py:146-147 | reattaching adds exactly those neighbours as keys |
| `BranchAndBound.ReattachOthers` | algos/BnB.py:145-150 | each such neighbour gains the popped vertex at the end of its list; other lists are unchanged |
| `BranchAndBound.PopRestoresEdges` | algos/BnB.py:136-152 | a restore step gives the popped vertex its original neighbours outside the remaining cover and grows the counter by their number |
| `Utils.Cutoff` | utils.py:32-34 | the limit is reached exactly when the elapsed seconds are at least the limit |
| `Utils.PollsBeforeCutoff` | utils.py:32-34 | the polls before the first "stop" all answer "keep going"; on a nondecreasing clock every later poll answers "stop" |
| `Utils.NatTextRoundTrip` | utils.py:96 | the decimal text of a natural number reads back as that number |
| `Utils.IntTextRoundTrip` | utils.py:96 | the text of an integer, with its minus sign, reads back as that integer |
| `Utils.CentiTextRoundTrip` | utils.py:30 | the text of a time rounded to hundredths reads back as the same number of hundredths |
| `Utils.SplitJoin` | utils.py:65-68 | splitting text joined by a separator gives the pieces back when no piece holds it |
| `Utils.RecordLine` | utils.py:66 | a record's line is non-empty and holds no newline |
| `Utils.RecordLineRoundTrip` | utils.py:66 | a record's line reads back as that record |
| `Utils.RecordLines` | utils.py:65-66 | one line per record, in order |
| `Utils.RecordLinesRoundTrip` | utils.py:65-66 | the lines read back as the records, in order |
| `Utils.TraceTextRoundTrip` | utils.py:64-68 | the trace text has one line per record, reads back as the records, and does not end in a newline |
| `Utils.TraceText` | utils.py:64-68 | the trace text is empty exactly when there are no records and holds a newline exactly when there is more than one |
| `Utils.TraceTextGrows` | utils.py:53-68 | adding a record to a non-empty trace adds one line at the end of the file |
| `Utils.WrittenStep` | utils.py:65-68 | each pass of the write loop adds one line, and a newline unless it is the last |
| `Utils.Trace.constructor` | utils.py:47-51 | a new trace has no records and no counter pairs |
| `Utils.Trace.AddRecord` | utils.py:53-57 | appends exactly one record and one counter pair, keeps the earlier ones in order, and keeps the two lists the same length |
| `Utils.Trace.SaveText` | utils.py:64-68 | the write loop produces exactly the trace text |
| `Utils.Trace.Stats` | utils.py:77-82 | the four columns are as long as the trace and hold each record's and counter pair's fields in order |
| `Utils.IntTexts` | utils.py:96 | one text per vertex, in order |
| `Utils.IntTextsRoundTrip` | utils.py:96 | the vertex texts read back as the vertices |
| `Utils.SolutionText` | utils.py:96-98 | the solution file has exactly two lines, the first the quality, and ends in a newline exactly when the solution is empty |
| `Utils.SolutionTextRoundTrip` | utils.py:96-98 | the solution file reads back as the quality and the solution, in order, including the empty solution |
| `Seqs.Without` | algos/BnB.py:144-145 | filtering keeps exactly the elements outside the set, in order |
| `Seqs.RemoveFirst` | algos/BnB.py:78 | `list.remove` shortens the list by one |
| `Seqs.RemoveFirstCounts` | algos/BnB.py:78 | `list.remove` takes away one occurrence and keeps every other element |
| `Seqs.RemoveFirstIsFirst` | algos/BnB.py:78 | `list.remove` cuts out the first occurrence: the position holding the element with none before it |
| `Seqs.RemoveFirstIsWithout` | algos/Approx.py:84 | on a duplicate-free list, `remove` equals filtering the element out |
| `Seqs.Range` | graph.py:41-45 | the keys assigned to the rows are consecutive from 1, each once |
| `Seqs.ListOf` | vertex_cover.py:48 | `list(set)` lists each element once and nothing else |

## Left out

- File and system I/O: opening and reading files, the missing-file error (graph.py:31-36), `mkdir`, file writes, JSON encoding, `print`, and `get_sys_info`. The graph is built from integer rows already split; the trace and solution are modelled as the text written.
- The wall clock: `Timer.start` and `Timer.elapsed` read `time()`. The algorithms take the number of polls that answer false instead; `Utils.Cutoff` is the comparison itself, on hundredths of a second. Float rounding in `elapsed` is not modelled.
- Utils.CentiTextRoundTrip: covers times printed in positional notation only; Python switches to exponent notation at 1e16 seconds.
- `is_vertex_cover`, `count_covered_edges`, `get_solution_quality`, `get_all_edges`, `get_covered_edges`, `get_uncovered_edges` and `check_vertex_cover` are called but not defined in graph.py. They are modelled by their evident meaning: a cover test, the number of covered edges, the list's length, and the edge sets.
- Utils.Trace.AddRecord: the timer's reading and the graph's two counters are parameters. As written, line 57 reads `_accesses_count`, which the graph never sets (see Findings), and `_vertex_cover_check_count`, which nothing in the repository defines.
- The access counter is not threaded through the algorithms; it is instrumentation only. The `CurG.v` / `G_v` vertex counters are also left out, because no decision reads them.
- Approx.Greedy: requires a simple graph whose `e` is its true edge count. The source assumes this of its input files; with a wrong `e` the loop can stop early or run past the last edge.
- Approx.Greedy: stated for one timer answer per round. The aliasing is modelled on values: the lists the algorithm edits are assigned to `g.adj` at the end, which gives the same final state because nothing reads `g.adj` during the loop.
- BranchAndBound.GetVertexCover: does not prove that the result is a minimum cover, or that pruning is sound over the whole search. It also does not prove that backtracking restores exactly the working graph of the parent decision. These need a depth-first-search invariant relating the frontier to the decision stack. What is proved: the loop is the search `Run`, each pass of which takes the top of the frontier (`TakesTop`); each step on a simple graph (`BranchOnSimple`, `PopRestoresEdges`); admissibility of the lower bound (`EdgeBoundAdmissible`); and the record and incumbent invariants.
- BranchAndBound.GetVertexCover: the final `add_record` (algos/BnB.py:166) is not appended to `records`; the final quality is returned in the outcome, which is proved equal to the last record.
- BranchAndBound.Lowerbound: `G.e / max_degree` is float division in the source; the model divides exactly over the reals, so rounding near integer quotients is not modelled.
- BranchAndBound.Unlink: walks a snapshot of the vertex's neighbour list, while the loops at algos/BnB.py:77 and :87 walk the live list that `remove` shrinks. The two differ only when a vertex lists itself ahead of another entry: removing 1 from `{1: [1, 2], 2: [1]}` leaves `{2: [1]}` in the source (the loop ends after its first pass) and `{}` in the model. An edge of the graph is an unordered pair of two distinct vertices, so a graph satisfying `Graphs.Simple` has no such self-loop; the results proved on simple graphs (`UnlinkOnSimple`, `RemoveOnSimple`, `ExcludeOnSimple`, `BranchOnSimple`) are unaffected.
- BranchAndBound.Remove: inherits the snapshot walk of `Unlink`, as do `Exclude`, `Branch`, `UnlinkAll`, `RemoveVertex`, `ExcludeAll` and `TakeEntry`.
- CoverState.VertexCover.constructor: requires a simple graph (symmetric, without loops or repeated neighbours), which the design assumes of its input files; the state starting from `get_all_edges` (vertex_cover.py:36) on other graphs is not modelled, because the invariant kept by `add_vertex` and `remove_vertex` holds only on simple graphs.
- BranchAndBound.Revert: the branch for an unknown parent only prints a message (algos/BnB.py:156-157) and is modelled as leaving the state unchanged.
- Branch and bound calls `get_neighbours` (algos/BnB.py:70), and so does `get_changes` (vertex_cover.py:97), which `get_loss` (vertex_cover.py:103) and `get_gain` (vertex_cover.py:107) call. As written each of these raises on every vertex of the graph (see Findings). So do `add_vertex` and `remove_vertex`, which call `get_changes`. The model of branch and bound and of the cover state uses the corrected lookup, so a missing vertex is the only lookup failure.
- LS1 and LS2 (algos/LS1.py, algos/LS2.py) are unimplemented stubs and not part of this model. Neither are plot.py, plotting/plot.py, test.py, fetch_data.py, exec.py or runner.py (plotting, experiments, scraping, command-line running).

## Findings

| source | as written | input that shows it | evidently intended | confidence | as-written member | corrected member |
|---|---|---|---|---|---|---|
| graph.py:29-57 | the constructor sets `self.__accesses_count`, which Python stores as `_Graph__accesses_count`; `get_neighbours` increments `self._accesses_count`, which does not exist, so every lookup of a vertex in the graph raises `AttributeError` | any graph file and any vertex of it, e.g. `get_neighbours(1)` on a graph with one row; branch and bound reaches this at its first exclude step (algos/BnB.py:70); `get_changes` (vertex_cover.py:97), and through it `get_loss`, `get_gain`, `add_vertex` and `remove_vertex` (vertex_cover.py:103, 107, 66-84), raise the same way on every vertex of the graph | one counter named the same in both places, so the lookup returns the neighbour list and counts the access | high, not executed | `Graphs.NeighboursAsWritten` (shown by `Graphs.AsWrittenLookupFails`) | `Graphs.Graph.GetNeighbours` (specified by `Graphs.Neighbours`) |
