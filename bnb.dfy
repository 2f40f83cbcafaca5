/**
 * The branch and bound search. A frontier of (vertex, decision, parent) entries is
 * explored depth first: taking an entry either puts the vertex in the cover (it and
 * its edges leave the working graph) or leaves it out (all its neighbours go in the
 * cover instead). A complete cover smaller than the incumbent becomes the new
 * incumbent; an incomplete one is extended only while edges / max degree plus its size
 * stays below the incumbent; otherwise the search backtracks by popping decisions and
 * putting their edges back into the working graph.
 */
module BranchAndBound {
  import opened Wrappers
  import opened Seqs
  import opened Graphs
  import opened Degrees

  /** A decision: `flag` 1 puts `node` in the cover, 0 leaves it out. */
  datatype Tag = Tag(node: int, flag: int)

  /** The parent recorded on the two first frontier entries. */
  const Root: Tag := Tag(-1, -1)

  /** A frontier entry: the vertex, the decision to try, and the decision it extends. */
  datatype Entry = Entry(node: int, flag: int, parent: Tag)

  /** The working graph `CurG`: the dictionary's key order, its neighbour lists and its edge counter. */
  datatype Work = Work(keys: seq<int>, adj: Adjacency, e: int)

  /** The exceptions the search can raise; each one ends the run. */
  datatype Crash =
    | Lookup(err: GraphError)          // `get_neighbours` of a vertex not in the working graph
    | MissingKey(key: int)             // `KeyError` on a dictionary lookup or `del`
    | NotInList(item: int, key: int)   // `ValueError` from `adj[key].remove(item)`
    | ZeroDivision                     // edges divided by a maximum degree of zero

  /** How a run ends: with its final quality and solution, or with an exception. */
  datatype Outcome = Finished(quality: Option<int>, solution: seq<int>) | Crashed(crash: Crash)

  /** The key order lists every key of the dictionary exactly once. */
  ghost predicate Keyed(w: Work) {
    Distinct(w.keys) && forall k :: k in w.keys <==> k in w.adj
  }

  /** `adj[k] = list`: a new key goes to the end of the key order, an old one keeps its place. */
  function Put(w: Work, k: int, list: seq<int>): (r: Work)
    ensures Keyed(w) ==> Keyed(r)
    ensures r.e == w.e && r.adj == w.adj[k := list]
  {
    if k in w.adj then Work(w.keys, w.adj[k := list], w.e)
    else Work(w.keys + [k], w.adj[k := list], w.e)
  }

  /** `del adj[k]`: the key leaves the dictionary and its order. */
  function Delete(w: Work, k: int): (r: Work)
    ensures Keyed(w) ==> Keyed(r)
    ensures r.e == w.e && r.adj == w.adj - {k}
  {
    assert Keyed(w) ==> Distinct(Without(w.keys, {k})) by {
      if Keyed(w) {
        WithoutDistinct(w.keys, {k});
      }
    }
    Work(Without(w.keys, {k}), w.adj - {k}, w.e)
  }

  /** `adj[n].remove(x)`, then `del adj[n]` when that emptied the list. */
  function Drop(w: Work, n: int, x: int): Work
    requires n in w.adj && x in w.adj[n]
  {
    var list := RemoveFirst(w.adj[n], x);
    if |list| == 0 then Delete(w, n) else Put(w, n, list)
  }

  /**
   * One step of the inner loops: `n`'s list loses one occurrence of `x`, the key `n`
   * goes exactly when that was its only entry, and every other key keeps its list.
   */
  lemma DropEffect(w: Work, n: int, x: int)
    requires n in w.adj && x in w.adj[n]
    ensures var r := Drop(w, n, x);
      && r.e == w.e && (Keyed(w) ==> Keyed(r))
      && (n in r.adj <==> |w.adj[n]| > 1)
      && (n in r.adj ==> multiset(r.adj[n]) == multiset(w.adj[n]) - multiset{x})
      && r.adj == if n in r.adj then w.adj[n := r.adj[n]] else w.adj - {n}
  {
    RemoveFirstCounts(w.adj[n], x);
  }

  /**
   * The inner loops at lines 77-80 and 87-91: each vertex of `nbrs` in turn loses
   * `x` from its list, and is deleted if that list becomes empty.
   */
  function Unlink(w: Work, x: int, nbrs: seq<int>): (r: Result<Work, Crash>)
    ensures r.Success? ==> r.value.e == w.e
    ensures r.Success? && Keyed(w) ==> Keyed(r.value)
    decreases |nbrs|
  {
    if nbrs == [] then Success(w)
    else if nbrs[0] !in w.adj then Failure(MissingKey(nbrs[0]))
    else if x !in w.adj[nbrs[0]] then Failure(NotInList(x, nbrs[0]))
    else Unlink(Drop(w, nbrs[0], x), x, nbrs[1..])
  }

  /**
   * Putting `x` in the cover (lines 85-92, and 75-82 for each neighbour of an
   * excluded vertex): the edge counter drops by `x`'s degree, `x` is unlinked from
   * its neighbours and its own entry is deleted.
   */
  function Remove(w: Work, x: int): (r: Result<Work, Crash>)
    ensures r.Success? ==> x in w.adj && r.value.e == w.e - |w.adj[x]|
    ensures r.Success? && Keyed(w) ==> Keyed(r.value)
  {
    if x !in w.adj then Failure(MissingKey(x))
    else
      var unlinked := Unlink(w.(e := w.e - |w.adj[x]|), x, w.adj[x]);
      if unlinked.Failure? then Failure(unlinked.error)
      else if x !in unlinked.value.adj then Failure(MissingKey(x))
      else Success(Delete(unlinked.value, x))
  }

  /** Lines 71-82: every vertex of `nodes` is put in the cover, one after the other. */
  function Exclude(w: Work, nodes: seq<int>): (r: Result<Work, Crash>)
    ensures r.Success? && Keyed(w) ==> Keyed(r.value)
    decreases |nodes|
  {
    if nodes == [] then Success(w)
    else
      var removed := Remove(w, nodes[0]);
      if removed.Failure? then Failure(removed.error) else Exclude(removed.value, nodes[1..])
  }

  /** The decisions `(node, 1)` line 72 appends for each of `nodes`. */
  function InCover(nodes: seq<int>): (r: seq<Tag>)
    ensures |r| == |nodes|
    ensures forall i :: 0 <= i < |r| ==> r[i] == Tag(nodes[i], 1)
  {
    if nodes == [] then [] else [Tag(nodes[0], 1)] + InCover(nodes[1..])
  }

  /**
   * Lines 69-92: the working graph after taking the entry `(vi, state)` and the
   * decisions added before `(vi, state)` itself. Decision 0 looks `vi` up with
   * `get_neighbours` and puts every neighbour in the cover; decision 1 puts `vi` in.
   */
  function Branch(w: Work, vi: int, state: int): (r: Result<(Work, seq<Tag>), Crash>)
    ensures r.Success? && Keyed(w) ==> Keyed(r.value.0)
  {
    if state == 0 then
      var nbrs := Neighbours(w.adj, vi);
      if nbrs.Failure? then Failure(Lookup(nbrs.error))
      else
        var excluded := Exclude(w, nbrs.value);
        if excluded.Failure? then Failure(excluded.error) else Success((excluded.value, InCover(nbrs.value)))
    else if state == 1 then
      var removed := Remove(w, vi);
      if removed.Failure? then Failure(removed.error) else Success((removed.value, []))
    else Success((w, []))
  }

  /**
   * Lines 144-151: for each original neighbour `n` of `x` outside the current cover,
   * `x` joins `n`'s list (created if `n` is not a key) and `n` joins `x`'s list.
   */
  function Reattach(w: Work, x: int, nbrs: seq<int>, cover: seq<int>): (r: Work)
    requires x in w.adj
    ensures x in r.adj && r.e == w.e
    ensures Keyed(w) ==> Keyed(r)
    decreases |nbrs|
  {
    if nbrs == [] then w
    else if nbrs[0] in cover then Reattach(w, x, nbrs[1..], cover)
    else
      var n := nbrs[0];
      var w1 := if n in w.adj then Put(w, n, w.adj[n] + [x]) else Put(w, n, [x]);
      Reattach(Put(w1, x, w1.adj[x] + [n]), x, nbrs[1..], cover)
  }

  /** The vertices a list of decisions puts in the cover, in order (lines 103-105, 140-142, 160-162). */
  function Included(vc: seq<Tag>): (r: seq<int>)
    ensures |r| <= |vc|
    ensures forall x :: x in r <==> Tag(x, 1) in vc
  {
    if vc == [] then []
    else
      var last := vc[|vc| - 1];
      assert forall t :: t in vc <==> t in vc[..|vc| - 1] || t == last by {
        assert vc == vc[..|vc| - 1] + [last];
      }
      Included(vc[..|vc| - 1]) + if last.flag == 1 then [last.node] else []
  }

  /**
   * One pass of the loop at lines 135-152: the last decision is popped, its vertex
   * gets a fresh empty list, is reattached to its original neighbours outside the
   * cover that remains, and the edge counter grows by its new degree.
   */
  function PopDecision(g0: Adjacency, vc: seq<Tag>, w: Work): (r: Result<(seq<Tag>, Work), Crash>)
    requires vc != []
    ensures r.Failure? <==> vc[|vc| - 1].node !in g0
    ensures r.Success? ==> r.value.0 == vc[..|vc| - 1]
    ensures r.Success? && Keyed(w) ==> Keyed(r.value.1)
  {
    var renode := vc[|vc| - 1].node;
    var rest := vc[..|vc| - 1];
    var w1 := Put(w, renode, []);
    if renode !in g0 then Failure(MissingKey(renode))
    else
      var w2 := Reattach(w1, renode, g0[renode], Included(rest));
      Success((rest, w2.(e := w2.e + |w2.adj[renode]|)))
  }

  /** Lines 134-152: the decisions after position `id` are popped, last first. */
  function Restore(g0: Adjacency, vc: seq<Tag>, w: Work, id: nat): (r: Result<(seq<Tag>, Work), Crash>)
    ensures r.Failure? <==> exists j :: id <= j < |vc| && vc[j].node !in g0
    ensures r.Success? ==> r.value.0 == if id < |vc| then vc[..id] else vc
    ensures r.Success? && Keyed(w) ==> Keyed(r.value.1)
    decreases |vc|
  {
    if id >= |vc| then Success((vc, w))
    else
      var popped := PopDecision(g0, vc, w);
      if popped.Failure? then popped
      else
        var rest := vc[..|vc| - 1];
        assert forall j :: id <= j < |rest| ==> rest[j] == vc[j];
        assert id < |rest| ==> rest[..id] == vc[..id];
        Restore(g0, popped.value.0, popped.value.1, id)
  }

  /** Every position of the key order holds a key of the dictionary. */
  lemma KeysInDictionary(w: Work)
    requires Keyed(w)
    ensures forall j :: 0 <= j < |w.keys| ==> w.keys[j] in w.adj
  {
    forall j | 0 <= j < |w.keys| ensures w.keys[j] in w.adj {
      var k := w.keys[j];
      assert k in w.keys <==> k in w.adj;
    }
  }

  /** The vertex `find_maxdeg` reports: the first key of largest degree, -1 when there is none. */
  function TopVertex(w: Work): (x: int)
    requires Keyed(w)
    ensures |w.keys| > 0 ==> x in w.adj && forall k :: k in w.adj ==> |w.adj[k]| <= |w.adj[x]|
  {
    KeysInDictionary(w);
    if |w.keys| == 0 then -1 else w.keys[FirstMax(w.keys, w.adj)]
  }

  /** The largest degree `find_maxdeg` reports: -1 when the working graph has no vertex. */
  function MaxDegree(w: Work): (d: int)
    requires Keyed(w)
    ensures d >= -1
    ensures d == -1 <==> |w.keys| == 0
    ensures forall k :: k in w.adj ==> |w.adj[k]| <= d
  {
    if |w.keys| == 0 then -1 else |w.adj[TopVertex(w)]|
  }

  /** Python's `int(d)`: truncation toward zero. */
  function Trunc(d: real): (r: int)
    ensures 0.0 <= d ==> r as real <= d < r as real + 1.0
    ensures d < 0.0 ==> r as real - 1.0 < d <= r as real
  {
    if d >= 0.0 then d.Floor else -((-d).Floor)
  }

  /** `ceil` (lines 193-197): the least integer not below `d`. */
  function Ceil(d: real): (r: int)
    ensures d <= r as real < d + 1.0
  {
    var t := Trunc(d);
    if d > t as real then t + 1 else t
  }

  /** `Lowerbound` (lines 184-187): edges divided by the largest degree, rounded up. */
  function EdgeBound(w: Work): (r: Result<int, Crash>)
    requires Keyed(w)
    ensures r.Failure? <==> MaxDegree(w) == 0
    ensures r.Failure? ==> r.error == ZeroDivision
    ensures r.Success? && MaxDegree(w) > 0 ==> (r.value - 1) * MaxDegree(w) < w.e <= r.value * MaxDegree(w)
    ensures r.Success? && MaxDegree(w) == -1 ==> r.value == -w.e
  {
    var d := MaxDegree(w);
    if d == 0 then Failure(ZeroDivision)
    else
      CeilBracket(w.e, d);
      Success(Ceil(w.e as real / d as real))
  }

  /** `adj[x].remove` over `nbrs` as the loops at lines 77-80 and 87-91 run it. */
  method UnlinkAll(w: Work, x: int, nbrs: seq<int>) returns (r: Result<Work, Crash>)
    ensures r == Unlink(w, x, nbrs)
  {
    var cur := w;
    for i := 0 to |nbrs|
      invariant Unlink(w, x, nbrs) == Unlink(cur, x, nbrs[i..])
    {
      assert nbrs[i..][1..] == nbrs[i + 1..];
      var n := nbrs[i];
      if n !in cur.adj {
        return Failure(MissingKey(n));
      }
      if x !in cur.adj[n] {
        return Failure(NotInList(x, n));
      }
      var list := RemoveFirst(cur.adj[n], x);
      if |list| == 0 {
        cur := Delete(cur, n);
      } else {
        cur := Put(cur, n, list);
      }
    }
    r := Success(cur);
  }

  /** Lines 85-92 (and 75-82 for one neighbour): puts `x` in the cover. */
  method RemoveVertex(w: Work, x: int) returns (r: Result<Work, Crash>)
    ensures r == Remove(w, x)
  {
    if x !in w.adj {
      return Failure(MissingKey(x));
    }
    var unlinked := UnlinkAll(w.(e := w.e - |w.adj[x]|), x, w.adj[x]);
    if unlinked.Failure? {
      return Failure(unlinked.error);
    }
    if x !in unlinked.value.adj {
      return Failure(MissingKey(x));
    }
    r := Success(Delete(unlinked.value, x));
  }

  /** Lines 71-82: the neighbours of an excluded vertex go into the cover one by one. */
  method ExcludeAll(w: Work, nodes: seq<int>) returns (r: Result<Work, Crash>)
    ensures r == Exclude(w, nodes)
  {
    var cur := w;
    for i := 0 to |nodes|
      invariant Exclude(w, nodes) == Exclude(cur, nodes[i..])
    {
      assert nodes[i..][1..] == nodes[i + 1..];
      var removed := RemoveVertex(cur, nodes[i]);
      if removed.Failure? {
        return Failure(removed.error);
      }
      cur := removed.value;
    }
    r := Success(cur);
  }

  /** Lines 69-92: takes the frontier entry `(vi, state)`. */
  method TakeEntry(w: Work, vi: int, state: int) returns (r: Result<(Work, seq<Tag>), Crash>)
    ensures r == Branch(w, vi, state)
  {
    if state == 0 {
      var nbrs := Neighbours(w.adj, vi);
      if nbrs.Failure? {
        return Failure(Lookup(nbrs.error));
      }
      var excluded := ExcludeAll(w, nbrs.value);
      if excluded.Failure? {
        return Failure(excluded.error);
      }
      r := Success((excluded.value, InCover(nbrs.value)));
    } else if state == 1 {
      var removed := RemoveVertex(w, vi);
      if removed.Failure? {
        return Failure(removed.error);
      }
      r := Success((removed.value, []));
    } else {
      r := Success((w, []));
    }
  }

  /** Lines 144-151: reattaches `x` to its original neighbours outside `cover`. */
  method ReattachAll(w: Work, x: int, nbrs: seq<int>, cover: seq<int>) returns (r: Work)
    requires x in w.adj
    ensures r == Reattach(w, x, nbrs, cover)
  {
    r := w;
    for i := 0 to |nbrs|
      invariant x in r.adj
      invariant Reattach(w, x, nbrs, cover) == Reattach(r, x, nbrs[i..], cover)
    {
      assert nbrs[i..][1..] == nbrs[i + 1..];
      var n := nbrs[i];
      if n !in cover {
        if n !in r.adj {
          r := Put(r, n, [x]);
        } else {
          r := Put(r, n, r.adj[n] + [x]);
        }
        r := Put(r, x, r.adj[x] + [n]);
      }
    }
  }

  /** The vertices of `vc` with decision 1, as the loops at lines 101-105 and 160-162 collect them. */
  method SolutionOf(vc: seq<Tag>) returns (r: seq<int>)
    ensures r == Included(vc)
  {
    r := [];
    for i := 0 to |vc|
      invariant r == Included(vc[..i])
    {
      assert vc[..i + 1][..i] == vc[..i];
      if vc[i].flag == 1 {
        r := r + [vc[i].node];
      }
    }
    assert vc[..|vc|] == vc;
  }

  /** `VC_Size` (lines 200-205): the number of decisions that put a vertex in the cover. */
  method VCSize(vc: seq<Tag>) returns (n: int)
    ensures n == |Included(vc)|
  {
    n := 0;
    for i := 0 to |vc|
      invariant n == |Included(vc[..i])|
    {
      assert vc[..i + 1][..i] == vc[..i];
      if vc[i].flag == 1 {
        n := n + 1;
      }
    }
    assert vc[..|vc|] == vc;
  }

  /** One pass of the loop at lines 135-152. */
  method Pop(g0: Adjacency, vc: seq<Tag>, w: Work) returns (r: Result<(seq<Tag>, Work), Crash>)
    requires vc != []
    ensures r == PopDecision(g0, vc, w)
  {
    var renode := vc[|vc| - 1].node;
    var rest := vc[..|vc| - 1];
    var work := Put(w, renode, []);
    var now := SolutionOf(rest);
    if renode !in g0 {
      return Failure(MissingKey(renode));
    }
    work := ReattachAll(work, renode, g0[renode], now);
    r := Success((rest, work.(e := work.e + |work.adj[renode]|)));
  }

  /** Lines 134-152: pops the decisions after position `id` and restores their edges. */
  method Backtrack(g0: Adjacency, vc: seq<Tag>, w: Work, id: nat) returns (r: Result<(seq<Tag>, Work), Crash>)
    ensures r == Restore(g0, vc, w, id)
  {
    var cur, work := vc, w;
    while id < |cur|
      invariant Restore(g0, vc, w, id) == Restore(g0, cur, work, id)
      decreases |cur|
    {
      var popped := Pop(g0, cur, work);
      if popped.Failure? {
        return popped;
      }
      cur, work := popped.value.0, popped.value.1;
    }
    r := Success((cur, work));
  }

  /** `Lowerbound` (lines 184-187), through `find_maxdeg`. */
  method Lowerbound(w: Work) returns (r: Result<int, Crash>)
    requires Keyed(w)
    ensures r == EdgeBound(w)
  {
    KeysInDictionary(w);
    var _, deg := FindMaxDeg(w.keys, w.adj);
    if deg == 0 {
      return Failure(ZeroDivision);
    }
    r := Success(Ceil(w.e as real / deg as real));
  }

  /** Python's `list.index`: the first position of `x`. */
  function IndexOf(s: seq<Tag>, x: Tag): (i: nat)
    requires x in s
    ensures i < |s| && s[i] == x
    ensures forall j :: 0 <= j < i ==> s[j] != x
  {
    if s[0] == x then 0 else 1 + IndexOf(s[1..], x)
  }

  /** Each improvement is smaller than every earlier one. */
  predicate Decreasing(qs: seq<int>) {
    forall i, j :: 0 <= i < j < |qs| ==> qs[j] < qs[i]
  }

  /** The recorded qualities: each is the size of a cover of `g0`, they decrease and stay below `v`. */
  ghost predicate Recorded(g0: Adjacency, v: int, records: seq<int>, covers: seq<seq<int>>) {
    && |covers| == |records|
    && (forall i :: 0 <= i < |records| ==> IsVertexCover(g0, Elems(covers[i])) && records[i] == |covers[i]|)
    && Decreasing(records)
    && (forall i :: 0 <= i < |records| ==> records[i] < v)
  }

  /** The search state: frontier, current decisions, working graph, upper bound and incumbent. */
  datatype Search = Search(frontier: seq<Entry>, vc: seq<Tag>, w: Work, ub: int, opt: seq<Tag>)

  /**
   * What the search keeps about its incumbent: the upper bound starts at `v` and is
   * the size of the incumbent once there is one, and no record is below it.
   */
  ghost predicate Incumbent(v: int, st: Search, records: seq<int>) {
    && st.ub <= v
    && (st.opt != [] ==> st.ub == |Included(st.opt)|)
    && (records != [] ==> st.opt != [])
    && (forall i :: 0 <= i < |records| ==> st.ub <= records[i])
  }

  /**
   * The incumbent, when it covers the original graph, is the last quality handed to
   * `add_record` (line 109): the final record at line 166 repeats it.
   */
  ghost predicate LastRecord(g0: Adjacency, st: Search, records: seq<int>) {
    st.opt != [] && IsVertexCover(g0, Elems(Included(st.opt))) ==>
      records != [] && records[|records| - 1] == |Included(st.opt)|
  }

  /**
   * Lines 98-109, for a complete cover: one smaller than the bound becomes the
   * incumbent and the new bound, and its quality is recorded when it covers the
   * original graph.
   */
  method Improve(g0: Adjacency, v: int, st: Search, records: seq<int>, ghost covers: seq<seq<int>>)
    returns (next: Search, records': seq<int>, ghost covers': seq<seq<int>>)
    requires st.vc != [] && Recorded(g0, v, records, covers) && Incumbent(v, st, records) && LastRecord(g0, st, records)
    ensures Recorded(g0, v, records', covers')
    ensures next == if |Included(st.vc)| < st.ub then st.(ub := |Included(st.vc)|, opt := st.vc) else st
    ensures records' == if |Included(st.vc)| < st.ub && IsVertexCover(g0, Elems(Included(st.vc)))
                        then records + [|Included(st.vc)|] else records
    ensures Incumbent(v, next, records') && LastRecord(g0, next, records')
  {
    next, records', covers' := st, records, covers;
    var size := VCSize(st.vc);
    if size < st.ub {
      next := st.(ub := size, opt := st.vc);
      var solution1 := SolutionOf(st.vc);
      if IsVertexCover(g0, Elems(solution1)) {
        records', covers' := records + [|solution1|], covers + [solution1];
      }
    }
  }

  /**
   * Lines 97-127, after the entry `here` was taken: a complete cover smaller than the
   * bound becomes the incumbent and is recorded if it covers the original graph; an
   * incomplete one gets the two children of a maximum-degree vertex pushed when its
   * lower bound is below the upper bound. Returns whether to backtrack.
   */
  method Settle(g0: Adjacency, v: int, st: Search, here: Tag, records: seq<int>, ghost covers: seq<seq<int>>)
    returns (r: Result<(Search, bool), Crash>, records': seq<int>, ghost covers': seq<seq<int>>)
    requires st.vc != [] && Keyed(st.w) && Recorded(g0, v, records, covers) && Incumbent(v, st, records)
    requires LastRecord(g0, st, records)
    ensures Recorded(g0, v, records', covers')
    ensures records' == if st.w.e == 0 && |Included(st.vc)| < st.ub && IsVertexCover(g0, Elems(Included(st.vc)))
                        then records + [|Included(st.vc)|] else records
    ensures r.Success? ==> r.value.0.vc == st.vc && r.value.0.w == st.w
    ensures r.Success? ==> Incumbent(v, r.value.0, records') && LastRecord(g0, r.value.0, records')
    ensures r.Failure? <==> st.w.e != 0 && EdgeBound(st.w).Failure?
    ensures r.Failure? ==> r.error == ZeroDivision
    ensures r.Success? && st.w.e == 0 ==> r.value.1
    ensures r.Success? && st.w.e == 0 ==> r.value.0.ub == if |Included(st.vc)| < st.ub then |Included(st.vc)| else st.ub
    ensures r.Success? && st.w.e == 0 && |Included(st.vc)| < st.ub ==> r.value.0.opt == st.vc
    ensures r.Success? && st.w.e == 0 && |Included(st.vc)| >= st.ub ==> r.value.0.opt == st.opt
    ensures r.Success? && st.w.e != 0 ==> r.value.0.ub == st.ub && r.value.0.opt == st.opt
    ensures r.Success? && st.w.e != 0 ==> (!r.value.1 <==> EdgeBound(st.w).value + |Included(st.vc)| < st.ub)
    ensures r.Success? && !r.value.1 ==>
      r.value.0.frontier == st.frontier + [Entry(TopVertex(st.w), 0, here), Entry(TopVertex(st.w), 1, here)]
    ensures r.Success? && r.value.1 ==> r.value.0.frontier == st.frontier
  {
    records', covers' := records, covers;
    if st.w.e == 0 {
      var next;
      next, records', covers' := Improve(g0, v, st, records, covers);
      return Success((next, true)), records', covers';
    }
    var size := VCSize(st.vc);
    var lb := Lowerbound(st.w);
    if lb.Failure? {
      return Failure(lb.error), records', covers';
    }
    if lb.value + size < st.ub {
      KeysInDictionary(st.w);
      var vj, _ := FindMaxDeg(st.w.keys, st.w.adj);
      r := Success((st.(frontier := st.frontier + [Entry(vj, 0, here), Entry(vj, 1, here)]), false));
    } else {
      r := Success((st, true));
    }
  }

  /** The decision the next frontier entry extends (line 131). */
  function NextParent(st: Search): Tag
    requires st.frontier != []
  {
    st.frontier[|st.frontier| - 1].parent
  }

  /**
   * Lines 129-157: when the next entry's parent is a current decision, the decisions
   * after it are undone; when it is the root, the search restarts from a fresh copy
   * of the graph; otherwise (the source only prints a message) nothing changes.
   * Backtracking only ever shortens the decision stack.
   */
  function Reverted(g0: Adjacency, start: Work, st: Search): (r: Result<Search, Crash>)
    ensures r.Success? ==> r.value.frontier == st.frontier && r.value.ub == st.ub && r.value.opt == st.opt
    ensures r.Success? ==> r.value.vc <= st.vc
    ensures r.Success? && Keyed(st.w) && Keyed(start) ==> Keyed(r.value.w)
  {
    if st.frontier == [] then Success(st)
    else
      var parent := NextParent(st);
      if parent in st.vc then
        var restored := Restore(g0, st.vc, st.w, IndexOf(st.vc, parent) + 1);
        if restored.Failure? then Failure(restored.error)
        else Success(st.(vc := restored.value.0, w := restored.value.1))
      else if parent == Root then Success(st.(vc := [], w := start))
      else Success(st)
  }

  /** The backtracking step, proved against `Reverted`. */
  method Revert(g0: Adjacency, start: Work, st: Search) returns (r: Result<Search, Crash>)
    requires Keyed(st.w) && Keyed(start)
    ensures r == Reverted(g0, start, st)
    ensures r.Success? ==> Keyed(r.value.w)
    ensures r.Success? ==> r.value.frontier == st.frontier && r.value.ub == st.ub && r.value.opt == st.opt
    ensures st.frontier == [] ==> r == Success(st)
    ensures st.frontier != [] && NextParent(st) in st.vc ==>
      var restored := Restore(g0, st.vc, st.w, IndexOf(st.vc, NextParent(st)) + 1);
      (r.Failure? <==> restored.Failure?) &&
      (r.Success? ==> r.value == st.(vc := restored.value.0, w := restored.value.1))
    ensures st.frontier != [] && NextParent(st) in st.vc && r.Success? ==>
      r.value.vc == st.vc[..IndexOf(st.vc, NextParent(st)) + 1]
    ensures st.frontier != [] && NextParent(st) !in st.vc && NextParent(st) == Root ==>
      r == Success(st.(vc := [], w := start))
    ensures st.frontier != [] && NextParent(st) !in st.vc && NextParent(st) != Root ==> r == Success(st)
  {
    if st.frontier == [] {
      return Success(st);
    }
    var parent := st.frontier[|st.frontier| - 1].parent;
    if parent in st.vc {
      var restored := Backtrack(g0, st.vc, st.w, IndexOf(st.vc, parent) + 1);
      if restored.Failure? {
        return Failure(restored.error);
      }
      r := Success(st.(vc := restored.value.0, w := restored.value.1));
    } else if parent == Root {
      r := Success(st.(vc := [], w := start));
    } else {
      r := Success(st);
    }
  }

  /** The state once the entry on top of the frontier was taken (lines 67-96): popped, its decisions appended. */
  function Popped(st: Search, taken: (Work, seq<Tag>)): Search
    requires st.frontier != []
  {
    var top := st.frontier[|st.frontier| - 1];
    st.(frontier := st.frontier[..|st.frontier| - 1], w := taken.0,
        vc := st.vc + taken.1 + [Tag(top.node, top.flag)])
  }

  /**
   * Lines 97-157 on the state `p` once the entry `here` was taken: a complete cover
   * below the bound becomes the incumbent, is recorded when it covers `g0`, and ends
   * the path; otherwise the two children of a maximum-degree vertex are pushed, exclude
   * first, or the path is pruned; an ended path backtracks.
   */
  function Conclude(g0: Adjacency, start: Work, p: Search, here: Tag, records: seq<int>): (r: (Result<Search, Crash>, seq<int>))
    requires Keyed(p.w)
    ensures r.0.Success? && Keyed(start) ==> Keyed(r.0.value.w)
    ensures records <= r.1 && |r.1| <= |records| + 1
  {
    var size := |Included(p.vc)|;
    if p.w.e == 0 then
      var records' := if size < p.ub && IsVertexCover(g0, Elems(Included(p.vc))) then records + [size] else records;
      (Reverted(g0, start, if size < p.ub then p.(ub := size, opt := p.vc) else p), records')
    else if EdgeBound(p.w).Failure? then (Failure(EdgeBound(p.w).error), records)
    else if EdgeBound(p.w).value + size < p.ub then
      (Success(p.(frontier := p.frontier + [Entry(TopVertex(p.w), 0, here), Entry(TopVertex(p.w), 1, here)])), records)
    else (Reverted(g0, start, p), records)
  }

  /** One pass of the loop at lines 65-157: the entry on top of the frontier is taken (line 67), then concluded. */
  function Step(g0: Adjacency, start: Work, st: Search, records: seq<int>): (r: (Result<Search, Crash>, seq<int>))
    requires st.frontier != [] && Keyed(st.w)
    ensures r.0.Success? && Keyed(start) ==> Keyed(r.0.value.w)
    ensures records <= r.1 && |r.1| <= |records| + 1
  {
    var top := st.frontier[|st.frontier| - 1];
    var taken := Branch(st.w, top.node, top.flag);
    if taken.Failure? then (Failure(taken.error), records)
    else Conclude(g0, start, Popped(st, taken.value), Tag(top.node, top.flag), records)
  }

  /**
   * The frontier is a stack (line 67): a pass takes the entry on top and either leaves
   * the rest, or pushes on the rest the exclude and then the include child of one vertex
   * under that entry, so the include child is taken next. Failing to take the entry
   * ends the run with the records unchanged.
   */
  lemma TakesTop(g0: Adjacency, start: Work, st: Search, records: seq<int>)
    requires st.frontier != [] && Keyed(st.w)
    ensures var top := st.frontier[|st.frontier| - 1]; var taken := Branch(st.w, top.node, top.flag);
      taken.Failure? ==> Step(g0, start, st, records) == (Failure(taken.error), records)
    ensures var top := st.frontier[|st.frontier| - 1]; var rest := st.frontier[..|st.frontier| - 1];
      var r := Step(g0, start, st, records).0;
      r.Success? ==>
        r.value.frontier == rest ||
        (|r.value.frontier| == |rest| + 2 && r.value.frontier[..|rest|] == rest &&
         r.value.frontier[|rest|] == Entry(r.value.frontier[|rest|].node, 0, Tag(top.node, top.flag)) &&
         r.value.frontier[|rest| + 1] == Entry(r.value.frontier[|rest|].node, 1, Tag(top.node, top.flag)))
  {
    var top := st.frontier[|st.frontier| - 1];
    var taken := Branch(st.w, top.node, top.flag);
    if taken.Success? {
      var p := Popped(st, taken.value);
      assert p.frontier == st.frontier[..|st.frontier| - 1];
      if p.w.e != 0 && EdgeBound(p.w).Success? && EdgeBound(p.w).value + |Included(p.vc)| < p.ub {
        var x := TopVertex(p.w);
        var f := p.frontier + [Entry(x, 0, Tag(top.node, top.flag)), Entry(x, 1, Tag(top.node, top.flag))];
        assert Step(g0, start, st, records).0 == Success(p.(frontier := f));
        assert f[..|p.frontier|] == p.frontier;
      }
    }
  }

  /** Lines 97-157, proved against `Conclude`; they keep the record and incumbent invariants. */
  method Finish(g0: Adjacency, v: int, start: Work, next: Search, here: Tag, records: seq<int>, ghost covers: seq<seq<int>>)
    returns (r: Result<Search, Crash>, records': seq<int>, ghost covers': seq<seq<int>>)
    requires next.vc != [] && Keyed(next.w) && Keyed(start)
    requires Recorded(g0, v, records, covers) && Incumbent(v, next, records) && LastRecord(g0, next, records)
    ensures (r, records') == Conclude(g0, start, next, here, records)
    ensures Recorded(g0, v, records', covers')
    ensures r.Success? ==> Keyed(r.value.w) && Incumbent(v, r.value, records') && LastRecord(g0, r.value, records')
  {
    ghost var size := |Included(next.vc)|;
    var settled;
    settled, records', covers' := Settle(g0, v, next, here, records, covers);
    if settled.Failure? {
      assert next.w.e != 0 && EdgeBound(next.w).Failure? && records' == records;
      assert Conclude(g0, start, next, here, records) == (Failure(EdgeBound(next.w).error), records');
      return Failure(settled.error), records', covers';
    }
    var s := settled.value.0;
    if settled.value.1 {
      assert s == if next.w.e == 0 && size < next.ub then next.(ub := size, opt := next.vc) else next;
      assert Conclude(g0, start, next, here, records) == (Reverted(g0, start, s), records');
      r := Revert(g0, start, s);
    } else {
      assert s == next.(frontier := next.frontier + [Entry(TopVertex(next.w), 0, here), Entry(TopVertex(next.w), 1, here)]);
      assert Conclude(g0, start, next, here, records) == (Success(s), records');
      r := Success(s);
    }
  }

  /** One pass of the loop at lines 65-157, proved against `Step`; it keeps the record and incumbent invariants. */
  method Iterate(g0: Adjacency, v: int, start: Work, st: Search, records: seq<int>, ghost covers: seq<seq<int>>, ghost polls: nat)
    returns (r: Result<Search, Crash>, records': seq<int>, ghost covers': seq<seq<int>>)
    requires st.frontier != [] && polls > 0
    requires Keyed(st.w) && Keyed(start) && Recorded(g0, v, records, covers) && Incumbent(v, st, records)
    requires LastRecord(g0, st, records)
    ensures (r, records') == Step(g0, start, st, records)
    ensures r.Failure? ==> Run(g0, start, st, records, polls) == (r, records')
    ensures r.Success? ==> Run(g0, start, st, records, polls) == Run(g0, start, r.value, records', polls - 1)
    ensures Recorded(g0, v, records', covers')
    ensures r.Success? ==> Keyed(r.value.w) && Incumbent(v, r.value, records') && LastRecord(g0, r.value, records')
  {
    var top := st.frontier[|st.frontier| - 1];
    var taken := TakeEntry(st.w, top.node, top.flag);
    if taken.Failure? {
      r, records', covers' := Failure(taken.error), records, covers;
      RunUnfold(g0, start, st, records, polls, r, records');
      return;
    }
    r, records', covers' := Finish(g0, v, start, Popped(st, taken.value), Tag(top.node, top.flag), records, covers);
    RunUnfold(g0, start, st, records, polls, r, records');
  }

  /** One pass of `Run`: a step that crashes ends the run, any other is followed by the rest of the run. */
  lemma RunUnfold(g0: Adjacency, start: Work, st: Search, records: seq<int>, polls: nat,
                  next: Result<Search, Crash>, records': seq<int>)
    requires Keyed(st.w) && Keyed(start) && polls > 0 && st.frontier != []
    requires (next, records') == Step(g0, start, st, records)
    ensures next.Failure? ==> Run(g0, start, st, records, polls) == (next, records')
    ensures next.Success? ==> Run(g0, start, st, records, polls) == Run(g0, start, next.value, records', polls - 1)
  {
    assert Run(g0, start, st, records, polls) == Pass(g0, start, st, records, polls - 1);
    assert Pass(g0, start, st, records, polls - 1) == Continue(g0, start, (next, records'), polls - 1);
  }

  /** The state before the loop (lines 52-63): the two children of a maximum-degree vertex under the root sentinel. */
  function Initial(start: Work, v: int): Search
    requires Keyed(start)
  {
    Search([Entry(TopVertex(start), 0, Root), Entry(TopVertex(start), 1, Root)], [], start, v, [])
  }

  /**
   * The loop at lines 65-157 with a timer that answers false to `polls` more polls: it
   * stops on an empty frontier, when the timer runs out, or on a crash. The records
   * only grow, by at most one per pass.
   */
  function Run(g0: Adjacency, start: Work, st: Search, records: seq<int>, polls: nat): (r: (Result<Search, Crash>, seq<int>))
    requires Keyed(st.w) && Keyed(start)
    ensures records <= r.1 && |r.1| <= |records| + polls
    decreases polls, 0
  {
    if polls == 0 || st.frontier == [] then (Success(st), records)
    else Pass(g0, start, st, records, polls - 1)
  }

  /** One pass of the loop, then the rest of the run. */
  function Pass(g0: Adjacency, start: Work, st: Search, records: seq<int>, polls: nat): (r: (Result<Search, Crash>, seq<int>))
    requires Keyed(st.w) && Keyed(start) && st.frontier != []
    ensures records <= r.1 && |r.1| <= |records| + polls + 1
    decreases polls, 2
  {
    Continue(g0, start, Step(g0, start, st, records), polls)
  }

  /** The run after a pass that left `next`: a crash ends it, a new state runs on. */
  function Continue(g0: Adjacency, start: Work, next: (Result<Search, Crash>, seq<int>), polls: nat): (r: (Result<Search, Crash>, seq<int>))
    requires next.0.Success? ==> Keyed(next.0.value.w)
    requires Keyed(start)
    ensures next.1 <= r.1 && |r.1| <= |next.1| + polls
    decreases polls, 1
  {
    if next.0.Failure? then next else Run(g0, start, next.0.value, next.1, polls)
  }

  /**
   * The loop at lines 65-157 from the state `st` and no records, proved against `Run`;
   * it keeps the record and incumbent invariants.
   */
  method Explore(g0: Adjacency, v: int, start: Work, st: Search, polls: nat)
    returns (r: Result<Search, Crash>, records: seq<int>, ghost covers: seq<seq<int>>)
    requires Keyed(st.w) && Keyed(start) && Incumbent(v, st, []) && LastRecord(g0, st, [])
    ensures (r, records) == Run(g0, start, st, [], polls)
    ensures Recorded(g0, v, records, covers)
    ensures r.Success? ==> Incumbent(v, r.value, records) && LastRecord(g0, r.value, records)
  {
    var cur := st;
    records, covers := [], [];
    var left: int := polls;
    ghost var run := Run(g0, start, st, [], polls);
    while left > 0 && cur.frontier != []
      invariant 0 <= left && Keyed(cur.w)
      invariant Recorded(g0, v, records, covers) && Incumbent(v, cur, records) && LastRecord(g0, cur, records)
      invariant run == Run(g0, start, cur, records, left)
    {
      ghost var old_left := left;
      var next, records';
      next, records', covers := Iterate(g0, v, start, cur, records, covers, left);
      if next.Failure? {
        return next, records', covers;
      }
      ghost var rest := Run(g0, start, next.value, records', left - 1);
      assert run == rest;
      cur, records, left := next.value, records', left - 1;
      assert cur == next.value && records == records' && left == old_left - 1;
      assert Run(g0, start, cur, records, left) == rest;
    }
    r := Success(cur);
  }

  /**
   * `get_vertex_cover` (lines 20-173), with a timer whose `cutoff` answers false to the
   * first `polls` polls. Returns how the run ended and the qualities handed to
   * `add_record` inside the loop (line 109); a finished run with a quality also
   * records that quality (line 166). `covers` are the checked solutions behind the records.
   * The run is the search `Run` from `Initial`; a finished run reports that search's incumbent.
   */
  method GetVertexCover(g: Graph, polls: nat) returns (out: Outcome, records: seq<int>, ghost covers: seq<seq<int>>)
    requires g.Valid()
    ensures Keyed(Work(g.order, g.adj, g.e)) &&
      var start := Work(g.order, g.adj, g.e);
      var run := Run(g.adj, start, Initial(start, g.v), [], polls);
      records == run.1 &&
      (out.Crashed? <==> run.0.Failure?) &&
      (out.Crashed? ==> out.crash == run.0.error) &&
      (out.Finished? ==> out.solution == Included(run.0.value.opt))
    ensures out.Finished? && out.quality.Some? && records != [] ==> out.quality.value == records[|records| - 1]
    ensures out.Finished? && out.quality.Some? && records == [] ==> out.solution == []
    ensures |covers| == |records|
    ensures forall i :: 0 <= i < |records| ==> IsVertexCover(g.adj, Elems(covers[i])) && records[i] == |covers[i]|
    ensures Decreasing(records)
    ensures forall i :: 0 <= i < |records| ==> records[i] < g.v
    ensures out.Finished? ==> (out.quality.Some? <==> IsVertexCover(g.adj, Elems(out.solution)))
    ensures out.Finished? && out.quality.Some? ==> out.quality.value == |out.solution|
    ensures out.Finished? && out.quality.Some? ==> forall i :: 0 <= i < |records| ==> out.quality.value <= records[i]
  {
    var g0 := g.adj;
    var start := Work(g.order, g.adj, g.e);
    assert Keyed(start);
    KeysInDictionary(start);
    var v0, _ := FindMaxDeg(start.keys, start.adj);
    var st := Search([Entry(v0, 0, Root), Entry(v0, 1, Root)], [], start, g.v, []);
    assert st == Initial(start, g.v);
    var run;
    run, records, covers := Explore(g0, g.v, start, st, polls);
    if run.Failure? {
      return Crashed(run.error), records, covers;
    }
    st := run.value;
    var solution := SolutionOf(st.opt);
    assert (set x | x in solution) == Elems(solution);
    if g.IsCover(solution) {
      out := Finished(Some(|solution|), solution);
    } else {
      out := Finished(None, solution);
    }
  }

  /** The edges at the vertices of `s`. */
  ghost function Incident(adj: Adjacency, s: set<int>): set<Edge> {
    set c, n | c in s && c in adj && n in adj[c] :: EdgeOf(c, n)
  }

  /** Vertices of degree at most `d` are incident to at most `d` edges each. */
  lemma {:induction false} IncidentCard(adj: Adjacency, s: set<int>, d: int)
    requires forall c :: c in s ==> c in adj && |adj[c]| <= d && Distinct(adj[c])
    ensures |Incident(adj, s)| <= |s| * d
    decreases |s|
  {
    if s != {} {
      NonEmpty(s);
      var c :| c in s;
      var rest := Incident(adj, s - {c});
      var here := EdgesAt(c, adj[c]);
      var n := |s - {c}|;
      assert n == |s| - 1;
      assert |rest| <= n * d by {
        IncidentCard(adj, s - {c}, d);
      }
      assert |here| <= d by {
        EdgesAtCard(c, adj[c]);
      }
      assert |Incident(adj, s)| <= |rest| + |here| by {
        IncidentSplit(adj, s, c);
        SubsetCard(rest + here, Incident(adj, s));
        assert |rest + here| <= |rest| + |here|;
      }
      CountStep(|Incident(adj, s)|, |rest|, |here|, n, d);
    }
  }

  /** One more vertex of degree at most `d` adds at most `d` to the bound. */
  lemma CountStep(total: int, rest: int, here: int, n: int, d: int)
    requires total <= rest + here && rest <= n * d && here <= d
    ensures total <= (n + 1) * d
  {
    assert (n + 1) * d == n * d + d;
  }

  /** Every edge at a vertex of `s` is at `c` or at one of the others. */
  lemma IncidentSplit(adj: Adjacency, s: set<int>, c: int)
    requires c in s && c in adj
    ensures Incident(adj, s) <= Incident(adj, s - {c}) + EdgesAt(c, adj[c])
  {
    forall e | e in Incident(adj, s) ensures e in Incident(adj, s - {c}) + EdgesAt(c, adj[c]) {
      var c', n :| c' in s && c' in adj && n in adj[c'] && e == EdgeOf(c', n);
      if c' == c {
        assert e in EdgesAt(c, adj[c]);
      } else {
        assert c' in s - {c};
      }
    }
  }

  /** A graph whose largest degree is zero or -1 (no vertex) has no edges. */
  lemma NoEdgesWithoutDegree(w: Work)
    requires Keyed(w) && MaxDegree(w) <= 0
    ensures Edges(w.adj) == {}
  {
    assert forall k :: k in w.adj ==> |w.adj[k]| == 0;
  }

  /** When the edge counter counts a non-empty edge set, `Lowerbound` does not divide by zero. */
  lemma EdgeBoundDefined(w: Work)
    requires Keyed(w) && w.e == |Edges(w.adj)| && w.e != 0
    ensures EdgeBound(w).Success?
    ensures MaxDegree(w) >= 1
  {
    if MaxDegree(w) <= 0 {
      NoEdgesWithoutDegree(w);
    }
  }

  /** Every edge of a symmetric graph is incident to a vertex of any of its covers. */
  lemma CoverTouchesAll(adj: Adjacency, cover: set<int>)
    requires Symmetric(adj) && IsVertexCover(adj, cover)
    ensures Edges(adj) <= Incident(adj, set c | c in cover && c in adj)
  {
    var s := set c | c in cover && c in adj;
    forall e | e in Edges(adj) ensures e in Incident(adj, s) {
      var k, n :| k in adj && n in adj[k] && e == EdgeOf(k, n);
      if k in cover {
        assert k in s;
      } else {
        assert n in s && k in adj[n] && e == EdgeOf(n, k);
      }
    }
  }

  /** The ceiling of `e / d` is the integer `c` with `(c - 1) * d < e <= c * d`, for `d` of either sign. */
  lemma CeilBracket(e: int, d: int)
    requires d != 0
    ensures d > 0 ==> var c := Ceil(e as real / d as real); (c - 1) * d < e <= c * d
    ensures d == -1 ==> Ceil(e as real / d as real) == -e
  {
    var x := e as real / d as real;
    var c := Ceil(x);
    if d > 0 {
      ShiftQuotient(c, e, d);
      ShiftQuotient(c - 1, e, d);
      QuotientSign(c * d - e, d);
      QuotientSign((c - 1) * d - e, d);
    } else if d == -1 {
      assert x == (-e) as real;
    }
  }

  /** `a - t / d` over one denominator. */
  lemma ShiftQuotient(a: int, t: int, d: int)
    requires d > 0
    ensures a as real - t as real / d as real == (a * d - t) as real / d as real
  {
  }

  /** Dividing by a positive number keeps the sign. */
  lemma QuotientSign(t: int, d: int)
    requires d > 0
    ensures t as real / d as real >= 0.0 <==> t >= 0
    ensures t as real / d as real > 0.0 <==> t > 0
  {
    var q := t as real / d as real;
    assert q * d as real == t as real;
    if q < 0.0 {
      assert q * d as real < 0.0;
    } else if q > 0.0 {
      assert q * d as real > 0.0;
    }
  }

  /** `e` edges, at most `d` per vertex, need at least ceil(e / d) vertices: `m` vertices holding them all are that many. */
  lemma CeilOfShare(e: int, d: int, m: int)
    requires 0 < d && e <= m * d
    ensures Ceil(e as real / d as real) <= m
  {
    var x := e as real / d as real;
    assert m as real - x == (m * d - e) as real / d as real;
  }

  /**
   * `Lowerbound` never exceeds the size of a vertex cover: each cover vertex covers at
   * most the maximum degree many edges, so a cover needs edges / max degree vertices.
   */
  lemma EdgeBoundAdmissible(w: Work, cover: set<int>)
    requires Keyed(w) && Simple(w.adj) && w.e == |Edges(w.adj)|
    requires IsVertexCover(w.adj, cover)
    requires EdgeBound(w).Success?
    ensures EdgeBound(w).value <= |cover|
  {
    var d := MaxDegree(w);
    if d <= 0 {
      NoEdgesWithoutDegree(w);
      assert w.e as real / d as real == 0.0;
    } else {
      var s := set c | c in cover && c in w.adj;
      CoverTouchesAll(w.adj, cover);
      IncidentCard(w.adj, s, d);
      SubsetCard(Incident(w.adj, s), Edges(w.adj));
      SubsetCard(cover, s);
      CeilOfShare(w.e, d, |s|);
    }
  }

  /** After the neighbours `nbrs` lost `x`: each of them holds its list without `x`, or is gone if that is empty. */
  ghost predicate UnlinkedFrom(w: Work, x: int, nbrs: seq<int>, r: Work) {
    && r.e == w.e
    && (forall k :: k in r.adj <==> k in w.adj && !(k in nbrs && Without(w.adj[k], {x}) == []))
    && (forall k :: k in r.adj ==> r.adj[k] == if k in nbrs then Without(w.adj[k], {x}) else w.adj[k])
  }

  /** On distinct neighbours that all list `x` once, the unlinking loop succeeds and removes exactly `x`. */
  lemma {:induction false} UnlinkOnSimple(w: Work, x: int, nbrs: seq<int>)
    requires Distinct(nbrs) && x !in nbrs
    requires forall n :: n in nbrs ==> n in w.adj && x in w.adj[n] && Distinct(w.adj[n])
    ensures Unlink(w, x, nbrs).Success?
    ensures UnlinkedFrom(w, x, nbrs, Unlink(w, x, nbrs).value)
    decreases |nbrs|
  {
    if nbrs != [] {
      var n := nbrs[0];
      DistinctTail(nbrs);
      RemoveFirstIsWithout(w.adj[n], x);
      var w1 := Drop(w, n, x);
      assert forall k :: k != n ==> (k in w1.adj <==> k in w.adj);
      assert forall k :: k != n && k in w1.adj ==> w1.adj[k] == w.adj[k];
      UnlinkOnSimple(w1, x, nbrs[1..]);
      assert forall k :: k in nbrs <==> k == n || k in nbrs[1..];
    }
  }

  /** The working graph with `x` deleted: every other list loses `x`, and lists that become empty go. */
  ghost predicate Deleted(w: Work, x: int, r: Work)
    requires x in w.adj
  {
    && r.e == w.e - |w.adj[x]|
    && x !in r.adj
    && (forall k :: k in r.adj <==> k in w.adj && k != x && !(k in w.adj[x] && Without(w.adj[k], {x}) == []))
    && (forall k :: k in r.adj ==> r.adj[k] == Without(w.adj[k], {x}))
  }

  /** On a simple working graph, putting a vertex in the cover succeeds and deletes it with its edges. */
  lemma RemoveOnSimple(w: Work, x: int)
    requires Simple(w.adj) && x in w.adj
    ensures Remove(w, x).Success?
    ensures Deleted(w, x, Remove(w, x).value)
  {
    var nbrs := w.adj[x];
    var w0 := w.(e := w.e - |nbrs|);
    UnlinkOnSimple(w0, x, nbrs);
    var u := Unlink(w0, x, nbrs).value;
    assert x in u.adj;
    assert Remove(w, x) == Success(Delete(u, x));
    forall k | k in w.adj && k !in nbrs ensures Without(w.adj[k], {x}) == w.adj[k] {
      assert x !in w.adj[k];
      WithoutNoop(w.adj[k], {x});
    }
  }

  /** Deleting a vertex from a simple graph leaves a simple graph. */
  lemma DeletedKeepsSimple(w: Work, x: int, r: Work)
    requires Simple(w.adj) && x in w.adj && Deleted(w, x, r)
    ensures Simple(r.adj)
  {
    forall k, n | k in r.adj && n in r.adj[k] ensures n in r.adj && k in r.adj[n] {
      assert n in w.adj[k] && k in w.adj[n] && k != x;
      assert k in Without(w.adj[n], {x});
    }
    assert Symmetric(r.adj);
    forall k | k in r.adj ensures Distinct(r.adj[k]) {
      WithoutDistinct(w.adj[k], {x});
    }
    assert DistinctLists(r.adj);
  }

  /** Deleting a vertex drops exactly the edges at it. */
  lemma DeletedEdges(w: Work, x: int, r: Work)
    requires Simple(w.adj) && x in w.adj && Deleted(w, x, r)
    ensures Edges(r.adj) == Edges(w.adj) - EdgesAt(x, w.adj[x])
  {
    forall e | e in Edges(w.adj) - EdgesAt(x, w.adj[x]) ensures e in Edges(r.adj) {
      var k, n :| k in w.adj && n in w.adj[k] && e == EdgeOf(k, n);
      if k != x && n != x {
        assert n in Without(w.adj[k], {x});
      }
    }
    forall e | e in Edges(r.adj) ensures e in Edges(w.adj) - EdgesAt(x, w.adj[x]) {
      var k, n :| k in r.adj && n in r.adj[k] && e == EdgeOf(k, n);
      assert n in w.adj[k];
    }
  }

  /** Deleting a vertex keeps an exact edge counter exact. */
  lemma DeletedKeepsCount(w: Work, x: int, r: Work)
    requires Simple(w.adj) && x in w.adj && Deleted(w, x, r) && w.e == |Edges(w.adj)|
    ensures r.e == |Edges(r.adj)|
  {
    DeletedEdges(w, x, r);
    forall e | e in EdgesAt(x, w.adj[x]) ensures e in Edges(w.adj) {
      var m :| m in w.adj[x] && e == EdgeOf(x, m);
    }
    EdgesAtCard(x, w.adj[x]);
    SubsetCard(Edges(w.adj), EdgesAt(x, w.adj[x]));
  }

  /**
   * On a simple graph, excluding a vertex whose neighbours are `nodes` succeeds: every
   * neighbour is deleted with its edges, every other list loses exactly them, the
   * graph stays simple and an exact edge counter stays exact.
   */
  lemma {:induction false} ExcludeOnSimple(w: Work, vi: int, nodes: seq<int>)
    requires Simple(w.adj) && Distinct(nodes)
    requires forall n :: n in nodes ==> n in w.adj && vi in w.adj[n]
    ensures Exclude(w, nodes).Success?
    ensures Simple(Exclude(w, nodes).value.adj)
    ensures w.e == |Edges(w.adj)| ==> Exclude(w, nodes).value.e == |Edges(Exclude(w, nodes).value.adj)|
    ensures forall n :: n in nodes ==> n !in Exclude(w, nodes).value.adj
    ensures forall k :: k in Exclude(w, nodes).value.adj ==>
      k in w.adj && Exclude(w, nodes).value.adj[k] == Without(w.adj[k], Elems(nodes))
    decreases |nodes|
  {
    if nodes == [] {
      forall k | k in w.adj ensures w.adj[k] == Without(w.adj[k], Elems(nodes)) {
        WithoutNoop(w.adj[k], Elems(nodes));
      }
    } else {
      var n0 := nodes[0];
      DistinctTail(nodes);
      RemoveOnSimple(w, n0);
      var w1 := Remove(w, n0).value;
      DeletedKeepsSimple(w, n0, w1);
      if w.e == |Edges(w.adj)| {
        DeletedKeepsCount(w, n0, w1);
      }
      forall n | n in nodes[1..] ensures n in w1.adj && vi in w1.adj[n] {
        assert vi != n0 && vi in Without(w.adj[n], {n0});
      }
      ExcludeOnSimple(w1, vi, nodes[1..]);
      assert Exclude(w, nodes) == Exclude(w1, nodes[1..]);
      var r := Exclude(w1, nodes[1..]).value;
      ElemsCons(nodes);
      forall k | k in r.adj ensures r.adj[k] == Without(w.adj[k], Elems(nodes)) {
        WithoutWithout(w.adj[k], {n0}, Elems(nodes[1..]));
      }
    }
  }

  /**
   * Lines 69-92 on a simple working graph that holds `vi`: both decisions succeed and
   * keep the graph simple and an exact edge counter exact. Including `vi` deletes it
   * with its edges; excluding it deletes its neighbours, each recorded as included,
   * and every remaining list loses exactly those neighbours.
   */
  lemma BranchOnSimple(w: Work, vi: int, state: int)
    requires Simple(w.adj) && vi in w.adj && (state == 0 || state == 1)
    ensures Branch(w, vi, state).Success?
    ensures Simple(Branch(w, vi, state).value.0.adj)
    ensures w.e == |Edges(w.adj)| ==> Branch(w, vi, state).value.0.e == |Edges(Branch(w, vi, state).value.0.adj)|
    ensures state == 1 ==> Deleted(w, vi, Branch(w, vi, state).value.0) && Branch(w, vi, state).value.1 == []
    ensures state == 0 ==> Branch(w, vi, state).value.1 == InCover(w.adj[vi])
    ensures state == 0 ==> forall n :: n in w.adj[vi] ==> n !in Branch(w, vi, state).value.0.adj
    ensures state == 0 ==> forall k :: k in Branch(w, vi, state).value.0.adj ==>
      k in w.adj && Branch(w, vi, state).value.0.adj[k] == Without(w.adj[k], Elems(w.adj[vi]))
  {
    if state == 1 {
      RemoveOnSimple(w, vi);
      var r := Remove(w, vi).value;
      DeletedKeepsSimple(w, vi, r);
      if w.e == |Edges(w.adj)| {
        DeletedKeepsCount(w, vi, r);
      }
    } else {
      ExcludeOnSimple(w, vi, w.adj[vi]);
    }
  }

  /**
   * Reattaching `x` to distinct neighbours it is not among: `x`'s list gains, in
   * order, the neighbours outside `cover`.
   */
  lemma {:induction false} ReattachList(w: Work, x: int, nbrs: seq<int>, cover: seq<int>)
    requires x in w.adj && x !in nbrs
    ensures Reattach(w, x, nbrs, cover).adj[x] == w.adj[x] + Without(nbrs, Elems(cover))
    decreases |nbrs|
  {
    if nbrs != [] {
      var n := nbrs[0];
      if n in cover {
        assert n in Elems(cover);
        assert Without(nbrs, Elems(cover)) == Without(nbrs[1..], Elems(cover));
        ReattachList(w, x, nbrs[1..], cover);
      } else {
        assert n !in Elems(cover);
        var w1 := if n in w.adj then Put(w, n, w.adj[n] + [x]) else Put(w, n, [x]);
        var w2 := Put(w1, x, w1.adj[x] + [n]);
        assert w2.adj[x] == w.adj[x] + [n];
        assert Reattach(w, x, nbrs, cover) == Reattach(w2, x, nbrs[1..], cover);
        ReattachList(w2, x, nbrs[1..], cover);
        var rest := Without(nbrs[1..], Elems(cover));
        assert Without(nbrs, Elems(cover)) == [n] + rest;
        assert w.adj[x] + [n] + rest == w.adj[x] + ([n] + rest);
      }
    }
  }

  /** Reattaching adds exactly the neighbours outside `cover` as keys. */
  lemma {:induction false} ReattachKeys(w: Work, x: int, nbrs: seq<int>, cover: seq<int>)
    requires x in w.adj
    ensures forall k :: k in Reattach(w, x, nbrs, cover).adj <==> k in w.adj || k in Without(nbrs, Elems(cover))
    decreases |nbrs|
  {
    if nbrs != [] {
      var n := nbrs[0];
      if n in cover {
        assert n in Elems(cover);
        ReattachKeys(w, x, nbrs[1..], cover);
      } else {
        assert n !in Elems(cover);
        var w1 := if n in w.adj then Put(w, n, w.adj[n] + [x]) else Put(w, n, [x]);
        var w2 := Put(w1, x, w1.adj[x] + [n]);
        ReattachKeys(w2, x, nbrs[1..], cover);
      }
    }
  }

  /**
   * Reattaching `x` to distinct neighbours it is not among: each neighbour outside
   * `cover` gains `x` at the end of its list (a new key gets `[x]`), and every other
   * list but `x`'s own is unchanged.
   */
  lemma {:induction false} ReattachOthers(w: Work, x: int, nbrs: seq<int>, cover: seq<int>, k: int)
    requires x in w.adj && x !in nbrs && Distinct(nbrs) && k != x
    requires k in Reattach(w, x, nbrs, cover).adj && (k in w.adj || k in Without(nbrs, Elems(cover)))
    ensures Reattach(w, x, nbrs, cover).adj[k] ==
      if k in Without(nbrs, Elems(cover)) then (if k in w.adj then w.adj[k] else []) + [x] else w.adj[k]
    decreases |nbrs|
  {
    if nbrs != [] {
      var n := nbrs[0];
      DistinctTail(nbrs);
      if n in cover {
        assert n in Elems(cover);
        ReattachOthers(w, x, nbrs[1..], cover, k);
      } else {
        assert n !in Elems(cover);
        var w1 := if n in w.adj then Put(w, n, w.adj[n] + [x]) else Put(w, n, [x]);
        var w2 := Put(w1, x, w1.adj[x] + [n]);
        ReattachOthers(w2, x, nbrs[1..], cover, k);
      }
    }
  }

  /**
   * One restore step (lines 136-152) against a simple original graph: the popped vertex
   * gets exactly its original neighbours outside the remaining cover, each of them
   * gets the popped vertex back, and the counter grows by the number of edges restored.
   */
  lemma PopRestoresEdges(g0: Adjacency, vc: seq<Tag>, w: Work)
    requires Simple(g0) && vc != [] && vc[|vc| - 1].node in g0
    ensures PopDecision(g0, vc, w).Success?
    ensures
      var x := vc[|vc| - 1].node;
      var back := Without(g0[x], Elems(Included(vc[..|vc| - 1])));
      var r := PopDecision(g0, vc, w).value.1;
      && r.adj[x] == back
      && r.e == w.e + |back|
      && (forall k :: k in r.adj <==> k in w.adj || k == x || k in back)
      && (forall k :: k in r.adj && k != x ==>
            r.adj[k] == if k in back then (if k in w.adj then w.adj[k] else []) + [x] else w.adj[k])
  {
    var x := vc[|vc| - 1].node;
    var w1 := Put(w, x, []);
    var cover := Included(vc[..|vc| - 1]);
    ReattachList(w1, x, g0[x], cover);
    ReattachKeys(w1, x, g0[x], cover);
    var r := PopDecision(g0, vc, w).value.1;
    forall k | k in r.adj && k != x
      ensures r.adj[k] == if k in Without(g0[x], Elems(cover)) then (if k in w.adj then w.adj[k] else []) + [x] else w.adj[k]
    {
      ReattachOthers(w1, x, g0[x], cover, k);
    }
  }
}
