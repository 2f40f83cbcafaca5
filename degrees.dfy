/**
 * The maximum-degree scan both algorithms run over a dictionary's keys: it starts
 * from (-1, -1) and replaces the best only on a strictly longer neighbour list, so it
 * keeps the first key of maximum degree.
 */
module Degrees {
  import opened Graphs

  /** Index of the key the scan settles on, or -1 when there are no keys. */
  function FirstMax(keys: seq<int>, adj: Adjacency): (i: int)
    requires forall j :: 0 <= j < |keys| ==> keys[j] in adj
    ensures -1 <= i < |keys|
    ensures i == -1 <==> |keys| == 0
    ensures i >= 0 ==> forall j :: 0 <= j < |keys| ==> |adj[keys[j]]| <= |adj[keys[i]]|
    ensures i >= 0 ==> forall j :: 0 <= j < i ==> |adj[keys[j]]| < |adj[keys[i]]|
    decreases |keys|
  {
    if |keys| == 0 then -1
    else
      var i := FirstMax(keys[..|keys| - 1], adj);
      if i == -1 || |adj[keys[|keys| - 1]]| > |adj[keys[i]]| then |keys| - 1 else i
  }

  /** `find_maxdeg`: the first key of maximum degree with that degree, or (-1, -1). */
  method FindMaxDeg(keys: seq<int>, adj: Adjacency) returns (node: int, deg: int)
    requires forall j :: 0 <= j < |keys| ==> keys[j] in adj
    ensures |keys| == 0 ==> node == -1 && deg == -1
    ensures |keys| > 0 ==> node == keys[FirstMax(keys, adj)] && deg == |adj[node]|
  {
    node, deg := -1, -1;
    ghost var best := -1;
    for i := 0 to |keys|
      invariant best == FirstMax(keys[..i], adj)
      invariant best == -1 ==> node == -1 && deg == -1
      invariant best >= 0 ==> node == keys[best] && deg == |adj[node]|
    {
      assert keys[..i + 1][..i] == keys[..i];
      if |adj[keys[i]]| > deg {
        node, deg := keys[i], |adj[keys[i]]|;
        best := i;
      }
    }
    assert keys[..|keys|] == keys;
  }
}
