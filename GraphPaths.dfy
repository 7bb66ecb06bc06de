/**
  * Paths, reachability and cycles over an adjacency list whose nodes are the
  * indices 0 .. |adj| - 1 (the `Index` of a Graph node).
  */
module GraphPaths {

  /** Every edge points at a node of the graph. */
  ghost predicate ValidAdj(adj: seq<seq<nat>>)
  {
    forall u, v :: 0 <= u < |adj| && v in adj[u] ==> v < |adj|
  }

  /** `p` is a non-empty walk along outgoing edges. */
  ghost predicate IsPath(adj: seq<seq<nat>>, p: seq<nat>)
  {
    && |p| > 0
    && (forall k :: 0 <= k < |p| ==> p[k] < |adj|)
    && (forall k :: 0 <= k < |p| - 1 ==> p[k + 1] in adj[p[k]])
  }

  ghost predicate Reachable(adj: seq<seq<nat>>, a: nat, b: nat)
  {
    exists p :: IsPath(adj, p) && p[0] == a && p[|p| - 1] == b
  }

  /** `c` lies on a directed cycle: a walk from `c` whose last node has an edge back to `c`. */
  ghost predicate OnCycle(adj: seq<seq<nat>>, c: nat)
  {
    exists p :: IsPath(adj, p) && p[0] == c && c in adj[p[|p| - 1]]
  }

  ghost predicate HasCycle(adj: seq<seq<nat>>)
  {
    exists c :: 0 <= c < |adj| && OnCycle(adj, c)
  }

  /** `u` is on a cycle or has a walk into one. */
  ghost predicate LeadsIntoCycle(adj: seq<seq<nat>>, u: nat)
  {
    exists c :: Reachable(adj, u, c) && OnCycle(adj, c)
  }

  ghost function ReachSet(adj: seq<seq<nat>>, n: nat): set<nat>
  {
    set v | 0 <= v < |adj| && Reachable(adj, n, v)
  }

  lemma PrependEdge(adj: seq<seq<nat>>, n: nat, p: seq<nat>)
    requires n < |adj| && IsPath(adj, p) && p[0] in adj[n]
    ensures IsPath(adj, [n] + p)
  {
  }

  /** An edge n -> c together with a walk from c back to n closes a cycle through n. */
  lemma ReachBackIsCycle(adj: seq<seq<nat>>, n: nat, c: nat)
    requires n < |adj| && c in adj[n] && Reachable(adj, c, n)
    ensures OnCycle(adj, n)
  {
    var p :| IsPath(adj, p) && p[0] == c && p[|p| - 1] == n;
    PrependEdge(adj, n, p);
    var q := [n] + p[..|p| - 1];
    assert IsPath(adj, q);
    assert n in adj[q[|q| - 1]];
  }

  /**
    * In a graph without cycles, an edge n -> c leads to strictly fewer
    * reachable nodes: everything reachable from c is reachable from n, and n
    * itself is not reachable from c.
    */
  lemma ChildReachSmaller(adj: seq<seq<nat>>, n: nat, c: nat)
    requires ValidAdj(adj) && n < |adj| && c in adj[n] && !HasCycle(adj)
    ensures ReachSet(adj, c) < ReachSet(adj, n)
    ensures |ReachSet(adj, c)| < |ReachSet(adj, n)|
  {
    var rc, rn := ReachSet(adj, c), ReachSet(adj, n);
    forall v | v in rc
      ensures v in rn
    {
      var p :| IsPath(adj, p) && p[0] == c && p[|p| - 1] == v;
      PrependEdge(adj, n, p);
      assert ([n] + p)[|[n] + p| - 1] == v;
    }
    assert IsPath(adj, [n]);
    assert n in rn;
    if n in rc {
      ReachBackIsCycle(adj, n, c);
      assert false;
    }
    assert rn == rc + (rn - rc);
    assert n in rn - rc;
  }

  /** A walk with an edge from its end back to its `j`-th node contains a cycle. */
  lemma LassoHasCycle(adj: seq<seq<nat>>, p: seq<nat>, j: nat)
    requires IsPath(adj, p) && j < |p| && p[j] in adj[p[|p| - 1]]
    ensures OnCycle(adj, p[j])
    ensures forall i :: 0 <= i < |p| ==> LeadsIntoCycle(adj, p[i])
    ensures HasCycle(adj)
  {
    var q := p[j..];
    assert IsPath(adj, q) && q[0] == p[j] && p[j] in adj[q[|q| - 1]];
    forall i | 0 <= i < |p|
      ensures LeadsIntoCycle(adj, p[i])
    {
      var w := p[i..] + [p[j]];
      assert IsPath(adj, w) && w[0] == p[i] && w[|w| - 1] == p[j];
      assert Reachable(adj, p[i], p[j]);
    }
  }
}
