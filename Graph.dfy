/**
  * The directed graph of CosmoteerModLib/Graph.cs. Nodes live in an
  * index-addressed list: node `k` holds payload `data[k]` and the ordered
  * lists `outgoing[k]` and `incoming[k]` of neighbour indices.
  */
module Graphs {
  import opened GraphPaths
  import opened GraphSearch
  import opened Subsequences

  datatype ConnectionType = OneWay | TwoWay

  /** `adj` with `b` appended to the list of `a`, every other list unchanged. */
  function AddEdge(adj: seq<seq<nat>>, a: nat, b: nat): (r: seq<seq<nat>>)
    requires a < |adj|
    ensures |r| == |adj|
    ensures r[a] == adj[a] + [b]
    ensures forall k :: 0 <= k < |adj| && k != a ==> r[k] == adj[k]
  {
    adj[a := adj[a] + [b]]
  }

  class Graph<T> {
    var data: seq<T>
    var outgoing: seq<seq<nat>>
    var incoming: seq<seq<nat>>

    ghost predicate Valid()
      reads this
    {
      |data| == |outgoing| == |incoming| && ValidAdj(outgoing) && ValidAdj(incoming)
    }

    constructor ()
      ensures Valid()
      ensures data == [] && outgoing == [] && incoming == []
    {
      data, outgoing, incoming := [], [], [];
    }

    /** Appends a node for `d` and returns its index, the previous node count. */
    method Add(d: T) returns (node: nat)
      requires Valid()
      modifies this
      ensures Valid()
      ensures node == old(|data|)
      ensures data == old(data) + [d]
      ensures outgoing == old(outgoing) + [[]] && incoming == old(incoming) + [[]]
    {
      node := |data|;
      data := data + [d];
      outgoing := outgoing + [[]];
      incoming := incoming + [[]];
    }

    /** Records the edge a -> b on both ends. */
    method ConnectSingle(a: nat, b: nat)
      requires Valid() && a < |data| && b < |data|
      modifies this
      ensures Valid() && data == old(data)
      ensures outgoing == AddEdge(old(outgoing), a, b)
      ensures incoming == AddEdge(old(incoming), b, a)
    {
      outgoing := AddEdge(outgoing, a, b);
      incoming := AddEdge(incoming, b, a);
    }

    /** OneWay adds a -> b; TwoWay adds a -> b and then b -> a. */
    method ConnectTo(a: nat, b: nat, connectionType: ConnectionType)
      requires Valid() && a < |data| && b < |data|
      modifies this
      ensures Valid() && data == old(data)
      ensures connectionType == OneWay ==>
        outgoing == AddEdge(old(outgoing), a, b) && incoming == AddEdge(old(incoming), b, a)
      ensures connectionType == TwoWay ==>
        outgoing == AddEdge(AddEdge(old(outgoing), a, b), b, a) &&
        incoming == AddEdge(AddEdge(old(incoming), b, a), a, b)
    {
      match connectionType
      case OneWay =>
        ConnectSingle(a, b);
      case TwoWay =>
        ConnectSingle(a, b);
        ConnectSingle(b, a);
    }

    /**
      * Runs a search from every node no earlier search has seen, each with
      * fresh `visited` and `searching` arrays, and after a search that found
      * a cycle reports every node still flagged as searching together with
      * its flagged outgoing neighbours.
      */
    method GetCycles() returns (cycles: seq<CycleEntry>)
      requires Valid()
      ensures cycles == Cycles(outgoing)
    {
      ghost var adj := outgoing;
      var seenNodes: set<nat> := {};
      cycles := [];
      var i := 0;
      while i < |data|
        invariant 0 <= i <= |data| && Valid() && outgoing == adj
        invariant cycles + CyclesFrom(adj, i, seenNodes) == Cycles(adj)
      {
        if i in seenNodes {
          assert CyclesFrom(adj, i, seenNodes) == CyclesFrom(adj, i + 1, seenNodes);
          i := i + 1;
          continue;
        }
        var visited := new bool[|data|](_ => false);
        var searching := new bool[|data|](_ => false);
        assert visited[..] == Fresh(|adj|, seenNodes).visited;
        assert searching[..] == Fresh(|adj|, seenNodes).searching;
        ghost var seenBefore := seenNodes;
        var cyclic;
        cyclic, seenNodes := IsCyclicRecursive(i, visited, searching, seenNodes);
        ghost var st := DfsState(visited[..], searching[..], seenNodes);
        ghost var rest := CyclesFrom(adj, i + 1, seenNodes);
        if cyclic {
          CyclesFromCyclicRoot(adj, i, seenBefore, st);
          var entries := ReportSearching(searching);
          AppendAssociative(cycles, entries, rest);
          cycles := cycles + entries;
        } else {
          CyclesFromAcyclicRoot(adj, i, seenBefore, st);
        }
        i := i + 1;
      }
    }

    /** Lines 54-62: every node still flagged as searching, with its flagged outgoing neighbours, in node order. */
    method ReportSearching(searching: array<bool>) returns (entries: seq<CycleEntry>)
      requires Valid() && searching.Length == |outgoing|
      ensures entries == ReportUpTo(outgoing, searching[..], |outgoing|)
    {
      entries := [];
      var k := 0;
      while k < searching.Length
        invariant 0 <= k <= searching.Length
        invariant entries == ReportUpTo(outgoing, searching[..], k)
      {
        if searching[k] {
          entries := entries + [(k, FlaggedChildren(outgoing[k], searching[..]))];
        }
        k := k + 1;
      }
    }

    /** IsCyclicRecursive, proved equal to the functional Visit. */
    method IsCyclicRecursive(node: nat, visited: array<bool>, searching: array<bool>, seenNodes: set<nat>)
      returns (cyclic: bool, seenAfter: set<nat>)
      requires Valid() && node < |outgoing|
      requires visited.Length == |outgoing| && searching.Length == |outgoing| && visited != searching
      modifies visited, searching
      ensures (cyclic, DfsState(visited[..], searching[..], seenAfter)) ==
        Visit(outgoing, node, DfsState(old(visited[..]), old(searching[..]), seenNodes))
      decreases Unvisited(visited[..])
    {
      ghost var st := DfsState(visited[..], searching[..], seenNodes);
      if searching[node] {
        return true, seenNodes;
      }
      if visited[node] {
        return false, seenNodes;
      }
      MarkVisitedDecreases(visited[..], node);
      visited[node] := true;
      searching[node] := true;
      seenAfter := seenNodes + {node};
      ghost var st1 := DfsState(visited[..], searching[..], seenAfter);
      assert st1 == DfsState(st.visited[node := true], st.searching[node := true], st.seen + {node});
      var children := outgoing[node];
      var j := 0;
      while j < |children|
        invariant 0 <= j <= |children|
        invariant visited.Length == |outgoing| && searching.Length == |outgoing|
        invariant Unvisited(visited[..]) < Unvisited(st.visited)
        invariant VisitChildren(outgoing, node, 0, st1) ==
          VisitChildren(outgoing, node, j, DfsState(visited[..], searching[..], seenAfter))
      {
        assert children[j] in outgoing[node];
        var c;
        c, seenAfter := IsCyclicRecursive(children[j], visited, searching, seenAfter);
        if c {
          return true, seenAfter;
        }
        j := j + 1;
      }
      searching[node] := false;
      return false, seenAfter;
    }
  }
}
