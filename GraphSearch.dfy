/**
  * Functional reference for the cycle search of CosmoteerModLib/Graph.cs:
  * `IsCyclicRecursive` as Visit/VisitChildren over a state holding the
  * `visited` and `searching` flags and the `seenNodes` set, and `GetCycles`
  * as Cycles. The Graph class's methods are proved equal to these functions;
  * the lemmas below state what the search finds.
  */
module GraphSearch {
  import opened GraphPaths
  import opened Subsequences

  datatype DfsState = DfsState(visited: seq<bool>, searching: seq<bool>, seen: set<nat>)

  /** A reported node with those of its outgoing neighbours that are flagged as searching. */
  type CycleEntry = (nat, seq<nat>)

  ghost predicate WellSized(adj: seq<seq<nat>>, st: DfsState)
  {
    |st.visited| == |adj| && |st.searching| == |adj|
  }

  /** Number of nodes not yet visited: the measure that bounds the recursion. */
  function Unvisited(v: seq<bool>): nat
  {
    if v == [] then 0 else (if v[0] then 0 else 1) + Unvisited(v[1..])
  }

  lemma {:induction false} MarkVisitedDecreases(v: seq<bool>, n: nat)
    requires n < |v| && !v[n]
    ensures Unvisited(v[n := true]) == Unvisited(v) - 1
  {
    if n > 0 {
      assert v[n := true][1..] == v[1..][n - 1 := true];
      MarkVisitedDecreases(v[1..], n - 1);
    } else {
      assert v[n := true][1..] == v[1..];
    }
  }

  /** The fresh `visited`/`searching` arrays of one root search, with the shared seen set. */
  function Fresh(n: nat, seen: set<nat>): (st: DfsState)
    ensures |st.visited| == n && |st.searching| == n
    ensures forall k :: 0 <= k < n ==> !st.visited[k] && !st.searching[k]
  {
    DfsState(seq(n, _ => false), seq(n, _ => false), seen)
  }

  /**
    * IsCyclicRecursive: true when `n` is already on the search path; false
    * when it was visited earlier; otherwise mark it visited and searching,
    * search its children in order, and clear `searching` only when none of
    * them found a cycle.
    */
  function Visit(adj: seq<seq<nat>>, n: nat, st: DfsState): (r: (bool, DfsState))
    requires ValidAdj(adj) && n < |adj| && WellSized(adj, st)
    ensures WellSized(adj, r.1)
    ensures Unvisited(r.1.visited) <= Unvisited(st.visited)
    decreases Unvisited(st.visited), 0
  {
    if st.searching[n] then (true, st)
    else if st.visited[n] then (false, st)
    else
      MarkVisitedDecreases(st.visited, n);
      var st1 := DfsState(st.visited[n := true], st.searching[n := true], st.seen + {n});
      var r := VisitChildren(adj, n, 0, st1);
      if r.0 then (true, r.1)
      else (false, r.1.(searching := r.1.searching[n := false]))
  }

  /** The `foreach` over the outgoing connections of `parent`, from the `i`-th on. */
  function VisitChildren(adj: seq<seq<nat>>, parent: nat, i: nat, st: DfsState): (r: (bool, DfsState))
    requires ValidAdj(adj) && parent < |adj| && i <= |adj[parent]| && WellSized(adj, st)
    ensures WellSized(adj, r.1)
    ensures Unvisited(r.1.visited) <= Unvisited(st.visited)
    decreases Unvisited(st.visited), 1, |adj[parent]| - i
  {
    if i == |adj[parent]| then (false, st)
    else
      assert adj[parent][i] in adj[parent];
      var r := Visit(adj, adj[parent][i], st);
      if r.0 then r
      else VisitChildren(adj, parent, i + 1, r.1)
  }

  /**
    * `OutgoingConnections.Where(n => searching[n.Index])`: the flagged
    * children, each as often as it occurs (a dependency listed twice is two
    * parallel edges); FlaggedChildrenInOrder adds that their order is kept.
    */
  function FlaggedChildren(children: seq<nat>, searching: seq<bool>): (r: seq<nat>)
    requires forall c :: c in children ==> c < |searching|
    ensures forall c :: c in r <==> c in children && searching[c]
  {
    if children == [] then []
    else
      var init, c := children[..|children| - 1], children[|children| - 1];
      assert children == init + [c];
      assert forall x :: x in children <==> x == c || x in init;
      var rest := FlaggedChildren(init, searching);
      assert c in children;
      if searching[c] then rest + [c] else rest
  }

  /** The searching flag of each child, position by position. */
  function ChildFlags(children: seq<nat>, searching: seq<bool>): (r: seq<bool>)
    requires forall k :: 0 <= k < |children| ==> children[k] < |searching|
    ensures |r| == |children| && forall k :: 0 <= k < |children| ==> r[k] == searching[children[k]]
  {
    seq(|children|, k requires 0 <= k < |children| => searching[children[k]])
  }

  /**
    * The flagged children are exactly the children at the flagged positions,
    * in their order and as often as they occur.
    */
  lemma {:induction false} FlaggedChildrenInOrder(children: seq<nat>, searching: seq<bool>)
    requires forall k :: 0 <= k < |children| ==> children[k] < |searching|
    ensures SelectedBy(FlaggedChildren(children, searching), children, ChildFlags(children, searching))
  {
    if children == [] {
      SelectedByNil<nat>();
    } else {
      var init, c := children[..|children| - 1], children[|children| - 1];
      FlaggedChildrenInOrder(init, searching);
      SelectedBySnoc(FlaggedChildren(init, searching), init, ChildFlags(init, searching), c, searching[c]);
      FlaggedChildrenSnoc(children, searching);
    }
  }

  /** Unfolding one step of FlaggedChildren and ChildFlags at the last child. */
  lemma FlaggedChildrenSnoc(children: seq<nat>, searching: seq<bool>)
    requires children != [] && forall k :: 0 <= k < |children| ==> children[k] < |searching|
    ensures var init, c := children[..|children| - 1], children[|children| - 1];
      && children == init + [c]
      && FlaggedChildren(children, searching) ==
           (if searching[c] then FlaggedChildren(init, searching) + [c] else FlaggedChildren(init, searching))
      && ChildFlags(children, searching) == ChildFlags(init, searching) + [searching[c]]
  {
    assert children[|children| - 1] in children;
  }

  /** The entries for the flagged nodes among 0 .. m - 1, in index order. */
  function ReportUpTo(adj: seq<seq<nat>>, searching: seq<bool>, m: nat): seq<CycleEntry>
    requires ValidAdj(adj) && |searching| == |adj| && m <= |adj|
  {
    if m == 0 then []
    else
      ReportUpTo(adj, searching, m - 1) +
      (if searching[m - 1] then [(m - 1, FlaggedChildren(adj[m - 1], searching))] else [])
  }

  /** The report lists flagged nodes below `m`, each once, in increasing index order. */
  lemma {:induction false} ReportUpToOrdered(adj: seq<seq<nat>>, searching: seq<bool>, m: nat)
    requires ValidAdj(adj) && |searching| == |adj| && m <= |adj|
    ensures var r := ReportUpTo(adj, searching, m);
      && |r| <= m
      && (forall i :: 0 <= i < |r| ==> r[i].0 < m && searching[r[i].0])
      && (forall i, j :: 0 <= i < j < |r| ==> r[i].0 < r[j].0)
  {
    if m > 0 {
      ReportUpToOrdered(adj, searching, m - 1);
    }
  }

  /** The `foreach` of GetCycles over the roots `i` .. |adj| - 1. */
  function CyclesFrom(adj: seq<seq<nat>>, i: nat, seen: set<nat>): seq<CycleEntry>
    requires ValidAdj(adj)
    decreases |adj| - i
  {
    if i >= |adj| then []
    else if i in seen then CyclesFrom(adj, i + 1, seen)
    else
      var r := Visit(adj, i, Fresh(|adj|, seen));
      (if r.0 then ReportUpTo(adj, r.1.searching, |adj|) else []) + CyclesFrom(adj, i + 1, r.1.seen)
  }

  /** GetCycles */
  function Cycles(adj: seq<seq<nat>>): seq<CycleEntry>
    requires ValidAdj(adj)
  {
    CyclesFrom(adj, 0, {})
  }

  /** One root of GetCycles' loop that finds a cycle: its report, then the remaining roots. */
  lemma CyclesFromCyclicRoot(adj: seq<seq<nat>>, i: nat, seen: set<nat>, st: DfsState)
    requires ValidAdj(adj) && i < |adj| && i !in seen
    requires Visit(adj, i, Fresh(|adj|, seen)) == (true, st)
    ensures CyclesFrom(adj, i, seen) == ReportUpTo(adj, st.searching, |adj|) + CyclesFrom(adj, i + 1, st.seen)
  {
  }

  /** One root of GetCycles' loop that finds no cycle contributes nothing. */
  lemma CyclesFromAcyclicRoot(adj: seq<seq<nat>>, i: nat, seen: set<nat>, st: DfsState)
    requires ValidAdj(adj) && i < |adj| && i !in seen
    requires Visit(adj, i, Fresh(|adj|, seen)) == (false, st)
    ensures CyclesFrom(adj, i, seen) == CyclesFrom(adj, i + 1, st.seen)
  {
  }

  // ---------------------------------------------------------------------------
  // What one search keeps true

  ghost predicate Finished(st: DfsState, u: nat)
  {
    u < |st.visited| && u < |st.searching| && st.visited[u] && !st.searching[u]
  }

  ghost predicate StackPath(adj: seq<seq<nat>>, stack: seq<nat>)
  {
    && (forall k :: 0 <= k < |stack| ==> stack[k] < |adj|)
    && (forall k :: 0 <= k < |stack| - 1 ==> stack[k + 1] in adj[stack[k]])
  }

  /**
    * The invariant of a search in progress: the searching nodes are exactly
    * the recursion path `stack`; every finished node has only finished
    * successors and lies on no cycle.
    */
  ghost predicate Inv(adj: seq<seq<nat>>, st: DfsState, stack: seq<nat>)
  {
    && ValidAdj(adj) && WellSized(adj, st) && StackPath(adj, stack)
    && (forall k :: 0 <= k < |adj| ==> (st.searching[k] <==> k in stack))
    && (forall k :: 0 <= k < |adj| && st.searching[k] ==> st.visited[k])
    && (forall u, v :: 0 <= u < |adj| && Finished(st, u) && v in adj[u] ==> Finished(st, v))
    && (forall u :: 0 <= u < |adj| && Finished(st, u) ==> !OnCycle(adj, u))
  }

  /** How a search that found nothing leaves the state. */
  ghost predicate Grows(st: DfsState, st': DfsState)
  {
    && |st'.visited| == |st.visited|
    && (forall u :: Finished(st, u) ==> Finished(st', u))
    && (forall k :: 0 <= k < |st.visited| && st.visited[k] ==> st'.visited[k])
    && st.seen <= st'.seen
    && (forall k :: k in st'.seen ==> k in st.seen || (k < |st'.visited| && st'.visited[k]))
  }

  /** How a search that found a cycle leaves the state: the flagged nodes form a lasso extending `stack`. */
  ghost predicate LassoOver(adj: seq<seq<nat>>, st': DfsState, stack: seq<nat>, lasso: seq<nat>)
  {
    && WellSized(adj, st')
    && IsPath(adj, lasso)
    && (exists j :: 0 <= j < |lasso| && lasso[j] in adj[lasso[|lasso| - 1]])
    && stack <= lasso
    && (forall k :: 0 <= k < |adj| ==> (st'.searching[k] <==> k in lasso))
  }

  lemma FinishedAlongPath(adj: seq<seq<nat>>, st: DfsState, p: seq<nat>, k: nat)
    requires ValidAdj(adj) && WellSized(adj, st)
    requires forall u, v :: 0 <= u < |adj| && Finished(st, u) && v in adj[u] ==> Finished(st, v)
    requires IsPath(adj, p) && k < |p| && Finished(st, p[k])
    ensures Finished(st, p[|p| - 1])
    decreases |p| - k
  {
    if k < |p| - 1 {
      FinishedAlongPath(adj, st, p, k + 1);
    }
  }

  /** Clearing `searching` on `n` after all its children finished keeps the invariant. */
  lemma FinishNode(adj: seq<seq<nat>>, st2: DfsState, stack: seq<nat>, n: nat)
    requires Inv(adj, st2, stack + [n]) && n < |adj| && n !in stack
    requires forall k :: 0 <= k < |adj[n]| ==> Finished(st2, adj[n][k])
    ensures Inv(adj, st2.(searching := st2.searching[n := false]), stack)
    ensures Finished(st2.(searching := st2.searching[n := false]), n)
  {
    var st3 := st2.(searching := st2.searching[n := false]);
    assert st2.searching[n];
    forall v | v in adj[n]
      ensures Finished(st2, v)
    {
      var k :| 0 <= k < |adj[n]| && adj[n][k] == v;
    }
    forall u, v | 0 <= u < |adj| && Finished(st3, u) && v in adj[u]
      ensures Finished(st3, v)
    {
      if u != n {
        assert Finished(st2, u);
        assert Finished(st2, v);
      }
    }
    forall u | 0 <= u < |adj| && Finished(st3, u)
      ensures !OnCycle(adj, u)
    {
      if u == n {
        if OnCycle(adj, n) {
          var p :| IsPath(adj, p) && p[0] == n && n in adj[p[|p| - 1]];
          if |p| > 1 {
            FinishedAlongPath(adj, st2, p, 1);
          }
          assert false;
        }
      }
    }
    assert forall k :: 0 <= k < |adj| ==> (st3.searching[k] <==> k in stack);
    assert forall k :: 0 <= k < |adj| && st3.searching[k] ==> st3.visited[k];
    assert forall k :: 0 <= k < |stack| ==> (stack + [n])[k] == stack[k];
    assert WellSized(adj, st3) && StackPath(adj, stack);
  }

  /** Marking an unvisited `n` as visited and searching pushes it on the path. */
  lemma MarkNode(adj: seq<seq<nat>>, st: DfsState, stack: seq<nat>, n: nat)
    requires Inv(adj, st, stack) && n < |adj| && !st.visited[n] && !st.searching[n]
    requires |stack| > 0 ==> n in adj[stack[|stack| - 1]]
    ensures Inv(adj, DfsState(st.visited[n := true], st.searching[n := true], st.seen + {n}), stack + [n])
    ensures Grows(st, DfsState(st.visited[n := true], st.searching[n := true], st.seen + {n}))
  {
    var st1 := DfsState(st.visited[n := true], st.searching[n := true], st.seen + {n});
    var stack1 := stack + [n];
    assert forall k :: 0 <= k < |adj| ==> (st1.searching[k] <==> k in stack1);
    assert forall u :: Finished(st1, u) ==> Finished(st, u);
    forall u, v | 0 <= u < |adj| && Finished(st1, u) && v in adj[u]
      ensures Finished(st1, v)
    {
      assert Finished(st, v);
    }
    assert StackPath(adj, stack1);
  }

  lemma GrowsTrans(st1: DfsState, st2: DfsState, st3: DfsState)
    requires Grows(st1, st2) && Grows(st2, st3)
    ensures Grows(st1, st3)
  {
  }

  lemma {:induction false} VisitCorrect(adj: seq<seq<nat>>, n: nat, st: DfsState, stack: seq<nat>) returns (lasso: seq<nat>)
    requires Inv(adj, st, stack) && n < |adj|
    requires |stack| > 0 ==> n in adj[stack[|stack| - 1]]
    ensures Visit(adj, n, st).0 ==> LassoOver(adj, Visit(adj, n, st).1, stack, lasso)
    ensures Visit(adj, n, st).0 && !st.searching[n] ==> |lasso| > |stack| && lasso[|stack|] == n
    ensures !Visit(adj, n, st).0 ==>
      Inv(adj, Visit(adj, n, st).1, stack) && Finished(Visit(adj, n, st).1, n) &&
      Grows(st, Visit(adj, n, st).1) && (!st.visited[n] ==> n in Visit(adj, n, st).1.seen)
    decreases Unvisited(st.visited), 0
  {
    if st.searching[n] {
      lasso := stack;
      var j :| 0 <= j < |stack| && stack[j] == n;
      assert lasso[j] in adj[lasso[|lasso| - 1]];
    } else if st.visited[n] {
      lasso := [];
    } else {
      MarkVisitedDecreases(st.visited, n);
      var st1 := DfsState(st.visited[n := true], st.searching[n := true], st.seen + {n});
      var stack1 := stack + [n];
      MarkNode(adj, st, stack, n);
      lasso := VisitChildrenCorrect(adj, n, 0, st1, stack1);
      var r := VisitChildren(adj, n, 0, st1);
      if !r.0 {
        FinishNode(adj, r.1, stack, n);
        var st3 := r.1.(searching := r.1.searching[n := false]);
        assert Grows(r.1, st3);
        GrowsTrans(st1, r.1, st3);
        GrowsTrans(st, st1, st3);
      } else {
        assert stack1 <= lasso;
      }
    }
  }

  lemma {:induction false} VisitChildrenCorrect(adj: seq<seq<nat>>, parent: nat, i: nat, st: DfsState, stack: seq<nat>) returns (lasso: seq<nat>)
    requires Inv(adj, st, stack) && |stack| > 0 && stack[|stack| - 1] == parent
    requires parent < |adj| && i <= |adj[parent]|
    requires forall k :: 0 <= k < i ==> Finished(st, adj[parent][k])
    ensures VisitChildren(adj, parent, i, st).0 ==> LassoOver(adj, VisitChildren(adj, parent, i, st).1, stack, lasso)
    ensures !VisitChildren(adj, parent, i, st).0 ==>
      Inv(adj, VisitChildren(adj, parent, i, st).1, stack) &&
      (forall k :: 0 <= k < |adj[parent]| ==> Finished(VisitChildren(adj, parent, i, st).1, adj[parent][k])) &&
      Grows(st, VisitChildren(adj, parent, i, st).1)
    decreases Unvisited(st.visited), 1, |adj[parent]| - i
  {
    if i == |adj[parent]| {
      lasso := [];
    } else {
      var c := adj[parent][i];
      assert c in adj[parent];
      var l1 := VisitCorrect(adj, c, st, stack);
      var r := Visit(adj, c, st);
      if r.0 {
        lasso := l1;
      } else {
        lasso := VisitChildrenCorrect(adj, parent, i + 1, r.1, stack);
      }
    }
  }

  lemma FreshInv(adj: seq<seq<nat>>, seen: set<nat>)
    requires ValidAdj(adj)
    ensures Inv(adj, Fresh(|adj|, seen), [])
  {
  }

  /**
    * A root search that finds no cycle resets every `searching` flag, and none
    * of the nodes it visited lies on a cycle.
    */
  lemma CycleFreeSearchClearsFlags(adj: seq<seq<nat>>, root: nat, seen: set<nat>)
    requires ValidAdj(adj) && root < |adj|
    requires !Visit(adj, root, Fresh(|adj|, seen)).0
    ensures forall k :: 0 <= k < |adj| ==> !Visit(adj, root, Fresh(|adj|, seen)).1.searching[k]
    ensures forall k :: 0 <= k < |adj| && Visit(adj, root, Fresh(|adj|, seen)).1.visited[k] ==> !OnCycle(adj, k)
    ensures root in Visit(adj, root, Fresh(|adj|, seen)).1.seen
  {
    FreshInv(adj, seen);
    var _ := VisitCorrect(adj, root, Fresh(|adj|, seen), []);
    var st := Visit(adj, root, Fresh(|adj|, seen)).1;
    assert forall k :: 0 <= k < |adj| && st.visited[k] ==> Finished(st, k);
  }

  /**
    * A root search that reports a cycle leaves flagged exactly the nodes of a
    * walk from the root whose last node has an edge back into the walk.
    */
  lemma CyclicSearchFlagsLasso(adj: seq<seq<nat>>, root: nat, seen: set<nat>) returns (lasso: seq<nat>, j: nat)
    requires ValidAdj(adj) && root < |adj|
    requires Visit(adj, root, Fresh(|adj|, seen)).0
    ensures IsPath(adj, lasso) && lasso[0] == root
    ensures j < |lasso| && lasso[j] in adj[lasso[|lasso| - 1]]
    ensures forall k :: 0 <= k < |adj| ==> (Visit(adj, root, Fresh(|adj|, seen)).1.searching[k] <==> k in lasso)
  {
    FreshInv(adj, seen);
    lasso := VisitCorrect(adj, root, Fresh(|adj|, seen), []);
    j :| 0 <= j < |lasso| && lasso[j] in adj[lasso[|lasso| - 1]];
  }

  // ---------------------------------------------------------------------------
  // What GetCycles reports

  lemma {:induction false} ReportUpToEntries(adj: seq<seq<nat>>, searching: seq<bool>, m: nat)
    requires ValidAdj(adj) && |searching| == |adj| && m <= |adj|
    ensures forall e :: e in ReportUpTo(adj, searching, m) ==>
      e.0 < m && searching[e.0] && e.1 == FlaggedChildren(adj[e.0], searching)
    ensures (exists k :: 0 <= k < m && searching[k]) ==> ReportUpTo(adj, searching, m) != []
  {
    if m > 0 {
      ReportUpToEntries(adj, searching, m - 1);
    }
  }

  /** Every entry of a search that found a cycle is well formed. */
  ghost predicate GoodEntry(adj: seq<seq<nat>>, e: CycleEntry)
  {
    && e.0 < |adj|
    && |e.1| > 0
    && (forall c :: c in e.1 ==> c in adj[e.0])
    && LeadsIntoCycle(adj, e.0)
  }

  lemma LassoReportGood(adj: seq<seq<nat>>, searching: seq<bool>, lasso: seq<nat>, j: nat)
    requires ValidAdj(adj) && |searching| == |adj|
    requires IsPath(adj, lasso) && j < |lasso| && lasso[j] in adj[lasso[|lasso| - 1]]
    requires forall k :: 0 <= k < |adj| ==> (searching[k] <==> k in lasso)
    ensures ReportUpTo(adj, searching, |adj|) != []
    ensures forall e :: e in ReportUpTo(adj, searching, |adj|) ==> GoodEntry(adj, e)
  {
    ReportUpToEntries(adj, searching, |adj|);
    LassoHasCycle(adj, lasso, j);
    assert searching[lasso[0]];
    forall e | e in ReportUpTo(adj, searching, |adj|)
      ensures GoodEntry(adj, e)
    {
      var u := e.0;
      var i :| 0 <= i < |lasso| && lasso[i] == u;
      var next := if i < |lasso| - 1 then lasso[i + 1] else lasso[j];
      assert next in adj[u] && searching[next];
      assert next in e.1;
    }
  }

  /** Whatever GetCycles reports comes from a cycle, and every entry is well formed. */
  lemma {:induction false} CyclesFromSound(adj: seq<seq<nat>>, i: nat, seen: set<nat>)
    requires ValidAdj(adj)
    ensures CyclesFrom(adj, i, seen) != [] ==> HasCycle(adj)
    ensures forall e :: e in CyclesFrom(adj, i, seen) ==> GoodEntry(adj, e)
    decreases |adj| - i
  {
    if i < |adj| {
      if i in seen {
        CyclesFromSound(adj, i + 1, seen);
      } else {
        var r := Visit(adj, i, Fresh(|adj|, seen));
        if r.0 {
          var lasso, j := CyclicSearchFlagsLasso(adj, i, seen);
          LassoReportGood(adj, r.1.searching, lasso, j);
          LassoHasCycle(adj, lasso, j);
        }
        CyclesFromSound(adj, i + 1, r.1.seen);
      }
    }
  }

  /** After a root search that found nothing, the seen set still holds only nodes on no cycle. */
  lemma CycleFreeSeen(adj: seq<seq<nat>>, root: nat, seen: set<nat>)
    requires ValidAdj(adj) && root < |adj|
    requires forall k :: k in seen && k < |adj| ==> !OnCycle(adj, k)
    requires !Visit(adj, root, Fresh(|adj|, seen)).0
    ensures forall k :: k in Visit(adj, root, Fresh(|adj|, seen)).1.seen && k < |adj| ==> !OnCycle(adj, k)
    ensures seen <= Visit(adj, root, Fresh(|adj|, seen)).1.seen
    ensures root in Visit(adj, root, Fresh(|adj|, seen)).1.seen
  {
    CycleFreeSearchClearsFlags(adj, root, seen);
    FreshInv(adj, seen);
    var _ := VisitCorrect(adj, root, Fresh(|adj|, seen), []);
  }

  /** When GetCycles from root `i` on reports nothing, no node lies on a cycle. */
  lemma {:induction false} CyclesFromComplete(adj: seq<seq<nat>>, i: nat, seen: set<nat>)
    requires ValidAdj(adj) && i <= |adj|
    requires forall k :: 0 <= k < i ==> k in seen
    requires forall k :: k in seen && k < |adj| ==> !OnCycle(adj, k)
    ensures CyclesFrom(adj, i, seen) == [] ==> forall k :: 0 <= k < |adj| ==> !OnCycle(adj, k)
    decreases |adj| - i
  {
    if i < |adj| {
      if i in seen {
        CyclesFromComplete(adj, i + 1, seen);
      } else {
        var r := Visit(adj, i, Fresh(|adj|, seen));
        if r.0 {
          var lasso, j := CyclicSearchFlagsLasso(adj, i, seen);
          LassoReportGood(adj, r.1.searching, lasso, j);
          assert CyclesFrom(adj, i, seen) != [];
        } else {
          CycleFreeSeen(adj, i, seen);
          CyclesFromComplete(adj, i + 1, r.1.seen);
        }
      }
    }
  }

  /** GetCycles returns an empty list exactly when the graph has no directed cycle. */
  lemma CyclesEmptyIff(adj: seq<seq<nat>>)
    requires ValidAdj(adj)
    ensures Cycles(adj) == [] <==> !HasCycle(adj)
  {
    CyclesFromSound(adj, 0, {});
    CyclesFromComplete(adj, 0, {});
  }

  /**
    * Every reported entry names a node that is on a cycle or leads into one,
    * with a non-empty list of children, each an outgoing neighbour of it.
    */
  lemma CycleEntriesGood(adj: seq<seq<nat>>)
    requires ValidAdj(adj)
    ensures forall e :: e in Cycles(adj) ==> GoodEntry(adj, e)
  {
    CyclesFromSound(adj, 0, {});
  }
}
