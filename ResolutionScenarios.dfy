/**
  * Concrete dependency sets run through SortDependencies: each fixture's
  * greedy pass, edge list, cycle report and final outcome, worked out step
  * by step from the definitions.
  */
module ResolutionScenarios {
  import opened Wrappers
  import opened ModInfos
  import opened CollectionExtensions
  import opened GraphPaths
  import opened GraphSearch
  import opened DependencyResolution
  import opened ResolutionProperties

  // ---------------------------------------------------------------------------
  // Steps of the resolver, stated once for any input

  function Required(name: string): ModDependencyInfo { ModDependencyInfo(name, false) }

  lemma GreedyPassSnoc(names: set<string>, s: seq<ModInfo>, m: ModInfo)
    ensures GreedyPass(names, s + [m]) == GreedyStep(names, GreedyPass(names, s), m)
  {
    assert (s + [m])[..|s|] == s;
  }

  /** A mod whose dependencies are all present but not all committed is deferred. */
  lemma GreedyDefers(names: set<string>, g: GreedyState, m: ModInfo, d: nat)
    requires forall x :: x in m.dependencies ==> x.modName in names
    requires d < |m.dependencies| && m.dependencies[d].modName !in g.committed
    ensures GreedyStep(names, g, m) == g.(waiting := g.waiting + [m])
  {
    NoMissingWhenPresent(m, m.dependencies, names);
    var dn := DependencyNames(m.dependencies);
    assert dn[d] in dn;
  }

  /** Every mod has dependencies, all of them present: the greedy pass defers all of them. */
  lemma {:induction false} AllDeferred(names: set<string>, s: seq<ModInfo>)
    requires forall m :: m in s ==> |m.dependencies| > 0 && forall d :: d in m.dependencies ==> d.modName in names
    ensures GreedyPass(names, s) == GreedyState({}, [], [], s)
  {
    if s != [] {
      var init, m := s[..|s| - 1], s[|s| - 1];
      assert init + [m] == s;
      assert forall x :: x in init ==> x in s;
      AllDeferred(names, init);
      GreedyDefers(names, GreedyState({}, [], [], init), m, 0);
      GreedyPassSnoc(names, init, m);
    }
  }

  /** A single required dependency on the mod at node `target`. */
  lemma SingleTarget(mods: seq<ModInfo>, m: ModInfo, target: nat)
    requires UniqueNames(mods) && target < |mods| && |m.dependencies| == 1
    requires m.dependencies[0].modName == mods[target].modName
    ensures Targets(NodeMap(mods), m.dependencies) == Success([target])
  {
    NodeMapFacts(mods);
    var r := Targets(NodeMap(mods), m.dependencies);
    assert m.dependencies[0] in m.dependencies;
    assert r.Success?;
    assert r.value == [target];
  }

  lemma ChildErrorsSingle(mods: seq<ModInfo>, node: nat, c: nat)
    requires node < |mods| && c < |mods|
    ensures ChildErrors(mods, node, [c]) == [ModDependencyError(mods[node], mods[c].modName, CyclicalDependency)]
  {
  }

  /** Entries with one flagged child each give one error per entry, in order. */
  lemma {:induction false} SingleChildErrors(mods: seq<ModInfo>, cycles: seq<CycleEntry>)
    requires EntriesInRange(|mods|, cycles)
    requires forall k :: 0 <= k < |cycles| ==> |cycles[k].1| == 1
    ensures |CycleErrors(mods, cycles)| == |cycles|
    ensures forall k :: 0 <= k < |cycles| ==>
      CycleErrors(mods, cycles)[k] == ModDependencyError(mods[cycles[k].0], mods[cycles[k].1[0]].modName, CyclicalDependency)
  {
    if cycles != [] {
      var init, e := cycles[..|cycles| - 1], cycles[|cycles| - 1];
      assert init + [e] == cycles;
      CycleErrorsSnoc(mods, init, e);
      SingleChildErrors(mods, init);
      assert e.1 == [e.1[0]];
      ChildErrorsSingle(mods, e.0, e.1[0]);
    }
  }

  lemma SeqOfThree<T>(s: seq<T>, x0: T, x1: T, x2: T)
    requires |s| == 3 && s[0] == x0 && s[1] == x1 && s[2] == x2
    ensures s == [x0, x1, x2]
  {
  }

  lemma SeqOfFour<T>(s: seq<T>, x0: T, x1: T, x2: T, x3: T)
    requires |s| == 4 && s[0] == x0 && s[1] == x1 && s[2] == x2 && s[3] == x3
    ensures s == [x0, x1, x2, x3]
  {
  }

  /** The cycle branch, for a fixture whose greedy pass reports no missing dependency. */
  lemma CycleScenario(mods: seq<ModInfo>, g: GreedyState, adj: seq<seq<nat>>, cycles: seq<CycleEntry>)
    requires UniqueNames(mods) && GreedyPass(NameSet(mods), mods) == g
    requires g.errors == [] && g.waiting != []
    requires BuildEdges(NodeMap(mods), mods) == Success(adj)
    requires |adj| == |mods| && ValidAdj(adj) && Cycles(adj) == cycles && cycles != []
    ensures EntriesInRange(|mods|, cycles)
    ensures SortDependencies(mods) == Sorted(g.order, CycleErrors(mods, cycles))
  {
    CycleEntriesInRange(adj);
    CyclesEmptyIff(adj);
    CycleOutcome(mods, adj);
    assert g.errors + CycleErrors(mods, cycles) == CycleErrors(mods, cycles);
  }

  /** The walk branch, once the graph and its (empty) cycle report are known. */
  lemma WalkScenario(mods: seq<ModInfo>, adj: seq<seq<nat>>)
    requires UniqueNames(mods) && GreedyPass(NameSet(mods), mods).waiting != []
    requires BuildEdges(NodeMap(mods), mods) == Success(adj)
    requires ValidAdj(adj) && Cycles(adj) == []
    ensures WalkGraph(mods, adj)
    ensures forall m :: m in GreedyPass(NameSet(mods), mods).waiting ==>
      m.modName in NodeMap(mods) && NodeMap(mods)[m.modName] < |adj|
    ensures var g := GreedyPass(NameSet(mods), mods);
      SortDependencies(mods) ==
      Sorted(WalkAll(mods, adj, NodeMap(mods), g.waiting, WalkState(g.order, g.committed)).order, g.errors)
  {
    EdgesValid(mods, adj);
    EdgesIffPresent(mods);
    CyclesEmptyIff(adj);
    WaitingHaveNodes(mods);
    WalkOutcome(mods, adj);
  }

  /** Walking from a node whose single child is already added appends just that node. */
  lemma WalkOverAddedChild(data: seq<ModInfo>, adj: seq<seq<nat>>, p: nat, c: nat, st: WalkState)
    requires WalkGraph(data, adj) && p < |adj| && adj[p] == [c] && c < |adj|
    requires data[c].modName in st.added && data[p].modName !in st.added
    ensures Walk(data, adj, p, st) == WalkState(st.order + [data[p]], st.added + {data[p].modName})
  {
    assert c in adj[p];
    assert Walk(data, adj, c, st) == st;
    assert WalkChildren(data, adj, p, 1, st) == st;
  }

  lemma WalkAllSingle(data: seq<ModInfo>, adj: seq<seq<nat>>, nodeMap: map<string, nat>, m: ModInfo, st: WalkState)
    requires WalkGraph(data, adj) && m.modName in nodeMap && nodeMap[m.modName] < |adj|
    ensures WalkAll(data, adj, nodeMap, [m], st) == Walk(data, adj, nodeMap[m.modName], st)
  {
    assert [m][..0] == [];
  }

  /** The fixture names differ in their last character. */
  lemma TestNamesDistinct()
    ensures "test.mod.1" != "test.mod.2" && "test.mod.1" != "test.mod.3" && "test.mod.1" != "test.mod.4"
    ensures "test.mod.2" != "test.mod.3" && "test.mod.2" != "test.mod.4" && "test.mod.3" != "test.mod.4"
  {
    assert "test.mod.1"[9] != "test.mod.2"[9];
    assert "test.mod.1"[9] != "test.mod.3"[9];
    assert "test.mod.1"[9] != "test.mod.4"[9];
    assert "test.mod.2"[9] != "test.mod.3"[9];
    assert "test.mod.2"[9] != "test.mod.4"[9];
    assert "test.mod.3"[9] != "test.mod.4"[9];
  }

  // ---------------------------------------------------------------------------
  // Two mods that depend on each other

  function CycleMods(): seq<ModInfo>
  {
    [ModInfo("test.mod.1", "", [Required("test.mod.2")]), ModInfo("test.mod.2", "", [Required("test.mod.1")])]
  }

  lemma CycleUnique()
    ensures UniqueNames(CycleMods())
  {
    TestNamesDistinct();
  }

  lemma CycleGreedy()
    ensures UniqueNames(CycleMods())
    ensures GreedyPass(NameSet(CycleMods()), CycleMods()) == GreedyState({}, [], [], CycleMods())
  {
    CycleUnique();
    var mods := CycleMods();
    var a, b := mods[0], mods[1];
    var names := NameSet(mods);
    assert names == {"test.mod.1", "test.mod.2"} by {
      assert forall x :: x in mods <==> x == a || x == b;
    }
    NoMissingWhenPresent(a, a.dependencies, names);
    NoMissingWhenPresent(b, b.dependencies, names);
    assert DependencyNames(a.dependencies) == ["test.mod.2"];
    assert DependencyNames(b.dependencies) == ["test.mod.1"];
    assert mods[..1] == [a];
    assert GreedyPass(names, [a]) == GreedyState({}, [], [], [a]);
  }

  lemma CycleEdges()
    ensures UniqueNames(CycleMods())
    ensures BuildEdges(NodeMap(CycleMods()), CycleMods()) == Success([[1], [0]])
  {
    CycleUnique();
    var mods := CycleMods();
    SingleTarget(mods, mods[0], 1);
    SingleTarget(mods, mods[1], 0);
    EdgesFromTargets(NodeMap(mods), mods, [[1], [0]]);
  }

  lemma TwoCycleSearch()
    ensures ValidAdj([[1], [0]])
    ensures Cycles([[1], [0]]) == [(0, [1]), (1, [0])]
  {
    var adj: seq<seq<nat>> := [[1], [0]];
    assert ValidAdj(adj);
    var st0 := Fresh(2, {});
    assert st0 == DfsState([false, false], [false, false], {});
    var st1 := DfsState([true, false], [true, false], {0});
    var st2 := DfsState([true, true], [true, true], {0, 1});
    assert DfsState(st0.visited[0 := true], st0.searching[0 := true], st0.seen + {0}) == st1;
    assert DfsState(st1.visited[1 := true], st1.searching[1 := true], st1.seen + {1}) == st2;
    assert Visit(adj, 0, st2) == (true, st2);
    assert VisitChildren(adj, 1, 0, st2) == (true, st2);
    assert Visit(adj, 1, st1) == (true, st2);
    assert VisitChildren(adj, 0, 0, st1) == (true, st2);
    assert Visit(adj, 0, st0) == (true, st2);
    assert FlaggedChildren([1], [true, true]) == [1];
    assert FlaggedChildren([0], [true, true]) == [0];
    assert ReportUpTo(adj, [true, true], 2) == [(0, [1]), (1, [0])];
    assert CyclesFrom(adj, 1, {0, 1}) == [];
  }

  lemma CycleSorted()
    ensures UniqueNames(CycleMods()) && EntriesInRange(|CycleMods()|, [(0, [1]), (1, [0])])
    ensures SortDependencies(CycleMods()) == Sorted([], CycleErrors(CycleMods(), [(0, [1]), (1, [0])]))
  {
    CycleUnique();
    CycleGreedy();
    CycleEdges();
    TwoCycleSearch();
    CycleScenario(CycleMods(), GreedyState({}, [], [], CycleMods()), [[1], [0]], [(0, [1]), (1, [0])]);
  }

  lemma CycleErrorsPair()
    ensures EntriesInRange(|CycleMods()|, [(0, [1]), (1, [0])])
    ensures CycleErrors(CycleMods(), [(0, [1]), (1, [0])]) == [
        ModDependencyError(CycleMods()[0], "test.mod.2", CyclicalDependency),
        ModDependencyError(CycleMods()[1], "test.mod.1", CyclicalDependency)]
  {
    var mods := CycleMods();
    var cycles: seq<CycleEntry> := [(0, [1]), (1, [0])];
    SingleChildErrors(mods, cycles);
    var r := CycleErrors(mods, cycles);
    assert r == [r[0], r[1]];
  }

  /** Two mods that each depend on the other: both edges are reported as CyclicalDependency errors. */
  lemma CycleFixture()
    ensures UniqueNames(CycleMods())
    ensures SortDependencies(CycleMods()) == Sorted([], [
        ModDependencyError(CycleMods()[0], "test.mod.2", CyclicalDependency),
        ModDependencyError(CycleMods()[1], "test.mod.1", CyclicalDependency)])
  {
    CycleSorted();
    CycleErrorsPair();
  }

  // ---------------------------------------------------------------------------
  // A tail that leads into a cycle

  function TailMods(): seq<ModInfo>
  {
    [ModInfo("test.mod.1", "", [Required("test.mod.2")]),
     ModInfo("test.mod.2", "", [Required("test.mod.3")]),
     ModInfo("test.mod.3", "", [Required("test.mod.2")])]
  }

  lemma TailUnique()
    ensures UniqueNames(TailMods())
  {
    TestNamesDistinct();
  }

  lemma TailDependenciesPresent()
    ensures forall m :: m in TailMods() ==>
      |m.dependencies| > 0 && forall d :: d in m.dependencies ==> d.modName in NameSet(TailMods())
  {
    var mods := TailMods();
    var names := NameSet(mods);
    assert mods[1] in mods && mods[2] in mods;
    forall m | m in mods
      ensures |m.dependencies| > 0 && forall d :: d in m.dependencies ==> d.modName in names
    {
      var k :| 0 <= k < 3 && mods[k] == m;
      assert m.dependencies == [m.dependencies[0]];
    }
  }

  lemma TailGreedy()
    ensures UniqueNames(TailMods())
    ensures GreedyPass(NameSet(TailMods()), TailMods()) == GreedyState({}, [], [], TailMods())
  {
    TailUnique();
    TailDependenciesPresent();
    AllDeferred(NameSet(TailMods()), TailMods());
  }

  lemma TailEdges()
    ensures UniqueNames(TailMods())
    ensures BuildEdges(NodeMap(TailMods()), TailMods()) == Success([[1], [2], [1]])
  {
    TailUnique();
    var mods := TailMods();
    SingleTarget(mods, mods[0], 1);
    SingleTarget(mods, mods[1], 2);
    SingleTarget(mods, mods[2], 1);
    EdgesFromTargets(NodeMap(mods), mods, [[1], [2], [1]]);
  }

  /** The search from node 0 runs down the tail into the cycle and flags all three nodes. */
  lemma TailVisit()
    ensures ValidAdj([[1], [2], [1]])
    ensures Visit([[1], [2], [1]], 0, Fresh(3, {})) ==
      (true, DfsState([true, true, true], [true, true, true], {0, 1, 2}))
  {
    var adj: seq<seq<nat>> := [[1], [2], [1]];
    assert ValidAdj(adj);
    var st0 := Fresh(3, {});
    assert st0 == DfsState([false, false, false], [false, false, false], {});
    var st1 := DfsState([true, false, false], [true, false, false], {0});
    var st2 := DfsState([true, true, false], [true, true, false], {0, 1});
    var st3 := DfsState([true, true, true], [true, true, true], {0, 1, 2});
    assert DfsState(st0.visited[0 := true], st0.searching[0 := true], st0.seen + {0}) == st1;
    assert DfsState(st1.visited[1 := true], st1.searching[1 := true], st1.seen + {1}) == st2;
    assert DfsState(st2.visited[2 := true], st2.searching[2 := true], st2.seen + {2}) == st3;
    assert Visit(adj, 1, st3) == (true, st3);
    assert VisitChildren(adj, 2, 0, st3) == (true, st3);
    assert Visit(adj, 2, st2) == (true, st3);
    assert VisitChildren(adj, 1, 0, st2) == (true, st3);
    assert Visit(adj, 1, st1) == (true, st3);
    assert VisitChildren(adj, 0, 0, st1) == (true, st3);
  }

  lemma TailSearch()
    ensures ValidAdj([[1], [2], [1]])
    ensures Cycles([[1], [2], [1]]) == [(0, [1]), (1, [2]), (2, [1])]
  {
    var adj: seq<seq<nat>> := [[1], [2], [1]];
    TailVisit();
    assert FlaggedChildren([1], [true, true, true]) == [1];
    assert FlaggedChildren([2], [true, true, true]) == [2];
    assert ReportUpTo(adj, [true, true, true], 3) == [(0, [1]), (1, [2]), (2, [1])];
    assert CyclesFrom(adj, 1, {0, 1, 2}) == [];
  }

  lemma TailSorted()
    ensures UniqueNames(TailMods()) && EntriesInRange(|TailMods()|, [(0, [1]), (1, [2]), (2, [1])])
    ensures SortDependencies(TailMods()) == Sorted([], CycleErrors(TailMods(), [(0, [1]), (1, [2]), (2, [1])]))
  {
    TailUnique();
    TailGreedy();
    TailEdges();
    TailSearch();
    CycleScenario(TailMods(), GreedyState({}, [], [], TailMods()), [[1], [2], [1]], [(0, [1]), (1, [2]), (2, [1])]);
  }

  lemma TailErrors()
    ensures EntriesInRange(|TailMods()|, [(0, [1]), (1, [2]), (2, [1])])
    ensures CycleErrors(TailMods(), [(0, [1]), (1, [2]), (2, [1])]) == [
        ModDependencyError(TailMods()[0], "test.mod.2", CyclicalDependency),
        ModDependencyError(TailMods()[1], "test.mod.3", CyclicalDependency),
        ModDependencyError(TailMods()[2], "test.mod.2", CyclicalDependency)]
  {
    var mods := TailMods();
    var cycles: seq<CycleEntry> := [(0, [1]), (1, [2]), (2, [1])];
    SingleChildErrors(mods, cycles);
    SeqOfThree(CycleErrors(mods, cycles),
      ModDependencyError(mods[0], "test.mod.2", CyclicalDependency),
      ModDependencyError(mods[1], "test.mod.3", CyclicalDependency),
      ModDependencyError(mods[2], "test.mod.2", CyclicalDependency));
  }

  /**
    * test.mod.1 -> test.mod.2 -> test.mod.3 -> test.mod.2: test.mod.1 is not on
    * the cycle, yet its edge is reported too, because it is still flagged as
    * searching when the cycle is found below it.
    */

  lemma TailFixture()
    ensures UniqueNames(TailMods())
    ensures SortDependencies(TailMods()) == Sorted([], [
        ModDependencyError(TailMods()[0], "test.mod.2", CyclicalDependency),
        ModDependencyError(TailMods()[1], "test.mod.3", CyclicalDependency),
        ModDependencyError(TailMods()[2], "test.mod.2", CyclicalDependency)])
  {
    TailUnique();
    TailSorted();
    TailErrors();
  }

  // ---------------------------------------------------------------------------
  // A valid set that needs reordering

  function ChainMods(): seq<ModInfo>
  {
    [ModInfo("test.mod.1", "", []),
     ModInfo("test.mod.2", "", [Required("test.mod.3")]),
     ModInfo("test.mod.3", "", [])]
  }

  lemma ChainUnique()
    ensures UniqueNames(ChainMods())
  {
    TestNamesDistinct();
  }

  lemma ChainGreedyPrefix()
    ensures UniqueNames(ChainMods())
    ensures GreedyPass(NameSet(ChainMods()), ChainMods()[..2]) ==
      GreedyState({"test.mod.1"}, [ChainMods()[0]], [], [ChainMods()[1]])
  {
    ChainUnique();
    var mods := ChainMods();
    var names := NameSet(mods);
    assert mods[2] in mods;
    GreedyPassSnoc(names, [], mods[0]);
    var g1 := GreedyState({"test.mod.1"}, [mods[0]], [], []);
    assert GreedyPass(names, [mods[0]]) == g1;
    GreedyDefers(names, g1, mods[1], 0);
    assert mods[..2] == [mods[0]] + [mods[1]];
    GreedyPassSnoc(names, [mods[0]], mods[1]);
  }

  lemma ChainGreedy()
    ensures UniqueNames(ChainMods())
    ensures GreedyPass(NameSet(ChainMods()), ChainMods()) ==
      GreedyState({"test.mod.1", "test.mod.3"}, [ChainMods()[0], ChainMods()[2]], [], [ChainMods()[1]])
  {
    ChainUnique();
    var mods := ChainMods();
    ChainGreedyPrefix();
    assert mods[..2] + [mods[2]] == mods;
    GreedyPassSnoc(NameSet(mods), mods[..2], mods[2]);
  }

  lemma ChainEdges()
    ensures UniqueNames(ChainMods())
    ensures BuildEdges(NodeMap(ChainMods()), ChainMods()) == Success([[], [2], []])
  {
    ChainUnique();
    var mods := ChainMods();
    SingleTarget(mods, mods[1], 2);
    EdgesFromTargets(NodeMap(mods), mods, [[], [2], []]);
  }

  lemma ChainSearch()
    ensures ValidAdj([[], [2], []])
    ensures Cycles([[], [2], []]) == []
  {
    var adj: seq<seq<nat>> := [[], [2], []];
    assert ValidAdj(adj);
    var a0 := Fresh(3, {});
    assert a0 == DfsState([false, false, false], [false, false, false], {});
    var a1 := DfsState([true, false, false], [true, false, false], {0});
    assert DfsState(a0.visited[0 := true], a0.searching[0 := true], a0.seen + {0}) == a1;
    var a2 := DfsState([true, false, false], [false, false, false], {0});
    assert a1.(searching := a1.searching[0 := false]) == a2;
    assert Visit(adj, 0, a0) == (false, a2);
    var b0 := Fresh(3, {0});
    assert b0 == DfsState([false, false, false], [false, false, false], {0});
    var b1 := DfsState([false, true, false], [false, true, false], {0, 1});
    var b2 := DfsState([false, true, true], [false, true, true], {0, 1, 2});
    var b3 := DfsState([false, true, true], [false, true, false], {0, 1, 2});
    var b4 := DfsState([false, true, true], [false, false, false], {0, 1, 2});
    assert DfsState(b0.visited[1 := true], b0.searching[1 := true], b0.seen + {1}) == b1;
    assert DfsState(b1.visited[2 := true], b1.searching[2 := true], b1.seen + {2}) == b2;
    assert b2.(searching := b2.searching[2 := false]) == b3;
    assert b3.(searching := b3.searching[1 := false]) == b4;
    assert Visit(adj, 2, b1) == (false, b3);
    assert VisitChildren(adj, 1, 0, b1) == (false, b3);
    assert Visit(adj, 1, b0) == (false, b4);
    assert CyclesFrom(adj, 2, {0, 1, 2}) == [];
    assert CyclesFrom(adj, 1, {0}) == [];
  }

  lemma ChainSorted()
    ensures UniqueNames(ChainMods()) && WalkGraph(ChainMods(), [[], [2], []])
    ensures SortDependencies(ChainMods()) ==
      Sorted(Walk(ChainMods(), [[], [2], []], 1, WalkState([ChainMods()[0], ChainMods()[2]], {"test.mod.1", "test.mod.3"})).order, [])
  {
    ChainUnique();
    var mods := ChainMods();
    var adj: seq<seq<nat>> := [[], [2], []];
    ChainGreedy();
    ChainEdges();
    ChainSearch();
    WalkScenario(mods, adj);
    NodeMapFacts(mods);
    WalkAllSingle(mods, adj, NodeMap(mods), mods[1], WalkState([mods[0], mods[2]], {"test.mod.1", "test.mod.3"}));
  }

  lemma ChainWalk()
    ensures WalkGraph(ChainMods(), [[], [2], []])
    ensures Walk(ChainMods(), [[], [2], []], 1, WalkState([ChainMods()[0], ChainMods()[2]], {"test.mod.1", "test.mod.3"})).order ==
      [ChainMods()[0], ChainMods()[2], ChainMods()[1]]
  {
    var mods := ChainMods();
    var adj: seq<seq<nat>> := [[], [2], []];
    ChainSearch();
    CyclesEmptyIff(adj);
    var st := WalkState([mods[0], mods[2]], {"test.mod.1", "test.mod.3"});
    WalkOverAddedChild(mods, adj, 1, 2, st);
  }

  /**
    * test.mod.2 depends on test.mod.3, which comes after it: the greedy pass
    * defers test.mod.2 and the graph walk appends it after its dependency.
    */
  lemma ChainFixture()
    ensures UniqueNames(ChainMods())
    ensures SortDependencies(ChainMods()) == Sorted([ChainMods()[0], ChainMods()[2], ChainMods()[1]], [])
  {
    ChainUnique();
    ChainSorted();
    ChainWalk();
  }

  // ---------------------------------------------------------------------------
  // A missing dependency

  function MissingMods(): seq<ModInfo>
  {
    [ModInfo("test.mod.1", "", []), ModInfo("test.mod.2", "", [Required("test.mod.4")])]
  }

  lemma MissingUnique()
    ensures UniqueNames(MissingMods())
  {
    TestNamesDistinct();
  }

  /** test.mod.4 is not in the collection: test.mod.2 is dropped with one Missing error, test.mod.1 stays. */
  lemma MissingFixture()
    ensures UniqueNames(MissingMods())
    ensures SortDependencies(MissingMods()) ==
      Sorted([MissingMods()[0]], [ModDependencyError(MissingMods()[1], "test.mod.4", Missing)])
  {
    MissingUnique();
    var mods := MissingMods();
    var names := NameSet(mods);
    assert names == {"test.mod.1", "test.mod.2"} by {
      assert forall x :: x in mods <==> x == mods[0] || x == mods[1];
    }
    var m := mods[1];
    assert m.dependencies[..0] == [];
    assert MissingErrors(m, m.dependencies, names) == [ModDependencyError(m, "test.mod.4", Missing)];
    assert mods[..1] == [mods[0]];
    assert GreedyPass(names, [mods[0]]) == GreedyState({"test.mod.1"}, [mods[0]], [], []);
  }

  // ---------------------------------------------------------------------------
  // An optional dependency

  function OptionalMods(): seq<ModInfo>
  {
    [ModInfo("test.mod.1", "", []), ModInfo("test.mod.2", "", [ModDependencyInfo("test.mod.1?", true)])]
  }

  lemma OptionalUnique()
    ensures UniqueNames(OptionalMods())
  {
    TestNamesDistinct();
  }

  lemma OptionalGreedy()
    ensures GreedyPass(NameSet(OptionalMods()), OptionalMods()).waiting == [OptionalMods()[1]]
  {
    var mods := OptionalMods();
    var names := NameSet(mods);
    assert names == {"test.mod.1", "test.mod.2"} by {
      assert forall x :: x in mods <==> x == mods[0] || x == mods[1];
    }
    var m := mods[1];
    assert m.dependencies[..0] == [];
    assert MissingErrors(m, m.dependencies, names) == [];
    assert DependencyNames(m.dependencies) == ["test.mod.1?"];
    assert mods[..1] == [mods[0]];
    assert GreedyPass(names, [mods[0]]) == GreedyState({"test.mod.1"}, [mods[0]], [], []);
  }

  lemma OptionalEdges()
    ensures UniqueNames(OptionalMods())
    ensures BuildEdges(NodeMap(OptionalMods()), OptionalMods()) == Failure("test.mod.1?")
  {
    OptionalUnique();
    var mods := OptionalMods();
    NodeMapFacts(mods);
    assert "test.mod.1?" !in NodeMap(mods);
    assert mods[1].dependencies[0] in mods[1].dependencies;
    var r := BuildEdges(NodeMap(mods), mods);
    assert r.Failure?;
    assert forall x, d :: x in mods && d in x.dependencies ==> d.modName == "test.mod.1?";
  }

  /**
    * The optional dependency keeps its trailing '?' in its name, so it never
    * matches a committed mod: test.mod.2 is deferred, and the graph pass looks
    * up "test.mod.1?" and fails.
    */
  lemma OptionalFixture()
    ensures UniqueNames(OptionalMods())
    ensures SortDependencies(OptionalMods()) == KeyNotFound("test.mod.1?")
  {
    OptionalGreedy();
    OptionalEdges();
  }

  // ---------------------------------------------------------------------------
  // Two separate pairs that depend on each other

  function PairsMods(): seq<ModInfo>
  {
    [ModInfo("test.mod.1", "", [Required("test.mod.2")]),
     ModInfo("test.mod.2", "", [Required("test.mod.1")]),
     ModInfo("test.mod.3", "", [Required("test.mod.4")]),
     ModInfo("test.mod.4", "", [Required("test.mod.3")])]
  }

  lemma PairsUnique()
    ensures UniqueNames(PairsMods())
  {
    TestNamesDistinct();
  }

  lemma PairsDependenciesPresent()
    ensures forall m :: m in PairsMods() ==>
      |m.dependencies| > 0 && forall d :: d in m.dependencies ==> d.modName in NameSet(PairsMods())
  {
    var mods := PairsMods();
    var names := NameSet(mods);
    assert mods[0] in mods && mods[1] in mods && mods[2] in mods && mods[3] in mods;
    forall m | m in mods
      ensures |m.dependencies| > 0 && forall d :: d in m.dependencies ==> d.modName in names
    {
      var k :| 0 <= k < 4 && mods[k] == m;
      assert m.dependencies == [m.dependencies[0]];
    }
  }

  lemma PairsGreedy()
    ensures UniqueNames(PairsMods())
    ensures GreedyPass(NameSet(PairsMods()), PairsMods()) == GreedyState({}, [], [], PairsMods())
  {
    PairsUnique();
    PairsDependenciesPresent();
    AllDeferred(NameSet(PairsMods()), PairsMods());
  }

  lemma PairsEdges()
    ensures UniqueNames(PairsMods())
    ensures BuildEdges(NodeMap(PairsMods()), PairsMods()) == Success([[1], [0], [3], [2]])
  {
    PairsUnique();
    var mods := PairsMods();
    SingleTarget(mods, mods[0], 1);
    SingleTarget(mods, mods[1], 0);
    SingleTarget(mods, mods[2], 3);
    SingleTarget(mods, mods[3], 2);
    EdgesFromTargets(NodeMap(mods), mods, [[1], [0], [3], [2]]);
  }

  /** The search from node 0 closes the first pair and leaves nodes 0 and 1 flagged. */
  lemma PairsFirstRoot()
    ensures ValidAdj([[1], [0], [3], [2]])
    ensures Visit([[1], [0], [3], [2]], 0, Fresh(4, {})) ==
      (true, DfsState([true, true, false, false], [true, true, false, false], {0, 1}))
  {
    var adj: seq<seq<nat>> := [[1], [0], [3], [2]];
    assert ValidAdj(adj);
    var st0 := Fresh(4, {});
    assert st0 == DfsState([false, false, false, false], [false, false, false, false], {});
    var st1 := DfsState([true, false, false, false], [true, false, false, false], {0});
    var st2 := DfsState([true, true, false, false], [true, true, false, false], {0, 1});
    assert DfsState(st0.visited[0 := true], st0.searching[0 := true], st0.seen + {0}) == st1;
    assert DfsState(st1.visited[1 := true], st1.searching[1 := true], st1.seen + {1}) == st2;
    assert Visit(adj, 0, st2) == (true, st2);
    assert VisitChildren(adj, 1, 0, st2) == (true, st2);
    assert Visit(adj, 1, st1) == (true, st2);
    assert VisitChildren(adj, 0, 0, st1) == (true, st2);
  }

  /** The search from node 2, with nodes 0 and 1 already seen, closes the second pair. */
  lemma PairsSecondRoot()
    ensures ValidAdj([[1], [0], [3], [2]])
    ensures Visit([[1], [0], [3], [2]], 2, Fresh(4, {0, 1})) ==
      (true, DfsState([false, false, true, true], [false, false, true, true], {0, 1, 2, 3}))
  {
    var adj: seq<seq<nat>> := [[1], [0], [3], [2]];
    assert ValidAdj(adj);
    var st0 := Fresh(4, {0, 1});
    assert st0 == DfsState([false, false, false, false], [false, false, false, false], {0, 1});
    var st1 := DfsState([false, false, true, false], [false, false, true, false], {0, 1, 2});
    var st2 := DfsState([false, false, true, true], [false, false, true, true], {0, 1, 2, 3});
    assert DfsState(st0.visited[2 := true], st0.searching[2 := true], st0.seen + {2}) == st1;
    assert DfsState(st1.visited[3 := true], st1.searching[3 := true], st1.seen + {3}) == st2;
    assert Visit(adj, 2, st2) == (true, st2);
    assert VisitChildren(adj, 3, 0, st2) == (true, st2);
    assert Visit(adj, 3, st1) == (true, st2);
    assert VisitChildren(adj, 2, 0, st1) == (true, st2);
  }

  lemma PairsReports()
    ensures ValidAdj([[1], [0], [3], [2]])
    ensures ReportUpTo([[1], [0], [3], [2]], [true, true, false, false], 4) == [(0, [1]), (1, [0])]
    ensures ReportUpTo([[1], [0], [3], [2]], [false, false, true, true], 4) == [(2, [3]), (3, [2])]
  {
    var adj: seq<seq<nat>> := [[1], [0], [3], [2]];
    assert ValidAdj(adj);
    var s1 := [true, true, false, false];
    var s2 := [false, false, true, true];
    assert FlaggedChildren([1], s1) == [1] && FlaggedChildren([0], s1) == [0];
    assert FlaggedChildren([3], s2) == [3] && FlaggedChildren([2], s2) == [2];
    assert ReportUpTo(adj, s1, 2) == [(0, [1]), (1, [0])];
    assert ReportUpTo(adj, s2, 2) == [];
  }

  lemma PairsSearch()
    ensures ValidAdj([[1], [0], [3], [2]])
    ensures Cycles([[1], [0], [3], [2]]) == [(0, [1]), (1, [0]), (2, [3]), (3, [2])]
  {
    var adj: seq<seq<nat>> := [[1], [0], [3], [2]];
    PairsFirstRoot();
    PairsSecondRoot();
    PairsReports();
    var st1 := DfsState([true, true, false, false], [true, true, false, false], {0, 1});
    var st2 := DfsState([false, false, true, true], [false, false, true, true], {0, 1, 2, 3});
    CyclesFromCyclicRoot(adj, 0, {}, st1);
    CyclesFromCyclicRoot(adj, 2, {0, 1}, st2);
    assert CyclesFrom(adj, 3, {0, 1, 2, 3}) == [];
    assert CyclesFrom(adj, 1, {0, 1}) == CyclesFrom(adj, 2, {0, 1});
  }

  lemma PairsSorted()
    ensures UniqueNames(PairsMods())
    ensures EntriesInRange(|PairsMods()|, [(0, [1]), (1, [0]), (2, [3]), (3, [2])])
    ensures SortDependencies(PairsMods()) == Sorted([], CycleErrors(PairsMods(), [(0, [1]), (1, [0]), (2, [3]), (3, [2])]))
  {
    PairsUnique();
    PairsGreedy();
    PairsEdges();
    PairsSearch();
    CycleScenario(PairsMods(), GreedyState({}, [], [], PairsMods()), [[1], [0], [3], [2]], [(0, [1]), (1, [0]), (2, [3]), (3, [2])]);
  }

  lemma PairsErrors()
    ensures EntriesInRange(|PairsMods()|, [(0, [1]), (1, [0]), (2, [3]), (3, [2])])
    ensures CycleErrors(PairsMods(), [(0, [1]), (1, [0]), (2, [3]), (3, [2])]) == [
        ModDependencyError(PairsMods()[0], "test.mod.2", CyclicalDependency),
        ModDependencyError(PairsMods()[1], "test.mod.1", CyclicalDependency),
        ModDependencyError(PairsMods()[2], "test.mod.4", CyclicalDependency),
        ModDependencyError(PairsMods()[3], "test.mod.3", CyclicalDependency)]
  {
    var mods := PairsMods();
    var cycles: seq<CycleEntry> := [(0, [1]), (1, [0]), (2, [3]), (3, [2])];
    SingleChildErrors(mods, cycles);
    SeqOfFour(CycleErrors(mods, cycles),
      ModDependencyError(mods[0], "test.mod.2", CyclicalDependency),
      ModDependencyError(mods[1], "test.mod.1", CyclicalDependency),
      ModDependencyError(mods[2], "test.mod.4", CyclicalDependency),
      ModDependencyError(mods[3], "test.mod.3", CyclicalDependency));
  }

  /** Two independent pairs that depend on each other: one CyclicalDependency error per edge, four in all. */
  lemma PairsFixture()
    ensures UniqueNames(PairsMods())
    ensures SortDependencies(PairsMods()) == Sorted([], [
        ModDependencyError(PairsMods()[0], "test.mod.2", CyclicalDependency),
        ModDependencyError(PairsMods()[1], "test.mod.1", CyclicalDependency),
        ModDependencyError(PairsMods()[2], "test.mod.4", CyclicalDependency),
        ModDependencyError(PairsMods()[3], "test.mod.3", CyclicalDependency)])
  {
    PairsUnique();
    PairsSorted();
    PairsErrors();
  }

  // ---------------------------------------------------------------------------
  // A cycle of three with an unrelated mod in between

  function GappedMods(): seq<ModInfo>
  {
    [ModInfo("test.mod.1", "", [Required("test.mod.3")]),
     ModInfo("test.mod.2", "", []),
     ModInfo("test.mod.3", "", [Required("test.mod.4")]),
     ModInfo("test.mod.4", "", [Required("test.mod.1")])]
  }

  lemma GappedUnique()
    ensures UniqueNames(GappedMods())
  {
    TestNamesDistinct();
  }

  lemma GappedDependenciesPresent()
    ensures forall d :: d in GappedMods()[0].dependencies ==> d.modName in NameSet(GappedMods())
    ensures forall d :: d in GappedMods()[2].dependencies ==> d.modName in NameSet(GappedMods())
    ensures forall d :: d in GappedMods()[3].dependencies ==> d.modName in NameSet(GappedMods())
  {
    var mods := GappedMods();
    assert mods[0] in mods && mods[2] in mods && mods[3] in mods;
  }

  /** test.mod.1 waits, test.mod.2 commits. */
  lemma GappedGreedyTwo()
    ensures GreedyPass(NameSet(GappedMods()), GappedMods()[..2]) ==
      GreedyState({"test.mod.2"}, [GappedMods()[1]], [], [GappedMods()[0]])
  {
    var mods := GappedMods();
    var names := NameSet(mods);
    GappedDependenciesPresent();
    GreedyPassSnoc(names, [], mods[0]);
    GreedyDefers(names, GreedyState({}, [], [], []), mods[0], 0);
    assert GreedyPass(names, [mods[0]]) == GreedyState({}, [], [], [mods[0]]);
    assert mods[..2] == [mods[0]] + [mods[1]];
    GreedyPassSnoc(names, [mods[0]], mods[1]);
  }

  /** test.mod.3 waits for test.mod.4, which is not committed. */
  lemma GappedGreedyThree()
    ensures GreedyPass(NameSet(GappedMods()), GappedMods()[..3]) ==
      GreedyState({"test.mod.2"}, [GappedMods()[1]], [], [GappedMods()[0], GappedMods()[2]])
  {
    var mods := GappedMods();
    var names := NameSet(mods);
    var g2 := GreedyState({"test.mod.2"}, [mods[1]], [], [mods[0]]);
    assert GreedyStep(names, g2, mods[2]) == g2.(waiting := g2.waiting + [mods[2]]) by {
      TestNamesDistinct();
      GappedDependenciesPresent();
      GreedyDefers(names, g2, mods[2], 0);
    }
    assert GreedyPass(names, mods[..2]) == g2 by {
      GappedGreedyTwo();
    }
    assert mods[..3] == mods[..2] + [mods[2]];
    GreedyPassSnoc(names, mods[..2], mods[2]);
  }

  lemma GappedGreedy()
    ensures UniqueNames(GappedMods())
    ensures GreedyPass(NameSet(GappedMods()), GappedMods()) ==
      GreedyState({"test.mod.2"}, [GappedMods()[1]], [], [GappedMods()[0], GappedMods()[2], GappedMods()[3]])
  {
    GappedUnique();
    var mods := GappedMods();
    var names := NameSet(mods);
    TestNamesDistinct();
    GappedDependenciesPresent();
    GappedGreedyThree();
    var g3 := GreedyState({"test.mod.2"}, [mods[1]], [], [mods[0], mods[2]]);
    GreedyDefers(names, g3, mods[3], 0);
    assert mods == mods[..3] + [mods[3]];
    GreedyPassSnoc(names, mods[..3], mods[3]);
  }

  lemma GappedEdges()
    ensures UniqueNames(GappedMods())
    ensures BuildEdges(NodeMap(GappedMods()), GappedMods()) == Success([[2], [], [3], [0]])
  {
    GappedUnique();
    var mods := GappedMods();
    SingleTarget(mods, mods[0], 2);
    SingleTarget(mods, mods[2], 3);
    SingleTarget(mods, mods[3], 0);
    EdgesFromTargets(NodeMap(mods), mods, [[2], [], [3], [0]]);
  }

  /** The search from node 0 runs round the cycle 0 -> 2 -> 3 -> 0 and leaves node 1 untouched. */
  lemma GappedFirstRoot()
    ensures ValidAdj([[2], [], [3], [0]])
    ensures Visit([[2], [], [3], [0]], 0, Fresh(4, {})) ==
      (true, DfsState([true, false, true, true], [true, false, true, true], {0, 2, 3}))
  {
    var adj: seq<seq<nat>> := [[2], [], [3], [0]];
    assert ValidAdj(adj);
    var st0 := Fresh(4, {});
    assert st0 == DfsState([false, false, false, false], [false, false, false, false], {});
    var st1 := DfsState([true, false, false, false], [true, false, false, false], {0});
    var st2 := DfsState([true, false, true, false], [true, false, true, false], {0, 2});
    var st3 := DfsState([true, false, true, true], [true, false, true, true], {0, 2, 3});
    assert DfsState(st0.visited[0 := true], st0.searching[0 := true], st0.seen + {0}) == st1;
    assert DfsState(st1.visited[2 := true], st1.searching[2 := true], st1.seen + {2}) == st2;
    assert DfsState(st2.visited[3 := true], st2.searching[3 := true], st2.seen + {3}) == st3;
    assert Visit(adj, 0, st3) == (true, st3);
    assert VisitChildren(adj, 3, 0, st3) == (true, st3);
    assert Visit(adj, 3, st2) == (true, st3);
    assert VisitChildren(adj, 2, 0, st2) == (true, st3);
    assert Visit(adj, 2, st1) == (true, st3);
    assert VisitChildren(adj, 0, 0, st1) == (true, st3);
  }

  /** The search from node 1 finds nothing and leaves node 1 seen but no longer flagged. */
  lemma GappedSecondRoot()
    ensures ValidAdj([[2], [], [3], [0]])
    ensures Visit([[2], [], [3], [0]], 1, Fresh(4, {0, 2, 3})) ==
      (false, DfsState([false, true, false, false], [false, false, false, false], {0, 1, 2, 3}))
  {
    var adj: seq<seq<nat>> := [[2], [], [3], [0]];
    assert ValidAdj(adj);
    var st0 := Fresh(4, {0, 2, 3});
    assert st0 == DfsState([false, false, false, false], [false, false, false, false], {0, 2, 3});
    var st1 := DfsState([false, true, false, false], [false, true, false, false], {0, 1, 2, 3});
    assert DfsState(st0.visited[1 := true], st0.searching[1 := true], st0.seen + {1}) == st1;
    assert VisitChildren(adj, 1, 0, st1) == (false, st1);
    assert st1.(searching := st1.searching[1 := false]) ==
      DfsState([false, true, false, false], [false, false, false, false], {0, 1, 2, 3});
  }

  lemma GappedReport()
    ensures ValidAdj([[2], [], [3], [0]])
    ensures ReportUpTo([[2], [], [3], [0]], [true, false, true, true], 4) == [(0, [2]), (2, [3]), (3, [0])]
  {
    var adj: seq<seq<nat>> := [[2], [], [3], [0]];
    assert ValidAdj(adj);
    var s1 := [true, false, true, true];
    assert FlaggedChildren([2], s1) == [2] && FlaggedChildren([3], s1) == [3] && FlaggedChildren([0], s1) == [0];
    assert ReportUpTo(adj, s1, 2) == [(0, [2])];
  }

  lemma GappedSearch()
    ensures ValidAdj([[2], [], [3], [0]])
    ensures Cycles([[2], [], [3], [0]]) == [(0, [2]), (2, [3]), (3, [0])]
  {
    var adj: seq<seq<nat>> := [[2], [], [3], [0]];
    GappedFirstRoot();
    GappedSecondRoot();
    GappedReport();
    var st1 := DfsState([true, false, true, true], [true, false, true, true], {0, 2, 3});
    var st2 := DfsState([false, true, false, false], [false, false, false, false], {0, 1, 2, 3});
    CyclesFromCyclicRoot(adj, 0, {}, st1);
    CyclesFromAcyclicRoot(adj, 1, {0, 2, 3}, st2);
    assert CyclesFrom(adj, 2, {0, 1, 2, 3}) == [];
  }

  lemma GappedSorted()
    ensures UniqueNames(GappedMods())
    ensures EntriesInRange(|GappedMods()|, [(0, [2]), (2, [3]), (3, [0])])
    ensures SortDependencies(GappedMods()) ==
      Sorted([GappedMods()[1]], CycleErrors(GappedMods(), [(0, [2]), (2, [3]), (3, [0])]))
  {
    GappedUnique();
    GappedGreedy();
    GappedEdges();
    GappedSearch();
    var mods := GappedMods();
    var g := GreedyState({"test.mod.2"}, [mods[1]], [], [mods[0], mods[2], mods[3]]);
    CycleScenario(mods, g, [[2], [], [3], [0]], [(0, [2]), (2, [3]), (3, [0])]);
  }

  lemma GappedErrors()
    ensures EntriesInRange(|GappedMods()|, [(0, [2]), (2, [3]), (3, [0])])
    ensures CycleErrors(GappedMods(), [(0, [2]), (2, [3]), (3, [0])]) == [
        ModDependencyError(GappedMods()[0], "test.mod.3", CyclicalDependency),
        ModDependencyError(GappedMods()[2], "test.mod.4", CyclicalDependency),
        ModDependencyError(GappedMods()[3], "test.mod.1", CyclicalDependency)]
  {
    var mods := GappedMods();
    var cycles: seq<CycleEntry> := [(0, [2]), (2, [3]), (3, [0])];
    SingleChildErrors(mods, cycles);
    SeqOfThree(CycleErrors(mods, cycles),
      ModDependencyError(mods[0], "test.mod.3", CyclicalDependency),
      ModDependencyError(mods[2], "test.mod.4", CyclicalDependency),
      ModDependencyError(mods[3], "test.mod.1", CyclicalDependency));
  }

  /**
    * test.mod.1 -> test.mod.3 -> test.mod.4 -> test.mod.1, with test.mod.2
    * (no dependencies) placed among them: one error per edge of the cycle,
    * and test.mod.2 is still loaded.
    */
  lemma GappedFixture()
    ensures UniqueNames(GappedMods())
    ensures SortDependencies(GappedMods()) == Sorted([GappedMods()[1]], [
        ModDependencyError(GappedMods()[0], "test.mod.3", CyclicalDependency),
        ModDependencyError(GappedMods()[2], "test.mod.4", CyclicalDependency),
        ModDependencyError(GappedMods()[3], "test.mod.1", CyclicalDependency)])
  {
    GappedUnique();
    GappedSorted();
    GappedErrors();
  }
}
