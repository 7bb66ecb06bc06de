/**
  * CosmoteerModInjector/ModCollection.cs: an ordered, mutable list of mods
  * that can sort itself into dependency order, committing the new order only
  * when the sort reports no error.
  */
module ModCollections {
  import opened Wrappers
  import opened ModInfos
  import opened CollectionExtensions
  import opened GraphPaths
  import opened GraphSearch
  import opened Graphs
  import opened DependencyResolution
  import opened Subsequences

  /** Index of the first occurrence of `x`. */
  function FirstIndex<T(==)>(s: seq<T>, x: T): (i: nat)
    requires x in s
    ensures i < |s| && s[i] == x && x !in s[..i]
  {
    if s[0] == x then 0
    else
      var j := FirstIndex(s[1..], x);
      assert s[..j + 1] == [s[0]] + s[1..][..j];
      j + 1
  }

  /** `List.Remove`: drops the first element equal to `x`, if there is one. */
  function RemoveFirst<T(==)>(s: seq<T>, x: T): (r: seq<T>)
    ensures x !in s ==> r == s
    ensures |r| == if x in s then |s| - 1 else |s|
  {
    if s == [] then []
    else if s[0] == x then s[1..]
    else [s[0]] + RemoveFirst(s[1..], x)
  }

  /** Removal keeps every other element in place: only the first match goes. */
  lemma {:induction false} RemoveFirstShape<T>(s: seq<T>, x: T)
    requires x in s
    ensures RemoveFirst(s, x) == s[..FirstIndex(s, x)] + s[FirstIndex(s, x) + 1..]
  {
    if s[0] != x {
      var t := s[1..];
      assert x in t;
      RemoveFirstShape(t, x);
      var j := FirstIndex(t, x);
      assert FirstIndex(s, x) == j + 1;
      assert s[..j + 1] == [s[0]] + t[..j];
      assert s[j + 2..] == t[j + 1..];
    } else {
      assert s[..0] + s[1..] == s[1..];
    }
  }

  /** Exactly one occurrence of `x` leaves the collection. */
  lemma RemoveFirstMultiset<T>(s: seq<T>, x: T)
    requires x in s
    ensures multiset(RemoveFirst(s, x)) == multiset(s) - multiset{x}
  {
    RemoveFirstShape(s, x);
    var i := FirstIndex(s, x);
    assert s == s[..i] + [s[i]] + s[i + 1..];
  }

  /** Prefix lookups that succeed or fail decide the lookups of the whole list. */
  lemma {:induction false} TargetsExtend(nodeMap: map<string, nat>, deps: seq<ModDependencyInfo>, t: nat)
    requires t <= |deps| && Targets(nodeMap, deps[..t]).Failure?
    ensures Targets(nodeMap, deps) == Targets(nodeMap, deps[..t])
    decreases |deps| - t
  {
    if t < |deps| {
      assert deps[..t + 1][..t] == deps[..t];
      TargetsExtend(nodeMap, deps, t + 1);
    } else {
      assert deps[..t] == deps;
    }
  }

  lemma {:induction false} BuildEdgesExtend(nodeMap: map<string, nat>, s: seq<ModInfo>, i: nat)
    requires i <= |s| && BuildEdges(nodeMap, s[..i]).Failure?
    ensures BuildEdges(nodeMap, s) == BuildEdges(nodeMap, s[..i])
    decreases |s| - i
  {
    if i < |s| {
      assert s[..i + 1][..i] == s[..i];
      BuildEdgesExtend(nodeMap, s, i + 1);
    } else {
      assert s[..i] == s;
    }
  }

  class ModCollection {
    /** m_mods */
    var mods: seq<ModInfo>

    constructor ()
      ensures mods == []
    {
      mods := [];
    }

    /** The `Order` view. */
    function Order(): seq<ModInfo>
      reads this
    {
      mods
    }

    /** `Count` */
    function Count(): nat
      reads this
    {
      |mods|
    }

    /** The indexer; an index out of range is the caller's error. */
    function Get(index: nat): ModInfo
      reads this
      requires index < |mods|
    {
      mods[index]
    }

    method Add(modInfo: ModInfo)
      modifies this
      ensures mods == old(mods) + [modInfo]
      ensures Count() == old(Count()) + 1 && Get(old(Count())) == modInfo
      ensures forall i :: 0 <= i < old(Count()) ==> Get(i) == old(Get(i))
    {
      mods := mods + [modInfo];
    }

    /** Adds each element in sequence order. */
    method AddRange(modInfos: seq<ModInfo>)
      modifies this
      ensures mods == old(mods) + modInfos
      ensures Count() == old(Count()) + |modInfos|
      ensures forall i :: 0 <= i < old(Count()) ==> Get(i) == old(Get(i))
    {
      var i := 0;
      while i < |modInfos|
        invariant 0 <= i <= |modInfos|
        invariant mods == old(mods) + modInfos[..i]
      {
        Add(modInfos[i]);
        i := i + 1;
      }
      assert modInfos[..i] == modInfos;
    }

    method Remove(modInfo: ModInfo)
      modifies this
      ensures mods == RemoveFirst(old(mods), modInfo)
    {
      mods := RemoveFirst(mods, modInfo);
    }

    /**
      * Sorts the collection and keeps the new order only when no error was
      * reported. A KeyNotFound outcome is the exception escaping the call:
      * the collection is left as it was.
      */
    method TrySortInPlace() returns (success: bool, outcome: SortOutcome)
      requires UniqueNames(mods)
      modifies this
      ensures outcome == SortDependencies(old(mods))
      ensures success <==> outcome.Sorted? && outcome.fulfillmentErrors == []
      ensures mods == if success then outcome.mods else old(mods)
    {
      outcome := TrySortDependencies(mods);
      match outcome
      case KeyNotFound(_) =>
        success := false;
      case Sorted(sorted, fulfillmentErrors) =>
        if |fulfillmentErrors| == 0 {
          mods := sorted;
        }
        success := |fulfillmentErrors| == 0;
    }

    /** CheckDependenciesPresent: appends a Missing error per absent required dependency. */
    static method CheckDependenciesPresent(modInfo: ModInfo, modMap: map<string, ModInfo>, fulfillmentErrors: seq<ModDependencyError>)
      returns (allDependenciesPresent: bool, errorsAfter: seq<ModDependencyError>)
      ensures errorsAfter == fulfillmentErrors + MissingErrors(modInfo, modInfo.dependencies, modMap.Keys)
      ensures allDependenciesPresent <==> MissingErrors(modInfo, modInfo.dependencies, modMap.Keys) == []
    {
      var deps := modInfo.dependencies;
      allDependenciesPresent := true;
      errorsAfter := fulfillmentErrors;
      var t := 0;
      while t < |deps|
        invariant 0 <= t <= |deps|
        invariant errorsAfter == fulfillmentErrors + MissingErrors(modInfo, deps[..t], modMap.Keys)
        invariant allDependenciesPresent <==> MissingErrors(modInfo, deps[..t], modMap.Keys) == []
      {
        var dependency := deps[t];
        assert deps[..t + 1][..t] == deps[..t];
        if dependency.modName !in modMap {
          if !dependency.isOptional {
            errorsAfter := errorsAfter + [ModDependencyError(modInfo, dependency.modName, Missing)];
            allDependenciesPresent := false;
          }
        }
        t := t + 1;
      }
      assert deps[..t] == deps;
    }

    /** AddDependenciesRecursive, proved equal to the functional Walk. */
    method AddDependenciesRecursive(g: Graph<ModInfo>, currentNode: nat, result: seq<ModInfo>, alreadyAdded: set<string>)
      returns (resultAfter: seq<ModInfo>, addedAfter: set<string>)
      requires g.Valid() && WalkGraph(g.data, g.outgoing) && currentNode < |g.outgoing|
      ensures WalkState(resultAfter, addedAfter) ==
        Walk(g.data, g.outgoing, currentNode, WalkState(result, alreadyAdded))
      decreases |ReachSet(g.outgoing, currentNode)|
    {
      if g.data[currentNode].modName in alreadyAdded {
        return result, alreadyAdded;
      }
      resultAfter, addedAfter := result, alreadyAdded;
      var children := g.outgoing[currentNode];
      var j := 0;
      while j < |children|
        invariant 0 <= j <= |children|
        invariant WalkChildren(g.data, g.outgoing, currentNode, 0, WalkState(result, alreadyAdded)) ==
          WalkChildren(g.data, g.outgoing, currentNode, j, WalkState(resultAfter, addedAfter))
      {
        assert children[j] in g.outgoing[currentNode];
        ChildReachSmaller(g.outgoing, currentNode, children[j]);
        resultAfter, addedAfter := AddDependenciesRecursive(g, children[j], resultAfter, addedAfter);
        j := j + 1;
      }
      addedAfter := addedAfter + {g.data[currentNode].modName};
      resultAfter := resultAfter + [g.data[currentNode]];
    }

    /** Lines 55-87 of TrySortDependencies: the name lookup and the greedy pass. */
    static method GreedyOrder(mods: seq<ModInfo>)
      returns (committedModsSet: set<string>, modOrder: seq<ModInfo>, dependencyErrors: seq<ModDependencyError>,
               modsWaitingForDependencies: seq<ModInfo>)
      ensures GreedyState(committedModsSet, modOrder, dependencyErrors, modsWaitingForDependencies) ==
        GreedyPass(NameSet(mods), mods)
    {
      modOrder := [];
      dependencyErrors := [];
      committedModsSet := {};
      var modNameMapping: map<string, ModInfo> := map[];
      var i := 0;
      while i < |mods|
        invariant 0 <= i <= |mods|
        invariant modNameMapping.Keys == NameSet(mods[..i])
      {
        assert mods[..i + 1] == mods[..i] + [mods[i]];
        modNameMapping := modNameMapping[mods[i].modName := mods[i]];
        i := i + 1;
      }
      assert mods[..i] == mods;
      modsWaitingForDependencies := [];

      ghost var names := NameSet(mods);
      i := 0;
      while i < |mods|
        invariant 0 <= i <= |mods|
        invariant GreedyState(committedModsSet, modOrder, dependencyErrors, modsWaitingForDependencies) ==
          GreedyPass(names, mods[..i])
      {
        var modInfo := mods[i];
        assert mods[..i + 1][..i] == mods[..i];
        if |modInfo.dependencies| == 0 {
          committedModsSet := committedModsSet + {modInfo.modName};
          modOrder := modOrder + [modInfo];
          i := i + 1;
          continue;
        }
        var present;
        present, dependencyErrors := CheckDependenciesPresent(modInfo, modNameMapping, dependencyErrors);
        if present {
          if ContainsAll(committedModsSet, DependencyNames(modInfo.dependencies)) {
            committedModsSet := committedModsSet + {modInfo.modName};
            modOrder := modOrder + [modInfo];
          } else {
            modsWaitingForDependencies := modsWaitingForDependencies + [modInfo];
          }
        }
        i := i + 1;
      }
      assert mods[..i] == mods;
    }

    /** Lines 94-103: one node per mod, in list order, and the name-to-node map. */
    static method PopulateGraph(mods: seq<ModInfo>) returns (dependencyGraph: Graph<ModInfo>, nodeMap: map<string, nat>)
      ensures fresh(dependencyGraph) && dependencyGraph.Valid()
      ensures dependencyGraph.data == mods && dependencyGraph.outgoing == seq(|mods|, _ => [])
      ensures nodeMap == NodeMap(mods)
    {
      dependencyGraph := new Graph<ModInfo>();
      nodeMap := map[];
      var i := 0;
      while i < |mods|
        invariant 0 <= i <= |mods|
        invariant dependencyGraph.Valid()
        invariant dependencyGraph.data == mods[..i]
        invariant dependencyGraph.outgoing == seq(i, _ => [])
        invariant nodeMap == NodeMap(mods[..i])
      {
        assert mods[..i + 1][..i] == mods[..i];
        var node := dependencyGraph.Add(mods[i]);
        nodeMap := nodeMap[mods[i].modName := node];
        i := i + 1;
      }
      assert mods[..i] == mods;
    }

    /** Line 112-115: the edges of one mod, in dependency order; a name without a node throws. */
    static method ConnectTargets(dependencyGraph: Graph<ModInfo>, nodeMap: map<string, nat>, modNode: nat,
                                 deps: seq<ModDependencyInfo>)
      returns (missingKey: Option<string>)
      requires dependencyGraph.Valid() && modNode < |dependencyGraph.data|
      requires forall name :: name in nodeMap ==> nodeMap[name] < |dependencyGraph.data|
      modifies dependencyGraph
      ensures dependencyGraph.Valid() && dependencyGraph.data == old(dependencyGraph.data)
      ensures missingKey.Some? <==> Targets(nodeMap, deps).Failure?
      ensures missingKey.Some? ==> Targets(nodeMap, deps) == Failure(missingKey.value)
      ensures missingKey.None? ==>
                dependencyGraph.outgoing ==
                old(dependencyGraph.outgoing)[modNode := old(dependencyGraph.outgoing)[modNode] + Targets(nodeMap, deps).value]
    {
      ghost var start := dependencyGraph.outgoing;
      var t := 0;
      assert deps[..0] == [];
      assert start[modNode] + [] == start[modNode];
      while t < |deps|
        invariant 0 <= t <= |deps|
        invariant dependencyGraph.Valid() && dependencyGraph.data == old(dependencyGraph.data)
        invariant Targets(nodeMap, deps[..t]).Success?
        invariant dependencyGraph.outgoing == start[modNode := start[modNode] + Targets(nodeMap, deps[..t]).value]
      {
        var dependency := deps[t];
        assert deps[..t + 1][..t] == deps[..t];
        if dependency.modName !in nodeMap {
          TargetsExtend(nodeMap, deps, t + 1);
          return Some(dependency.modName);
        }
        ghost var done := Targets(nodeMap, deps[..t]).value;
        assert Targets(nodeMap, deps[..t + 1]).value == done + [nodeMap[dependency.modName]];
        dependencyGraph.ConnectTo(modNode, nodeMap[dependency.modName], OneWay);
        AppendAssociative(start[modNode], done, [nodeMap[dependency.modName]]);
        t := t + 1;
      }
      assert deps[..t] == deps;
      return None;
    }

    /** One more mod whose lookups all succeed extends the edge list by its row. */
    static lemma ConnectedStep(nodeMap: map<string, nat>, mods: seq<ModInfo>, i: nat,
                               before: seq<seq<nat>>, row: seq<nat>)
      requires i < |mods| && i < |before|
      requires BuildEdges(nodeMap, mods[..i]) == Success(before[..i])
      requires Targets(nodeMap, mods[i].dependencies) == Success(row)
      ensures BuildEdges(nodeMap, mods[..i + 1]) == Success(before[i := row][..i + 1])
    {
      assert mods[..i + 1][..i] == mods[..i];
      assert before[i := row][..i + 1] == before[..i] + [row];
    }

    /** The first mod with a failing lookup decides the key that throws. */
    static lemma ConnectFailure(nodeMap: map<string, nat>, mods: seq<ModInfo>, i: nat, key: string)
      requires i < |mods| && BuildEdges(nodeMap, mods[..i]).Success?
      requires Targets(nodeMap, mods[i].dependencies) == Failure(key)
      ensures BuildEdges(nodeMap, mods) == Failure(key)
    {
      assert mods[..i + 1][..i] == mods[..i];
      BuildEdgesExtend(nodeMap, mods, i + 1);
    }

    /**
      * Lines 108-116: a one-way edge from each mod to each of its dependencies.
      * The first dependency name without a node is the KeyNotFoundException.
      */
    static method ConnectDependencies(dependencyGraph: Graph<ModInfo>, nodeMap: map<string, nat>, mods: seq<ModInfo>)
      returns (missingKey: Option<string>)
      requires UniqueNames(mods) && nodeMap == NodeMap(mods)
      requires dependencyGraph.Valid() && dependencyGraph.data == mods
      requires forall k :: 0 <= k < |mods| ==> dependencyGraph.outgoing[k] == []
      modifies dependencyGraph
      ensures dependencyGraph.Valid() && dependencyGraph.data == mods
      ensures missingKey.Some? <==> BuildEdges(nodeMap, mods).Failure?
      ensures missingKey.Some? ==> BuildEdges(nodeMap, mods) == Failure(missingKey.value)
      ensures missingKey.None? ==> dependencyGraph.outgoing == BuildEdges(nodeMap, mods).value
    {
      assert forall k :: 0 <= k < |mods| ==> mods[k].modName in nodeMap && nodeMap[mods[k].modName] == k by {
        NodeMapFacts(mods);
      }
      assert forall name :: name in nodeMap ==> nodeMap[name] < |mods| by {
        NodeMapFacts(mods);
      }
      var i := 0;
      assert mods[..0] == [] && dependencyGraph.outgoing[..0] == [];
      while i < |mods|
        invariant 0 <= i <= |mods|
        invariant dependencyGraph.Valid() && dependencyGraph.data == mods
        invariant BuildEdges(nodeMap, mods[..i]) == Success(dependencyGraph.outgoing[..i])
        invariant forall k :: i <= k < |mods| ==> dependencyGraph.outgoing[k] == []
      {
        var mod := mods[i];
        var modNode := nodeMap[mod.modName];
        ghost var before := dependencyGraph.outgoing;
        missingKey := ConnectTargets(dependencyGraph, nodeMap, modNode, mod.dependencies);
        if missingKey.Some? {
          ConnectFailure(nodeMap, mods, i, missingKey.value);
          return;
        }
        ghost var row := Targets(nodeMap, mod.dependencies).value;
        assert before[i] + row == row;
        ConnectedStep(nodeMap, mods, i, before, row);
        i := i + 1;
      }
      assert mods[..i] == mods && dependencyGraph.outgoing[..i] == dependencyGraph.outgoing;
      return None;
    }

    /** The errors for the first k + 1 entries extend those for the first k by the k-th entry's. */
    static lemma NextCycleErrors(data: seq<ModInfo>, cycles: seq<CycleEntry>, k: nat)
      requires EntriesInRange(|data|, cycles) && k < |cycles|
      ensures EntriesInRange(|data|, cycles[..k]) && EntriesInRange(|data|, cycles[..k + 1])
      ensures cycles[k].0 < |data| && forall t :: 0 <= t < |cycles[k].1| ==> cycles[k].1[t] < |data|
      ensures CycleErrors(data, cycles[..k + 1]) ==
        CycleErrors(data, cycles[..k]) + ChildErrors(data, cycles[k].0, cycles[k].1)
    {
      var done, e := cycles[..k], cycles[k];
      assert cycles[..k + 1] == done + [e];
      EntriesInRangePrefix(|data|, cycles, k + 1);
      CycleErrorsSnoc(data, done, e);
    }

    /** Lines 121-124: one CyclicalDependency error per cyclic child of `node`, in order. */
    static method AddChildErrors(data: seq<ModInfo>, node: nat, cyclicChildren: seq<nat>,
                                 dependencyErrors: seq<ModDependencyError>)
      returns (errorsAfter: seq<ModDependencyError>)
      requires node < |data| && forall t :: 0 <= t < |cyclicChildren| ==> cyclicChildren[t] < |data|
      ensures errorsAfter == dependencyErrors + ChildErrors(data, node, cyclicChildren)
    {
      errorsAfter := dependencyErrors;
      var c := 0;
      while c < |cyclicChildren|
        invariant 0 <= c <= |cyclicChildren|
        invariant errorsAfter == dependencyErrors + ChildErrors(data, node, cyclicChildren[..c])
      {
        assert cyclicChildren[..c + 1][..c] == cyclicChildren[..c];
        errorsAfter := errorsAfter +
          [ModDependencyError(data[node], data[cyclicChildren[c]].modName, CyclicalDependency)];
        c := c + 1;
      }
      assert cyclicChildren[..c] == cyclicChildren;
    }

    /** Lines 119-126: one CyclicalDependency error per reported child of each cycle entry. */
    static method AddCycleErrors(data: seq<ModInfo>, cycles: seq<CycleEntry>, dependencyErrors: seq<ModDependencyError>)
      returns (errorsAfter: seq<ModDependencyError>)
      requires EntriesInRange(|data|, cycles)
      ensures errorsAfter == dependencyErrors + CycleErrors(data, cycles)
    {
      errorsAfter := dependencyErrors;
      var k := 0;
      while k < |cycles|
        invariant 0 <= k <= |cycles|
        invariant EntriesInRange(|data|, cycles[..k])
        invariant errorsAfter == dependencyErrors + CycleErrors(data, cycles[..k])
      {
        NextCycleErrors(data, cycles, k);
        var (node, cyclicChildren) := cycles[k];
        AppendAssociative(dependencyErrors, CycleErrors(data, cycles[..k]), ChildErrors(data, node, cyclicChildren));
        errorsAfter := AddChildErrors(data, node, cyclicChildren, errorsAfter);
        k := k + 1;
      }
      assert cycles[..k] == cycles;
    }

    /** Lines 137-140: every waiting mod, with its dependencies first. */
    method AddWaitingMods(dependencyGraph: Graph<ModInfo>, nodeMap: map<string, nat>, waiting: seq<ModInfo>,
                          modOrder: seq<ModInfo>, committedModsSet: set<string>)
      returns (orderAfter: seq<ModInfo>, committedAfter: set<string>)
      requires dependencyGraph.Valid() && WalkGraph(dependencyGraph.data, dependencyGraph.outgoing)
      requires forall m :: m in waiting ==> m.modName in nodeMap && nodeMap[m.modName] < |dependencyGraph.data|
      ensures WalkState(orderAfter, committedAfter) ==
        WalkAll(dependencyGraph.data, dependencyGraph.outgoing, nodeMap, waiting, WalkState(modOrder, committedModsSet))
    {
      orderAfter, committedAfter := modOrder, committedModsSet;
      var k := 0;
      while k < |waiting|
        invariant 0 <= k <= |waiting|
        invariant WalkState(orderAfter, committedAfter) ==
          WalkAll(dependencyGraph.data, dependencyGraph.outgoing, nodeMap, waiting[..k], WalkState(modOrder, committedModsSet))
      {
        var mod := waiting[k];
        assert mod in waiting;
        assert waiting[..k + 1][..k] == waiting[..k];
        orderAfter, committedAfter := AddDependenciesRecursive(dependencyGraph, nodeMap[mod.modName], orderAfter, committedAfter);
        k := k + 1;
      }
      assert waiting[..k] == waiting;
    }

    /**
      * TrySortDependencies: the greedy pass, then (when some mod waits) the
      * dependency graph over all mods, its cycles, and the closure walk.
      */
    method TrySortDependencies(mods: seq<ModInfo>) returns (outcome: SortOutcome)
      requires UniqueNames(mods)
      ensures outcome == SortDependencies(mods)
    {
      var committedModsSet, modOrder, dependencyErrors, modsWaitingForDependencies := GreedyOrder(mods);
      ghost var greedy := GreedyPass(NameSet(mods), mods);
      if |modsWaitingForDependencies| == 0 {
        return Sorted(modOrder, dependencyErrors);
      }

      var dependencyGraph, nodeMap := PopulateGraph(mods);
      var missingKey := ConnectDependencies(dependencyGraph, nodeMap, mods);
      if missingKey.Some? {
        return KeyNotFound(missingKey.value);
      }
      ghost var adj := BuildEdges(nodeMap, mods).value;
      EdgesValid(mods, adj);
      CycleEntriesInRange(adj);

      var cycles := dependencyGraph.GetCycles();
      dependencyErrors := AddCycleErrors(dependencyGraph.data, cycles, dependencyErrors);
      if |cycles| > 0 {
        return Sorted(modOrder, dependencyErrors);
      }

      CyclesEmptyIff(adj);
      WaitingHaveNodes(mods);
      modOrder, committedModsSet :=
        AddWaitingMods(dependencyGraph, nodeMap, modsWaitingForDependencies, modOrder, committedModsSet);
      return Sorted(modOrder, dependencyErrors);
    }
  }
}
