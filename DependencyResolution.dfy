/**
  * Functional reference for `ModCollection.TrySortDependencies`
  * (CosmoteerModInjector/ModCollection.cs): the greedy pass, the dependency
  * graph, the cycle errors and the post-order closure walk. The imperative
  * ModCollection is proved equal to SortDependencies; the lemmas in
  * ResolutionProperties state what the result means.
  */
module DependencyResolution {
  import opened Wrappers
  import opened ModInfos
  import opened CollectionExtensions
  import opened GraphPaths
  import opened GraphSearch
  import opened Subsequences

  datatype ModDependencyErrorReason = Missing | CyclicalDependency

  datatype ModDependencyError = ModDependencyError(modInfo: ModInfo, dependency: string, errorType: ModDependencyErrorReason)

  /**
    * What TrySortDependencies returns: the order built and the errors found,
    * or the KeyNotFoundException raised by the graph pass when a dependency
    * name has no node.
    */
  datatype SortOutcome =
    | Sorted(mods: seq<ModInfo>, fulfillmentErrors: seq<ModDependencyError>)
    | KeyNotFound(key: string)

  function NameSet(mods: seq<ModInfo>): set<string>
  {
    set m | m in mods :: m.modName
  }

  /** The names are pairwise distinct (ToDictionary and nodeMap.Add throw otherwise). */
  ghost predicate UniqueNames(mods: seq<ModInfo>)
  {
    forall i, j :: 0 <= i < j < |mods| ==> mods[i].modName != mods[j].modName
  }

  /** `Dependencies.Select(d => d.ModName)` */
  function DependencyNames(deps: seq<ModDependencyInfo>): (r: seq<string>)
    ensures |r| == |deps|
    ensures forall k :: 0 <= k < |deps| ==> r[k] == deps[k].modName
  {
    if deps == [] then [] else [deps[0].modName] + DependencyNames(deps[1..])
  }

  /** The required dependency entries whose name is absent from `names`, in order. */
  function RequiredAbsent(deps: seq<ModDependencyInfo>, names: set<string>): (r: seq<ModDependencyInfo>)
    ensures forall d :: d in r <==> d in deps && !d.isOptional && d.modName !in names
  {
    if deps == [] then []
    else
      var d := deps[|deps| - 1];
      var init := deps[..|deps| - 1];
      assert forall x :: x in deps <==> x in init || x == d;
      RequiredAbsent(init, names) + (if d.modName !in names && !d.isOptional then [d] else [])
  }

  /** Whether each entry is required and absent, position by position. */
  function AbsentFlags(deps: seq<ModDependencyInfo>, names: set<string>): (r: seq<bool>)
    ensures |r| == |deps| && forall k :: 0 <= k < |deps| ==> (r[k] <==> !deps[k].isOptional && deps[k].modName !in names)
  {
    seq(|deps|, k requires 0 <= k < |deps| => !deps[k].isOptional && deps[k].modName !in names)
  }

  /** RequiredAbsent keeps exactly the entries at the required, absent positions, in their order. */
  lemma {:induction false} RequiredAbsentInOrder(deps: seq<ModDependencyInfo>, names: set<string>)
    ensures SelectedBy(RequiredAbsent(deps, names), deps, AbsentFlags(deps, names))
  {
    if deps == [] {
      SelectedByNil<ModDependencyInfo>();
    } else {
      var init, d := deps[..|deps| - 1], deps[|deps| - 1];
      var b := !d.isOptional && d.modName !in names;
      RequiredAbsentInOrder(init, names);
      SelectedBySnoc(RequiredAbsent(init, names), init, AbsentFlags(init, names), d, b);
      RequiredAbsentSnoc(deps, names);
    }
  }

  /** Unfolding one step of RequiredAbsent and AbsentFlags at the last entry. */
  lemma RequiredAbsentSnoc(deps: seq<ModDependencyInfo>, names: set<string>)
    requires deps != []
    ensures var init, d := deps[..|deps| - 1], deps[|deps| - 1];
      var b := !d.isOptional && d.modName !in names;
      && deps == init + [d]
      && RequiredAbsent(deps, names) == (if b then RequiredAbsent(init, names) + [d] else RequiredAbsent(init, names))
      && AbsentFlags(deps, names) == AbsentFlags(init, names) + [b]
  {
  }

  /**
    * The errors CheckDependenciesPresent appends for `m` while it walks
    * `deps`: one Missing error per required dependency entry whose name is
    * absent, in dependency order (an entry listed twice gives two errors).
    */
  function MissingErrors(m: ModInfo, deps: seq<ModDependencyInfo>, names: set<string>): (r: seq<ModDependencyError>)
    ensures forall e :: e in r <==>
      exists d :: d in deps && !d.isOptional && d.modName !in names && e == ModDependencyError(m, d.modName, Missing)
  {
    if deps == [] then []
    else
      var d := deps[|deps| - 1];
      var init := deps[..|deps| - 1];
      assert forall x :: x in deps <==> x in init || x == d;
      MissingErrors(m, init, names) +
      (if d.modName !in names && !d.isOptional then [ModDependencyError(m, d.modName, Missing)] else [])
  }

  /** Missing error `k` is the one for the `k`-th required, absent dependency entry. */
  lemma {:induction false} MissingErrorsAt(m: ModInfo, deps: seq<ModDependencyInfo>, names: set<string>)
    ensures |MissingErrors(m, deps, names)| == |RequiredAbsent(deps, names)|
    ensures forall k :: 0 <= k < |RequiredAbsent(deps, names)| ==>
      MissingErrors(m, deps, names)[k] == ModDependencyError(m, RequiredAbsent(deps, names)[k].modName, Missing)
  {
    if deps != [] {
      var init, d := deps[..|deps| - 1], deps[|deps| - 1];
      MissingErrorsAt(m, init, names);
      RequiredAbsentSnoc(deps, names);
      var b := !d.isOptional && d.modName !in names;
      assert MissingErrors(m, deps, names) ==
        MissingErrors(m, init, names) + (if b then [ModDependencyError(m, d.modName, Missing)] else []);
    }
  }

  /** The Missing errors of the mods of `s`, mod after mod, as the greedy pass appends them. */
  function AllMissingErrors(names: set<string>, s: seq<ModInfo>): seq<ModDependencyError>
  {
    if s == [] then []
    else
      var m := s[|s| - 1];
      AllMissingErrors(names, s[..|s| - 1]) +
      (if |m.dependencies| == 0 then [] else MissingErrors(m, m.dependencies, names))
  }

  /** The locals of the greedy `foreach`: committedModsSet, modOrder, dependencyErrors, modsWaitingForDependencies. */
  datatype GreedyState = GreedyState(
    committed: set<string>,
    order: seq<ModInfo>,
    errors: seq<ModDependencyError>,
    waiting: seq<ModInfo>)

  /**
    * One iteration of the greedy pass: a mod without dependencies commits; a
    * mod with a missing required dependency only adds errors; a mod whose
    * every dependency name (optional ones included) is committed commits;
    * any other mod waits.
    */
  function GreedyStep(names: set<string>, g: GreedyState, m: ModInfo): GreedyState
  {
    if |m.dependencies| == 0 then
      g.(committed := g.committed + {m.modName}, order := g.order + [m])
    else
      var missing := MissingErrors(m, m.dependencies, names);
      var g1 := g.(errors := g.errors + missing);
      if missing != [] then g1
      else if ContainsAll(g.committed, DependencyNames(m.dependencies)) then
        g1.(committed := g.committed + {m.modName}, order := g.order + [m])
      else
        g1.(waiting := g.waiting + [m])
  }

  /**
    * What one iteration does with `m`: it commits exactly when every
    * dependency name (optional ones included) is committed and no required
    * one is absent; it defers exactly when no required dependency is absent
    * but some dependency name is not yet committed; otherwise it changes
    * neither the order nor the waiting list.
    */
  lemma GreedyStepClassifies(names: set<string>, g: GreedyState, m: ModInfo)
    ensures var r := GreedyStep(names, g, m);
      && (r.order == g.order + [m] <==>
            forall d :: d in m.dependencies ==> d.modName in g.committed && (d.isOptional || d.modName in names))
      && (r.waiting == g.waiting + [m] <==>
            && |m.dependencies| > 0
            && (forall d :: d in m.dependencies && !d.isOptional ==> d.modName in names)
            && (exists d :: d in m.dependencies && d.modName !in g.committed))
      && (r.order == g.order || r.waiting == g.waiting)
      && r.committed == g.committed + (if r.order == g.order then {} else {m.modName})
  {
    var r := GreedyStep(names, g, m);
    if |m.dependencies| > 0 {
      var missing := MissingErrors(m, m.dependencies, names);
      var all := ContainsAll(g.committed, DependencyNames(m.dependencies));
      MissingIffAbsent(m, m.dependencies, names);
      ContainsAllNames(g.committed, m.dependencies);
      if missing != [] {
        assert r.order == g.order && r.waiting == g.waiting;
      } else if all {
        assert r.order == g.order + [m] && r.waiting == g.waiting;
      } else {
        assert r.waiting == g.waiting + [m] && r.order == g.order;
      }
    }
  }

  /** A mod gets no Missing error exactly when none of its required dependency names is absent. */
  lemma MissingIffAbsent(m: ModInfo, deps: seq<ModDependencyInfo>, names: set<string>)
    ensures MissingErrors(m, deps, names) == [] <==> forall d :: d in deps && !d.isOptional ==> d.modName in names
  {
    MissingErrorsAt(m, deps, names);
    if RequiredAbsent(deps, names) != [] {
      assert RequiredAbsent(deps, names)[0] in RequiredAbsent(deps, names);
    }
  }

  /** The all-names test of line 79 holds exactly when every dependency name is committed. */
  lemma ContainsAllNames(committed: set<string>, deps: seq<ModDependencyInfo>)
    ensures ContainsAll(committed, DependencyNames(deps)) <==> forall d :: d in deps ==> d.modName in committed
  {
    var ns := DependencyNames(deps);
    forall d | d in deps
      ensures d.modName in ns
    {
      var k :| 0 <= k < |deps| && deps[k] == d;
      assert ns[k] == d.modName;
    }
    forall x | x in ns
      ensures exists d :: d in deps && d.modName == x
    {
      var k :| 0 <= k < |ns| && ns[k] == x;
      assert deps[k] in deps;
    }
  }

  /** The errors one iteration adds follow the earlier ones and are Missing errors of `m`. */
  lemma GreedyStepErrors(names: set<string>, g: GreedyState, m: ModInfo)
    ensures var r := GreedyStep(names, g, m);
      && |g.errors| <= |r.errors| && r.errors[..|g.errors|] == g.errors
      && (forall k :: |g.errors| <= k < |r.errors| ==> r.errors[k].modInfo == m && r.errors[k].errorType == Missing)
  {
    var r := GreedyStep(names, g, m);
    if |m.dependencies| > 0 {
      var missing := MissingErrors(m, m.dependencies, names);
      MissingErrorsAt(m, m.dependencies, names);
      assert r.errors == g.errors + missing;
      assert forall k :: |g.errors| <= k < |r.errors| ==> r.errors[k] == missing[k - |g.errors|];
    }
  }

  /** The greedy pass over `s`, left to right. */
  function GreedyPass(names: set<string>, s: seq<ModInfo>): GreedyState
  {
    if s == [] then GreedyState({}, [], [], [])
    else GreedyStep(names, GreedyPass(names, s[..|s| - 1]), s[|s| - 1])
  }

  /** `nodeMap` after adding a node per mod of `s`: name -> node index. */
  function NodeMap(s: seq<ModInfo>): map<string, nat>
  {
    if s == [] then map[] else NodeMap(s[..|s| - 1])[s[|s| - 1].modName := |s| - 1]
  }

  /** The keys are the input names, and every name maps to a node whose mod carries it (the last such mod). */
  lemma {:induction false} NodeMapLookup(s: seq<ModInfo>)
    ensures NodeMap(s).Keys == NameSet(s)
    ensures forall x :: x in NodeMap(s) ==> NodeMap(s)[x] < |s| && s[NodeMap(s)[x]].modName == x
  {
    if s != [] {
      var init := s[..|s| - 1];
      NodeMapLookup(init);
      assert forall x :: x in s <==> x in init || x == s[|s| - 1];
      assert forall k :: 0 <= k < |init| ==> init[k] == s[k];
    }
  }

  /** The node of every dependency of one mod, in order; the first name without a node is the key that throws. */
  function Targets(nodeMap: map<string, nat>, deps: seq<ModDependencyInfo>): (r: Result<seq<nat>, string>)
    ensures r.Success? <==> forall d :: d in deps ==> d.modName in nodeMap
    ensures r.Success? ==>
      |r.value| == |deps| && forall t :: 0 <= t < |deps| ==> r.value[t] == nodeMap[deps[t].modName]
    ensures r.Failure? ==> r.error !in nodeMap && exists d :: d in deps && d.modName == r.error
  {
    if deps == [] then Success([])
    else
      var d := deps[|deps| - 1];
      var init := deps[..|deps| - 1];
      assert forall x :: x in deps <==> x in init || x == d;
      match Targets(nodeMap, init)
      case Failure(key) => Failure(key)
      case Success(ts) =>
        if d.modName in nodeMap then Success(ts + [nodeMap[d.modName]]) else Failure(d.modName)
  }

  /**
    * The outgoing lists the graph pass builds for the mods of `s`, one
    * ConnectTo(ONE_WAY) per dependency, or the first key that throws.
    */
  function BuildEdges(nodeMap: map<string, nat>, s: seq<ModInfo>): (r: Result<seq<seq<nat>>, string>)
    ensures r.Success? <==> forall m, d :: m in s && d in m.dependencies ==> d.modName in nodeMap
    ensures r.Success? ==>
      |r.value| == |s| && forall k :: 0 <= k < |s| ==> Targets(nodeMap, s[k].dependencies) == Success(r.value[k])
    ensures r.Failure? ==>
      r.error !in nodeMap && exists m, d :: m in s && d in m.dependencies && d.modName == r.error
  {
    if s == [] then Success([])
    else
      var m := s[|s| - 1];
      var init := s[..|s| - 1];
      assert forall x :: x in s <==> x in init || x == m;
      match BuildEdges(nodeMap, init)
      case Failure(key) => Failure(key)
      case Success(adj) =>
        match Targets(nodeMap, m.dependencies)
        case Failure(key) => Failure(key)
        case Success(ts) => Success(adj + [ts])
  }

  /** Rows that agree with every mod's targets are the edge list. */
  lemma EdgesFromTargets(nodeMap: map<string, nat>, mods: seq<ModInfo>, adj: seq<seq<nat>>)
    requires |adj| == |mods|
    requires forall k :: 0 <= k < |mods| ==> Targets(nodeMap, mods[k].dependencies) == Success(adj[k])
    ensures BuildEdges(nodeMap, mods) == Success(adj)
  {
    forall m, d | m in mods && d in m.dependencies
      ensures d.modName in nodeMap
    {
      var k :| 0 <= k < |mods| && mods[k] == m;
      assert Targets(nodeMap, mods[k].dependencies).Success?;
    }
    assert BuildEdges(nodeMap, mods).Success?;
    var r := BuildEdges(nodeMap, mods).value;
    assert forall k :: 0 <= k < |mods| ==> r[k] == adj[k];
    assert r == adj;
  }

  /** One CyclicalDependency error per flagged child of `node`. */
  function ChildErrors(mods: seq<ModInfo>, node: nat, children: seq<nat>): (r: seq<ModDependencyError>)
    requires node < |mods| && forall k :: 0 <= k < |children| ==> children[k] < |mods|
    ensures |r| == |children|
  {
    if children == [] then []
    else
      ChildErrors(mods, node, children[..|children| - 1]) +
      [ModDependencyError(mods[node], mods[children[|children| - 1]].modName, CyclicalDependency)]
  }

  /** Error `t` names `node` as the mod and child `t` as the dependency. */
  lemma {:induction false} ChildErrorsAt(mods: seq<ModInfo>, node: nat, children: seq<nat>)
    requires node < |mods| && forall k :: 0 <= k < |children| ==> children[k] < |mods|
    ensures forall t :: 0 <= t < |children| ==>
      ChildErrors(mods, node, children)[t] == ModDependencyError(mods[node], mods[children[t]].modName, CyclicalDependency)
  {
    if children != [] {
      var init := children[..|children| - 1];
      ChildErrorsAt(mods, node, init);
      assert forall t :: 0 <= t < |init| ==> init[t] == children[t];
    }
  }

  ghost predicate EntriesInRange(n: nat, cycles: seq<CycleEntry>)
  {
    forall i :: 0 <= i < |cycles| ==> cycles[i].0 < n && forall k :: 0 <= k < |cycles[i].1| ==> cycles[i].1[k] < n
  }

  /** The errors of the `foreach` over the reported cycles. */
  function CycleErrors(mods: seq<ModInfo>, cycles: seq<CycleEntry>): (r: seq<ModDependencyError>)
    requires EntriesInRange(|mods|, cycles)
    ensures forall e :: e in r ==>
      e.errorType == CyclicalDependency && exists i :: 0 <= i < |cycles| && e.modInfo == mods[cycles[i].0]
  {
    if cycles == [] then []
    else
      var e := cycles[|cycles| - 1];
      var init := cycles[..|cycles| - 1];
      ChildErrorsAt(mods, e.0, e.1);
      assert forall i :: 0 <= i < |init| ==> init[i] == cycles[i];
      CycleErrors(mods, init) + ChildErrors(mods, e.0, e.1)
  }

  /** A prefix of a report whose entries are node indices has only node indices too. */
  lemma EntriesInRangePrefix(n: nat, cycles: seq<CycleEntry>, j: nat)
    requires EntriesInRange(n, cycles) && j <= |cycles|
    ensures EntriesInRange(n, cycles[..j])
  {
    assert forall i :: 0 <= i < j ==> cycles[..j][i] == cycles[i];
  }

  /** Errors for one more entry are appended after the earlier ones. */
  lemma CycleErrorsSnoc(mods: seq<ModInfo>, cycles: seq<CycleEntry>, e: CycleEntry)
    requires EntriesInRange(|mods|, cycles + [e])
    ensures EntriesInRange(|mods|, cycles)
    ensures e.0 < |mods| && forall k :: 0 <= k < |e.1| ==> e.1[k] < |mods|
    ensures CycleErrors(mods, cycles + [e]) == CycleErrors(mods, cycles) + ChildErrors(mods, e.0, e.1)
  {
    assert (cycles + [e])[..|cycles|] == cycles && (cycles + [e])[|cycles|] == e;
  }

  /** The `result` list and `alreadyAdded` set threaded through AddDependenciesRecursive. */
  datatype WalkState = WalkState(order: seq<ModInfo>, added: set<string>)

  ghost predicate WalkGraph(data: seq<ModInfo>, adj: seq<seq<nat>>)
  {
    |data| == |adj| && ValidAdj(adj) && !HasCycle(adj)
  }

  /**
    * AddDependenciesRecursive: unless node `n`'s mod is already added, walk
    * its outgoing nodes in order and then append it. Terminates because the
    * graph has no cycle, so every child reaches strictly fewer nodes.
    */
  function Walk(data: seq<ModInfo>, adj: seq<seq<nat>>, n: nat, st: WalkState): (r: WalkState)
    requires WalkGraph(data, adj) && n < |adj|
    ensures |st.order| <= |r.order| && r.order[..|st.order|] == st.order
    ensures st.added <= r.added && data[n].modName in r.added
    decreases |ReachSet(adj, n)|, 1
  {
    if data[n].modName in st.added then st
    else
      var st1 := WalkChildren(data, adj, n, 0, st);
      WalkState(st1.order + [data[n]], st1.added + {data[n].modName})
  }

  /** The `foreach` over the outgoing nodes of `parent`, from the `i`-th on. */
  function WalkChildren(data: seq<ModInfo>, adj: seq<seq<nat>>, parent: nat, i: nat, st: WalkState): (r: WalkState)
    requires WalkGraph(data, adj) && parent < |adj| && i <= |adj[parent]|
    ensures |st.order| <= |r.order| && r.order[..|st.order|] == st.order
    ensures st.added <= r.added
    decreases |ReachSet(adj, parent)|, 0, |adj[parent]| - i
  {
    if i == |adj[parent]| then st
    else
      var c := adj[parent][i];
      assert c in adj[parent];
      ChildReachSmaller(adj, parent, c);
      WalkChildren(data, adj, parent, i + 1, Walk(data, adj, c, st))
  }

  /** The `foreach` over the waiting mods, each walked from its node. */
  function WalkAll(data: seq<ModInfo>, adj: seq<seq<nat>>, nodeMap: map<string, nat>, waiting: seq<ModInfo>, st: WalkState): (r: WalkState)
    requires WalkGraph(data, adj)
    requires forall m :: m in waiting ==> m.modName in nodeMap && nodeMap[m.modName] < |adj|
    ensures |st.order| <= |r.order| && r.order[..|st.order|] == st.order
    ensures st.added <= r.added
    ensures forall m :: m in waiting ==> data[nodeMap[m.modName]].modName in r.added
  {
    if waiting == [] then st
    else
      var m := waiting[|waiting| - 1];
      assert m in waiting;
      Walk(data, adj, nodeMap[m.modName], WalkAll(data, adj, nodeMap, waiting[..|waiting| - 1], st))
  }

  lemma {:induction false} NodeMapFacts(s: seq<ModInfo>)
    requires UniqueNames(s)
    ensures NodeMap(s).Keys == NameSet(s)
    ensures forall k :: 0 <= k < |s| ==> NodeMap(s)[s[k].modName] == k
    ensures forall x :: x in NodeMap(s) ==> NodeMap(s)[x] < |s| && s[NodeMap(s)[x]].modName == x
  {
    if s != [] {
      var init := s[..|s| - 1];
      assert UniqueNames(init);
      NodeMapFacts(init);
      assert forall x :: x in s <==> x in init || x == s[|s| - 1];
    }
  }

  /** The edges of the dependency graph point at the nodes whose mods carry the dependency names. */
  lemma EdgesValid(mods: seq<ModInfo>, adj: seq<seq<nat>>)
    requires UniqueNames(mods) && BuildEdges(NodeMap(mods), mods) == Success(adj)
    ensures |adj| == |mods| && ValidAdj(adj)
    ensures forall k, t :: 0 <= k < |mods| && 0 <= t < |mods[k].dependencies| ==>
      t < |adj[k]| && adj[k][t] < |mods| && mods[adj[k][t]].modName == mods[k].dependencies[t].modName
    ensures forall k :: 0 <= k < |mods| ==> |adj[k]| == |mods[k].dependencies|
  {
    NodeMapFacts(mods);
    forall k | 0 <= k < |mods|
      ensures |adj[k]| == |mods[k].dependencies|
      ensures forall t :: 0 <= t < |adj[k]| ==>
        adj[k][t] < |mods| && mods[adj[k][t]].modName == mods[k].dependencies[t].modName
    {
      assert Targets(NodeMap(mods), mods[k].dependencies) == Success(adj[k]);
    }
    forall u, v | 0 <= u < |adj| && v in adj[u]
      ensures v < |adj|
    {
      var t :| 0 <= t < |adj[u]| && adj[u][t] == v;
    }
  }

  lemma GreedyWaitingFromInput(names: set<string>, s: seq<ModInfo>)
    ensures forall m :: m in GreedyPass(names, s).waiting ==> m in s
    ensures forall m :: m in GreedyPass(names, s).order ==> m in s
  {
    if s != [] {
      GreedyWaitingFromInput(names, s[..|s| - 1]);
      assert forall x :: x in s[..|s| - 1] ==> x in s;
    }
  }

  lemma CycleEntriesInRange(adj: seq<seq<nat>>)
    requires ValidAdj(adj)
    ensures EntriesInRange(|adj|, Cycles(adj))
  {
    CycleEntriesGood(adj);
    forall i | 0 <= i < |Cycles(adj)|
      ensures Cycles(adj)[i].0 < |adj| && forall k :: 0 <= k < |Cycles(adj)[i].1| ==> Cycles(adj)[i].1[k] < |adj|
    {
      var e := Cycles(adj)[i];
      assert e in Cycles(adj);
      assert GoodEntry(adj, e);
      assert forall k :: 0 <= k < |e.1| ==> e.1[k] in e.1;
    }
  }

  lemma WaitingHaveNodes(mods: seq<ModInfo>)
    requires UniqueNames(mods)
    ensures forall m :: m in GreedyPass(NameSet(mods), mods).waiting ==>
      m.modName in NodeMap(mods) && NodeMap(mods)[m.modName] < |mods|
  {
    GreedyWaitingFromInput(NameSet(mods), mods);
    NodeMapFacts(mods);
  }

  /** TrySortDependencies */
  function SortDependencies(mods: seq<ModInfo>): SortOutcome
    requires UniqueNames(mods)
  {
    var g := GreedyPass(NameSet(mods), mods);
    if g.waiting == [] then Sorted(g.order, g.errors)
    else
      var nodeMap := NodeMap(mods);
      match BuildEdges(nodeMap, mods)
      case Failure(key) => KeyNotFound(key)
      case Success(adj) =>
        EdgesValid(mods, adj);
        CycleEntriesInRange(adj);
        var cycles := Cycles(adj);
        var errors := g.errors + CycleErrors(mods, cycles);
        if |cycles| > 0 then Sorted(g.order, errors)
        else
          CyclesEmptyIff(adj);
          WaitingHaveNodes(mods);
          var w := WalkAll(mods, adj, nodeMap, g.waiting, WalkState(g.order, g.committed));
          Sorted(w.order, errors)
  }
}
