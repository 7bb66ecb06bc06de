/**
  * What the resolver's result means: the greedy pass, the closure walk and
  * the whole of TrySortDependencies (CosmoteerModInjector/ModCollection.cs),
  * stated over the functional reference in DependencyResolution.
  */
module ResolutionProperties {
  import opened Wrappers
  import opened ModInfos
  import opened CollectionExtensions
  import opened GraphPaths
  import opened GraphSearch
  import opened DependencyResolution

  /** Every dependency of every mod names a mod placed before it. */
  ghost predicate DepsBefore(order: seq<ModInfo>)
  {
    forall i, d :: 0 <= i < |order| && d in order[i].dependencies ==> d.modName in NameSet(order[..i])
  }

  /** The mods without dependencies, in their order in `s`. */
  function NoDependencyMods(s: seq<ModInfo>): seq<ModInfo>
  {
    if s == [] then []
    else NoDependencyMods(s[..|s| - 1]) + (if |s[|s| - 1].dependencies| == 0 then [s[|s| - 1]] else [])
  }

  // ---------------------------------------------------------------------
  // Sequences of mods
  // ---------------------------------------------------------------------

  lemma NameSetAppend(s: seq<ModInfo>, m: ModInfo)
    ensures NameSet(s + [m]) == NameSet(s) + {m.modName}
  {
    assert forall x :: x in s + [m] <==> x in s || x == m;
  }

  /** Appending a mod whose name is new and whose dependencies are all placed keeps a dependency order. */
  lemma AppendKeepsOrder(order: seq<ModInfo>, m: ModInfo)
    requires UniqueNames(order) && DepsBefore(order)
    requires m.modName !in NameSet(order)
    requires forall d :: d in m.dependencies ==> d.modName in NameSet(order)
    ensures UniqueNames(order + [m]) && DepsBefore(order + [m])
    ensures NameSet(order + [m]) == NameSet(order) + {m.modName}
  {
    var o := order + [m];
    NameSetAppend(order, m);
    forall i, d | 0 <= i < |o| && d in o[i].dependencies
      ensures d.modName in NameSet(o[..i])
    {
      if i < |order| {
        assert o[..i] == order[..i] && o[i] == order[i];
      } else {
        assert o[..i] == order;
      }
    }
    forall i, j | 0 <= i < j < |o|
      ensures o[i].modName != o[j].modName
    {
      if j == |order| {
        assert o[i] in order;
      }
    }
  }

  /** A dependency order stays one when cut after any position. */
  lemma DepsBeforePrefix(s: seq<ModInfo>, n: nat)
    requires n <= |s| && DepsBefore(s)
    ensures DepsBefore(s[..n])
  {
    forall i, d | 0 <= i < n && d in s[..n][i].dependencies
      ensures d.modName in NameSet(s[..n][..i])
    {
      assert s[..n][..i] == s[..i];
    }
  }

  /** Distinct elements occur once each. */
  lemma {:induction false} DistinctMultiplicity(a: seq<ModInfo>, x: ModInfo)
    requires UniqueNames(a)
    ensures multiset(a)[x] == if x in a then 1 else 0
  {
    if a != [] {
      var t := a[1..];
      assert a == [a[0]] + t;
      assert UniqueNames(t) by {
        forall i, j | 0 <= i < j < |t|
          ensures t[i].modName != t[j].modName
        {
          assert t[i] == a[i + 1] && t[j] == a[j + 1];
        }
      }
      DistinctMultiplicity(t, x);
    }
  }

  /** Two sequences with distinct names and the same elements are permutations of each other. */
  lemma SameElementsPermutation(a: seq<ModInfo>, b: seq<ModInfo>)
    requires UniqueNames(a) && UniqueNames(b)
    requires forall x :: x in a <==> x in b
    ensures multiset(a) == multiset(b)
  {
    forall x
      ensures multiset(a)[x] == multiset(b)[x]
    {
      DistinctMultiplicity(a, x);
      DistinctMultiplicity(b, x);
    }
  }

  /** Within a list of distinct names, a name determines the mod. */
  lemma NameDeterminesMod(mods: seq<ModInfo>, x: ModInfo, y: ModInfo)
    requires UniqueNames(mods) && x in mods && y in mods && x.modName == y.modName
    ensures x == y
  {
    var i :| 0 <= i < |mods| && mods[i] == x;
    var j :| 0 <= j < |mods| && mods[j] == y;
    assert !(i < j) && !(j < i);
  }

  lemma {:induction false} NoDependencyModsConcat(a: seq<ModInfo>, b: seq<ModInfo>)
    ensures NoDependencyMods(a + b) == NoDependencyMods(a) + NoDependencyMods(b)
    decreases |b|
  {
    if b == [] {
      assert a + b == a;
    } else {
      var init := b[..|b| - 1];
      assert (a + b)[..|a + b| - 1] == a + init;
      NoDependencyModsConcat(a, init);
    }
  }

  lemma {:induction false} NoDependencyModsMembers(s: seq<ModInfo>)
    ensures forall x :: x in NoDependencyMods(s) <==> x in s && |x.dependencies| == 0
  {
    if s != [] {
      var init := s[..|s| - 1];
      NoDependencyModsMembers(init);
      assert forall x :: x in s <==> x in init || x == s[|s| - 1];
    }
  }

  // ---------------------------------------------------------------------
  // The greedy pass (ModCollection.cs:64-87)
  // ---------------------------------------------------------------------

  /**
    * The committed set names exactly the committed mods, which have distinct
    * names, come from the input and form a dependency order; waiting mods
    * come from the input too.
    */
  lemma {:induction false} GreedyInvariant(names: set<string>, s: seq<ModInfo>)
    requires UniqueNames(s)
    ensures var g := GreedyPass(names, s);
      && g.committed == NameSet(g.order)
      && UniqueNames(g.order)
      && DepsBefore(g.order)
      && (forall m :: m in g.order ==> m in s)
      && (forall m :: m in g.waiting ==> m in s)
  {
    if s != [] {
      var init, m := s[..|s| - 1], s[|s| - 1];
      assert UniqueNames(init);
      GreedyInvariant(names, init);
      var g0 := GreedyPass(names, init);
      assert forall x :: x in s <==> x in init || x == m;
      if |m.dependencies| == 0 {
        AppendKeepsOrder(g0.order, m);
      } else if MissingErrors(m, m.dependencies, names) == [] &&
                ContainsAll(g0.committed, DependencyNames(m.dependencies)) {
        forall d | d in m.dependencies
          ensures d.modName in NameSet(g0.order)
        {
          var t :| 0 <= t < |m.dependencies| && m.dependencies[t] == d;
          assert DependencyNames(m.dependencies)[t] in DependencyNames(m.dependencies);
        }
        AppendKeepsOrder(g0.order, m);
      }
    }
  }

  /**
    * Each input mod is committed or deferred exactly when it has no missing
    * required dependency (ModCollection.cs:74 and :166-188).
    */
  lemma {:induction false} GreedyClassifies(names: set<string>, s: seq<ModInfo>)
    ensures var g := GreedyPass(names, s);
      forall m :: m in s ==> ((m in g.order || m in g.waiting) <==> MissingErrors(m, m.dependencies, names) == [])
    ensures var g := GreedyPass(names, s);
      forall m :: m in g.order || m in g.waiting ==> m in s
  {
    if s != [] {
      var init, m := s[..|s| - 1], s[|s| - 1];
      GreedyClassifies(names, init);
      assert forall x :: x in s <==> x in init || x == m;
      if |m.dependencies| == 0 {
        assert m.dependencies == [];
      }
    }
  }

  /**
    * The greedy errors are the Missing errors of the input mods, mod after
    * mod in input order, and nothing else.
    */
  lemma {:induction false} GreedyErrors(names: set<string>, s: seq<ModInfo>)
    ensures GreedyPass(names, s).errors == AllMissingErrors(names, s)
    ensures forall e :: e in GreedyPass(names, s).errors <==>
      exists m :: m in s && e in MissingErrors(m, m.dependencies, names)
  {
    if s != [] {
      var init, m := s[..|s| - 1], s[|s| - 1];
      var extra := if |m.dependencies| == 0 then [] else MissingErrors(m, m.dependencies, names);
      assert GreedyPass(names, s).errors == GreedyPass(names, init).errors + extra;
      assert AllMissingErrors(names, s) == AllMissingErrors(names, init) + extra;
      GreedyErrors(names, init);
      assert forall x :: x in s <==> x in init || x == m;
      if |m.dependencies| == 0 {
        assert m.dependencies == [];
      }
    }
  }

  /** A mod's Missing errors are among the greedy errors. */
  lemma MissingReachesGreedy(names: set<string>, s: seq<ModInfo>, m: ModInfo)
    requires m in s
    ensures MissingErrors(m, m.dependencies, names) != [] ==> GreedyPass(names, s).errors != []
  {
    GreedyErrors(names, s);
    var me := MissingErrors(m, m.dependencies, names);
    if me != [] {
      assert me[0] in GreedyPass(names, s).errors;
    }
  }

  /** The mods without dependencies are committed at once, in their input order. */
  lemma {:induction false} GreedyKeepsNoDependencyOrder(names: set<string>, s: seq<ModInfo>)
    ensures NoDependencyMods(GreedyPass(names, s).order) == NoDependencyMods(s)
  {
    if s != [] {
      var init, m := s[..|s| - 1], s[|s| - 1];
      var g0 := GreedyPass(names, init);
      GreedyKeepsNoDependencyOrder(names, init);
      var o := GreedyPass(names, s).order;
      if o != g0.order {
        assert o == g0.order + [m];
        assert o[..|o| - 1] == g0.order;
      }
    }
  }

  /** A mod whose dependency names are all present gets no Missing error. */
  lemma NoMissingWhenPresent(m: ModInfo, deps: seq<ModDependencyInfo>, names: set<string>)
    requires forall d :: d in deps ==> d.modName in names
    ensures MissingErrors(m, deps, names) == []
  {
  }

  /** An input already in dependency order passes the greedy pass unchanged. */
  lemma {:induction false} GreedyOnOrderedInput(names: set<string>, s: seq<ModInfo>)
    requires DepsBefore(s) && NameSet(s) <= names
    ensures GreedyPass(names, s) == GreedyState(NameSet(s), s, [], [])
  {
    if s != [] {
      var init, m := s[..|s| - 1], s[|s| - 1];
      DepsBeforePrefix(s, |s| - 1);
      NameSetAppend(init, m);
      assert init + [m] == s;
      GreedyOnOrderedInput(names, init);
      if |m.dependencies| != 0 {
        forall d | d in m.dependencies
          ensures d.modName in NameSet(init)
        {
          assert s[..|s| - 1] == init;
        }
        NoMissingWhenPresent(m, m.dependencies, names);
        var dn := DependencyNames(m.dependencies);
        assert forall x :: x in dn ==> x in NameSet(init);
      }
    }
  }

  // ---------------------------------------------------------------------
  // The closure walk (AddDependenciesRecursive, ModCollection.cs:152-164)
  // ---------------------------------------------------------------------

  /** Edge `t` of node `k` leads to the mod named by `k`'s `t`-th dependency. */
  ghost predicate EdgesMatch(mods: seq<ModInfo>, adj: seq<seq<nat>>)
  {
    && |adj| == |mods|
    && (forall k :: 0 <= k < |mods| ==> |adj[k]| == |mods[k].dependencies|)
    && (forall k, t :: 0 <= k < |mods| && 0 <= t < |adj[k]| ==>
          adj[k][t] < |mods| && mods[adj[k][t]].modName == mods[k].dependencies[t].modName)
  }

  /** The dependency graph the walk runs on: distinct names, matching edges, no cycle. */
  ghost predicate WalkSetting(mods: seq<ModInfo>, adj: seq<seq<nat>>)
  {
    UniqueNames(mods) && WalkGraph(mods, adj) && EdgesMatch(mods, adj)
  }

  /** `alreadyAdded` names exactly `result`, a dependency order of input mods with distinct names. */
  ghost predicate WalkInv(mods: seq<ModInfo>, st: WalkState)
  {
    && st.added == NameSet(st.order)
    && UniqueNames(st.order)
    && DepsBefore(st.order)
    && (forall m :: m in st.order ==> m in mods)
  }

  ghost function ReachNames(mods: seq<ModInfo>, adj: seq<seq<nat>>, n: nat): set<string>
  {
    set v | v in ReachSet(adj, n) && v < |mods| :: mods[v].modName
  }

  /** `b` extends `a`: the walk only ever appends. */
  ghost predicate Extends(a: WalkState, b: WalkState)
  {
    a.added <= b.added && |a.order| <= |b.order| && b.order[..|a.order|] == a.order
  }

  lemma ExtendsTrans(a: WalkState, b: WalkState, c: WalkState)
    requires Extends(a, b) && Extends(b, c)
    ensures Extends(a, c)
  {
    assert c.order[..|a.order|] == c.order[..|b.order|][..|a.order|];
  }

  /** Children reach only what their parent reaches. */
  lemma ChildReachNames(mods: seq<ModInfo>, adj: seq<seq<nat>>, n: nat, c: nat)
    requires WalkGraph(mods, adj) && n < |adj| && c in adj[n]
    ensures ReachNames(mods, adj, c) <= ReachNames(mods, adj, n)
  {
    ChildReachSmaller(adj, n, c);
  }

  lemma SelfReachName(mods: seq<ModInfo>, adj: seq<seq<nat>>, n: nat)
    requires |adj| == |mods| && n < |adj|
    ensures mods[n].modName in ReachNames(mods, adj, n)
  {
    assert IsPath(adj, [n]);
    assert n in ReachSet(adj, n);
  }

  /** The parent's own name cannot be reached through one of its children. */
  lemma ParentNotBelowChild(mods: seq<ModInfo>, adj: seq<seq<nat>>, n: nat, c: nat)
    requires WalkSetting(mods, adj) && n < |adj| && c in adj[n]
    ensures mods[n].modName !in ReachNames(mods, adj, c)
  {
    if mods[n].modName in ReachNames(mods, adj, c) {
      var v :| v in ReachSet(adj, c) && v < |mods| && mods[v].modName == mods[n].modName;
      assert !(v < n) && !(n < v);
      ReachBackIsCycle(adj, n, c);
      assert false;
    }
  }

  /** The last step of a walk: appending node `n` after its children keeps the invariant. */
  lemma WalkAppend(mods: seq<ModInfo>, adj: seq<seq<nat>>, n: nat, st: WalkState, st1: WalkState)
    requires WalkSetting(mods, adj) && n < |adj| && WalkInv(mods, st1)
    requires mods[n].modName !in st1.added && Extends(st, st1)
    requires forall j :: 0 <= j < |adj[n]| ==> mods[adj[n][j]].modName in st1.added
    ensures var r := WalkState(st1.order + [mods[n]], st1.added + {mods[n].modName});
      WalkInv(mods, r) && Extends(st, r)
  {
    forall d | d in mods[n].dependencies
      ensures d.modName in NameSet(st1.order)
    {
      var t :| 0 <= t < |mods[n].dependencies| && mods[n].dependencies[t] == d;
      assert mods[adj[n][t]].modName == d.modName;
    }
    AppendKeepsOrder(st1.order, mods[n]);
    var r := WalkState(st1.order + [mods[n]], st1.added + {mods[n].modName});
    assert r.order[..|st1.order|] == st1.order;
    ExtendsTrans(st, st1, r);
  }

  /** What the children added, and the node itself, are all reachable from the node. */
  lemma WalkAppendReach(mods: seq<ModInfo>, adj: seq<seq<nat>>, n: nat, st: WalkState, st1: WalkState)
    requires WalkSetting(mods, adj) && n < |adj|
    requires forall x :: x in st1.added - st.added ==> exists c :: c in adj[n] && x in ReachNames(mods, adj, c)
    ensures mods[n].modName !in st1.added - st.added
    ensures st1.added + {mods[n].modName} - st.added <= ReachNames(mods, adj, n)
  {
    if mods[n].modName in st1.added - st.added {
      var c :| c in adj[n] && mods[n].modName in ReachNames(mods, adj, c);
      ParentNotBelowChild(mods, adj, n, c);
      assert false;
    }
    SelfReachName(mods, adj, n);
    forall x | x in st1.added - st.added
      ensures x in ReachNames(mods, adj, n)
    {
      var c :| c in adj[n] && x in ReachNames(mods, adj, c);
      ChildReachNames(mods, adj, n, c);
    }
  }

  /**
    * A walk from node `n` keeps the invariant, only appends, adds `n`'s mod,
    * and adds only mods reachable from `n`.
    */
  lemma {:induction false} WalkCorrect(mods: seq<ModInfo>, adj: seq<seq<nat>>, n: nat, st: WalkState)
    requires WalkSetting(mods, adj) && n < |adj| && WalkInv(mods, st)
    ensures var r := Walk(mods, adj, n, st);
      WalkInv(mods, r) && Extends(st, r) && mods[n].modName in r.added &&
      r.added - st.added <= ReachNames(mods, adj, n)
    decreases |ReachSet(adj, n)|, 1
  {
    if mods[n].modName !in st.added {
      var st1 := WalkChildren(mods, adj, n, 0, st);
      WalkChildrenCorrect(mods, adj, n, 0, st);
      WalkAppendReach(mods, adj, n, st, st1);
      WalkAppend(mods, adj, n, st, st1);
    }
  }

  lemma {:induction false} WalkChildrenCorrect(mods: seq<ModInfo>, adj: seq<seq<nat>>, parent: nat, i: nat, st: WalkState)
    requires WalkSetting(mods, adj) && parent < |adj| && i <= |adj[parent]| && WalkInv(mods, st)
    ensures var r := WalkChildren(mods, adj, parent, i, st);
      && WalkInv(mods, r) && Extends(st, r)
      && (forall j :: i <= j < |adj[parent]| ==> mods[adj[parent][j]].modName in r.added)
      && (forall x :: x in r.added - st.added ==> exists c :: c in adj[parent] && x in ReachNames(mods, adj, c))
    decreases |ReachSet(adj, parent)|, 0, |adj[parent]| - i
  {
    if i < |adj[parent]| {
      var c := adj[parent][i];
      assert c in adj[parent];
      ChildReachSmaller(adj, parent, c);
      var st2 := Walk(mods, adj, c, st);
      WalkCorrect(mods, adj, c, st);
      WalkChildrenCorrect(mods, adj, parent, i + 1, st2);
      var r := WalkChildren(mods, adj, parent, i + 1, st2);
      assert WalkChildren(mods, adj, parent, i, st) == r;
      ExtendsTrans(st, st2, r);
      forall j | i <= j < |adj[parent]|
        ensures mods[adj[parent][j]].modName in r.added
      {
        if j == i {
          assert mods[c].modName in st2.added;
        }
      }
      forall x | x in r.added - st.added
        ensures exists c' :: c' in adj[parent] && x in ReachNames(mods, adj, c')
      {
        if x in st2.added - st.added {
          assert c in adj[parent] && x in ReachNames(mods, adj, c);
        } else {
          assert x in r.added - st2.added;
        }
      }
    } else {
      assert st.order[..|st.order|] == st.order;
    }
  }

  /** The walks over the waiting mods: each waiting mod ends up placed. */
  lemma {:induction false} WalkAllCorrect(mods: seq<ModInfo>, adj: seq<seq<nat>>, nodeMap: map<string, nat>,
                                          waiting: seq<ModInfo>, st: WalkState)
    requires WalkSetting(mods, adj) && WalkInv(mods, st)
    requires forall m :: m in waiting ==>
      m.modName in nodeMap && nodeMap[m.modName] < |adj| && mods[nodeMap[m.modName]].modName == m.modName
    ensures var r := WalkAll(mods, adj, nodeMap, waiting, st);
      WalkInv(mods, r) && Extends(st, r) && forall m :: m in waiting ==> m.modName in r.added
  {
    if waiting == [] {
      assert st.order[..|st.order|] == st.order;
    } else {
      var init, m := waiting[..|waiting| - 1], waiting[|waiting| - 1];
      assert forall x :: x in waiting <==> x in init || x == m;
      WalkAllCorrect(mods, adj, nodeMap, init, st);
      var st1 := WalkAll(mods, adj, nodeMap, init, st);
      WalkCorrect(mods, adj, nodeMap[m.modName], st1);
      ExtendsTrans(st, st1, WalkAll(mods, adj, nodeMap, waiting, st));
    }
  }

  // ---------------------------------------------------------------------
  // Dependency cycles, stated on the mods themselves
  // ---------------------------------------------------------------------

  /** `a` declares a dependency on `b`'s name. */
  ghost predicate DependsOn(a: ModInfo, b: ModInfo)
  {
    exists d :: d in a.dependencies && d.modName == b.modName
  }

  /** `p` lists mod indices, each depending on the next. */
  ghost predicate DependencyChain(mods: seq<ModInfo>, p: seq<nat>)
  {
    && |p| > 0
    && (forall k :: 0 <= k < |p| ==> p[k] < |mods|)
    && (forall k :: 0 <= k < |p| - 1 ==> DependsOn(mods[p[k]], mods[p[k + 1]]))
  }

  /** Some chain of dependencies leads from a mod back to itself. */
  ghost predicate DependencyCycle(mods: seq<ModInfo>)
  {
    exists p :: DependencyChain(mods, p) && DependsOn(mods[p[|p| - 1]], mods[p[0]])
  }

  /** With distinct names, the graph's edges are exactly the declared dependencies. */
  lemma EdgeIffDependsOn(mods: seq<ModInfo>, adj: seq<seq<nat>>, k: nat, v: nat)
    requires UniqueNames(mods) && EdgesMatch(mods, adj) && k < |mods| && v < |mods|
    ensures v in adj[k] <==> DependsOn(mods[k], mods[v])
  {
    if v in adj[k] {
      var t :| 0 <= t < |adj[k]| && adj[k][t] == v;
      assert mods[k].dependencies[t] in mods[k].dependencies;
    }
    if DependsOn(mods[k], mods[v]) {
      var d :| d in mods[k].dependencies && d.modName == mods[v].modName;
      var t :| 0 <= t < |mods[k].dependencies| && mods[k].dependencies[t] == d;
      var u := adj[k][t];
      assert mods[u].modName == mods[v].modName;
      assert !(u < v) && !(v < u);
      assert u in adj[k];
    }
  }

  lemma PathIffChain(mods: seq<ModInfo>, adj: seq<seq<nat>>, p: seq<nat>)
    requires UniqueNames(mods) && EdgesMatch(mods, adj)
    ensures IsPath(adj, p) <==> DependencyChain(mods, p)
  {
    if |p| > 0 && forall k :: 0 <= k < |p| ==> p[k] < |mods| {
      forall k | 0 <= k < |p| - 1
        ensures p[k + 1] in adj[p[k]] <==> DependsOn(mods[p[k]], mods[p[k + 1]])
      {
        EdgeIffDependsOn(mods, adj, p[k], p[k + 1]);
      }
    }
  }

  /** The graph built by TrySortDependencies has a cycle exactly when the declared dependencies do. */
  lemma GraphCycleIffDependencyCycle(mods: seq<ModInfo>, adj: seq<seq<nat>>)
    requires UniqueNames(mods) && EdgesMatch(mods, adj)
    ensures HasCycle(adj) <==> DependencyCycle(mods)
  {
    if HasCycle(adj) {
      var c :| 0 <= c < |adj| && OnCycle(adj, c);
      var p :| IsPath(adj, p) && p[0] == c && c in adj[p[|p| - 1]];
      PathIffChain(mods, adj, p);
      EdgeIffDependsOn(mods, adj, p[|p| - 1], c);
    }
    if DependencyCycle(mods) {
      var p :| DependencyChain(mods, p) && DependsOn(mods[p[|p| - 1]], mods[p[0]]);
      PathIffChain(mods, adj, p);
      EdgeIffDependsOn(mods, adj, p[|p| - 1], p[0]);
      assert OnCycle(adj, p[0]);
    }
  }

  // ---------------------------------------------------------------------
  // Cycle errors (ModCollection.cs:119-126)
  // ---------------------------------------------------------------------

  /** How many children the reported entries carry in total. */
  function ChildCount(cycles: seq<CycleEntry>): nat
  {
    if cycles == [] then 0 else ChildCount(cycles[..|cycles| - 1]) + |cycles[|cycles| - 1].1|
  }

  /** One CyclicalDependency error per reported (node, child) pair, and no other kind. */
  lemma {:induction false} CycleErrorsFacts(mods: seq<ModInfo>, cycles: seq<CycleEntry>)
    requires EntriesInRange(|mods|, cycles)
    ensures |CycleErrors(mods, cycles)| == ChildCount(cycles)
    ensures forall e :: e in CycleErrors(mods, cycles) ==> e.errorType == CyclicalDependency
  {
    if cycles != [] {
      var init := cycles[..|cycles| - 1];
      var e := cycles[|cycles| - 1];
      assert e in cycles;
      CycleErrorsFacts(mods, init);
      var ce := ChildErrors(mods, e.0, e.1);
      ChildErrorsAt(mods, e.0, e.1);
      forall x | x in ce
        ensures x.errorType == CyclicalDependency
      {
        var t :| 0 <= t < |ce| && ce[t] == x;
      }
    }
  }

  /** Every entry the search reports has a child, so reported cycles always produce errors. */
  lemma CycleErrorsNonEmpty(mods: seq<ModInfo>, adj: seq<seq<nat>>)
    requires |adj| == |mods| && ValidAdj(adj) && EntriesInRange(|mods|, Cycles(adj))
    ensures |CycleErrors(mods, Cycles(adj))| > 0 <==> |Cycles(adj)| > 0
  {
    var cycles := Cycles(adj);
    CycleErrorsFacts(mods, cycles);
    CycleEntriesGood(adj);
    if cycles != [] {
      var last := cycles[|cycles| - 1];
      assert last in cycles;
      assert GoodEntry(adj, last);
      assert ChildCount(cycles) >= |last.1|;
    }
  }

  // ---------------------------------------------------------------------
  // TrySortDependencies as a whole
  // ---------------------------------------------------------------------

  /** Every dependency name is the name of an input mod. */
  ghost predicate AllDependenciesPresent(mods: seq<ModInfo>)
  {
    forall m, d :: m in mods && d in m.dependencies ==> d.modName in NameSet(mods)
  }

  lemma EdgesIffPresent(mods: seq<ModInfo>)
    requires UniqueNames(mods)
    ensures BuildEdges(NodeMap(mods), mods).Success? <==> AllDependenciesPresent(mods)
    ensures BuildEdges(NodeMap(mods), mods).Success? ==> EdgesMatch(mods, BuildEdges(NodeMap(mods), mods).value)
    ensures BuildEdges(NodeMap(mods), mods).Failure? ==> BuildEdges(NodeMap(mods), mods).error !in NameSet(mods)
  {
    NodeMapFacts(mods);
    if BuildEdges(NodeMap(mods), mods).Success? {
      EdgesValid(mods, BuildEdges(NodeMap(mods), mods).value);
    }
  }

  /** With every name present, the graph's edges are valid and match the declared dependencies. */
  lemma GraphOfPresent(mods: seq<ModInfo>)
    requires UniqueNames(mods) && AllDependenciesPresent(mods)
    ensures BuildEdges(NodeMap(mods), mods).Success?
    ensures var adj := BuildEdges(NodeMap(mods), mods).value;
      EdgesMatch(mods, adj) && ValidAdj(adj) && (HasCycle(adj) <==> DependencyCycle(mods))
  {
    EdgesIffPresent(mods);
    var adj := BuildEdges(NodeMap(mods), mods).value;
    EdgesValid(mods, adj);
    GraphCycleIffDependencyCycle(mods, adj);
  }

  /** What SortDependencies returns in the closure-walk branch. */
  lemma WalkOutcome(mods: seq<ModInfo>, adj: seq<seq<nat>>)
    requires UniqueNames(mods) && GreedyPass(NameSet(mods), mods).waiting != []
    requires BuildEdges(NodeMap(mods), mods) == Success(adj)
    requires WalkSetting(mods, adj)
    requires forall m :: m in GreedyPass(NameSet(mods), mods).waiting ==>
      m.modName in NodeMap(mods) && NodeMap(mods)[m.modName] < |adj|
    ensures var g := GreedyPass(NameSet(mods), mods);
      SortDependencies(mods) ==
      Sorted(WalkAll(mods, adj, NodeMap(mods), g.waiting, WalkState(g.order, g.committed)).order, g.errors)
  {
    var g := GreedyPass(NameSet(mods), mods);
    CyclesEmptyIff(adj);
    assert Cycles(adj) == [];
    var errors := g.errors + CycleErrors(mods, Cycles(adj));
    assert errors == g.errors;
    var w := WalkAll(mods, adj, NodeMap(mods), g.waiting, WalkState(g.order, g.committed));
    assert SortDependencies(mods) == Sorted(w.order, errors);
  }

  /** The closure-walk branch: every deferred mod is placed after the greedy order. */
  lemma WalkBranch(mods: seq<ModInfo>)
    requires UniqueNames(mods)
    requires GreedyPass(NameSet(mods), mods).waiting != []
    requires AllDependenciesPresent(mods) && !DependencyCycle(mods)
    ensures var g := GreedyPass(NameSet(mods), mods);
      var r := SortDependencies(mods);
      && r.Sorted? && r.fulfillmentErrors == g.errors
      && WalkInv(mods, WalkState(r.mods, NameSet(r.mods)))
      && Extends(WalkState(g.order, g.committed), WalkState(r.mods, NameSet(r.mods)))
      && forall m :: m in g.waiting ==> m in r.mods
  {
    var g := GreedyPass(NameSet(mods), mods);
    var nodeMap := NodeMap(mods);
    GraphOfPresent(mods);
    var adj := BuildEdges(nodeMap, mods).value;
    WaitingHaveNodes(mods);
    WalkOutcome(mods, adj);
    var st := WalkState(g.order, g.committed);
    var w := WalkAll(mods, adj, nodeMap, g.waiting, st);
    NodeMapFacts(mods);
    GreedyInvariant(NameSet(mods), mods);
    WalkAllCorrect(mods, adj, nodeMap, g.waiting, st);
    GreedyClassifies(NameSet(mods), mods);
    PlacedByName(mods, g.waiting, w.order);
  }

  /** A mod whose name is placed is itself placed, when names are distinct. */
  lemma PlacedByName(mods: seq<ModInfo>, ms: seq<ModInfo>, order: seq<ModInfo>)
    requires UniqueNames(mods)
    requires forall m :: m in order ==> m in mods
    requires forall m :: m in ms ==> m in mods && m.modName in NameSet(order)
    ensures forall m :: m in ms ==> m in order
  {
    forall m | m in ms
      ensures m in order
    {
      var y :| y in order && y.modName == m.modName;
      NameDeterminesMod(mods, m, y);
    }
  }

  /** What SortDependencies returns when the graph has a cycle. */
  lemma CycleOutcome(mods: seq<ModInfo>, adj: seq<seq<nat>>)
    requires UniqueNames(mods) && GreedyPass(NameSet(mods), mods).waiting != []
    requires BuildEdges(NodeMap(mods), mods) == Success(adj)
    requires |adj| == |mods| && ValidAdj(adj) && EntriesInRange(|mods|, Cycles(adj)) && HasCycle(adj)
    ensures var g := GreedyPass(NameSet(mods), mods);
      SortDependencies(mods) == Sorted(g.order, g.errors + CycleErrors(mods, Cycles(adj)))
  {
    CyclesEmptyIff(adj);
  }

  /**
    * The cycle branch: when a mod was deferred and the dependencies form a
    * cycle, the result is the greedy order with at least one
    * CyclicalDependency error, and no closure walk runs (ModCollection.cs:128-130).
    */
  lemma CycleBranch(mods: seq<ModInfo>)
    requires UniqueNames(mods)
    requires GreedyPass(NameSet(mods), mods).waiting != []
    requires AllDependenciesPresent(mods) && DependencyCycle(mods)
    ensures var g := GreedyPass(NameSet(mods), mods);
      var r := SortDependencies(mods);
      && r.Sorted? && r.mods == g.order
      && |r.fulfillmentErrors| > |g.errors|
      && r.fulfillmentErrors[..|g.errors|] == g.errors
      && forall k :: |g.errors| <= k < |r.fulfillmentErrors| ==> r.fulfillmentErrors[k].errorType == CyclicalDependency
  {
    var g := GreedyPass(NameSet(mods), mods);
    GraphOfPresent(mods);
    var adj := BuildEdges(NodeMap(mods), mods).value;
    CycleEntriesInRange(adj);
    CyclesEmptyIff(adj);
    var ce := CycleErrors(mods, Cycles(adj));
    CycleOutcome(mods, adj);
    assert SortDependencies(mods) == Sorted(g.order, g.errors + ce);
    CycleErrorsNonEmpty(mods, adj);
    assert |ce| > 0;
    CycleErrorsFacts(mods, Cycles(adj));
    AppendCyclical(g.errors, ce);
  }

  lemma AppendCyclical(errors: seq<ModDependencyError>, ce: seq<ModDependencyError>)
    requires forall e :: e in ce ==> e.errorType == CyclicalDependency
    ensures (errors + ce)[..|errors|] == errors
    ensures forall k :: |errors| <= k < |errors + ce| ==> (errors + ce)[k].errorType == CyclicalDependency
  {
    forall k | |errors| <= k < |errors + ce|
      ensures (errors + ce)[k].errorType == CyclicalDependency
    {
      assert (errors + ce)[k] == ce[k - |errors|];
      assert ce[k - |errors|] in ce;
    }
  }

  /** No error at all means no input mod has a missing required dependency. */
  lemma CleanSortHasNoMissing(mods: seq<ModInfo>)
    requires UniqueNames(mods)
    requires SortDependencies(mods).Sorted? && SortDependencies(mods).fulfillmentErrors == []
    ensures GreedyPass(NameSet(mods), mods).errors == []
    ensures forall m :: m in mods ==> MissingErrors(m, m.dependencies, NameSet(mods)) == []
  {
    var names := NameSet(mods);
    var g := GreedyPass(names, mods);
    if g.waiting != [] {
      NotKeyNotFound(mods);
      if DependencyCycle(mods) {
        CycleBranch(mods);
      } else {
        WalkBranch(mods);
      }
    }
    GreedyErrors(names, mods);
    forall m | m in mods
      ensures MissingErrors(m, m.dependencies, names) == []
    {
      MissingReachesGreedy(names, mods, m);
    }
  }

  /**
    * A sort that reports no error returns every input mod exactly once, each
    * after the mods it depends on (ModCollection.cs:133-143).
    */
  lemma SortWithoutErrorsIsDependencyOrder(mods: seq<ModInfo>)
    requires UniqueNames(mods)
    requires SortDependencies(mods).Sorted? && SortDependencies(mods).fulfillmentErrors == []
    ensures var order := SortDependencies(mods).mods;
      && UniqueNames(order)
      && DepsBefore(order)
      && multiset(order) == multiset(mods)
  {
    var names := NameSet(mods);
    var g := GreedyPass(names, mods);
    var order := SortDependencies(mods).mods;
    CleanSortHasNoMissing(mods);
    GreedyClassifies(names, mods);
    if g.waiting == [] {
      GreedyInvariant(names, mods);
      SameElementsPermutation(order, mods);
    } else {
      NotKeyNotFound(mods);
      if DependencyCycle(mods) {
        CycleBranch(mods);
        assert false;
      }
      WalkBranch(mods);
      forall m | m in mods
        ensures m in order
      {
        if m in g.order {
          assert order[..|g.order|] == g.order;
        }
      }
      SameElementsPermutation(order, mods);
    }
  }

  /** A sorted outcome after a deferral means the graph pass found every name. */
  lemma NotKeyNotFound(mods: seq<ModInfo>)
    requires UniqueNames(mods)
    requires SortDependencies(mods).Sorted? && GreedyPass(NameSet(mods), mods).waiting != []
    ensures AllDependenciesPresent(mods)
  {
    EdgesIffPresent(mods);
  }

  /**
    * The graph pass throws KeyNotFoundException exactly when some mod was
    * deferred and some dependency name is not an input mod's name; the key
    * is such a name (ModCollection.cs:114).
    */
  lemma KeyNotFoundIff(mods: seq<ModInfo>)
    requires UniqueNames(mods)
    ensures SortDependencies(mods).KeyNotFound? <==>
      GreedyPass(NameSet(mods), mods).waiting != [] && !AllDependenciesPresent(mods)
    ensures SortDependencies(mods).KeyNotFound? ==>
      var key := SortDependencies(mods).key;
      key !in NameSet(mods) && exists m, d :: m in mods && d in m.dependencies && d.modName == key
  {
    EdgesIffPresent(mods);
  }

  /**
    * The greedy errors, stated on the input: the Missing errors of each mod
    * in input order (one per required dependency entry whose name is absent,
    * in dependency order), and as a set exactly the absent required names
    * paired with the mods that list them.
    */
  lemma GreedyErrorsAreMissing(names: set<string>, s: seq<ModInfo>)
    ensures GreedyPass(names, s).errors == AllMissingErrors(names, s)
    ensures forall e :: e in GreedyPass(names, s).errors <==>
      exists m, d :: m in s && d in m.dependencies && !d.isOptional && d.modName !in names &&
        e == ModDependencyError(m, d.modName, Missing)
  {
    GreedyErrors(names, s);
  }

  /**
    * The shape of every non-throwing outcome: the greedy errors first, then
    * only CyclicalDependency errors, of which there are some exactly when a
    * mod was deferred and the dependencies form a cycle; the order is the
    * greedy order, extended only by the closure walk.
    */
  lemma SortedShape(mods: seq<ModInfo>)
    requires UniqueNames(mods) && SortDependencies(mods).Sorted?
    ensures var g := GreedyPass(NameSet(mods), mods);
      var errors := SortDependencies(mods).fulfillmentErrors;
      var order := SortDependencies(mods).mods;
      && |g.errors| <= |errors| && errors[..|g.errors|] == g.errors
      && (forall k :: |g.errors| <= k < |errors| ==> errors[k].errorType == CyclicalDependency)
      && (|errors| > |g.errors| <==> g.waiting != [] && DependencyCycle(mods))
      && (g.waiting != [] ==> AllDependenciesPresent(mods))
      && |g.order| <= |order| && order[..|g.order|] == g.order
      && (order != g.order ==> g.waiting != [] && AllDependenciesPresent(mods) && !DependencyCycle(mods))
  {
    var g := GreedyPass(NameSet(mods), mods);
    if g.waiting == [] {
      assert g.errors[..|g.errors|] == g.errors;
      assert g.order[..|g.order|] == g.order;
    } else {
      NotKeyNotFound(mods);
      if DependencyCycle(mods) {
        CycleBranch(mods);
        assert g.order[..|g.order|] == g.order;
      } else {
        WalkBranch(mods);
        assert g.errors[..|g.errors|] == g.errors;
      }
    }
  }

  /**
    * A non-throwing outcome carries CyclicalDependency errors exactly when
    * some mod was deferred and the declared dependencies form a cycle.
    */
  lemma CyclicalErrorsIff(mods: seq<ModInfo>)
    requires UniqueNames(mods) && SortDependencies(mods).Sorted?
    ensures var g := GreedyPass(NameSet(mods), mods);
      (exists e :: e in SortDependencies(mods).fulfillmentErrors && e.errorType == CyclicalDependency) <==>
      g.waiting != [] && DependencyCycle(mods)
  {
    var g := GreedyPass(NameSet(mods), mods);
    var errors := SortDependencies(mods).fulfillmentErrors;
    SortedShape(mods);
    assert forall e :: e in g.errors ==> e.errorType == Missing by {
      GreedyErrorsAreMissing(NameSet(mods), mods);
    }
    CyclicalAfterPrefix(errors, g.errors);
  }

  /** Errors made of a Missing-only prefix followed by Cyclical errors hold a Cyclical one iff they outgrow the prefix. */
  lemma CyclicalAfterPrefix(errors: seq<ModDependencyError>, prefix: seq<ModDependencyError>)
    requires |prefix| <= |errors| && errors[..|prefix|] == prefix
    requires forall e :: e in prefix ==> e.errorType == Missing
    requires forall k :: |prefix| <= k < |errors| ==> errors[k].errorType == CyclicalDependency
    ensures (exists e :: e in errors && e.errorType == CyclicalDependency) <==> |errors| > |prefix|
  {
    if exists e :: e in errors && e.errorType == CyclicalDependency {
      var e :| e in errors && e.errorType == CyclicalDependency;
      var k :| 0 <= k < |errors| && errors[k] == e;
      if k < |prefix| {
        assert prefix[k] == e;
      }
    }
    if |errors| > |prefix| {
      assert errors[|prefix|] in errors;
    }
  }

  /**
    * The Missing errors of a non-throwing outcome: they come first, one per
    * required dependency entry whose name is absent from the input, in input
    * and dependency order; everything after them is a CyclicalDependency
    * error (ModCollection.cs:166-188).
    */
  lemma MissingErrorsExact(mods: seq<ModInfo>)
    requires UniqueNames(mods) && SortDependencies(mods).Sorted?
    ensures var missing := AllMissingErrors(NameSet(mods), mods);
      var errors := SortDependencies(mods).fulfillmentErrors;
      && |missing| <= |errors| && errors[..|missing|] == missing
      && (forall k :: |missing| <= k < |errors| ==> errors[k].errorType == CyclicalDependency)
    ensures forall e :: e in SortDependencies(mods).fulfillmentErrors && e.errorType == Missing <==>
      exists m, d :: m in mods && d in m.dependencies && !d.isOptional && d.modName !in NameSet(mods) &&
        e == ModDependencyError(m, d.modName, Missing)
  {
    var g := GreedyPass(NameSet(mods), mods);
    var errors := SortDependencies(mods).fulfillmentErrors;
    SortedShape(mods);
    GreedyErrorsAreMissing(NameSet(mods), mods);
    forall e | e in errors && e.errorType == Missing
      ensures e in g.errors
    {
      var k :| 0 <= k < |errors| && errors[k] == e;
      assert errors[..|g.errors|][k] == e;
    }
    forall e | e in g.errors
      ensures e in errors
    {
      var k :| 0 <= k < |g.errors| && g.errors[k] == e;
      assert errors[k] == e;
    }
  }

  /** Missing and CyclicalDependency errors never appear in the same outcome. */
  lemma ErrorsNeverMixed(mods: seq<ModInfo>)
    requires UniqueNames(mods) && SortDependencies(mods).Sorted?
    ensures var errors := SortDependencies(mods).fulfillmentErrors;
      !((exists e :: e in errors && e.errorType == Missing) &&
        (exists e :: e in errors && e.errorType == CyclicalDependency))
  {
    var errors := SortDependencies(mods).fulfillmentErrors;
    MissingErrorsExact(mods);
    CyclicalErrorsIff(mods);
    SortedShape(mods);
    if exists e :: e in errors && e.errorType == Missing {
      var e :| e in errors && e.errorType == Missing;
      var m, d :| m in mods && d in m.dependencies && !d.isOptional && d.modName !in NameSet(mods) &&
        e == ModDependencyError(m, d.modName, Missing);
      assert !AllDependenciesPresent(mods);
    }
  }

  /** A mod with a missing required dependency is left out of the order (ModCollection.cs:74). */
  lemma MissingModExcluded(mods: seq<ModInfo>, m: ModInfo, d: ModDependencyInfo)
    requires UniqueNames(mods) && SortDependencies(mods).Sorted?
    requires m in mods && d in m.dependencies && !d.isOptional && d.modName !in NameSet(mods)
    ensures m !in SortDependencies(mods).mods
  {
    var g := GreedyPass(NameSet(mods), mods);
    SortedShape(mods);
    GreedyClassifies(NameSet(mods), mods);
    assert ModDependencyError(m, d.modName, Missing) in MissingErrors(m, m.dependencies, NameSet(mods));
    assert !AllDependenciesPresent(mods);
  }

  lemma {:induction false} NoDependencyModsEmpty(s: seq<ModInfo>)
    requires forall x :: x in s ==> |x.dependencies| != 0
    ensures NoDependencyMods(s) == []
  {
    if s != [] {
      NoDependencyModsEmpty(s[..|s| - 1]);
    }
  }

  /** A tail that repeats no name of the head holds no mod without dependencies the head already has. */
  lemma TailWithoutNoDependencyMods(head: seq<ModInfo>, tail: seq<ModInfo>)
    requires UniqueNames(head + tail)
    requires forall x :: x in tail && |x.dependencies| == 0 ==> x in head
    ensures NoDependencyMods(tail) == []
  {
    forall k, j | 0 <= k < |tail| && 0 <= j < |head|
      ensures head[j] != tail[k]
    {
      assert (head + tail)[j] == head[j] && (head + tail)[|head| + k] == tail[k];
    }
    NoDependencyModsEmpty(tail);
  }

  /** The mods without dependencies keep their input order in every non-throwing outcome. */
  lemma NoDependencyModsKeepOrder(mods: seq<ModInfo>)
    requires UniqueNames(mods) && SortDependencies(mods).Sorted?
    ensures NoDependencyMods(SortDependencies(mods).mods) == NoDependencyMods(mods)
  {
    var names := NameSet(mods);
    var g := GreedyPass(names, mods);
    var order := SortDependencies(mods).mods;
    SortedShape(mods);
    GreedyKeepsNoDependencyOrder(names, mods);
    if order != g.order {
      WalkBranch(mods);
      GreedyInvariant(names, mods);
      var tail := order[|g.order|..];
      assert order == g.order + tail;
      NoDependencyModsConcat(g.order, tail);
      NoDependencyModsMembers(mods);
      NoDependencyModsMembers(g.order);
      TailWithoutNoDependencyMods(g.order, tail);
    }
  }

  /** An input already in dependency order is returned unchanged, without errors. */
  lemma OrderedInputIsFixedPoint(mods: seq<ModInfo>)
    requires UniqueNames(mods) && DepsBefore(mods)
    ensures SortDependencies(mods) == Sorted(mods, [])
  {
    GreedyOnOrderedInput(NameSet(mods), mods);
  }

  /** Sorting a successfully sorted list again changes nothing. */
  lemma SortIsIdempotent(mods: seq<ModInfo>)
    requires UniqueNames(mods)
    requires SortDependencies(mods).Sorted? && SortDependencies(mods).fulfillmentErrors == []
    ensures var order := SortDependencies(mods).mods;
      UniqueNames(order) && SortDependencies(order) == Sorted(order, [])
  {
    SortWithoutErrorsIsDependencyOrder(mods);
    OrderedInputIsFixedPoint(SortDependencies(mods).mods);
  }
}
