# CosmodInjector mod ordering, in Dafny

A model of the mod-ordering engine of CosmodInjector, a mod loader for the
game Cosmoteer. Its parts:

- **Graphs** (`Graph.dfy`): the generic directed `Graph<T>` of
  `CosmoteerModLib/Graph.cs`. It is a class whose nodes are indices into a
  payload list `data`. Each node has an ordered `outgoing` and `incoming`
  neighbour list. `Add`, `ConnectTo` and `ConnectSingle` update these
  fields in place. `GetCycles` and `IsCyclicRecursive` run the depth-first
  search over real `visited` and `searching` arrays. Each root search
  threads the `seenNodes` set through.
- **GraphSearch** and **GraphPaths**: the functional reference for that
  search (`Visit`, `VisitChildren`, `CyclesFrom`, `Cycles`), and what it
  means in terms of paths and cycles.
- **ModCollections** (`ModCollection.dfy`): the `ModCollection` class of
  `CosmoteerModInjector/ModCollection.cs`, with its `m_mods` list as a
  `seq<ModInfo>` field. `TrySortDependencies` is written as the source has
  it:
  - a greedy left-to-right pass;
  - the early return when nothing waits;
  - populating a `Graph<ModInfo>`;
  - connecting every mod to the nodes of its dependency names;
  - turning every reported (node, cyclic child) pair into a
    `CyclicalDependency` error;
  - the post-order closure walk `AddDependenciesRecursive`.

  Each method is proved equal to a function of **DependencyResolution**. The
  whole sort is proved equal to `SortDependencies`.
- **ResolutionProperties**: what a sort outcome means, proved about
  `SortDependencies`. It covers the error shape, when the sort throws, the
  dependency order of a successful result, idempotence and fixed points.
- **ResolutionScenarios**: dependency sets reconstructed to give the outcomes
  the repository's unit tests assert, plus two further scenarios (a tail into
  a cycle, an optional dependency), each worked out to its exact outcome.
- **ModInfos** (`ModInfo.dfy`): the `ModDependencyInfo` token validator.
  The source tests the regex `([A-z0-9]+)[.]([A-z0-9]+)[.]([A-z0-9]+)([?]?)`
  and requires the match to cover the whole string. The model also has
  `ModInfo.OnDeserialized`, which maps the dependency strings.
- **CollectionExtensions** and **TypeConversionExtensions**: `ContainsAll`,
  `ToInt` and `ToBool`.
- **Subsequences**: order-preserving selection stated by positions, used to
  say exactly what a LINQ `Where` or a filtering `foreach` keeps, and the
  regrouping of concatenations that accumulating loops need.

The model follows the code in three places where the code's behaviour is
easy to misread:

- **Optional dependencies.** A dependency's name keeps its trailing `?`
  (`ModInfo.cs:43`). The greedy pass requires *every* dependency name to be
  committed, optional ones included (`ModCollection.cs:79`). So a mod with an
  optional dependency is deferred, unless an earlier input mod carries the
  `?`-suffixed string as its own name (no mod name is validated). The graph pass then looks up the
  `?`-suffixed name with no presence check (`ModCollection.cs:114`) and
  throws `KeyNotFoundException`. `OptionalFixture` shows this. An absent
  optional dependency does not give a successful sort.
- **Missing dependencies.** There is no early exit for `Missing` errors
  before the graph pass. A mod with a missing required dependency is dropped
  from the greedy pass. But if any other mod is deferred, the graph pass
  throws on the missing name (`KeyNotFoundIff`).
- **Tails.** A node on a path that merely leads into a cycle stays flagged
  as searching and is reported with its edge (`Graph.cs:80-81`).
  `TailFixture` shows this.

The thrown `KeyNotFoundException` is the outcome `KeyNotFound(key)` of
`SortOutcome`. A failed parse of a dependency token is
`Failure(ModDependencyParseException(s))`.

## Model

| member | source | states |
|---|---|---|
| TypeConversionExtensions.ToInt | CosmoteerModLib/Extensions/TypeConversionExtensions.cs:8 | the result is 0 or 1, and it is 1 exactly when the flag is true |
| TypeConversionExtensions.ToBool | CosmoteerModLib/Extensions/TypeConversionExtensions.cs:11 | the result is true exactly for a non-zero integer |
| TypeConversionExtensions.BoolRoundTrip | CosmoteerModLib/Extensions/TypeConversionExtensions.cs:8-11 | converting a flag to an integer and back gives the flag |
| TypeConversionExtensions.IntRoundTrip | CosmoteerModLib/Extensions/TypeConversionExtensions.cs:8-11 | integer to flag to integer sends every non-zero value to 1 and keeps 0 and 1 |
| CollectionExtensions.ContainsAll | CosmoteerModLib/Extensions/CollectionExtensions.cs:5-14 | true exactly when every target is in the set; true for no targets |
| CollectionExtensions.ContainsAllFirstMissing | CosmoteerModLib/Extensions/CollectionExtensions.cs:7-10 | at the first absent target the answer is false, while the targets before it are all contained |
| ModInfos.SegmentEnd | CosmoteerModLib/ModInfo.cs:34 | the greedy `[A-z0-9]+` run: every character before the end is a segment character and the one at the end is not |
| ModInfos.SegmentEndAt | CosmoteerModLib/ModInfo.cs:34 | any maximal run of segment characters is the one the greedy run finds |
| ModInfos.MatchAt | CosmoteerModLib/ModInfo.cs:34 | a match of the pattern that starts at a position ends inside the string at least five characters later |
| ModInfos.FirstMatch | CosmoteerModLib/ModInfo.cs:39 | a match reported at a position lies inside the string and is the pattern's match at that position |
| ModInfos.IsValidDependencyString | CosmoteerModLib/ModInfo.cs:39-41 | an accepted string has at least five characters and the pattern matches it from position 0 to its end |
| ModInfos.AcceptedIsToken | CosmoteerModLib/ModInfo.cs:39-41 | a string the regex test accepts splits into three non-empty segments at two dots, optionally followed by one '?' |
| ModInfos.TokenIsAccepted | CosmoteerModLib/ModInfo.cs:39-41 | every string of that shape passes the regex test, with the match covering the whole string |
| ModInfos.ValidDependencyStringIff | CosmoteerModLib/ModInfo.cs:34-41 | the regex test with the full-length check accepts exactly the strings of that shape |
| ModInfos.ParseDependency | CosmoteerModLib/ModInfo.cs:37-49 | succeeds exactly for a token of that shape; the name is the whole string, trailing '?' included; optional exactly when the string ends in '?'; a rejection carries the string |
| ModInfos.DependencyToString | CosmoteerModLib/ModInfo.cs:53-56 | no contract of its own: the dependency's name, trailing '?' included; ToStringRoundTrip states its meaning |
| ModInfos.ToStringRoundTrip | CosmoteerModLib/ModInfo.cs:53-56 | printing a parsed dependency gives back the token it was parsed from |
| ModInfos.ParseDependencies | CosmoteerModLib/ModInfo.cs:28 | succeeds exactly when every string is a token; the result parses the strings one to one, in order; a failure carries the first rejected string |
| ModInfos.OnDeserialized | CosmoteerModLib/ModInfo.cs:19-29 | the record keeps the name and assembly path; its dependencies parse the strings one to one, in order; no strings give no dependencies; a bad token gives the first rejected string's error |
| GraphPaths.ChildReachSmaller | CosmoteerModInjector/ModCollection.cs:157-160 | in a graph without cycles a child reaches strictly fewer nodes than its parent, which bounds the closure walk's recursion |
| GraphPaths.LassoHasCycle | CosmoteerModLib/Graph.cs:80-81 | a path that ends with an edge back into itself puts that node on a cycle, and every node on the path leads into the cycle |
| GraphSearch.MarkVisitedDecreases | CosmoteerModLib/Graph.cs:75 | marking an unvisited node visited lowers the number of unvisited nodes by one, which bounds the search |
| GraphSearch.Fresh | CosmoteerModLib/Graph.cs:51-52 | the arrays given to a root search have one entry per node, all false |
| GraphSearch.Visit | CosmoteerModLib/Graph.cs:67-85 | a search keeps the arrays' sizes and never lowers the number of visited nodes |
| GraphSearch.VisitChildren | CosmoteerModLib/Graph.cs:79-81 | the loop over a node's children keeps the arrays' sizes and never lowers the number of visited nodes |
| GraphSearch.FlaggedChildren | CosmoteerModLib/Graph.cs:60 | as a set, exactly the outgoing neighbours whose searching flag is set |
| GraphSearch.FlaggedChildrenInOrder | CosmoteerModLib/Graph.cs:60 | the result is the outgoing neighbours at exactly the flagged positions, in their order and as often as they occur, so a dependency listed twice gives two entries |
| GraphSearch.CyclesFromCyclicRoot | CosmoteerModLib/Graph.cs:48-62 | an unseen root whose search finds a cycle contributes the report of every flagged node, then the later roots follow with the grown seen set |
| GraphSearch.CyclesFromAcyclicRoot | CosmoteerModLib/Graph.cs:48-54 | an unseen root whose search finds no cycle contributes nothing, and the later roots follow with the grown seen set |
| GraphSearch.ReportUpTo | CosmoteerModLib/Graph.cs:56-61 | no contract of its own: the entry list the flag loop builds for nodes 0 .. m - 1; ReportUpToOrdered and ReportUpToEntries state its meaning |
| GraphSearch.ReportUpToOrdered | CosmoteerModLib/Graph.cs:56-61 | the report lists only flagged nodes below the bound, each at most once, in increasing index order |
| GraphSearch.CyclesFrom | CosmoteerModLib/Graph.cs:45-63 | no contract of its own: the root loop of GetCycles from a given root with a given seen set; CyclesFromSound and CyclesFromComplete state its meaning |
| GraphSearch.Cycles | CosmoteerModLib/Graph.cs:40-65 | no contract of its own: GetCycles as a function; CyclesEmptyIff and CycleEntriesGood state its meaning |
| GraphSearch.MarkNode | CosmoteerModLib/Graph.cs:75-77 | entering an unvisited node pushes it on the search stack and keeps the search invariant |
| GraphSearch.FinishNode | CosmoteerModLib/Graph.cs:83-84 | clearing a node's flag once all its children are finished keeps the invariant and finishes the node |
| GraphSearch.VisitCorrect | CosmoteerModLib/Graph.cs:67-85 | a search that returns true leaves the flagged nodes forming the stack plus a path ending in an edge back into it; one that returns false clears the node's flag, finishes it and keeps the invariant |
| GraphSearch.VisitChildrenCorrect | CosmoteerModLib/Graph.cs:79-81 | the loop over children either finds such a path or finishes every child |
| GraphSearch.FreshInv | CosmoteerModLib/Graph.cs:51-52 | fresh arrays satisfy the search invariant with an empty stack |
| GraphSearch.CycleFreeSearchClearsFlags | CosmoteerModLib/Graph.cs:67-85 | after a root search that returns false, every searching flag is false, no visited node lies on a cycle, and the root is seen |
| GraphSearch.CyclicSearchFlagsLasso | CosmoteerModLib/Graph.cs:54-81 | after a root search that returns true, the flagged nodes are exactly a path from the root ending in an edge back into it, so nodes that only lead into the cycle stay flagged |
| GraphSearch.ReportUpToEntries | CosmoteerModLib/Graph.cs:56-61 | each reported entry is a flagged node with exactly its flagged outgoing neighbours; any flagged node makes the report non-empty |
| GraphSearch.LassoReportGood | CosmoteerModLib/Graph.cs:54-61 | the report after a cyclic search is non-empty; each entry has a child, its children are its outgoing neighbours, and the node leads into a cycle |
| GraphSearch.CyclesFromSound | CosmoteerModLib/Graph.cs:45-63 | whatever the remaining roots report is well formed, and a non-empty report means the graph has a cycle |
| GraphSearch.CycleFreeSeen | CosmoteerModLib/Graph.cs:45-54 | a cycle-free root search only adds nodes that lie on no cycle to the seen set, and adds the root |
| GraphSearch.CyclesFromComplete | CosmoteerModLib/Graph.cs:45-63 | when the remaining roots report nothing, no node lies on a cycle |
| GraphSearch.CyclesEmptyIff | CosmoteerModLib/Graph.cs:40-65 | the cycle report is empty exactly when the graph has no directed cycle |
| GraphSearch.CycleEntriesGood | CosmoteerModLib/Graph.cs:56-60 | every reported node has at least one child; its children are among its outgoing neighbours; the node leads into a cycle |
| Graphs.AddEdge | CosmoteerModLib/Graph.cs:32-33 | appends the target to one node's list and leaves every other list unchanged |
| Graphs.Graph.constructor | CosmoteerModLib/Graph.cs:5 | a new graph has no nodes |
| Graphs.Graph.Add | CosmoteerModLib/Graph.cs:7-12 | the new node's index is the previous node count; the node list grows by one with empty neighbour lists |
| Graphs.Graph.ConnectSingle | CosmoteerModLib/Graph.cs:30-34 | appends b to a's outgoing list and a to b's incoming list; nothing else changes |
| Graphs.Graph.ConnectTo | CosmoteerModLib/Graph.cs:14-28 | OneWay adds the edge a->b; TwoWay adds a->b and then b->a |
| Graphs.Graph.IsCyclicRecursive | CosmoteerModLib/Graph.cs:67-85 | the in-place search computes exactly what the functional search computes: the answer, both arrays and the seen set |
| Graphs.Graph.ReportSearching | CosmoteerModLib/Graph.cs:56-61 | the loop over the flags builds exactly the report of flagged nodes with their flagged children |
| Graphs.Graph.GetCycles | CosmoteerModLib/Graph.cs:40-65 | the result is the functional cycle report, which is empty exactly when the graph has no cycle |
| DependencyResolution.DependencyNames | CosmoteerModInjector/ModCollection.cs:79 | one name per dependency, in order |
| DependencyResolution.RequiredAbsent | CosmoteerModInjector/ModCollection.cs:174-179 | as a set, exactly the required dependency entries whose name is not an input name |
| DependencyResolution.RequiredAbsentInOrder | CosmoteerModInjector/ModCollection.cs:171-185 | the entries at exactly the required, absent positions, in dependency order, an entry listed twice kept twice |
| DependencyResolution.MissingErrors | CosmoteerModInjector/ModCollection.cs:171-185 | as a set, exactly the Missing errors for required dependencies whose name is not an input name |
| DependencyResolution.MissingErrorsAt | CosmoteerModInjector/ModCollection.cs:171-185 | one Missing error per required dependency entry whose name is absent, in dependency order: error k names the k-th such entry |
| DependencyResolution.MissingIffAbsent | CosmoteerModInjector/ModCollection.cs:166-188 | the check answers true (no error) exactly when every required dependency name is an input name |
| DependencyResolution.ContainsAllNames | CosmoteerModInjector/ModCollection.cs:79 | the all-names test holds exactly when every dependency name, optional ones included, is committed |
| DependencyResolution.GreedyStep | CosmoteerModInjector/ModCollection.cs:64-86 | no contract of its own: one iteration of the greedy `foreach`; GreedyStepClassifies and GreedyStepErrors state its meaning |
| DependencyResolution.GreedyStepClassifies | CosmoteerModInjector/ModCollection.cs:64-86 | a mod commits exactly when every dependency name is committed and no required one is absent; it waits exactly when it has dependencies, none required is absent and some is not yet committed; otherwise neither list changes; the committed set grows exactly with the order |
| DependencyResolution.GreedyStepErrors | CosmoteerModInjector/ModCollection.cs:74 | one iteration keeps the earlier errors as a prefix and adds only Missing errors of the current mod |
| DependencyResolution.GreedyPass | CosmoteerModInjector/ModCollection.cs:55-87 | no contract of its own: the greedy pass over the input; GreedyInvariant, GreedyClassifies and GreedyErrors state its meaning |
| DependencyResolution.NodeMap | CosmoteerModInjector/ModCollection.cs:98-103 | no contract of its own: the name-to-node map after adding one node per mod; NodeMapLookup and NodeMapFacts state its meaning |
| DependencyResolution.NodeMapLookup | CosmoteerModInjector/ModCollection.cs:98-103 | the keys are the input names and every name maps to a node whose mod carries that name |
| DependencyResolution.CycleErrors | CosmoteerModInjector/ModCollection.cs:118-126 | every error is a CyclicalDependency error whose mod is the mod of some reported node |
| DependencyResolution.Walk | CosmoteerModInjector/ModCollection.cs:152-164 | a walk only appends to the order and only grows the added set, and afterwards the start node's name is added |
| DependencyResolution.WalkChildren | CosmoteerModInjector/ModCollection.cs:157-160 | the loop over children only appends to the order and only grows the added set |
| DependencyResolution.WalkAll | CosmoteerModInjector/ModCollection.cs:137-140 | the walks only append to the order, and afterwards the name of every waiting mod's node is added |
| DependencyResolution.SortDependencies | CosmoteerModInjector/ModCollection.cs:53-144 | no contract of its own: TrySortDependencies as a function; the ResolutionProperties lemmas state its meaning |
| DependencyResolution.Targets | CosmoteerModInjector/ModCollection.cs:112-115 | succeeds exactly when every dependency name has a node, giving the nodes in dependency order; otherwise the key is a dependency name without a node |
| DependencyResolution.BuildEdges | CosmoteerModInjector/ModCollection.cs:108-116 | succeeds exactly when every dependency name of every mod has a node, giving one edge list per mod; otherwise the key is a missing name some mod depends on |
| DependencyResolution.EdgesFromTargets | CosmoteerModInjector/ModCollection.cs:108-116 | edge lists that agree with every mod's targets are the graph the connect loop builds |
| DependencyResolution.ChildErrors | CosmoteerModInjector/ModCollection.cs:122-125 | one error per cyclic child |
| DependencyResolution.ChildErrorsAt | CosmoteerModInjector/ModCollection.cs:122-125 | the t-th error names the node's mod, the t-th child's mod name and CyclicalDependency |
| DependencyResolution.CycleErrorsSnoc | CosmoteerModInjector/ModCollection.cs:120-126 | the errors of the reported entries are those of each entry, in report order |
| DependencyResolution.NodeMapFacts | CosmoteerModInjector/ModCollection.cs:99-103 | the node map's keys are the input names, the k-th mod gets node k, and a name's node carries that name |
| DependencyResolution.EdgesValid | CosmoteerModInjector/ModCollection.cs:108-116 | every edge is a node index, and the t-th edge of node k leads to the mod named by k's t-th dependency |
| DependencyResolution.GreedyWaitingFromInput | CosmoteerModInjector/ModCollection.cs:64-87 | committed and waiting mods come from the input |
| DependencyResolution.CycleEntriesInRange | CosmoteerModLib/Graph.cs:56-60 | every reported node and child is a node index |
| DependencyResolution.WaitingHaveNodes | CosmoteerModInjector/ModCollection.cs:137-140 | every waiting mod has a node, so the lookup before each closure walk succeeds |
| ModCollections.FirstIndex | CosmoteerModInjector/ModCollection.cs:29 | the position of the first occurrence |
| ModCollections.RemoveFirst | CosmoteerModInjector/ModCollection.cs:29 | an absent element leaves the list unchanged; a present one makes it one shorter |
| ModCollections.RemoveFirstShape | CosmoteerModInjector/ModCollection.cs:29 | exactly the first occurrence is cut out, and the rest keeps its order |
| ModCollections.RemoveFirstMultiset | CosmoteerModInjector/ModCollection.cs:29 | one copy of the element is removed and nothing else |
| ModCollections.TargetsExtend | CosmoteerModInjector/ModCollection.cs:112-115 | once a dependency lookup fails, the later dependencies do not matter |
| ModCollections.BuildEdgesExtend | CosmoteerModInjector/ModCollection.cs:108-116 | once a mod's lookup fails, the later mods do not matter |
| ModCollections.ModCollection.constructor | CosmoteerModInjector/ModCollection.cs:10 | a new collection is empty |
| ModCollections.ModCollection.Order | CosmoteerModInjector/ModCollection.cs:12 | no contract of its own: the view of `m_mods`; the contracts of Add, AddRange and Remove state its value |
| ModCollections.ModCollection.Count | CosmoteerModInjector/ModCollection.cs:200 | no contract of its own: the length of `m_mods`; the contracts of Add, AddRange and Remove state its value |
| ModCollections.ModCollection.Get | CosmoteerModInjector/ModCollection.cs:202 | no contract of its own: the indexer into `m_mods`, defined for an index below Count; the contracts of Add, AddRange and Remove state its value |
| ModCollections.ModCollection.Add | CosmoteerModInjector/ModCollection.cs:22-25 | appends at the end; Count grows by one; the indexer finds the new mod last and the old entries unchanged |
| ModCollections.ModCollection.AddRange | CosmoteerModInjector/ModCollection.cs:14-20 | appends the mods in order; Count grows by their number; old entries are unchanged |
| ModCollections.ModCollection.Remove | CosmoteerModInjector/ModCollection.cs:27-30 | removes the first occurrence, if any |
| ModCollections.ModCollection.TrySortInPlace | CosmoteerModInjector/ModCollection.cs:37-45 | returns true exactly when the sort reports no error; only then is the order replaced, and otherwise it is unchanged |
| ModCollections.ModCollection.CheckDependenciesPresent | CosmoteerModInjector/ModCollection.cs:166-188 | appends the mod's Missing errors and answers whether there were none |
| ModCollections.ModCollection.GreedyOrder | CosmoteerModInjector/ModCollection.cs:55-87 | the committed set, order, errors and waiting list of the loop are those of the greedy pass |
| ModCollections.ModCollection.PopulateGraph | CosmoteerModInjector/ModCollection.cs:94-103 | one node per mod in input order, no edges, and the node map of the input names |
| ModCollections.ModCollection.ConnectTargets | CosmoteerModInjector/ModCollection.cs:110-115 | connects a mod to the nodes of its dependencies in order, or reports the first name without a node |
| ModCollections.ModCollection.ConnectedStep | CosmoteerModInjector/ModCollection.cs:108-116 | connecting one more mod extends the edge lists of the mods connected so far |
| ModCollections.ModCollection.ConnectFailure | CosmoteerModInjector/ModCollection.cs:114 | the first failed lookup is the key the whole graph pass fails with |
| ModCollections.ModCollection.ConnectDependencies | CosmoteerModInjector/ModCollection.cs:108-116 | the connect loop builds exactly the edge lists of BuildEdges, or stops at the same missing key |
| ModCollections.ModCollection.NextCycleErrors | CosmoteerModInjector/ModCollection.cs:120-126 | one more reported entry adds exactly its own errors |
| ModCollections.ModCollection.AddChildErrors | CosmoteerModInjector/ModCollection.cs:122-125 | appends one CyclicalDependency error per cyclic child |
| ModCollections.ModCollection.AddCycleErrors | CosmoteerModInjector/ModCollection.cs:119-126 | appends the errors of every reported entry, in report order |
| ModCollections.ModCollection.AddDependenciesRecursive | CosmoteerModInjector/ModCollection.cs:152-164 | the recursive walk computes exactly the functional post-order walk |
| ModCollections.ModCollection.AddWaitingMods | CosmoteerModInjector/ModCollection.cs:137-140 | walks from each waiting mod in order, as the functional closure walk does |
| ModCollections.ModCollection.TrySortDependencies | CosmoteerModInjector/ModCollection.cs:53-144 | the method's result is SortDependencies of the input, whose meaning the ResolutionProperties lemmas state |
| ResolutionProperties.AppendKeepsOrder | CosmoteerModInjector/ModCollection.cs:81-82 | committing a new mod whose dependencies are all committed keeps a dependency order with distinct names |
| ResolutionProperties.DepsBeforePrefix | CosmoteerModInjector/ModCollection.cs:55-87 | a dependency order stays one when cut after any position |
| ResolutionProperties.SameElementsPermutation | CosmoteerModInjector/ModCollection.cs:133 | two lists with distinct names and the same elements are permutations of each other |
| ResolutionProperties.NameDeterminesMod | CosmoteerModInjector/ModCollection.cs:61 | within distinct names, a name determines the mod |
| ResolutionProperties.NoDependencyModsMembers | CosmoteerModInjector/ModCollection.cs:67 | the mods without dependencies are exactly the list's members that have none |
| ResolutionProperties.GreedyInvariant | CosmoteerModInjector/ModCollection.cs:55-87 | the committed set names exactly the committed mods; they have distinct names, come from the input and are in dependency order; waiting mods come from the input |
| ResolutionProperties.GreedyClassifies | CosmoteerModInjector/ModCollection.cs:64-86 | an input mod is committed or deferred exactly when it has no Missing error |
| ResolutionProperties.GreedyErrors | CosmoteerModInjector/ModCollection.cs:64-87 | the greedy errors are each input mod's Missing errors, concatenated in input order; as a set, the input mods' Missing errors and nothing else |
| ResolutionProperties.MissingReachesGreedy | CosmoteerModInjector/ModCollection.cs:74 | a mod's Missing error always reaches the greedy errors |
| ResolutionProperties.GreedyKeepsNoDependencyOrder | CosmoteerModInjector/ModCollection.cs:66-72 | the mods without dependencies are committed at once, in their input order |
| ResolutionProperties.NoMissingWhenPresent | CosmoteerModInjector/ModCollection.cs:174 | a mod whose dependency names are all present gets no Missing error |
| ResolutionProperties.GreedyOnOrderedInput | CosmoteerModInjector/ModCollection.cs:64-87 | an input already in dependency order is committed whole, with nothing waiting and no error |
| ResolutionProperties.ChildReachNames | CosmoteerModInjector/ModCollection.cs:157-160 | a child reaches only names its parent reaches |
| ResolutionProperties.ParentNotBelowChild | CosmoteerModInjector/ModCollection.cs:157-160 | without cycles, a node's own name is not reachable through its children |
| ResolutionProperties.WalkAppend | CosmoteerModInjector/ModCollection.cs:162-163 | appending a node after all its children keeps the walk invariant and only extends the order |
| ResolutionProperties.WalkCorrect | CosmoteerModInjector/ModCollection.cs:152-164 | a walk keeps distinct names and dependency order, only appends, places the start node, and adds only nodes reachable from it |
| ResolutionProperties.WalkChildrenCorrect | CosmoteerModInjector/ModCollection.cs:157-160 | the loop over children places every remaining child and adds only what they reach |
| ResolutionProperties.WalkAllCorrect | CosmoteerModInjector/ModCollection.cs:137-140 | after the walks every waiting mod's name is placed, and the order stays a dependency order with distinct names |
| ResolutionProperties.EdgeIffDependsOn | CosmoteerModInjector/ModCollection.cs:108-116 | with distinct names, an edge exists exactly when the mod declares that dependency |
| ResolutionProperties.PathIffChain | CosmoteerModInjector/ModCollection.cs:108-116 | graph paths are exactly chains of declared dependencies |
| ResolutionProperties.GraphCycleIffDependencyCycle | CosmoteerModInjector/ModCollection.cs:108-119 | the built graph has a cycle exactly when the declared dependencies do |
| ResolutionProperties.CycleErrorsFacts | CosmoteerModInjector/ModCollection.cs:119-126 | one CyclicalDependency error per reported (node, child) pair, and no other kind |
| ResolutionProperties.CycleErrorsNonEmpty | CosmoteerModInjector/ModCollection.cs:119-130 | cycle errors exist exactly when the report is non-empty |
| ResolutionProperties.EdgesIffPresent | CosmoteerModInjector/ModCollection.cs:108-116 | the graph pass succeeds exactly when every dependency name is an input name; its edges then match the dependencies, and a failing key is not an input name |
| ResolutionProperties.GraphOfPresent | CosmoteerModInjector/ModCollection.cs:94-119 | with every name present the graph is valid, matches the dependencies, and has a cycle exactly when they do |
| ResolutionProperties.WalkOutcome | CosmoteerModInjector/ModCollection.cs:129-143 | without cycles, the result is the closure walk's order with the greedy errors |
| ResolutionProperties.WalkBranch | CosmoteerModInjector/ModCollection.cs:133-143 | when a mod waited and there is no cycle, every waiting mod is placed after the greedy order, in dependency order, with only the greedy errors |
| ResolutionProperties.PlacedByName | CosmoteerModInjector/ModCollection.cs:154 | with distinct names, a mod whose name is placed is itself placed |
| ResolutionProperties.CycleOutcome | CosmoteerModInjector/ModCollection.cs:119-130 | with a cycle, the result is the greedy order with the greedy errors followed by the cycle errors |
| ResolutionProperties.CycleBranch | CosmoteerModInjector/ModCollection.cs:119-130 | when a mod waited and the dependencies form a cycle, the order is the greedy order and at least one CyclicalDependency error follows the greedy errors; no walk runs |
| ResolutionProperties.AppendCyclical | CosmoteerModInjector/ModCollection.cs:124 | appending cycle errors keeps the earlier errors as a prefix, and everything after it is CyclicalDependency |
| ResolutionProperties.CleanSortHasNoMissing | CosmoteerModInjector/ModCollection.cs:166-188 | a sort with no error means no input mod has a missing required dependency |
| ResolutionProperties.SortWithoutErrorsIsDependencyOrder | CosmoteerModInjector/ModCollection.cs:133-164 | a sort with no error returns every input mod exactly once, each after the mods it depends on |
| ResolutionProperties.NotKeyNotFound | CosmoteerModInjector/ModCollection.cs:114 | a sort that does not throw after a deferral had every dependency name present |
| ResolutionProperties.KeyNotFoundIff | CosmoteerModInjector/ModCollection.cs:90-116 | the sort throws exactly when some mod waited and some dependency name is not an input name; the key is such a name |
| ResolutionProperties.GreedyErrorsAreMissing | CosmoteerModInjector/ModCollection.cs:166-188 | the greedy errors are one Missing error per required dependency entry whose name is absent, in input and dependency order; as a set, exactly the absent required names paired with the mods that list them |
| ResolutionProperties.SortedShape | CosmoteerModInjector/ModCollection.cs:53-144 | the greedy errors come first and only CyclicalDependency errors follow; there are some exactly when a mod waited and there is a cycle; nothing waiting means nothing but the greedy result; the order extends the greedy order only through the walk |
| ResolutionProperties.CyclicalErrorsIff | CosmoteerModInjector/ModCollection.cs:89-130 | CyclicalDependency errors appear exactly when some mod waited and the declared dependencies form a cycle |
| ResolutionProperties.MissingErrorsExact | CosmoteerModInjector/ModCollection.cs:166-188 | the errors start with one Missing error per required dependency entry whose name is absent, in input and dependency order, and only CyclicalDependency errors follow; as a set, the Missing errors are exactly the absent required names paired with the mods that list them |
| ResolutionProperties.ErrorsNeverMixed | CosmoteerModInjector/ModCollection.cs:89-130 | Missing and CyclicalDependency errors never appear in the same outcome |
| ResolutionProperties.MissingModExcluded | CosmoteerModInjector/ModCollection.cs:74 | a mod with a missing required dependency is not in the order |
| ResolutionProperties.NoDependencyModsKeepOrder | CosmoteerModInjector/ModCollection.cs:66-72 | the mods without dependencies keep their input order in every outcome that does not throw |
| ResolutionProperties.OrderedInputIsFixedPoint | CosmoteerModInjector/ModCollection.cs:53-91 | an input already in dependency order is returned unchanged, without errors |
| ResolutionProperties.SortIsIdempotent | CosmoteerModInjector/ModCollection.cs:37-45 | sorting an error-free sort result again returns it unchanged, without errors |
| ResolutionScenarios.ChainFixture | CosmoteerModInjector.Tests/ModCollectionTests.cs:15-28 | test.mod.1, test.mod.2 (needs test.mod.3), test.mod.3 sort to test.mod.1, test.mod.3, test.mod.2 with no error |
| ResolutionScenarios.MissingFixture | CosmoteerModInjector.Tests/ModCollectionTests.cs:30-41 | a dependency on an absent mod gives exactly one Missing error, and that mod is dropped |
| ResolutionScenarios.CycleFixture | CosmoteerModInjector.Tests/ModCollectionTests.cs:43-55 | two mods that depend on each other give two CyclicalDependency errors and an empty order |
| ResolutionScenarios.PairsFixture | CosmoteerModInjector.Tests/ModCollectionTests.cs:57-71 | two separate two-mod cycles give four CyclicalDependency errors, one per edge |
| ResolutionScenarios.GappedFixture | CosmoteerModInjector.Tests/ModCollectionTests.cs:73-86 | a three-mod cycle with an unrelated mod between gives three CyclicalDependency errors and keeps the unrelated mod |
| ResolutionScenarios.TailFixture | CosmoteerModLib/Graph.cs:54-61 | a mod that only leads into a two-mod cycle is reported with its edge too: three errors |
| ResolutionScenarios.OptionalFixture | CosmoteerModInjector/ModCollection.cs:79-114 | an optional dependency keeps its '?', so its mod waits and the graph pass throws on the '?'-suffixed name |

## Left out

- JSON deserialization (the Newtonsoft attributes of `ModInfo.cs:12-22`) is not modelled. `ModInfos.OnDeserialized` starts from the name, assembly path and dependency strings already read.
- The test resource files `testmodinfos_*.json` are not part of this model. The scenario lemmas rebuild each dependency set from its test's name and expected error counts.
- Duplicate mod names make `ToDictionary` (`ModCollection.cs:61`) and `nodeMap.Add` (`:102`) throw `ArgumentException`. The model takes distinct names as the precondition of the sort instead.
- `KeyNotFoundException` at `ModCollection.cs:114` is the outcome `KeyNotFound(key)` rather than a propagating exception.
- ModCollections.ModCollection.TrySortInPlace: on that outcome it returns false and keeps the order, where the source lets the exception escape with the order likewise unchanged.
- The `Debug.Assert` at `ModCollection.cs:133` is not modelled. Distinct names, the sort's precondition, imply it.
- ModCollections.ModCollection.Remove: it compares mods by value, while `List.Remove` compares `ModInfo` references. Two equal records that are different objects are not told apart.
- Graphs.Graph.IsCyclicRecursive: `seenNodes` is a `HashSet` shared by reference. The model passes it in and returns the grown set. `Node` objects are their indices.
- ModCollections.ModCollection.AddRange: it takes its argument as a sequence value. `c.AddRange(c)` in the source enumerates the list it is adding to and throws `InvalidOperationException`; the model appends a copy of the list instead.
- `GetEnumerator` (`ModCollection.cs:190-198`) is not modelled: `Order`, `Count` and the indexer `Get` expose the same sequence.
- `Node.ToString` (`Graph.cs:102-105`) is not modelled: it only prints the payload.
- The `ArgumentOutOfRangeException` default branch of `ConnectTo` (`Graph.cs:25-26`) cannot be reached with the two-valued `ConnectionType`.
- The source writes `ConnectionType.ONE_WAY`, `MISSING` and `CYCLICAL_DEPENDENCY`, but the enums declare `OneWay`, `Missing` and `CyclicalDependency`. The model uses the declared values.
- `TypeConversionExtensions.ToBool` takes an unbounded integer. The C# `int` is 32 bits wide, but the result depends only on whether the value is zero.
