# Dependz in Dafny

A model of the Java library Dependz (package `org.magnos.dependency`), with proofs about it.
The library holds a graph of dependency nodes and offers two topological sorts over it. It also
has a small builder that wires nodes from keys.

- **Dependency nodes** (`nodes.dfy`, module `Nodes`).
  - Every node lives in an arena class `Arena<T>` and is named by its id.
  - Per node, the arena keeps its value (a null value is `None`), its depth, and two edge sets.
    `dependencies` are the nodes it depends on; `dependents` are the nodes that depend on it.
  - The node operations are methods of the arena. Each one updates both ends of an edge in place.
  - Each keeps the invariant `Mirrored`: y is among x's dependencies exactly when x is among
    y's dependents.
- **The array-based analyzer** `DependencyAnalyzer` (`analyzer.dfy`, module `Analyzer`).
  - It is a class over arrays. Nodes without dependencies are placed first, at depth 0.
  - The other nodes wait in the `cycle` array. Each pass rescans and compacts it in place. A
    node is placed once all of its dependencies have a depth, one deeper than the deepest of them.
  - A pass that places nothing ends the analysis as cyclic.
  - Every method is proved to leave the arrays and depths exactly as a pure model computes them
    (`analysis.dfy`, module `AnalysisModel`). The model's lemmas state what the analysis promises.
- **The queue-based analyzer** `DependencyGraph` (`graph.dfy`, module `Graph`).
  - This is Kahn's algorithm with a FIFO queue. It detaches each node it takes from its
    dependents, and it groups its output by depth.
  - The loop invariants and what they give when the queue runs dry are in `kahn.dfy`, module
    `KahnModel`.
- **The builder** `DependencyMap` (`builder.dfy`, module `Builder`). It records, per key, a set
  of keys and a value, and then creates and wires one node per key with a value.
- **Shared definitions.**
  - Cycles and topological facts are in `digraph.dfy`, module `Digraph`.
  - Depth filters and depth groups are in `levels.dfy`, module `Levels`.
  - `Option`, `Result` and `Outcome` are in `wrappers.dfy`, module `Wrappers`.
- **The test scenarios.**
  - The five-node graphs of the repository's tests are instances of the general results
    (`scenarios.dfy`, module `Scenarios`).
  - The map tests' recorded pairs, wired both ways, are in `map_scenarios.dfy`, module
    `MapScenarios`.

Thrown exceptions become error values:

- A self-dependency becomes `Fail(SelfDependency)`.
- The null dereference that wiring hits on a key without a value becomes `MissingNode`.
- An out-of-range level index becomes `DepthOutOfRange`.
- A negative array size becomes `NegativeSize`.

Both analyzers return false for an empty collection. Neither special-cases it: both return false
whenever no node is free of dependencies, and an empty collection has none
(`DependencyAnalyzer.java:101-104`, `DependencyGraph.java:94-97`). Descriptions of the library
that call an empty collection trivially valid disagree with the code, and the model follows the
code. The headline theorem of each analyzer is therefore: the result is true exactly when the
collection is non-empty and holds no circular dependency.

## Model

| member | source | states |
|---|---|---|
| Nodes.Arena.NewNode | src/org/magnos/dependency/DependencyNode.java:37-61 | a new node holds the given value, has no edges and depth 0; the existing nodes are unchanged; the arena stays mirrored |
| Nodes.Arena.AddDependency | src/org/magnos/dependency/DependencyNode.java:69-78 | fails exactly when a node would depend on itself, changing nothing; otherwise a gains b as a dependency and b gains a as a dependent, and nothing else changes; mirroring is kept |
| Nodes.Arena.AddDependent | src/org/magnos/dependency/DependencyNode.java:86-95 | the mirror of AddDependency: fails exactly on self; otherwise a gains b as a dependent and b gains a as a dependency |
| Nodes.Arena.RemoveDependency | src/org/magnos/dependency/DependencyNode.java:103-107 | removes both sides of the edge a→b and nothing else; without the edge nothing changes |
| Nodes.Arena.RemoveDependent | src/org/magnos/dependency/DependencyNode.java:115-119 | removes both sides of the edge b→a and nothing else; without the edge nothing changes |
| Nodes.Arena.ClearDependents | src/org/magnos/dependency/DependencyNode.java:127-137 | returns the former dependents, leaves the node without dependents, removes it from every node's dependencies and changes no other edge |
| Nodes.Arena.ClearDependencies | src/org/magnos/dependency/DependencyNode.java:145-155 | returns the former dependencies, leaves the node without dependencies, removes it from every node's dependents and changes no other edge |
| Nodes.Arena.HasDependents | src/org/magnos/dependency/DependencyNode.java:163-166 | true exactly when some node lists this one among its dependencies |
| Nodes.Arena.HasDependencies | src/org/magnos/dependency/DependencyNode.java:174-177 | true exactly when some node lists this one among its dependents |
| Nodes.Arena.SetValue | src/org/magnos/dependency/DependencyNode.java:197-200 | replaces the value of one node only |
| Nodes.Arena.SetDepth | src/org/magnos/dependency/DependencyNode.java:221-224 | replaces the depth of one node only |
| Nodes.Arena.Equals | src/org/magnos/dependency/DependencyNode.java:254-268 | node equality (same node, both values null, or equal values) holds exactly when the held values are equal |
| Nodes.Arena.HashCode | src/org/magnos/dependency/DependencyNode.java:248-252 | a node with a null value hashes to 0, any other node to its value's hash |
| Nodes.Arena.HashAgreesWithEquals | src/org/magnos/dependency/DependencyNode.java:248-252 | equal nodes have equal hashes, whatever hash the values use |
| Nodes.Arena.EqualsIsIdentity | src/org/magnos/dependency/DependencyNode.java:254-268 | when the values are pairwise different, node equality is node identity |
| Digraph.TopologicalNoCycle | src/org/magnos/dependency/DependencyGraph.java:27-31 | a listing in which every dependency comes first holds no circular dependency |
| Digraph.StuckHasCycle | src/org/magnos/dependency/DependencyAnalyzer.java:143-148 | a non-empty set of nodes in which each depends on another one of the set holds a circular dependency |
| Digraph.TransposedCycles | src/org/magnos/dependency/DependencyMap.java:99-112 | turning every edge around neither creates nor removes a circular dependency through a set of nodes |
| Levels.GroupsArePermutation | src/org/magnos/dependency/DependencyAnalyzer.java:179-219 | the level lists laid end to end are a permutation of the grouped entries |
| Levels.LevelMember | src/org/magnos/dependency/DependencyAnalyzer.java:179-196 | level d holds exactly the listed nodes at depth d |
| Levels.GroupMembers | src/org/magnos/dependency/DependencyGraph.java:160-175 | group d holds exactly the listed nodes at depth d, for every depth below one more than the greatest |
| Levels.SortedGroups | src/org/magnos/dependency/DependencyGraph.java:160-214 | for a listing of non-decreasing depths, the groups laid end to end give back the listing |
| AnalysisModel.Roots | src/org/magnos/dependency/DependencyAnalyzer.java:84-97 | the nodes without dependencies, in collection order: a node of the collection is among them exactly when it has no dependency |
| AnalysisModel.LeastDepth | src/org/magnos/dependency/DependencyAnalyzer.java:118-125 | the least dependency depth, starting from N: a lower bound of every dependency depth, attained unless it is N |
| AnalysisModel.GreatestDepth | src/org/magnos/dependency/DependencyAnalyzer.java:118-125 | the greatest dependency depth, starting from -1: an upper bound, attained unless it is -1 |
| AnalysisModel.IndexOfPositions | src/org/magnos/dependency/DependencyAnalyzer.java:164-171 | the position recorded for each placed node is its entry in the ordered nodes |
| AnalysisModel.AnalysisDecides | src/org/magnos/dependency/DependencyAnalyzer.java:99-153 | for distinct nodes closed under dependencies, the analysis returns true exactly when the collection is non-empty and holds no circular dependency |
| AnalysisModel.AnalysisOrder | src/org/magnos/dependency/DependencyAnalyzer.java:25-39 | on success the ordered nodes are the collection, each once, and every node comes after all its dependencies |
| AnalysisModel.AnalysisRootsFirst | src/org/magnos/dependency/DependencyAnalyzer.java:84-97 | the ordered nodes begin with the nodes without dependencies, in collection order |
| AnalysisModel.AnalysisDepths | src/org/magnos/dependency/DependencyAnalyzer.java:127-134 | on success every node's depth is 0 without dependencies and otherwise one more than its deepest dependency; the maximum depth is the greatest of them and is attained |
| AnalysisModel.AnalysisCycle | src/org/magnos/dependency/DependencyAnalyzer.java:137-148 | on failure the waiting nodes are exactly the unplaced ones in collection order; waiting plus placed count the collection; every cycle inside the collection waits; when every node has a dependency all of them wait |
| AnalysisModel.AnalysisPartition | src/org/magnos/dependency/DependencyAnalyzer.java:84-151 | success or not, the waiting nodes are the unplaced ones in order, every placed node obeys the depth rule, and a node is placed exactly when its depth is not -1 |
| AnalysisModel.LevelsInRange | src/org/magnos/dependency/DependencyAnalyzer.java:79-133 | the maximum depth starts at 0, bounds every placed depth and is attained by a placed node |
| AnalysisModel.AnalysisLevels | src/org/magnos/dependency/DependencyAnalyzer.java:179-196 | on success level d holds exactly the nodes of the collection at depth d |
| AnalysisModel.AnalysisLevelsPermute | src/org/magnos/dependency/DependencyAnalyzer.java:179-219 | on success the levels laid end to end are a permutation of the ordered nodes |
| AnalysisModel.LevelsDepend | src/org/magnos/dependency/DependencyAnalyzer.java:25-30 | on success every dependency of a node lies on a strictly lower level |
| Analyzer.DependencyDepths | src/org/magnos/dependency/DependencyAnalyzer.java:118-125 | the scanning loop computes the least and the greatest dependency depth |
| Analyzer.GroupByDepth | src/org/magnos/dependency/DependencyAnalyzer.java:179-219 | the level-filling loops: for a level count below 0 fails on allocation; succeeds exactly when every depth names a level, with the depth groups in entry order and a permutation of the entries; otherwise fails at the first out-of-range node |
| Analyzer.DependencyAnalyzer.constructor | src/org/magnos/dependency/DependencyAnalyzer.java:49-56 | nothing placed or waiting, maximum depth -1, not valid |
| Analyzer.DependencyAnalyzer.AddOrdered | src/org/magnos/dependency/DependencyAnalyzer.java:164-171 | records the depth and the position, appends the node and its value, and grows the ordered size by one |
| Analyzer.DependencyAnalyzer.SeedNode | src/org/magnos/dependency/DependencyAnalyzer.java:86-96 | a node with dependencies waits at depth -1; any other node is placed at depth 0 |
| Analyzer.DependencyAnalyzer.Initialize | src/org/magnos/dependency/DependencyAnalyzer.java:68-97 | fresh arrays of the collection's size and maximum depth 0, then the seeding loop, ending in the model's seeded state with waiting plus placed equal to N |
| Analyzer.DependencyAnalyzer.VisitNode | src/org/magnos/dependency/DependencyAnalyzer.java:116-140 | visits one waiting node as the model's visit does: placed one deeper than its deepest dependency when all have a depth, raising the maximum, otherwise kept in place |
| Analyzer.DependencyAnalyzer.PlacePass | src/org/magnos/dependency/DependencyAnalyzer.java:109-150 | one in-place pass equals the model's pass, keeps waiting plus placed constant and reports progress exactly when the waiting count changed |
| Analyzer.DependencyAnalyzer.Passes | src/org/magnos/dependency/DependencyAnalyzer.java:106-153 | the loop of passes ends in the model's final state and verdict |
| Analyzer.DependencyAnalyzer.Decide | src/org/magnos/dependency/DependencyAnalyzer.java:99-104 | false when nothing was seeded into place, otherwise the passes decide; the answer is also the validity |
| Analyzer.DependencyAnalyzer.Analyze | src/org/magnos/dependency/DependencyAnalyzer.java:66-154 | the arrays, depths and verdict are those of the analysis model; for distinct nodes closed under dependencies, true exactly when the collection is non-empty and acyclic |
| Analyzer.DependencyAnalyzer.GetLevelNodes | src/org/magnos/dependency/DependencyAnalyzer.java:179-196 | maximum depth + 1 levels, level d holding the ordered nodes at depth d in order; fails exactly when some depth is out of range, at the first such node |
| Analyzer.DependencyAnalyzer.GetLevels | src/org/magnos/dependency/DependencyAnalyzer.java:204-219 | the same levels holding the values cached in `ordered` when the nodes were placed, a permutation of those values; they are the nodes' current values whenever no value changed since; fails at the first out-of-range node |
| KahnModel.DrainStart | src/org/magnos/dependency/DependencyGraph.java:74-89 | after seeding, the loop invariant holds with nothing taken and the roots queued |
| KahnModel.PollStep | src/org/magnos/dependency/DependencyGraph.java:103-113 | taking the head and detaching it starts the loop over exactly the nodes that depended on it |
| KahnModel.FreeBlocked | src/org/magnos/dependency/DependencyGraph.java:117-119 | a freed dependent that still has dependencies stays out of the queue |
| KahnModel.FreeReady | src/org/magnos/dependency/DependencyGraph.java:119-123 | a freed dependent without dependencies is queued at the taken node's depth + 1, keeping listing, order and depth rule |
| KahnModel.DrainEnd | src/org/magnos/dependency/DependencyGraph.java:103-136 | when the queue runs dry the output lists distinct nodes, each after its dependencies, in non-decreasing depth under the depth rule, and covers the collection exactly when it has no cycle |
| KahnModel.DrainDone | src/org/magnos/dependency/DependencyGraph.java:103-136 | the drained state, with every taken node left without dependents |
| KahnModel.TakenDetached | src/org/magnos/dependency/DependencyGraph.java:111-113 | a taken node is nobody's dependency and has no dependents |
| KahnModel.RootsEmpty | src/org/magnos/dependency/DependencyGraph.java:91-97 | a non-empty collection without a node free of dependencies holds a cycle |
| Graph.GrowGroups | src/org/magnos/dependency/DependencyGraph.java:160-175 | the group-growing loop succeeds exactly when no depth is negative and then gives the depth groups up to the greatest depth, in list order; otherwise it fails at the first negative depth |
| Graph.OutputGroups | src/org/magnos/dependency/DependencyGraph.java:139-214 | after an analysis the output's depth groups laid end to end give back the output nodes and values |
| Graph.DependencyGraph.constructor | src/org/magnos/dependency/DependencyGraph.java:41-45 | empty output, not valid |
| Graph.DependencyGraph.Clear | src/org/magnos/dependency/DependencyGraph.java:50-55 | empty output, not valid |
| Graph.DependencyGraph.Unplace | src/org/magnos/dependency/DependencyGraph.java:74-78 | every node of the collection gets depth -1; other depths are unchanged |
| Graph.DependencyGraph.SeedRoots | src/org/magnos/dependency/DependencyGraph.java:80-89 | the queue is the nodes without dependencies in collection order, at depth 0 |
| Graph.DependencyGraph.Seed | src/org/magnos/dependency/DependencyGraph.java:74-89 | both seeding loops: roots at 0 and queued, every other node of the collection at -1 |
| Graph.DependencyGraph.Take | src/org/magnos/dependency/DependencyGraph.java:105-113 | appends the head to the output nodes and its value to the output, and returns its former dependents |
| Graph.DependencyGraph.Visit | src/org/magnos/dependency/DependencyGraph.java:117-123 | handles one freed dependent, keeping the loop invariant |
| Graph.DependencyGraph.Release | src/org/magnos/dependency/DependencyGraph.java:115-124 | the loop over the freed dependents keeps the invariant and changes no depth outside the collection |
| Graph.DependencyGraph.Step | src/org/magnos/dependency/DependencyGraph.java:105-124 | one iteration of the main loop extends the output by the head and keeps the invariant |
| Graph.DependencyGraph.Drain | src/org/magnos/dependency/DependencyGraph.java:103-125 | the main loop runs until the queue is empty, keeping the invariant and output values parallel to output nodes |
| Graph.DependencyGraph.Order | src/org/magnos/dependency/DependencyGraph.java:99-136 | clears and refills the output, starting with the queued roots; true exactly when no cycle, and then the output is the collection; every node left out waits on another node left out |
| Graph.DependencyGraph.Analyze | src/org/magnos/dependency/DependencyGraph.java:69-137 | true exactly when the collection is non-empty and acyclic; without a root the output and edges are untouched; otherwise the output starts with the nodes without dependencies in collection order, every node left out waits on another node left out, and the drained state holds: each node after its dependencies, depths by the depth rule in non-decreasing order, taken nodes detached |
| Graph.DependencyGraph.GetDepthGroupNodesOf | src/org/magnos/dependency/DependencyGraph.java:160-175 | group d lists the nodes at depth d in list order, one group per depth up to the greatest; fails exactly at a negative depth |
| Graph.DependencyGraph.GetDepthGroupNodes | src/org/magnos/dependency/DependencyGraph.java:146-149 | the same for the output nodes, failing at the first output node with a negative depth |
| Graph.DependencyGraph.GetDepthGroupsOf | src/org/magnos/dependency/DependencyGraph.java:199-214 | the same groups holding the nodes' values |
| Graph.DependencyGraph.GetDepthGroups | src/org/magnos/dependency/DependencyGraph.java:185-188 | the value groups of the output nodes, failing at the first output node with a negative depth |
| Builder.Insert | src/org/magnos/dependency/DependencyMap.java:77-88 | adds the value to the key's set, creating it empty first, and leaves other keys alone |
| Builder.InsertIdempotent | src/org/magnos/dependency/DependencyMap.java:77-88 | recording a pair twice is recording it once |
| Builder.InsertCommutes | src/org/magnos/dependency/DependencyMap.java:77-88 | the order in which pairs are recorded does not matter |
| Builder.DependencyMap.constructor | src/org/magnos/dependency/DependencyMap.java:34-38 | no recorded pairs, no values |
| Builder.DependencyMap.AddToListMap | src/org/magnos/dependency/DependencyMap.java:77-88 | the recorded sets become Insert of the old ones |
| Builder.DependencyMap.AddDependency | src/org/magnos/dependency/DependencyMap.java:48-51 | records the dependency in the child's set |
| Builder.DependencyMap.AddDependent | src/org/magnos/dependency/DependencyMap.java:61-64 | records the parent in the dependent's set, the same state as AddDependency(dependent, parent) |
| Builder.DependencyMap.Add | src/org/magnos/dependency/DependencyMap.java:66-69 | sets or replaces one key's value and leaves the recorded pairs alone |
| Builder.DependencyMap.MakeNodes | src/org/magnos/dependency/DependencyMap.java:92-97 | one fresh node per key with a value, holding it, with distinct new ids and no dependents; old nodes unchanged |
| Builder.DependencyMap.WirePair | src/org/magnos/dependency/DependencyMap.java:107-110 | fails exactly when the second key has no node or is the first key; otherwise wires exactly that pair |
| Builder.WiredGrows | src/org/magnos/dependency/DependencyMap.java:107-110 | wiring one more pair of different keys adds exactly that pair to the wiring |
| Builder.DependencyMap.WireNode | src/org/magnos/dependency/DependencyMap.java:101-111 | wires every pair recorded with one key, or fails on an unwirable one |
| Builder.DependencyMap.WireKeys | src/org/magnos/dependency/DependencyMap.java:99-112 | wires the keys in turn, ending with every recorded pair wired or failing on an unwirable pair |
| Builder.DependencyMap.WireNodes | src/org/magnos/dependency/DependencyMap.java:99-112 | fails exactly when some recorded pair of a key with a value is unwirable; otherwise wires exactly the recorded pairs among the new nodes |
| Builder.DependencyMap.GetDependencyNodes | src/org/magnos/dependency/DependencyMap.java:90-115 | one node per key with a value, holding it; fails exactly when a recorded pair names a key without a value or the key itself; otherwise, for keys c, d with nodes, node(d) depends on node(c) exactly when d was recorded with c |
| Builder.DependencyMap.GetDependencyNodesAsDocumented | src/org/magnos/dependency/DependencyMap.java:40-51 | as GetDependencyNodes, but node(c) depends on node(d) exactly when d was recorded with c |
| Scenarios.DiamondAnalysis | test/org/magnos/dependency/TestDependencyGraph.java:33-55 | the diamond analyzes as valid with order 3, 4, 1, 0, 2, depths 0, 0, 1, 2, 3 and maximum 3 |
| Scenarios.DiamondLevels | test/org/magnos/dependency/TestDependencyGraph.java:116-168 | a diamond listing starting with 3 and 4 in either order, at the depths the depth rule gives, has the levels [3, 4], [1], [0], [2]; the array analyzer's own levels are in DiamondAnalysis |
| Scenarios.RingAnalysis | test/org/magnos/dependency/TestDependencyGraph.java:57-76 | the five-node ring fails with nothing placed and every node waiting |
| Scenarios.PairAnalysis | test/org/magnos/dependency/TestDependencyGraph.java:78-94 | the mutual pair fails, placing 2, 3, 4 and leaving 0, 1 waiting |
| Scenarios.PartialAnalysis | test/org/magnos/dependency/TestDependencyGraph.java:96-114 | the partial cycle fails, placing only 4; node 3, which only depends on the cycle, waits with it |
| Scenarios.DiamondDrained | test/org/magnos/dependency/TestDependencyMap.java:114-139 | the queue-based analysis of the diamond outputs 3 and 4, then 1, 0, 2, and groups them as [3, 4], [1], [0], [2] up to the order of 3 and 4 |
| Scenarios.DiamondDrainedInOrder | src/org/magnos/dependency/DependencyGraph.java:80-89 | over the collection 0, 1, 2, 3, 4, the queue-based analysis of the diamond, which queues the roots in collection order, outputs exactly 3, 4, 1, 0, 2 |
| Scenarios.ReversedDrained | src/org/magnos/dependency/DependencyGraph.java:69-137 | the queue-based analysis of the reversed diamond outputs 2, 0, 1, then 3 and 4, grouped as [2], [0], [1], [3, 4] |
| MapScenarios.MapDiamond | test/org/magnos/dependency/TestDependencyMap.java:39-42 | the map tests' recorded pairs describe the diamond |
| MapScenarios.ReversedAcyclic | test/org/magnos/dependency/TestDependencyMap.java:44-47 | the as-written wiring of the diamond is its transpose and has no cycle, so the valid verdict still holds |
| MapScenarios.MapDiamondAsWritten | src/org/magnos/dependency/DependencyMap.java:99-112 | wired as written, the diamond's pairs give the reversed diamond, whose output starts 2, 0, 1 |
| MapScenarios.MapDiamondAsDocumented | test/org/magnos/dependency/TestDependencyMap.java:44-52 | wired as documented, the diamond's pairs give the diamond, whose output and groups are those the map tests expect |

## Left out

- Hash iteration order of `HashSet` and `HashMap` is not modelled. Wherever the code iterates one, the model takes an arbitrary element (`:|`), and every contract holds for every order.
- Graph.DependencyGraph.Analyze: the nodes at depth 0 come first in collection order, but the order in which freed dependents join the queue is the arbitrary choice above, so the output order within each depth from 1 on is not pinned down.
- Graph.DependencyGraph.Analyze: requires distinct nodes, closed under dependencies and under dependents. The code also reaches nodes outside the collection; the model does not follow them.
- Analyzer.DependencyAnalyzer.Analyze: the headline verdict is stated for distinct nodes closed under dependencies. For other collections only the equality with the analysis model is stated.
- Distinct node values stand in for distinct nodes. `Nodes.Arena.EqualsIsIdentity` shows that value equality and node identity agree while the values are pairwise different. The model's edge sets hold node ids and look nodes up by identity; the code's `HashSet`s file each node under the hash of its value at the time it was added.
- Nodes.Arena.SetValue: does not model the stale hash of a node whose value changes while it sits in a neighbour's edge set. In the code, later lookups and removals can then miss it (`removeDependency`, reached from `clearDependents`), so a freed dependent may never be released. Example: `b` depends on `a`, `a` gets a new value, and the queue-based analysis of `[a, b]` returns false. The model finds every edge by identity and returns true there.
- `Serializable`, `serialVersionUID`, and the generic-array idiom (`T... emptyArray`, `Arrays.copyOf`) are left out. The value array is an `array<Option<T>>`.
- `setIndex` does not exist on the node. The position of each placed node is the analyzer's own map `index`.
- The getters (`getCycle`, `getCycleSize`, `getOrderedNodes`, `getOrderedSize`, `getOrdered`, `getMaximumDepth`, `isValid`, `isCyclic`, `getNodes`, `getOutput`, `getOutputNodes`, `getValue`, `getDepth`, `getDependents`, `getDependencies`) have no members of their own. They are the fields they return.
- Nodes.Arena.HashCode takes the values' own hash function as a parameter. The hash of a Java object is not visible.
- Builder.DependencyMap.GetDependencyNodes returns the map from keys to new node ids, not the collection of nodes. Its order is hash order and is not modelled. The `LinkedHashMap` insertion order of keys is not modelled either.
- Builder.DependencyMap.GetDependencyNodes: on failure it states only that the earlier nodes are unchanged. The partly wired fresh nodes are unreachable once the exception propagates.
- Which unwirable pair is reported first depends on hash order: the model reports some unwirable pair.
- MapScenarios lemmas state the wiring relation as a hypothesis, with node ids equal to keys, rather than running the builder. The ring, mutual-pair and partial-cycle map tests are covered by the general verdicts of `Graph.DependencyGraph.Analyze` together with `Digraph.TransposedCycles`.
- Java `int` overflow of depths and counts is not modelled. Depths stay below the number of nodes.
- The JUnit harness is left out. Its scenarios appear as lemmas.

## Findings

| source | as written | input that shows it | evidently intended | confidence | as-written member | corrected member |
|---|---|---|---|---|---|---|
| src/org/magnos/dependency/DependencyMap.java:107-110 | for a pair d recorded with key c, `dn.addDependent(nodeMap.get(d))` makes node(d) depend on node(c) | the pairs of TestDependencyMap.java:39-42 (0 on 1, 2 on 0, 1 on 3, 1 on 4): the wiring gives the reversed diamond, and the queue-based output starts 2, 0, 1 instead of 3, 4, 1, 0, 2 | node(c) gains node(d) as a dependency, as the javadoc at DependencyMap.java:40-51 and the test expectations at TestDependencyMap.java:48-52 and 135-138 say | not executed | MapScenarios.MapDiamondAsWritten | MapScenarios.MapDiamondAsDocumented |
