/**
 * The queue-based analyzer (Kahn's algorithm). Starting from the nodes of a collection without
 * dependencies, at depth 0, it repeatedly takes the head of a queue, appends it to the output,
 * detaches it from its dependents and queues each dependent left without dependencies one level
 * deeper. The analysis is destructive: the taken nodes lose their edges. The output covers the
 * whole collection exactly when the collection holds no circular dependency.
 *
 * The nodes live in an arena `g`; the analyzer keeps the output node ids, their values and the
 * validity flag. The loops' invariants and what they give at the end are proved in KahnModel.
 */
module Graph {
  import opened Wrappers
  import opened Digraph
  import opened Levels
  import opened Nodes
  import opened AnalysisModel
  import opened KahnModel

  /**
   * Groups the entries of `vs` (one per node of `s`) by the depth of their node, growing one
   * group per depth up to the greatest depth met, each group in the order of `s`. The first node
   * at a negative depth names no group and throws on indexing.
   */
  method GrowGroups<X>(s: seq<nat>, vs: seq<X>, depth: seq<int>) returns (r: Result<seq<seq<X>>, LevelError>)
    requires |vs| == |s|
    requires forall k | 0 <= k < |s| :: s[k] < |depth|
    ensures r.Success? <==> forall k | 0 <= k < |s| :: depth[s[k]] >= 0
    ensures r.Success? ==> r.value == Groups(s, vs, depth, DepthBound(s, depth))
    ensures r.Failure? ==> exists k | 0 <= k < |s| ::
      && r.error == DepthOutOfRange(s[k], depth[s[k]]) && depth[s[k]] < 0
      && forall j | 0 <= j < k :: depth[s[j]] >= 0
  {
    var groups: seq<seq<X>> := [];
    for i := 0 to |s|
      invariant forall k | 0 <= k < i :: depth[s[k]] >= 0
      invariant groups == PrefixGroups(s, vs, depth, i)
    {
      var d := depth[s[i]];
      if d < 0 {
        r := Failure(DepthOutOfRange(s[i], d));
        assert r.error == DepthOutOfRange(s[i], depth[s[i]]);
        return;
      }
      groups := Place(s, vs, depth, groups, i);
    }
    assert s[..|s|] == s && vs[..|vs|] == vs;
    assert groups == Groups(s, vs, depth, DepthBound(s, depth));
    return Success(groups);
  }

  /** The depth groups of the first `i` nodes of `s`. */
  function PrefixGroups<X>(s: seq<nat>, vs: seq<X>, depth: seq<int>, i: nat): seq<seq<X>>
    requires |vs| == |s| && i <= |s|
    requires forall k | 0 <= k < |s| :: s[k] < |depth|
  {
    Groups(s[..i], vs[..i], depth, DepthBound(s[..i], depth))
  }

  /** Files the entry of node `s[i]` at the end of the group of its depth, adding groups as needed. */
  method Place<X>(s: seq<nat>, vs: seq<X>, depth: seq<int>, groups: seq<seq<X>>, i: nat) returns (next: seq<seq<X>>)
    requires |vs| == |s| && i < |s|
    requires forall k | 0 <= k < |s| :: s[k] < |depth|
    requires depth[s[i]] >= 0
    requires groups == PrefixGroups(s, vs, depth, i)
    ensures next == PrefixGroups(s, vs, depth, i + 1)
  {
    var d := depth[s[i]];
    next := Pad(s[..i], vs[..i], depth, groups, d);
    DepthBoundSnoc(s, depth, i);
    assert s[..i + 1][..i] == s[..i] && vs[..i + 1][..i] == vs[..i];
    GroupsSnoc(s[..i + 1], vs[..i + 1], depth, |next|);
    next := next[d := next[d] + [vs[i]]];
  }

  /**
   * Adds empty groups until there is one for depth `d`: the groups of the nodes `s` then run up
   * to depth `d` at least.
   */
  method Pad<X>(s: seq<nat>, vs: seq<X>, depth: seq<int>, groups: seq<seq<X>>, d: nat) returns (padded: seq<seq<X>>)
    requires |vs| == |s|
    requires forall k | 0 <= k < |s| :: s[k] < |depth|
    requires groups == Groups(s, vs, depth, DepthBound(s, depth))
    ensures padded == Groups(s, vs, depth, Max(DepthBound(s, depth), d + 1))
  {
    padded := groups;
    while |padded| <= d
      invariant DepthBound(s, depth) <= |padded| && (|padded| == DepthBound(s, depth) || |padded| <= d + 1)
      invariant padded == Groups(s, vs, depth, |padded|)
      decreases d - |padded|
    {
      GroupsGrow(s, vs, depth, |padded|);
      padded := padded + [[]];
    }
  }

  /**
   * After an analysis every output node is placed, and since the output comes in order of
   * non-decreasing depth, its depth groups laid end to end give back the output, node ids and
   * values alike.
   */
  lemma {:induction false} OutputGroups<T>(deps0: seq<set<nat>>, input: seq<nat>, out: seq<nat>, deps: seq<set<nat>>,
                                           dependents: seq<set<nat>>, depth: seq<int>, values: seq<Option<T>>)
    requires Drained(deps0, input, out, deps, dependents, depth) && |depth| == |deps0|
    ensures forall k | 0 <= k < |out| :: out[k] < |depth| && depth[out[k]] >= 0
    ensures Flatten(Groups(out, out, depth, DepthBound(out, depth))) == out
    ensures Flatten(Groups(out, ValuesOf(values, out), depth, DepthBound(out, depth))) == ValuesOf(values, out)
  {
    forall k | 0 <= k < |out| ensures out[k] < |depth| && depth[out[k]] >= 0 {
      assert DepthRule(deps0, depth, out[k]);
    }
    SortedGroups(out, out, depth);
    SortedGroups(out, ValuesOf(values, out), depth);
  }

  class DependencyGraph<T(==)> {
    /** The output node ids, in the order the analysis took them. */
    var outputNodes: seq<nat>
    /** The values held by the output nodes, entry by entry. */
    var output: seq<Option<T>>
    /** Whether the last analysis found no circular dependency. */
    var valid: bool

    /** A fresh analyzer with empty output, not valid. */
    constructor ()
      ensures outputNodes == [] && output == [] && !valid
    {
      outputNodes, output, valid := [], [], false;
    }

    /** Resets the analyzer: empty output, not valid. */
    method Clear()
      modifies this
      ensures outputNodes == [] && output == [] && !valid
    {
      outputNodes, output, valid := [], [], false;
    }

    /**
     * Analyzes the collection `input`: on success, the output lists every node of the
     * collection once, each after all its dependencies, in order of non-decreasing depth, each
     * depth one more than the deepest dependency's (0 without dependencies). The result, also
     * recorded as the validity, is true exactly when the collection is non-empty and holds no
     * circular dependency. Without a node free of dependencies the output is left as it was;
     * otherwise it holds the nodes the analysis reached, starting with the nodes free of
     * dependencies in collection order, every node left out waits on another node left out,
     * and the nodes taken lose their edges.
     */
    method Analyze(g: Arena<T>, input: seq<nat>) returns (result: bool)
      requires g.Valid() && Isolated(g.dependencies, input)
      modifies this, g`depth, g`dependencies, g`dependents
      ensures g.Valid() && g.values == old(g.values)
      ensures valid == result
      ensures result <==> |input| > 0 && !HasCycleIn(old(g.dependencies), Elems(input))
      ensures result ==> |outputNodes| == |input| && Elems(outputNodes) == Elems(input)
      ensures forall x | 0 <= x < |g.depth| && x !in input :: g.depth[x] == old(g.depth[x])
      ensures Roots(old(g.dependencies), input) != [] ==> Roots(old(g.dependencies), input) <= outputNodes
      ensures Roots(old(g.dependencies), input) != [] ==> Stuck(old(g.dependencies), Elems(input) - Elems(outputNodes))
      ensures Roots(old(g.dependencies), input) == [] ==>
        && outputNodes == old(outputNodes) && output == old(output)
        && g.dependencies == old(g.dependencies) && g.dependents == old(g.dependents)
        && forall k | 0 <= k < |input| :: g.depth[input[k]] == UNPLACED
      ensures Roots(old(g.dependencies), input) != [] ==>
        && output == ValuesOf(g.values, outputNodes)
        && Drained(old(g.dependencies), input, outputNodes, g.dependencies, g.dependents, g.depth)
    {
      ghost var deps0 := g.dependencies;
      var queue := Seed(g, input);
      if queue == [] {
        if |input| > 0 {
          RootsEmpty(deps0, input);
        }
        valid := false;
        result := false;
      } else {
        result := Order(g, deps0, input, queue);
        valid := result;
      }
    }

    /**
     * Analyzes a collection with at least one node free of dependencies: runs the main loop and
     * compares the output's length with the collection's.
     */
    method Order(g: Arena<T>, ghost deps0: seq<set<nat>>, input: seq<nat>, queue: seq<nat>) returns (result: bool)
      requires g.Valid() && Isolated(deps0, input) && deps0 == g.dependencies
      requires queue == Roots(deps0, input) && |g.depth| == |deps0|
      requires forall k | 0 <= k < |input| :: g.depth[input[k]] == if deps0[input[k]] == {} then 0 else UNPLACED
      modifies this`outputNodes, this`output, g`depth, g`dependencies, g`dependents
      ensures g.Valid() && g.values == old(g.values)
      ensures result <==> !HasCycleIn(deps0, Elems(input))
      ensures result ==> |outputNodes| == |input| && Elems(outputNodes) == Elems(input)
      ensures forall x | 0 <= x < |g.depth| && x !in input :: g.depth[x] == old(g.depth[x])
      ensures output == ValuesOf(g.values, outputNodes)
      ensures queue <= outputNodes
      ensures Stuck(deps0, Elems(input) - Elems(outputNodes))
      ensures Drained(deps0, input, outputNodes, g.dependencies, g.dependents, g.depth)
    {
      DrainStart(deps0, input, g.depth);
      Drain(g, deps0, input, queue);
      DrainStuck(deps0, input, outputNodes, g.dependencies, g.depth);
      DrainDone(deps0, input, outputNodes, g.dependencies, g.dependents, g.depth);
      result := |input| == |outputNodes|;
    }

    /**
     * The two seeding loops: every node of the collection is first marked unplaced, then each
     * one without dependencies is put at depth 0 and queued, in the order of the collection.
     */
    method Seed(g: Arena<T>, input: seq<nat>) returns (queue: seq<nat>)
      requires g.Valid() && Isolated(g.dependencies, input)
      modifies g`depth
      ensures g.Valid()
      ensures queue == Roots(g.dependencies, input)
      ensures forall k | 0 <= k < |input| ::
        g.depth[input[k]] == if g.dependencies[input[k]] == {} then 0 else UNPLACED
      ensures forall x | 0 <= x < |g.depth| && x !in input :: g.depth[x] == old(g.depth[x])
    {
      Unplace(g, input);
      queue := SeedRoots(g, input);
    }

    /** The first loop: every node of the collection goes back to UNPLACED. */
    method Unplace(g: Arena<T>, input: seq<nat>)
      requires g.Valid() && forall k | 0 <= k < |input| :: input[k] < |g.depth|
      modifies g`depth
      ensures g.Valid()
      ensures forall k | 0 <= k < |input| :: g.depth[input[k]] == UNPLACED
      ensures forall x | 0 <= x < |g.depth| && x !in input :: g.depth[x] == old(g.depth[x])
    {
      for i := 0 to |input|
        invariant g.Valid()
        invariant forall k | 0 <= k < i :: g.depth[input[k]] == UNPLACED
        invariant forall x | 0 <= x < |g.depth| && x !in input[..i] :: g.depth[x] == old(g.depth[x])
      {
        g.SetDepth(input[i], UNPLACED);
      }
      assert input[..|input|] == input;
    }

    /** The second loop: the nodes without dependencies go to depth 0 and, in collection order, into the queue. */
    method SeedRoots(g: Arena<T>, input: seq<nat>) returns (queue: seq<nat>)
      requires g.Valid() && Isolated(g.dependencies, input)
      requires forall k | 0 <= k < |input| :: g.depth[input[k]] == UNPLACED
      modifies g`depth
      ensures g.Valid()
      ensures queue == Roots(g.dependencies, input)
      ensures forall k | 0 <= k < |input| ::
        g.depth[input[k]] == if g.dependencies[input[k]] == {} then 0 else UNPLACED
      ensures forall x | 0 <= x < |g.depth| && x !in input :: g.depth[x] == old(g.depth[x])
    {
      ghost var deps := g.dependencies;
      queue := [];
      for i := 0 to |input|
        invariant g.Valid() && g.dependencies == deps
        invariant queue == Roots(deps, input[..i])
        invariant forall k | 0 <= k < |input| ::
          g.depth[input[k]] == if k < i && deps[input[k]] == {} then 0 else UNPLACED
        invariant forall x | 0 <= x < |g.depth| && x !in input :: g.depth[x] == old(g.depth[x])
      {
        assert input[..i + 1][..i] == input[..i];
        if !g.HasDependencies(input[i]) {
          g.SetDepth(input[i], 0);
          queue := queue + [input[i]];
        }
      }
      assert input[..|input|] == input;
    }

    /**
     * The main loop: takes the head of the queue into the output and detaches it from its
     * dependents until the queue runs dry.
     */
    method Drain(g: Arena<T>, ghost deps0: seq<set<nat>>, input: seq<nat>, queue0: seq<nat>)
      requires g.Valid() && Draining(deps0, input, [], queue0, g.dependencies, g.depth)
      modifies this`outputNodes, this`output, g`depth, g`dependencies, g`dependents
      ensures g.Valid() && g.values == old(g.values)
      ensures Draining(deps0, input, outputNodes, [], g.dependencies, g.depth)
      ensures queue0 <= outputNodes
      ensures output == ValuesOf(g.values, outputNodes)
      ensures forall x | 0 <= x < |g.depth| && x !in input :: g.depth[x] == old(g.depth[x])
    {
      outputNodes, output := [], [];
      var queue := queue0;
      while queue != []
        invariant g.Valid() && g.values == old(g.values)
        invariant Draining(deps0, input, outputNodes, queue, g.dependencies, g.depth)
        invariant queue0 <= outputNodes + queue
        invariant output == ValuesOf(g.values, outputNodes)
        invariant forall x | 0 <= x < |g.depth| && x !in input :: g.depth[x] == old(g.depth[x])
        decreases |input| - |outputNodes|
      {
        ListedFits(|deps0|, input, outputNodes + queue);
        var node := queue[0];
        ghost var out := outputNodes;
        queue := Step(g, deps0, input, queue);
        ValuesOfSnoc(g.values, out, node);
      }
    }

    /** One round of the main loop: takes the head of the queue and queues the dependents it frees. */
    method Step(g: Arena<T>, ghost deps0: seq<set<nat>>, input: seq<nat>, queue: seq<nat>) returns (next: seq<nat>)
      requires g.Valid() && Draining(deps0, input, outputNodes, queue, g.dependencies, g.depth) && queue != []
      modifies this`outputNodes, this`output, g`depth, g`dependencies, g`dependents
      ensures g.Valid() && g.values == old(g.values) && queue[0] < |g.values|
      ensures outputNodes == old(outputNodes) + [queue[0]]
      ensures output == old(output) + [g.values[queue[0]]]
      ensures Draining(deps0, input, outputNodes, next, g.dependencies, g.depth)
      ensures old(outputNodes) + queue <= outputNodes + next
      ensures forall x | 0 <= x < |g.depth| && x !in input :: g.depth[x] == old(g.depth[x])
    {
      var node := queue[0];
      var cleared := Take(g, deps0, input, queue);
      next := Release(g, deps0, input, node, queue[1..], cleared);
      FreeEnd(deps0, input, outputNodes, next, g.dependencies, g.depth);
      PollKeepsPrefix(old(outputNodes), queue, next);
    }

    /**
     * Takes the head of the queue into the output and detaches it from its dependents, which are
     * then looked at one by one.
     */
    method Take(g: Arena<T>, ghost deps0: seq<set<nat>>, input: seq<nat>, queue: seq<nat>) returns (cleared: set<nat>)
      requires g.Valid() && Draining(deps0, input, outputNodes, queue, g.dependencies, g.depth) && queue != []
      modifies this`outputNodes, this`output, g`dependencies, g`dependents
      ensures g.Valid() && queue[0] < |g.values|
      ensures outputNodes == old(outputNodes) + [queue[0]]
      ensures output == old(output) + [g.values[queue[0]]]
      ensures cleared == old(g.dependents[queue[0]])
      ensures Freeing(deps0, input, outputNodes, queue[1..], g.dependencies, g.depth, cleared)
    {
      var node := queue[0];
      ghost var out := outputNodes;
      ghost var deps := g.dependencies;
      ghost var dependents := g.dependents;
      assert node in out + queue;
      outputNodes := outputNodes + [node];
      output := output + [g.values[node]];
      cleared := g.ClearDependents(node);
      assert forall y | 0 <= y < |deps0| :: y in cleared <==> node in deps[y];
      PollStep(deps0, input, out, queue, deps, g.depth, g.dependencies, cleared);
    }

    /**
     * The loop over the former dependents of the node just taken: each one left without
     * dependencies goes one level deeper than that node and joins the queue.
     */
    method Release(g: Arena<T>, ghost deps0: seq<set<nat>>, input: seq<nat>, node: nat, queue0: seq<nat>,
                   cleared: set<nat>) returns (queue: seq<nat>)
      requires g.Valid() && Freeing(deps0, input, outputNodes, queue0, g.dependencies, g.depth, cleared)
      requires node == outputNodes[|outputNodes| - 1]
      modifies g`depth
      ensures g.Valid()
      ensures Freeing(deps0, input, outputNodes, queue, g.dependencies, g.depth, {})
      ensures queue0 <= queue
      ensures forall x | 0 <= x < |g.depth| && x !in input :: g.depth[x] == old(g.depth[x])
    {
      ghost var out, deps := outputNodes, g.dependencies;
      queue := queue0;
      var rest := cleared;
      while rest != {}
        invariant g.Valid() && g.dependencies == deps && |g.depth| == |deps0| && outputNodes == out
        invariant Freeing(deps0, input, out, queue, deps, g.depth, rest)
        invariant queue0 <= queue
        invariant forall x | 0 <= x < |g.depth| && x !in input :: g.depth[x] == old(g.depth[x])
        decreases rest
      {
        var dependent :| dependent in rest;
        queue := Visit(g, deps0, input, node, queue, rest, dependent);
        rest := rest - {dependent};
      }
    }

    /** Looks at one former dependent: queued one level deeper than `node` if it has no dependencies left. */
    method Visit(g: Arena<T>, ghost deps0: seq<set<nat>>, input: seq<nat>, node: nat, queue: seq<nat>,
                 ghost rest: set<nat>, dependent: nat) returns (next: seq<nat>)
      requires g.Valid() && Freeing(deps0, input, outputNodes, queue, g.dependencies, g.depth, rest)
      requires node == outputNodes[|outputNodes| - 1] && dependent in rest
      modifies g`depth
      ensures g.Valid()
      ensures Freeing(deps0, input, outputNodes, next, g.dependencies, g.depth, rest - {dependent})
      ensures queue <= next
      ensures forall x | 0 <= x < |g.depth| && x !in input :: g.depth[x] == old(g.depth[x])
    {
      ghost var out, deps, depth0 := outputNodes, g.dependencies, g.depth;
      if !g.HasDependencies(dependent) {
        ghost var depth := depth0[dependent := depth0[out[|out| - 1]] + 1];
        FreeReady(deps0, input, out, queue, deps, depth0, rest, dependent);
        g.SetDepth(dependent, g.depth[node] + 1);
        next := queue + [dependent];
        assert g.depth == depth;
      } else {
        FreeBlocked(deps0, input, out, queue, deps, depth0, rest, dependent);
        next := queue;
      }
      assert outputNodes == out && g.dependencies == deps;
    }

    /** Moving the head of the queue to the output, then queueing more, keeps what came before in place. */
    lemma PollKeepsPrefix(out: seq<nat>, queue: seq<nat>, next: seq<nat>)
      requires queue != [] && queue[1..] <= next
      ensures out + queue <= (out + [queue[0]]) + next
    {
      assert out + queue == (out + [queue[0]]) + queue[1..];
    }

    /**
     * The nodes of `nodeList` grouped by depth: group d lists, in list order, the nodes at depth d,
     * with a group for every depth up to the greatest; a node at a negative depth throws.
     */
    method GetDepthGroupNodesOf(g: Arena<T>, nodeList: seq<nat>) returns (r: Result<seq<seq<nat>>, LevelError>)
      requires g.Valid() && forall k | 0 <= k < |nodeList| :: nodeList[k] < |g.values|
      ensures r.Success? <==> forall k | 0 <= k < |nodeList| :: g.depth[nodeList[k]] >= 0
      ensures r.Success? ==> r.value == Groups(nodeList, nodeList, g.depth, DepthBound(nodeList, g.depth))
      ensures r.Failure? ==> exists k | 0 <= k < |nodeList| ::
        && r.error == DepthOutOfRange(nodeList[k], g.depth[nodeList[k]]) && g.depth[nodeList[k]] < 0
        && forall j | 0 <= j < k :: g.depth[nodeList[j]] >= 0
    {
      r := GrowGroups(nodeList, nodeList, g.depth);
    }

    /** The output nodes grouped by depth. */
    method GetDepthGroupNodes(g: Arena<T>) returns (r: Result<seq<seq<nat>>, LevelError>)
      requires g.Valid() && forall k | 0 <= k < |outputNodes| :: outputNodes[k] < |g.values|
      ensures r.Success? <==> forall k | 0 <= k < |outputNodes| :: g.depth[outputNodes[k]] >= 0
      ensures r.Success? ==> r.value == Groups(outputNodes, outputNodes, g.depth, DepthBound(outputNodes, g.depth))
      ensures r.Failure? ==> exists k | 0 <= k < |outputNodes| ::
        && r.error == DepthOutOfRange(outputNodes[k], g.depth[outputNodes[k]]) && g.depth[outputNodes[k]] < 0
        && forall j | 0 <= j < k :: g.depth[outputNodes[j]] >= 0
    {
      r := GetDepthGroupNodesOf(g, outputNodes);
    }

    /**
     * The values of the nodes of `nodeList` grouped by the nodes' depths, as for the node groups;
     * a node at a negative depth throws.
     */
    method GetDepthGroupsOf(g: Arena<T>, nodeList: seq<nat>) returns (r: Result<seq<seq<Option<T>>>, LevelError>)
      requires g.Valid() && forall k | 0 <= k < |nodeList| :: nodeList[k] < |g.values|
      ensures r.Success? <==> forall k | 0 <= k < |nodeList| :: g.depth[nodeList[k]] >= 0
      ensures r.Success? ==>
        r.value == Groups(nodeList, ValuesOf(g.values, nodeList), g.depth, DepthBound(nodeList, g.depth))
      ensures r.Failure? ==> exists k | 0 <= k < |nodeList| ::
        && r.error == DepthOutOfRange(nodeList[k], g.depth[nodeList[k]]) && g.depth[nodeList[k]] < 0
        && forall j | 0 <= j < k :: g.depth[nodeList[j]] >= 0
    {
      r := GrowGroups(nodeList, ValuesOf(g.values, nodeList), g.depth);
    }

    /** The output values grouped by the depths of their nodes. */
    method GetDepthGroups(g: Arena<T>) returns (r: Result<seq<seq<Option<T>>>, LevelError>)
      requires g.Valid() && forall k | 0 <= k < |outputNodes| :: outputNodes[k] < |g.values|
      ensures r.Success? <==> forall k | 0 <= k < |outputNodes| :: g.depth[outputNodes[k]] >= 0
      ensures r.Success? ==>
        r.value == Groups(outputNodes, ValuesOf(g.values, outputNodes), g.depth, DepthBound(outputNodes, g.depth))
      ensures r.Failure? ==> exists k | 0 <= k < |outputNodes| ::
        && r.error == DepthOutOfRange(outputNodes[k], g.depth[outputNodes[k]]) && g.depth[outputNodes[k]] < 0
        && forall j | 0 <= j < k :: g.depth[outputNodes[j]] >= 0
    {
      r := GetDepthGroupsOf(g, outputNodes);
    }
  }
}
