/**
 * The scenarios the repository's tests exercise, as instances of the general results. Five nodes
 * 0 .. 4 are analyzed in the order [0, 1, 2, 3, 4]; entry x of a graph is the set of nodes that
 * node x depends on.
 */
module Scenarios {
  import opened Digraph
  import opened Levels
  import opened AnalysisModel
  import opened KahnModel

  /** The collection of every scenario: nodes 0 .. 4 in order. */
  const All: seq<nat> := [0, 1, 2, 3, 4]

  /** 0 depends on 1, 2 on 0, 1 on 3 and on 4. */
  const Diamond: seq<set<nat>> := [{1}, {3, 4}, {0}, {}, {}]

  /** 0 depends on 1, 1 on 2, 2 on 3, 3 on 4 and 4 on 0. */
  const Ring: seq<set<nat>> := [{1}, {2}, {3}, {4}, {0}]

  /** 0 and 1 depend on each other; 2, 3 and 4 stand alone. */
  const Pair: seq<set<nat>> := [{1}, {0}, {}, {}, {}]

  /** 0 depends on 1, 1 on 2, 2 on 0, and 3 on 1. */
  const Partial: seq<set<nat>> := [{1}, {2}, {0}, {1}, {}]

  /**
   * The diamond with every edge turned around: 1 depends on 0, 0 on 2, 3 and 4 on 1. The
   * dependency map builds this graph from the pairs that describe the diamond.
   */
  const Reversed: seq<set<nat>> := [{2}, {0}, {}, {1}, {1}]

  /** Every scenario graph is a graph over the five nodes that the collection lists, each once. */
  lemma Wellformed(deps: seq<set<nat>>)
    requires deps in {Diamond, Ring, Pair, Partial, Reversed}
    ensures Closed(deps) && Analyzable(deps, All) && Distinct(All)
  {
  }

  /**
   * The diamond analyzes as valid: the nodes come out as 3, 4, 1, 0, 2 at depths 0, 0, 1, 2, 3,
   * the maximum depth is 3 and the levels are [3, 4], [1], [0], [2].
   */
  lemma DiamondAnalysis(depth: seq<int>)
    requires |depth| == 5
    ensures var (r, ok) := Analysis(Diamond, depth, All);
      && ok && r.placed == [3, 4, 1, 0, 2]
      && |r.depth| == 5 && r.depth[3] == 0 && r.depth[4] == 0 && r.depth[1] == 1 && r.depth[0] == 2 && r.depth[2] == 3
      && r.maximum == 3
      && DepthLevels(r.placed, r.depth, r.maximum) == [[3, 4], [1], [0], [2]]
  {
    var (r, ok) := Analysis(Diamond, depth, All);
    DiamondValid(depth);
    DiamondOrder(depth);
    DiamondDepthsOf(depth);
    DiamondGroups(r.placed, r.depth);
  }

  /** The diamond analyzes as valid. */
  lemma DiamondValid(depth: seq<int>)
    requires |depth| == 5
    ensures Analysis(Diamond, depth, All).1
  {
    Wellformed(Diamond);
    DiamondAcyclic();
    AnalysisDecides(Diamond, depth, All);
  }

  /** The diamond's nodes are placed as 3, 4, 1, 0, 2. */
  lemma DiamondOrder(depth: seq<int>)
    requires |depth| == 5
    ensures Analysis(Diamond, depth, All).0.placed == [3, 4, 1, 0, 2]
  {
    Wellformed(Diamond);
    DiamondValid(depth);
    AnalysisOrder(Diamond, depth, All);
    AnalysisRootsFirst(Diamond, depth, All);
    DiamondRoots();
    DiamondPlaced(Analysis(Diamond, depth, All).0.placed);
  }

  /** The analysis gives the diamond's nodes depths 2, 1, 3, 0, 0 and the maximum depth 3. */
  lemma DiamondDepthsOf(depth: seq<int>)
    requires |depth| == 5
    ensures var r := Analysis(Diamond, depth, All).0;
      |r.depth| == 5 && r.depth[3] == 0 && r.depth[4] == 0 && r.depth[1] == 1 && r.depth[0] == 2 && r.depth[2] == 3
      && r.maximum == 3
  {
    var r := Analysis(Diamond, depth, All).0;
    Wellformed(Diamond);
    DiamondValid(depth);
    AnalysisPartition(Diamond, depth, All);
    AnalysisDepths(Diamond, depth, All);
    RuleEverywhere(Diamond, r.depth, All);
    DiamondDepths(r.depth);
    DiamondMaximum(r.depth, r.maximum);
  }

  /** The diamond has no circular dependency. */
  lemma DiamondAcyclic()
    ensures !HasCycleIn(Diamond, Elems(All))
  {
    var order: seq<nat> := [3, 4, 1, 0, 2];
    assert Elems(order) == Elems(All);
    TopologicalNoCycle(Diamond, order);
  }

  /** The diamond's nodes without dependencies are 3 and 4. */
  lemma DiamondRoots()
    ensures Roots(Diamond, All) == [3, 4]
  {
    RootsOfAll(Diamond);
  }

  /** The nodes 0 .. 4 without dependencies, in order. */
  lemma RootsOfAll(deps: seq<set<nat>>)
    requires |deps| == 5
    ensures Roots(deps, All) ==
      (if deps[0] == {} then [0] else []) + (if deps[1] == {} then [1] else []) + (if deps[2] == {} then [2] else [])
      + (if deps[3] == {} then [3] else []) + (if deps[4] == {} then [4] else [])
  {
    var four: seq<nat> := [0, 1, 2, 3];
    assert four + [4] == All;
    RootsSnoc(deps, four, 4);
    RootsFour(deps);
  }

  /** The roots among nodes 0 .. 3, in order. */
  lemma RootsFour(deps: seq<set<nat>>)
    requires |deps| == 5
    ensures Roots(deps, [0, 1, 2, 3]) ==
      (if deps[0] == {} then [0] else []) + (if deps[1] == {} then [1] else []) + (if deps[2] == {} then [2] else [])
      + (if deps[3] == {} then [3] else [])
  {
    var three: seq<nat> := [0, 1, 2];
    assert three + [3] == [0, 1, 2, 3];
    RootsSnoc(deps, three, 3);
    RootsLow(deps);
  }

  /** The roots among nodes 0 .. 2, in order. */
  lemma RootsLow(deps: seq<set<nat>>)
    requires |deps| == 5
    ensures Roots(deps, [0, 1, 2]) ==
      (if deps[0] == {} then [0] else []) + (if deps[1] == {} then [1] else []) + (if deps[2] == {} then [2] else [])
  {
    assert [0, 1] + [2] == [0, 1, 2];
    RootsSnoc(deps, [0, 1], 2);
    RootsTwo(deps);
  }

  /** The roots among nodes 0 and 1, in order. */
  lemma RootsTwo(deps: seq<set<nat>>)
    requires |deps| == 5
    ensures Roots(deps, [0, 1]) == (if deps[0] == {} then [0] else []) + (if deps[1] == {} then [1] else [])
  {
    RootsSnoc(deps, [], 0);
    assert [] + [0] == [0];
    RootsSnoc(deps, [0], 1);
    assert [0] + [1] == [0, 1];
  }

  /** The roots of a collection extended by one node. */
  lemma RootsSnoc(deps: seq<set<nat>>, s: seq<nat>, x: nat)
    requires forall k | 0 <= k < |s| :: s[k] < |deps|
    requires x < |deps|
    ensures Roots(deps, s + [x]) == Roots(deps, s) + if deps[x] == {} then [x] else []
  {
    assert (s + [x])[..|s|] == s;
  }

  /**
   * A listing of the diamond's nodes, each once and each after its dependencies, lists nodes 3
   * and 4 first, in either order, then 1, 0 and 2.
   */
  lemma DiamondPlaced(p: seq<nat>)
    requires |p| == 5 && Distinct(p) && Elems(p) == Elems(All)
    requires forall j, d | 0 <= j < |p| && p[j] < |Diamond| && d in Diamond[p[j]] :: d in p[..j]
    ensures p[2..] == [1, 0, 2] && ((p[0] == 3 && p[1] == 4) || (p[0] == 4 && p[1] == 3))
  {
    assert 0 in Elems(p) && 1 in Elems(p) && 2 in Elems(p) && 3 in Elems(p) && 4 in Elems(p);
    var i0 :| 0 <= i0 < 5 && p[i0] == 0;
    var i1 :| 0 <= i1 < 5 && p[i1] == 1;
    var i2 :| 0 <= i2 < 5 && p[i2] == 2;
    var i3 :| 0 <= i3 < 5 && p[i3] == 3;
    var i4 :| 0 <= i4 < 5 && p[i4] == 4;
    Before(p, i1, i3);
    Before(p, i1, i4);
    Before(p, i0, i1);
    Before(p, i2, i0);
    assert p[0] in Elems(All) && p[1] in Elems(All);
  }

  /** In a listing without repetitions, a node listed before position j sits at a smaller position. */
  lemma Before(p: seq<nat>, j: nat, i: nat)
    requires Distinct(p) && j < |p| && i < |p| && p[i] in p[..j]
    ensures i < j
  {
    var a :| 0 <= a < j && p[..j][a] == p[i];
    assert p[a] == p[i];
  }

  /** Every node of a collection listing nodes 0 .. 4 obeys the depth rule. */
  lemma RuleEverywhere(deps: seq<set<nat>>, e: seq<int>, s: seq<nat>)
    requires Elems(s) == Elems(All)
    requires forall k | 0 <= k < |s| :: DepthRule(deps, e, s[k])
    ensures forall x | 0 <= x < 5 :: DepthRule(deps, e, x)
  {
    forall x | 0 <= x < 5 ensures DepthRule(deps, e, x) {
      assert x in Elems(All);
      var k :| 0 <= k < |s| && s[k] == x;
    }
  }

  /** The depths the depth rule gives the diamond's nodes. */
  lemma DiamondDepths(e: seq<int>)
    requires forall x | 0 <= x < 5 :: DepthRule(Diamond, e, x)
    ensures |e| >= 5 && e[3] == 0 && e[4] == 0 && e[1] == 1 && e[0] == 2 && e[2] == 3
  {
    assert DepthRule(Diamond, e, 3) && DepthRule(Diamond, e, 4);
    assert e[3] == 0 && e[4] == 0;
    assert DepthRule(Diamond, e, 1);
    var d1 :| d1 in Diamond[1] && e[d1] + 1 == e[1];
    assert e[1] == 1;
    assert DepthRule(Diamond, e, 0);
    assert 1 in Diamond[0];
    assert e[0] == 2;
    assert DepthRule(Diamond, e, 2);
    assert 0 in Diamond[2];
  }

  /** The greatest of the diamond's depths is 3. */
  lemma DiamondMaximum(e: seq<int>, m: int)
    requires |e| == 5 && e[3] == 0 && e[4] == 0 && e[1] == 1 && e[0] == 2 && e[2] == 3
    requires forall k | 0 <= k < |All| :: e[All[k]] <= m
    requires exists k | 0 <= k < |All| :: e[All[k]] == m
    ensures m == 3
  {
    assert e[All[2]] <= m;
  }

  /** Levels 0 to m of a listing are its groups for the m + 1 depths 0 .. m. */
  lemma DepthLevelsBound(s: seq<nat>, e: seq<int>, m: nat)
    requires forall k | 0 <= k < |s| :: s[k] < |e|
    ensures DepthLevels(s, e, m) == Groups(s, s, e, m + 1)
  {
  }

  /** The levels of a diamond listing that starts with 3 and 4, in either order, at the depths the depth rule gives. */
  lemma DiamondLevels(e: seq<int>, a: nat, b: nat)
    requires |e| == 5 && e[3] == 0 && e[4] == 0 && e[1] == 1 && e[0] == 2 && e[2] == 3
    requires (a == 3 && b == 4) || (a == 4 && b == 3)
    ensures Groups([a, b, 1, 0, 2], [a, b, 1, 0, 2], e, 4) == [[a, b], [1], [0], [2]]
  {
    var s: seq<nat> := [a, b, 1, 0, 2];
    forall d | 0 <= d < 4 ensures Select(s, s, e, d) == [[a, b], [1], [0], [2]][d] {
      SelectSelf(s, e, d);
      AtDepthOfFive(s, e, d);
    }
  }

  /**
   * Analyzing the ring fails, places nothing, and leaves every node waiting in collection order.
   */
  lemma RingAnalysis(depth: seq<int>)
    requires |depth| == 5
    ensures var (r, ok) := Analysis(Ring, depth, All);
      !ok && r.placed == [] && r.waiting == All
  {
    RingFails(depth);
    Wellformed(Ring);
    AnalysisCycle(Ring, depth, All);
  }

  /** Analyzing the ring fails. */
  lemma RingFails(depth: seq<int>)
    requires |depth| == 5
    ensures !Analysis(Ring, depth, All).1
  {
    Wellformed(Ring);
    assert IsCycle(Ring, All);
    AnalysisDecides(Ring, depth, All);
  }

  /**
   * Analyzing the mutual pair fails: the free nodes 2, 3 and 4 are placed, in that order, and
   * nodes 0 and 1 wait.
   */
  lemma PairAnalysis(depth: seq<int>)
    requires |depth| == 5
    ensures var (r, ok) := Analysis(Pair, depth, All);
      !ok && r.placed == [2, 3, 4] && r.waiting == [0, 1]
  {
    PairFails(depth);
    PairPlaced(depth);
    var r := Analysis(Pair, depth, All).0;
    Wellformed(Pair);
    AnalysisPartition(Pair, depth, All);
    PairCycleWaits(depth);
    PairWaiting(r.depth, r.placed, r.waiting);
  }

  /** Analyzing the mutual pair fails. */
  lemma PairFails(depth: seq<int>)
    requires |depth| == 5
    ensures !Analysis(Pair, depth, All).1
  {
    Wellformed(Pair);
    var cycle: seq<nat> := [0, 1];
    assert IsCycle(Pair, cycle);
    AnalysisDecides(Pair, depth, All);
  }

  /** The mutual pair's nodes 0 and 1 wait, and the numbers of waiting and placed nodes add up to five. */
  lemma PairCycleWaits(depth: seq<int>)
    requires |depth| == 5
    ensures var r := Analysis(Pair, depth, All).0;
      0 in r.waiting && 1 in r.waiting && |r.waiting| + |r.placed| == 5
  {
    Wellformed(Pair);
    PairFails(depth);
    var cycle: seq<nat> := [0, 1];
    assert IsCycle(Pair, cycle);
    AnalysisCycle(Pair, depth, All);
    var r := Analysis(Pair, depth, All).0;
    assert cycle[0] in r.waiting && cycle[1] in r.waiting;
  }

  /** Analyzing the mutual pair places 2, 3 and 4, in that order, and no other node. */
  lemma PairPlaced(depth: seq<int>)
    requires |depth| == 5
    ensures Analysis(Pair, depth, All).0.placed == [2, 3, 4]
  {
    Wellformed(Pair);
    PairCycleWaits(depth);
    AnalysisRootsFirst(Pair, depth, All);
    PairRoots();
    var r := Analysis(Pair, depth, All).0;
    PairSplit(r.placed, r.waiting);
  }

  /** Three placed nodes opening with the roots 2, 3, 4 and two waiting nodes make up all five. */
  lemma PairSplit(placed: seq<nat>, waiting: seq<nat>)
    requires |waiting| + |placed| == 5 && 0 in waiting && 1 in waiting
    requires 3 <= |placed| && placed[..3] == [2, 3, 4]
    ensures placed == [2, 3, 4]
  {
    WaitingCount(waiting, 0, 1);
    assert placed == placed[..3];
  }

  /** With nodes 2, 3 and 4 placed, the waiting nodes of the mutual pair are 0 and 1. */
  lemma PairWaiting(e: seq<int>, placed: seq<nat>, waiting: seq<nat>)
    requires |e| == 5 && placed == [2, 3, 4] && 0 in waiting && 1 in waiting
    requires waiting == AtDepth(All, e, UNPLACED)
    requires forall k | 0 <= k < |All| :: All[k] in placed <==> e[All[k]] != UNPLACED
    ensures waiting == [0, 1]
  {
    assert e[All[2]] != UNPLACED && e[All[3]] != UNPLACED && e[All[4]] != UNPLACED;
    AtDepthOfAll(e, UNPLACED);
  }

  /**
   * Analyzing the partial cycle fails: only node 4 is placed; the cycle 0, 1, 2 and node 3,
   * which depends on it, wait in collection order.
   */
  lemma PartialAnalysis(depth: seq<int>)
    requires |depth| == 5
    ensures var (r, ok) := Analysis(Partial, depth, All);
      !ok && r.placed == [4] && r.waiting == [0, 1, 2, 3]
  {
    PartialFails(depth);
    PartialCycleWaits(depth);
    var r := Analysis(Partial, depth, All).0;
    Wellformed(Partial);
    AnalysisRootsFirst(Partial, depth, All);
    PartialRoots();
    AnalysisPartition(Partial, depth, All);
    PartialWaiting(r.depth, r.placed, r.waiting);
  }

  /** Analyzing the partial cycle fails. */
  lemma PartialFails(depth: seq<int>)
    requires |depth| == 5
    ensures !Analysis(Partial, depth, All).1
  {
    Wellformed(Partial);
    var cycle: seq<nat> := [0, 1, 2];
    assert IsCycle(Partial, cycle);
    AnalysisDecides(Partial, depth, All);
  }

  /** The partial cycle's nodes 0, 1 and 2 wait, and the numbers of waiting and placed nodes add up to five. */
  lemma PartialCycleWaits(depth: seq<int>)
    requires |depth| == 5
    ensures var r := Analysis(Partial, depth, All).0;
      0 in r.waiting && 1 in r.waiting && 2 in r.waiting && |r.waiting| + |r.placed| == 5
  {
    Wellformed(Partial);
    PartialFails(depth);
    var cycle: seq<nat> := [0, 1, 2];
    assert IsCycle(Partial, cycle);
    AnalysisCycle(Partial, depth, All);
    var r := Analysis(Partial, depth, All).0;
    assert cycle[0] in r.waiting && cycle[1] in r.waiting && cycle[2] in r.waiting;
  }

  /**
   * When nodes 0, 1 and 2 of the partial cycle wait and node 4 is placed first, node 3 cannot
   * be placed, so it waits too and node 4 is the only one placed.
   */
  lemma PartialWaiting(e: seq<int>, placed: seq<nat>, waiting: seq<nat>)
    requires |e| == 5 && 0 in waiting && 1 in waiting && 2 in waiting
    requires 1 <= |placed| && placed[..1] == [4] && |waiting| + |placed| == 5
    requires waiting == AtDepth(All, e, UNPLACED)
    requires forall j | 0 <= j < |placed| :: DepthRule(Partial, e, placed[j])
    requires forall k | 0 <= k < |All| :: All[k] in placed <==> e[All[k]] != UNPLACED
    ensures waiting == [0, 1, 2, 3] && placed == [4]
  {
    assert e[1] == UNPLACED;
    assert e[All[4]] != UNPLACED by { assert placed[0] == 4; }
    assert e[3] == UNPLACED by {
      assert 1 in Partial[3];
      assert !DepthRule(Partial, e, 3);
    }
    AtDepthOfAll(e, UNPLACED);
    assert placed == placed[..1];
  }

  /** The mutual pair's nodes without dependencies are 2, 3 and 4. */
  lemma PairRoots()
    ensures Roots(Pair, All) == [2, 3, 4]
  {
    assert 1 in Pair[0] && 0 in Pair[1];
    RootsOfAll(Pair);
  }

  /** The partial cycle's only node without dependencies is 4. */
  lemma PartialRoots()
    ensures Roots(Partial, All) == [4]
  {
    assert 1 in Partial[0] && 2 in Partial[1] && 0 in Partial[2] && 1 in Partial[3];
    RootsOfAll(Partial);
  }

  /** A list holding two different nodes has at least two entries. */
  lemma WaitingCount(w: seq<nat>, a: nat, b: nat)
    requires a != b && a in w && b in w
    ensures |w| >= 2
  {
  }

  /** The nodes 0 .. 4 at depth d, in order. */
  lemma AtDepthOfAll(e: seq<int>, d: int)
    requires |e| == 5
    ensures AtDepth(All, e, d) ==
      (if e[0] == d then [0] else []) + (if e[1] == d then [1] else []) + (if e[2] == d then [2] else [])
      + (if e[3] == d then [3] else []) + (if e[4] == d then [4] else [])
  {
    AtDepthOfFive(All, e, d);
  }

  /** The nodes of a five-node listing at depth d, in listing order. */
  lemma AtDepthOfFive(s: seq<nat>, e: seq<int>, d: int)
    requires |s| == 5 && forall k | 0 <= k < 5 :: s[k] < |e|
    ensures AtDepth(s, e, d) ==
      (if e[s[0]] == d then [s[0]] else []) + (if e[s[1]] == d then [s[1]] else [])
      + (if e[s[2]] == d then [s[2]] else [])
      + (if e[s[3]] == d then [s[3]] else []) + (if e[s[4]] == d then [s[4]] else [])
  {
    AtDepthFrom(s[..3], s[3], s[4], e, d);
    assert s[..3] + [s[3]] + [s[4]] == s;
  }

  /** Two more nodes extend the nodes of a three-node listing at depth d. */
  lemma AtDepthFrom(low: seq<nat>, x: nat, y: nat, e: seq<int>, d: int)
    requires |low| == 3 && low[0] < |e| && low[1] < |e| && low[2] < |e| && x < |e| && y < |e|
    ensures AtDepth(low + [x] + [y], e, d) ==
      (if e[low[0]] == d then [low[0]] else []) + (if e[low[1]] == d then [low[1]] else [])
      + (if e[low[2]] == d then [low[2]] else [])
      + (if e[x] == d then [x] else []) + (if e[y] == d then [y] else [])
  {
    AtDepthLow(low, e, d);
    AtDepthSnoc(low, e, d, x);
    AtDepthSnoc(low + [x], e, d, y);
  }

  /** The nodes of a three-node listing at depth d, in listing order. */
  lemma AtDepthLow(low: seq<nat>, e: seq<int>, d: int)
    requires |low| == 3 && low[0] < |e| && low[1] < |e| && low[2] < |e|
    ensures AtDepth(low, e, d) ==
      (if e[low[0]] == d then [low[0]] else []) + (if e[low[1]] == d then [low[1]] else [])
      + (if e[low[2]] == d then [low[2]] else [])
  {
    AtDepthSnoc([], e, d, low[0]);
    assert [] + [low[0]] == [low[0]];
    AtDepthSnoc([low[0]], e, d, low[1]);
    assert [low[0]] + [low[1]] == [low[0], low[1]];
    AtDepthSnoc([low[0], low[1]], e, d, low[2]);
    assert [low[0], low[1]] + [low[2]] == low;
  }

  /**
   * The queue-based analysis of the diamond takes 3 and 4 first, in the order the collection
   * lists them (which the drained state alone does not fix), then 1, 0 and 2, at depths 0, 0, 1, 2 and 3, and groups them as [3, 4] or [4, 3],
   * [1], [0], [2].
   */
  lemma DiamondDrained(input: seq<nat>, out: seq<nat>, deps: seq<set<nat>>, dependents: seq<set<nat>>, depth: seq<int>)
    requires |depth| == 5 && Drained(Diamond, input, out, deps, dependents, depth)
    requires |out| == 5 && Elems(out) == Elems(All)
    ensures out[2..] == [1, 0, 2] && ((out[0] == 3 && out[1] == 4) || (out[0] == 4 && out[1] == 3))
    ensures depth[3] == 0 && depth[4] == 0 && depth[1] == 1 && depth[0] == 2 && depth[2] == 3
    ensures Groups(out, out, depth, DepthBound(out, depth)) == [[out[0], out[1]], [1], [0], [2]]
  {
    assert out[2..] == [1, 0, 2] && ((out[0] == 3 && out[1] == 4) || (out[0] == 4 && out[1] == 3)) by {
      DiamondPlaced(out);
    }
    assert depth[3] == 0 && depth[4] == 0 && depth[1] == 1 && depth[0] == 2 && depth[2] == 3 by {
      RuleEverywhere(Diamond, depth, out);
      DiamondDepths(depth);
    }
    DiamondGroups(out, depth);
  }

  /**
   * Over the collection 0, 1, 2, 3, 4 of the graph test, an output that starts with the roots in
   * collection order, as the queue-based analysis guarantees, is exactly 3, 4, 1, 0, 2.
   */
  lemma DiamondDrainedInOrder(out: seq<nat>, deps: seq<set<nat>>, dependents: seq<set<nat>>, depth: seq<int>)
    requires |depth| == 5 && Drained(Diamond, All, out, deps, dependents, depth)
    requires |out| == 5 && Elems(out) == Elems(All)
    requires Roots(Diamond, All) <= out
    ensures out == [3, 4, 1, 0, 2]
  {
    DiamondRoots();
    DiamondDrained(All, out, deps, dependents, depth);
    HeadAndTail(out);
  }

  /** A five-node listing starting with 3, 4 and ending with 1, 0, 2. */
  lemma HeadAndTail(s: seq<nat>)
    requires |s| == 5 && [3, 4] <= s && s[2..] == [1, 0, 2]
    ensures s == [3, 4, 1, 0, 2]
  {
    assert s[0] == 3 && s[1] == 4;
  }

  /** The groups of a diamond listing at the depths the depth rule gives. */
  lemma DiamondGroups(s: seq<nat>, e: seq<int>)
    requires |s| == 5 && s[2..] == [1, 0, 2] && ((s[0] == 3 && s[1] == 4) || (s[0] == 4 && s[1] == 3))
    requires |e| == 5 && e[3] == 0 && e[4] == 0 && e[1] == 1 && e[0] == 2 && e[2] == 3
    ensures DepthBound(s, e) == 4 && DepthLevels(s, e, 3) == Groups(s, s, e, 4)
    ensures Groups(s, s, e, 4) == [[s[0], s[1]], [1], [0], [2]]
  {
    assert s == [s[0], s[1], 1, 0, 2];
    assert e[s[4]] == 3;
    DiamondLevels(e, s[0], s[1]);
  }

  /**
   * The queue-based analysis of the reversed diamond takes 2 first, then 0, then 1, then 3 and 4,
   * both freed when 1 is taken and queued in whichever order its former dependents come, at
   * depths 0, 1, 2, 3 and 3; its first group is [2].
   */
  lemma ReversedDrained(input: seq<nat>, out: seq<nat>, deps: seq<set<nat>>, dependents: seq<set<nat>>, depth: seq<int>)
    requires |depth| == 5 && Drained(Reversed, input, out, deps, dependents, depth)
    requires |out| == 5 && Elems(out) == Elems(All)
    ensures out[..3] == [2, 0, 1] && ((out[3] == 3 && out[4] == 4) || (out[3] == 4 && out[4] == 3))
    ensures depth[2] == 0 && depth[0] == 1 && depth[1] == 2 && depth[3] == 3 && depth[4] == 3
    ensures Groups(out, out, depth, DepthBound(out, depth)) == [[2], [0], [1], [out[3], out[4]]]
  {
    assert out[..3] == [2, 0, 1] && ((out[3] == 3 && out[4] == 4) || (out[3] == 4 && out[4] == 3)) by {
      ReversedPlaced(out);
    }
    assert depth[2] == 0 && depth[0] == 1 && depth[1] == 2 && depth[3] == 3 && depth[4] == 3 by {
      RuleEverywhere(Reversed, depth, out);
      ReversedDepths(depth);
    }
    ReversedGroups(out, depth);
  }

  /** The groups of a reversed-diamond listing at the depths the depth rule gives. */
  lemma ReversedGroups(s: seq<nat>, e: seq<int>)
    requires |s| == 5 && s[..3] == [2, 0, 1] && ((s[3] == 3 && s[4] == 4) || (s[3] == 4 && s[4] == 3))
    requires |e| == 5 && e[2] == 0 && e[0] == 1 && e[1] == 2 && e[3] == 3 && e[4] == 3
    ensures DepthBound(s, e) == 4
    ensures Groups(s, s, e, 4) == [[2], [0], [1], [s[3], s[4]]]
  {
    assert s == [2, 0, 1, s[3], s[4]];
    assert e[s[4]] == 3;
    ReversedLevels(e, s[3], s[4]);
  }

  /**
   * A listing of the reversed diamond's nodes, each once and each after its dependencies, lists
   * 2, 0 and 1 first, then 3 and 4 in either order.
   */
  lemma ReversedPlaced(p: seq<nat>)
    requires |p| == 5 && Distinct(p) && Elems(p) == Elems(All)
    requires forall j, d | 0 <= j < |p| && p[j] < |Reversed| && d in Reversed[p[j]] :: d in p[..j]
    ensures p[..3] == [2, 0, 1] && ((p[3] == 3 && p[4] == 4) || (p[3] == 4 && p[4] == 3))
  {
    assert 0 in Elems(p) && 1 in Elems(p) && 2 in Elems(p) && 3 in Elems(p) && 4 in Elems(p);
    var i0 :| 0 <= i0 < 5 && p[i0] == 0;
    var i1 :| 0 <= i1 < 5 && p[i1] == 1;
    var i2 :| 0 <= i2 < 5 && p[i2] == 2;
    var i3 :| 0 <= i3 < 5 && p[i3] == 3;
    var i4 :| 0 <= i4 < 5 && p[i4] == 4;
    Before(p, i0, i2);
    Before(p, i1, i0);
    Before(p, i3, i1);
    Before(p, i4, i1);
    assert p[3] in Elems(All) && p[4] in Elems(All);
  }

  /** The depths the depth rule gives the reversed diamond's nodes. */
  lemma ReversedDepths(e: seq<int>)
    requires forall x | 0 <= x < 5 :: DepthRule(Reversed, e, x)
    ensures |e| >= 5 && e[2] == 0 && e[0] == 1 && e[1] == 2 && e[3] == 3 && e[4] == 3
  {
    assert DepthRule(Reversed, e, 2);
    assert DepthRule(Reversed, e, 0);
    assert 2 in Reversed[0];
    assert DepthRule(Reversed, e, 1);
    assert 0 in Reversed[1];
    assert DepthRule(Reversed, e, 3);
    assert 1 in Reversed[3];
    assert DepthRule(Reversed, e, 4);
    assert 1 in Reversed[4];
  }

  /** The groups of a reversed-diamond listing that ends with 3 and 4, in either order. */
  lemma ReversedLevels(e: seq<int>, a: nat, b: nat)
    requires |e| == 5 && e[2] == 0 && e[0] == 1 && e[1] == 2 && e[3] == 3 && e[4] == 3
    requires (a == 3 && b == 4) || (a == 4 && b == 3)
    ensures Groups([2, 0, 1, a, b], [2, 0, 1, a, b], e, 4) == [[2], [0], [1], [a, b]]
  {
    var s: seq<nat> := [2, 0, 1, a, b];
    forall d | 0 <= d < 4 ensures Select(s, s, e, d) == [[2], [0], [1], [a, b]][d] {
      SelectSelf(s, e, d);
      AtDepthOfFive(s, e, d);
    }
  }
}
