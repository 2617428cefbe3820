/**
 * The queue-based analysis as a state machine over values. The analysis lists the nodes it
 * reaches: `out`, the nodes already taken from the queue, then `queue`, the nodes still in it.
 * Taking a node from the queue removes it from every dependency set of the arena; a dependent
 * whose dependency set becomes empty joins the queue one level deeper than the node just taken.
 *
 * `deps0` is the dependency relation before the analysis, `deps` the current one, `depth` the
 * recorded depths. The predicates below are the invariant of the analysis's loops; the lemmas
 * show that each step keeps it and what it gives when the queue runs dry.
 */
module KahnModel {
  import opened Digraph
  import opened Nodes
  import opened AnalysisModel

  /**
   * The collection the queue-based analysis expects: distinct nodes of the arena, closed under
   * dependencies and under dependents.
   */
  ghost predicate Isolated(deps: seq<set<nat>>, input: seq<nat>)
  {
    && Closed(deps) && Analyzable(deps, input)
    && (forall y, x | 0 <= y < |deps| && x in deps[y] && x in input :: y in input)
  }

  /** `s` lists distinct nodes of the collection, all in the arena of n nodes. */
  ghost predicate Listed(n: nat, input: seq<nat>, s: seq<nat>)
  {
    Distinct(s) && forall k | 0 <= k < |s| :: s[k] in input && s[k] < n
  }

  /** The current dependencies are the original ones less the nodes taken so far. */
  ghost predicate Remaining(deps0: seq<set<nat>>, deps: seq<set<nat>>, out: seq<nat>)
  {
    |deps| == |deps0| && forall x | 0 <= x < |deps0| :: deps[x] == deps0[x] - Elems(out)
  }

  /**
   * A node of the collection is listed exactly when all its original dependencies were taken,
   * except for the dependents in `rest`, which have not yet been looked at.
   */
  ghost predicate Reached(deps0: seq<set<nat>>, input: seq<nat>, listed: seq<nat>, out: seq<nat>, rest: set<nat>)
  {
    forall k | 0 <= k < |input| && input[k] < |deps0| ::
      input[k] in listed <==> deps0[input[k]] <= Elems(out) && input[k] !in rest
  }

  /** Every dependency of a taken node was taken before it. */
  ghost predicate Ordered(deps0: seq<set<nat>>, out: seq<nat>)
  {
    forall j, d | 0 <= j < |out| && out[j] < |deps0| && d in deps0[out[j]] :: d in out[..j]
  }

  /**
   * The listed nodes obey the depth rule and come in order of non-decreasing depth; the other
   * nodes of the collection are unplaced.
   */
  ghost predicate Leveled(deps0: seq<set<nat>>, input: seq<nat>, depth: seq<int>, listed: seq<nat>)
  {
    && (forall k | 0 <= k < |listed| :: DepthRule(deps0, depth, listed[k]))
    && (forall i, j | 0 <= i < j < |listed| && listed[i] < |depth| && listed[j] < |depth| ::
          depth[listed[i]] <= depth[listed[j]])
    && (forall k | 0 <= k < |input| && input[k] < |depth| && input[k] !in listed :: depth[input[k]] == UNPLACED)
  }

  /** No node of the queue is deeper than `top`. */
  ghost predicate Bounded(depth: seq<int>, queue: seq<nat>, top: int)
  {
    forall k | 0 <= k < |queue| && queue[k] < |depth| :: depth[queue[k]] <= top
  }

  /** The invariant of the analysis's main loop, before a node is taken from the queue. */
  ghost predicate Draining(deps0: seq<set<nat>>, input: seq<nat>, out: seq<nat>, queue: seq<nat>,
                           deps: seq<set<nat>>, depth: seq<int>)
  {
    && Isolated(deps0, input) && |depth| == |deps0|
    && Listed(|deps0|, input, out + queue)
    && Remaining(deps0, deps, out)
    && Reached(deps0, input, out + queue, out, {})
    && Ordered(deps0, out)
    && Leveled(deps0, input, depth, out + queue)
    && (queue != [] && queue[0] < |depth| ==> Bounded(depth, queue, depth[queue[0]] + 1))
  }

  /**
   * The invariant of the loop over the former dependents of the node just taken, the last of
   * `out`: `rest` holds those not yet looked at.
   */
  ghost predicate Freeing(deps0: seq<set<nat>>, input: seq<nat>, out: seq<nat>, queue: seq<nat>,
                          deps: seq<set<nat>>, depth: seq<int>, rest: set<nat>)
  {
    && Isolated(deps0, input) && |depth| == |deps0| && out != []
    && Listed(|deps0|, input, out + queue)
    && Remaining(deps0, deps, out)
    && Reached(deps0, input, out + queue, out, rest)
    && Ordered(deps0, out)
    && Leveled(deps0, input, depth, out + queue)
    && (forall y | y in rest :: y < |deps0| && y in input && out[|out| - 1] in deps0[y])
    && (out[|out| - 1] < |depth| ==> Bounded(depth, queue, depth[out[|out| - 1]] + 1))
  }

  /**
   * The state the analysis leaves behind: the taken nodes are distinct nodes of the collection,
   * each after its dependencies, leveled by depth, and detached from the rest of the arena.
   */
  ghost predicate Drained(deps0: seq<set<nat>>, input: seq<nat>, out: seq<nat>,
                          deps: seq<set<nat>>, dependents: seq<set<nat>>, depth: seq<int>)
  {
    && Listed(|deps0|, input, out) && Ordered(deps0, out) && Leveled(deps0, input, depth, out)
    && Remaining(deps0, deps, out)
    && (forall k | 0 <= k < |out| :: out[k] < |dependents| && dependents[out[k]] == {})
  }

  /** A listing of distinct nodes of a collection without repetitions is no longer than the collection. */
  lemma {:induction false} ListedFits(n: nat, input: seq<nat>, s: seq<nat>)
    requires Distinct(input) && Listed(n, input, s)
    ensures |s| <= |input|
  {
    DistinctCount(s);
    DistinctCount(input);
    assert Elems(input) == Elems(s) + (Elems(input) - Elems(s));
  }

  /**
   * After the seeding loops, with every node of the collection unplaced except the roots, at
   * depth 0, the main loop starts with nothing taken and the roots in the queue.
   */
  lemma {:induction false} DrainStart(deps0: seq<set<nat>>, input: seq<nat>, depth: seq<int>)
    requires Isolated(deps0, input) && |depth| == |deps0|
    requires forall k | 0 <= k < |input| :: depth[input[k]] == if deps0[input[k]] == {} then 0 else UNPLACED
    ensures Draining(deps0, input, [], Roots(deps0, input), deps0, depth)
  {
    var q := Roots(deps0, input);
    StartListed(deps0, input);
    StartLeveled(deps0, input, depth);
    assert Remaining(deps0, deps0, []) by {
      assert Elems([]) == {};
    }
    assert [] + q == q;
  }

  /** The roots of the collection are listed, and exactly the nodes without dependencies are. */
  lemma {:induction false} StartListed(deps0: seq<set<nat>>, input: seq<nat>)
    requires Isolated(deps0, input)
    ensures Listed(|deps0|, input, Roots(deps0, input))
    ensures Reached(deps0, input, Roots(deps0, input), [], {})
  {
    RootsDistinct(deps0, input);
  }

  /** The roots lie at depth 0, which obeys the depth rule, and the rest of the collection is unplaced. */
  lemma {:induction false} StartLeveled(deps0: seq<set<nat>>, input: seq<nat>, depth: seq<int>)
    requires Isolated(deps0, input) && |depth| == |deps0|
    requires forall k | 0 <= k < |input| :: depth[input[k]] == if deps0[input[k]] == {} then 0 else UNPLACED
    ensures Leveled(deps0, input, depth, Roots(deps0, input))
    ensures forall k | 0 <= k < |Roots(deps0, input)| :: depth[Roots(deps0, input)[k]] == 0
  {
    var q := Roots(deps0, input);
    forall k | 0 <= k < |q| ensures DepthRule(deps0, depth, q[k]) && depth[q[k]] == 0 {
      var j :| 0 <= j < |input| && input[j] == q[k];
    }
  }

  /**
   * Taking the head of the queue and removing it from every dependency set starts the loop
   * over its former dependents, which are exactly the nodes that depended on it.
   */
  lemma {:induction false} PollStep(deps0: seq<set<nat>>, input: seq<nat>, out: seq<nat>, queue: seq<nat>,
                                    deps: seq<set<nat>>, depth: seq<int>, deps': seq<set<nat>>, cleared: set<nat>)
    requires Draining(deps0, input, out, queue, deps, depth) && queue != []
    requires |deps'| == |deps0| && forall x | 0 <= x < |deps0| :: deps'[x] == deps[x] - {queue[0]}
    requires forall y | y in cleared :: y < |deps0|
    requires forall y | 0 <= y < |deps0| :: y in cleared <==> queue[0] in deps[y]
    ensures Freeing(deps0, input, out + [queue[0]], queue[1..], deps', depth, cleared)
  {
    var a := queue[0];
    var out' := out + [a];
    assert out' + queue[1..] == out + queue;
    assert (out + queue)[|out|] == a;
    assert a !in out by {
      forall j | 0 <= j < |out| ensures out[j] != a {
        assert (out + queue)[j] == out[j];
      }
    }
    assert Elems(out') == Elems(out) + {a};
    assert deps0[a] <= Elems(out) by {
      var k :| 0 <= k < |input| && input[k] == a;
    }
    forall x | 0 <= x < |deps0| ensures deps'[x] == deps0[x] - Elems(out') { }
    forall y | y in cleared ensures y in input && a in deps0[y] {
      assert a in deps[y];
      assert a in input;
    }
    forall k | 0 <= k < |input| && input[k] < |deps0|
      ensures input[k] in out' + queue[1..] <==> deps0[input[k]] <= Elems(out') && input[k] !in cleared
    {
      var x := input[k];
      if x in cleared {
        assert a in deps[x];
      }
    }
    forall j, d | 0 <= j < |out'| && out'[j] < |deps0| && d in deps0[out'[j]] ensures d in out'[..j] {
      if j < |out| {
        assert out'[..j] == out[..j];
      } else {
        assert out'[..j] == out;
      }
    }
    forall k | 0 <= k < |queue[1..]| && queue[1..][k] < |depth| ensures depth[queue[1..][k]] <= depth[a] + 1 {
      assert queue[1..][k] == queue[k + 1];
    }
  }

  /** A looked-at dependent that still has dependencies stays out of the queue. */
  lemma {:induction false} FreeBlocked(deps0: seq<set<nat>>, input: seq<nat>, out: seq<nat>, queue: seq<nat>,
                                       deps: seq<set<nat>>, depth: seq<int>, rest: set<nat>, y: nat)
    requires Freeing(deps0, input, out, queue, deps, depth, rest)
    requires y in rest && deps[y] != {}
    ensures Freeing(deps0, input, out, queue, deps, depth, rest - {y})
  {
    assert !(deps0[y] <= Elems(out));
  }

  /**
   * A looked-at dependent without dependencies joins the queue one level deeper than the node
   * just taken, which is one deeper than the deepest of its dependencies.
   */
  lemma {:induction false} FreeReady(deps0: seq<set<nat>>, input: seq<nat>, out: seq<nat>, queue: seq<nat>,
                                     deps: seq<set<nat>>, depth: seq<int>, rest: set<nat>, y: nat)
    requires Freeing(deps0, input, out, queue, deps, depth, rest)
    requires y in rest && deps[y] == {}
    ensures Freeing(deps0, input, out, queue + [y], deps, depth[y := depth[out[|out| - 1]] + 1], rest - {y})
  {
    ReadyListed(deps0, input, out, queue, deps, depth, rest, y);
    ReadyLeveled(deps0, input, out, queue, deps, depth, rest, y);
    ReadyBounded(deps0, input, out, queue, deps, depth, rest, y);
  }

  /** A dependent being looked at is not yet listed, and all its dependencies were taken. */
  lemma {:induction false} ReadyFresh(deps0: seq<set<nat>>, input: seq<nat>, out: seq<nat>, queue: seq<nat>,
                                 deps: seq<set<nat>>, depth: seq<int>, rest: set<nat>, y: nat)
    requires Freeing(deps0, input, out, queue, deps, depth, rest)
    requires y in rest && deps[y] == {}
    ensures y < |deps0| && y !in out + queue && y !in out
    ensures deps0[y] <= Elems(out) && out[|out| - 1] in deps0[y]
  {
    assert y !in out + queue by {
      var k :| 0 <= k < |input| && input[k] == y;
    }
    forall i | 0 <= i < |out| ensures out[i] != y {
      assert (out + queue)[i] == out[i];
    }
    forall d | d in deps0[y] ensures d in Elems(out) {
      assert d !in deps[y];
    }
  }

  /** The freed dependent is listed once more, at the end, and is no longer pending. */
  lemma {:induction false} ReadyListed(deps0: seq<set<nat>>, input: seq<nat>, out: seq<nat>, queue: seq<nat>,
                                 deps: seq<set<nat>>, depth: seq<int>, rest: set<nat>, y: nat)
    requires Freeing(deps0, input, out, queue, deps, depth, rest)
    requires y in rest && deps[y] == {}
    ensures Listed(|deps0|, input, out + (queue + [y]))
    ensures Reached(deps0, input, out + (queue + [y]), out, rest - {y})
  {
    ReadyFresh(deps0, input, out, queue, deps, depth, rest, y);
    assert out + (queue + [y]) == (out + queue) + [y];
  }

  /** The freed dependent's depth obeys the depth rule and is at least every listed depth. */
  lemma {:induction false} ReadyLeveled(deps0: seq<set<nat>>, input: seq<nat>, out: seq<nat>, queue: seq<nat>,
                                 deps: seq<set<nat>>, depth: seq<int>, rest: set<nat>, y: nat)
    requires Freeing(deps0, input, out, queue, deps, depth, rest)
    requires y in rest && deps[y] == {}
    ensures Leveled(deps0, input, depth[y := depth[out[|out| - 1]] + 1], out + (queue + [y]))
  {
    ReadyFresh(deps0, input, out, queue, deps, depth, rest, y);
    ReadyRules(deps0, input, out, queue, deps, depth, rest, y);
    ReadySorted(deps0, input, out, queue, deps, depth, rest, y);
    assert out + (queue + [y]) == (out + queue) + [y];
  }

  /** Placing the freed dependent keeps the depth rule of the listed nodes and gives it its own. */
  lemma {:induction false} ReadyRules(deps0: seq<set<nat>>, input: seq<nat>, out: seq<nat>, queue: seq<nat>,
                                 deps: seq<set<nat>>, depth: seq<int>, rest: set<nat>, y: nat)
    requires Freeing(deps0, input, out, queue, deps, depth, rest)
    requires y in rest && deps[y] == {}
    ensures forall k | 0 <= k < |out + queue| ::
              DepthRule(deps0, depth[y := depth[out[|out| - 1]] + 1], (out + queue)[k])
    ensures DepthRule(deps0, depth[y := depth[out[|out| - 1]] + 1], y)
  {
    ListedRulesKept(deps0, input, out, queue, deps, depth, rest, y);
    ReadyRuleOwn(deps0, input, out, queue, deps, depth, rest, y);
  }

  /** Giving the freed dependent a depth keeps the depth rule of the listed nodes. */
  lemma {:induction false} ListedRulesKept(deps0: seq<set<nat>>, input: seq<nat>, out: seq<nat>, queue: seq<nat>,
                                 deps: seq<set<nat>>, depth: seq<int>, rest: set<nat>, y: nat)
    requires Freeing(deps0, input, out, queue, deps, depth, rest)
    requires y in rest && deps[y] == {}
    ensures forall k | 0 <= k < |out + queue| ::
              DepthRule(deps0, depth[y := depth[out[|out| - 1]] + 1], (out + queue)[k])
  {
    ReadyFresh(deps0, input, out, queue, deps, depth, rest, y);
    var listed := out + queue;
    var depth' := depth[y := depth[out[|out| - 1]] + 1];
    forall k | 0 <= k < |listed| ensures DepthRule(deps0, depth', listed[k]) {
      var x := listed[k];
      assert DepthRule(deps0, depth, x);
      assert y !in deps0[x] by {
        var j :| 0 <= j < |input| && input[j] == x;
      }
    }
  }

  /** The freed dependent, placed one deeper than the last output node, keeps the depth rule. */
  lemma {:induction false} ReadyRuleOwn(deps0: seq<set<nat>>, input: seq<nat>, out: seq<nat>, queue: seq<nat>,
                                 deps: seq<set<nat>>, depth: seq<int>, rest: set<nat>, y: nat)
    requires Freeing(deps0, input, out, queue, deps, depth, rest)
    requires y in rest && deps[y] == {}
    ensures DepthRule(deps0, depth[y := depth[out[|out| - 1]] + 1], y)
  {
    ReadyFresh(deps0, input, out, queue, deps, depth, rest, y);
    var a := out[|out| - 1];
    var listed := out + queue;
    assert listed[|out| - 1] == a;
    assert DepthRule(deps0, depth, a);
    forall d | d in deps0[y] ensures 0 <= depth[d] <= depth[a] {
      var i :| 0 <= i < |out| && out[i] == d;
      assert listed[i] == d;
      assert DepthRule(deps0, depth, listed[i]);
      if i < |out| - 1 {
        assert depth[listed[i]] <= depth[listed[|out| - 1]];
      }
    }
  }

  /** The freed dependent is at least as deep as every listed node. */
  lemma {:induction false} ReadySorted(deps0: seq<set<nat>>, input: seq<nat>, out: seq<nat>, queue: seq<nat>,
                                 deps: seq<set<nat>>, depth: seq<int>, rest: set<nat>, y: nat)
    requires Freeing(deps0, input, out, queue, deps, depth, rest)
    requires y in rest && deps[y] == {}
    ensures forall i, j | 0 <= i < j < |(out + queue) + [y]| &&
              ((out + queue) + [y])[i] < |depth| && ((out + queue) + [y])[j] < |depth| ::
              depth[y := depth[out[|out| - 1]] + 1][((out + queue) + [y])[i]] <=
              depth[y := depth[out[|out| - 1]] + 1][((out + queue) + [y])[j]]
  {
    ReadyFresh(deps0, input, out, queue, deps, depth, rest, y);
    var a := out[|out| - 1];
    var listed := out + queue;
    var listed' := listed + [y];
    var depth' := depth[y := depth[a] + 1];
    assert listed[|out| - 1] == a;
    forall i, j | 0 <= i < j < |listed'| && listed'[i] < |depth| && listed'[j] < |depth|
      ensures depth'[listed'[i]] <= depth'[listed'[j]]
    {
      if j == |listed| {
        if i < |out| - 1 {
          assert depth[listed[i]] <= depth[listed[|out| - 1]];
        } else if i >= |out| {
          assert listed[i] == queue[i - |out|];
        }
      } else {
        assert listed'[i] == listed[i] && listed'[j] == listed[j];
      }
    }
  }

  /** The freed dependent sits at the queue's depth bound, which stays one below the node just taken. */
  lemma {:induction false} ReadyBounded(deps0: seq<set<nat>>, input: seq<nat>, out: seq<nat>, queue: seq<nat>,
                                        deps: seq<set<nat>>, depth: seq<int>, rest: set<nat>, y: nat)
    requires Freeing(deps0, input, out, queue, deps, depth, rest)
    requires y in rest && deps[y] == {}
    ensures Bounded(depth[y := depth[out[|out| - 1]] + 1], queue + [y], depth[out[|out| - 1]] + 1)
    ensures y != out[|out| - 1]
  {
    var a := out[|out| - 1];
    var depth' := depth[y := depth[a] + 1];
    assert a in Elems(out);
    assert y !in Elems(out) by {
      var k :| 0 <= k < |input| && input[k] == y;
      assert y !in out + queue;
    }
    forall k | 0 <= k < |queue + [y]| && (queue + [y])[k] < |depth'| ensures depth'[(queue + [y])[k]] <= depth[a] + 1 {
      if k < |queue| {
        assert (queue + [y])[k] == queue[k] == (out + queue)[|out| + k];
      }
    }
  }

  /** When every former dependent was looked at, the main loop's invariant holds again. */
  lemma {:induction false} FreeEnd(deps0: seq<set<nat>>, input: seq<nat>, out: seq<nat>, queue: seq<nat>,
                                   deps: seq<set<nat>>, depth: seq<int>)
    requires Freeing(deps0, input, out, queue, deps, depth, {})
    ensures Draining(deps0, input, out, queue, deps, depth)
  {
    if queue != [] {
      var listed := out + queue;
      assert listed[|out| - 1] == out[|out| - 1] && listed[|out|] == queue[0];
      assert DepthRule(deps0, depth, listed[|out| - 1]) && DepthRule(deps0, depth, listed[|out|]);
    }
  }

  /**
   * When the queue runs dry, the taken nodes are distinct nodes of the collection in an order
   * where every dependency comes first, with depths that obey the depth rule and never decrease;
   * all of the collection was taken exactly when it holds no circular dependency.
   */
  lemma {:induction false} DrainEnd(deps0: seq<set<nat>>, input: seq<nat>, out: seq<nat>, deps: seq<set<nat>>, depth: seq<int>)
    requires Draining(deps0, input, out, [], deps, depth)
    ensures Listed(|deps0|, input, out) && Remaining(deps0, deps, out) && Ordered(deps0, out)
    ensures Leveled(deps0, input, depth, out)
    ensures Distinct(out) && Elems(out) <= Elems(input)
    ensures forall k | 0 <= k < |out| :: DepthRule(deps0, depth, out[k])
    ensures forall k | 0 <= k < |out| :: out[k] < |depth|
    ensures forall i, j | 0 <= i < j < |out| :: depth[out[i]] <= depth[out[j]]
    ensures forall j, d | 0 <= j < |out| && out[j] < |deps0| && d in deps0[out[j]] :: d in out[..j]
    ensures forall k | 0 <= k < |input| && input[k] < |depth| && input[k] !in out :: depth[input[k]] == UNPLACED
    ensures |out| == |input| <==> !HasCycleIn(deps0, Elems(input))
    ensures |out| == |input| ==> Elems(out) == Elems(input)
  {
    assert out + [] == out;
    var w := Elems(input) - Elems(out);
    DistinctCover(out, input);
    if w == {} {
      TopologicalNoCycle(deps0, out);
    } else {
      DrainStuck(deps0, input, out, deps, depth);
      StuckHasCycle(deps0, w, Elems(input));
    }
  }

  /** A listing of distinct nodes drawn from a collection without repetitions covers it exactly when it is as long. */
  lemma {:induction false} DistinctCover(s: seq<nat>, t: seq<nat>)
    requires Distinct(s) && Distinct(t) && Elems(s) <= Elems(t)
    ensures |s| == |t| <==> Elems(t) - Elems(s) == {}
    ensures |s| == |t| <==> Elems(s) == Elems(t)
  {
    DistinctCount(s);
    DistinctCount(t);
    assert Elems(t) == Elems(s) + (Elems(t) - Elems(s));
  }

  /** The nodes of the collection left untaken each wait on another of them. */
  lemma {:induction false} DrainStuck(deps0: seq<set<nat>>, input: seq<nat>, out: seq<nat>, deps: seq<set<nat>>, depth: seq<int>)
    requires Draining(deps0, input, out, [], deps, depth)
    ensures Stuck(deps0, Elems(input) - Elems(out))
  {
    assert out + [] == out;
    var w := Elems(input) - Elems(out);
    forall x | x in w ensures x < |deps0| && exists d :: d in deps0[x] && d in w {
      var k :| 0 <= k < |input| && input[k] == x;
      var d :| d in deps0[x] && d !in Elems(out);
    }
  }

  /** When the queue runs dry with the edges mirrored, the analysis has drained. */
  lemma {:induction false} DrainDone(deps0: seq<set<nat>>, input: seq<nat>, out: seq<nat>,
                                        deps: seq<set<nat>>, dependents: seq<set<nat>>, depth: seq<int>)
    requires Draining(deps0, input, out, [], deps, depth) && Mirrored(deps, dependents)
    ensures Drained(deps0, input, out, deps, dependents, depth)
    ensures |out| == |input| <==> !HasCycleIn(deps0, Elems(input))
    ensures |out| == |input| ==> Elems(out) == Elems(input)
  {
    DrainEnd(deps0, input, out, deps, depth);
    TakenDetached(deps0, deps, dependents, out);
  }

  /** A non-empty collection without roots holds a circular dependency. */
  lemma {:induction false} RootsEmpty(deps0: seq<set<nat>>, input: seq<nat>)
    requires Isolated(deps0, input) && Roots(deps0, input) == [] && |input| > 0
    ensures HasCycleIn(deps0, Elems(input))
  {
    forall x | x in Elems(input) ensures x < |deps0| && exists d :: d in deps0[x] && d in Elems(input) {
      var k :| 0 <= k < |input| && input[k] == x;
      var d :| d in deps0[x];
    }
    assert input[0] in Elems(input);
    StuckHasCycle(deps0, Elems(input), Elems(input));
  }

  /** With the edges mirrored, a taken node is nobody's dependency, so it has no dependents left. */
  lemma {:induction false} TakenDetached(deps0: seq<set<nat>>, deps: seq<set<nat>>, dependents: seq<set<nat>>, out: seq<nat>)
    requires Mirrored(deps, dependents) && Remaining(deps0, deps, out)
    requires forall k | 0 <= k < |out| :: out[k] < |deps|
    ensures forall k | 0 <= k < |out| :: dependents[out[k]] == {}
  {
    forall k | 0 <= k < |out| ensures dependents[out[k]] == {} {
      var x := out[k];
      assert x in Elems(out);
      assert forall y | y in dependents[x] :: x in deps[y];
    }
  }
}
