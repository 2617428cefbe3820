/**
 * The array-based analyzer. Nodes without dependencies are placed first, at depth 0; the
 * remaining nodes wait in the `cycle` array, which every pass rescans and compacts in place,
 * placing a node once all of its dependencies have a depth, at one more than the deepest of
 * them. A pass that places nothing ends the analysis as cyclic.
 *
 * Every method is proved to leave the arrays and the recorded depths exactly as the functions of
 * module AnalysisModel compute them; what the analysis promises about its result is proved there.
 */
module Analyzer {
  import opened Wrappers
  import opened Digraph
  import opened Levels
  import opened Nodes
  import opened AnalysisModel

  /**
   * The least and the greatest depth among the dependencies `deps`, starting from n and from
   * UNPLACED respectively, scanned one dependency at a time.
   */
  method DependencyDepths(deps: set<nat>, depth: seq<int>, n: int) returns (min: int, max: int)
    requires forall d | d in deps :: d < |depth|
    ensures min == LeastDepth(deps, depth, n)
    ensures max == GreatestDepth(deps, depth)
  {
    min, max := n, UNPLACED;
    var rest := deps;
    while rest != {}
      invariant rest <= deps
      invariant min <= n && (forall d | d in deps - rest :: min <= depth[d])
      invariant min == n || exists d | d in deps - rest :: depth[d] == min
      invariant max >= UNPLACED && (forall d | d in deps - rest :: depth[d] <= max)
      invariant max == UNPLACED || exists d | d in deps - rest :: depth[d] == max
      decreases rest
    {
      var dependency :| dependency in rest;
      min := Min(min, depth[dependency]);
      max := Max(max, depth[dependency]);
      rest := rest - {dependency};
    }
    LeastDepthUnique(deps, depth, n, min);
    GreatestDepthUnique(deps, depth, max);
  }

  /**
   * Groups the first `size` entries of `vs` by the depth of the node at the same entry of `s`,
   * one list per depth from 0 to `maximum`, each in entry order: the level arrays of the
   * analyzer. A negative level count throws on allocation, and the first node whose depth names
   * no level throws on indexing.
   */
  method GroupByDepth<X>(s: array<nat>, vs: array<X>, size: nat, depth: seq<int>, maximum: int)
    returns (r: Result<seq<seq<X>>, LevelError>)
    requires size <= s.Length && size <= vs.Length
    requires forall k | 0 <= k < size :: s[k] < |depth|
    ensures maximum < -1 ==> r == Failure(NegativeSize(maximum + 1))
    ensures -1 <= maximum ==> (r.Success? <==> forall k | 0 <= k < size :: 0 <= depth[s[k]] <= maximum)
    ensures r.Success? ==> -1 <= maximum && r.value == Groups(s[..size], vs[..size], depth, maximum + 1)
    ensures r.Success? ==> multiset(Flatten(r.value)) == multiset(vs[..size])
    ensures r.Failure? && -1 <= maximum ==> exists k | 0 <= k < size ::
      && r.error == DepthOutOfRange(s[k], depth[s[k]]) && !(0 <= depth[s[k]] <= maximum)
      && forall j | 0 <= j < k :: 0 <= depth[s[j]] <= maximum
  {
    if maximum < -1 {
      return Failure(NegativeSize(maximum + 1));
    }
    var levels := new seq<X>[maximum + 1](_ => []);
    for i := 0 to size
      invariant levels[..] == Groups(s[..i], vs[..i], depth, maximum + 1)
      invariant forall k | 0 <= k < i :: 0 <= depth[s[k]] <= maximum
    {
      var d := depth[s[i]];
      if d < 0 || maximum < d {
        return Failure(DepthOutOfRange(s[i], d));
      }
      assert s[..i + 1][..i] == s[..i] && vs[..i + 1][..i] == vs[..i];
      GroupsSnoc(s[..i + 1], vs[..i + 1], depth, maximum + 1);
      levels[d] := levels[d] + [vs[i]];
    }
    GroupsArePermutation(s[..size], vs[..size], depth, maximum + 1);
    return Success(levels[..]);
  }

  /** The arena holds one dependency set per node, naming only nodes of the arena. */
  ghost predicate Ready<T>(g: Arena<T>)
    reads g`values, g`dependencies
  {
    |g.dependencies| == |g.values| && Closed(g.dependencies)
  }

  class DependencyAnalyzer<T(==)> {
    /** The nodes of the last analysis, in collection order. */
    var nodes: seq<nat>
    /** The waiting nodes: the first `cycleSize` entries of `cycle`. */
    var cycle: array<nat>
    var cycleSize: nat
    /** The placed nodes: the first `orderedSize` entries of `orderedNodes`. */
    var orderedNodes: array<nat>
    var orderedSize: nat
    /** The values of the placed nodes, entry by entry. */
    var ordered: array<Option<T>>
    var maximumDepth: int
    var valid: bool
    /** The position recorded for each placed node. */
    var index: map<nat, nat>

    /** The three arrays have one length, each live part fits in it, and the two node arrays are distinct. */
    ghost predicate Valid()
      reads this`cycle, this`orderedNodes, this`ordered, this`cycleSize, this`orderedSize
    {
      && cycle.Length == orderedNodes.Length == ordered.Length
      && cycleSize <= cycle.Length && orderedSize <= cycle.Length
      && cycle != orderedNodes
    }

    /** The analyzer's state as the analysis model sees it. */
    ghost function State(g: Arena<T>): (r: Run)
      reads this`cycle, this`orderedNodes, this`ordered, this`cycleSize, this`orderedSize
      reads this`maximumDepth, g`depth, cycle, orderedNodes
      requires Valid()
      ensures r.waiting == cycle[..cycleSize] && r.placed == orderedNodes[..orderedSize]
    {
      Run(g.depth, cycle[..cycleSize], orderedNodes[..orderedSize], maximumDepth)
    }

    /** The values and the recorded positions follow the placed nodes. */
    ghost predicate Recorded(g: Arena<T>)
      reads this`cycle, this`orderedNodes, this`ordered, this`cycleSize, this`orderedSize
      reads this`index, g`values, orderedNodes, ordered
      requires Valid()
    {
      && ordered[..orderedSize] == ValuesOf(g.values, orderedNodes[..orderedSize])
      && index == IndexOf(orderedNodes[..orderedSize])
    }

    /** An analyzer before any analysis: nothing placed, nothing waiting, maximum depth -1, not valid. */
    constructor ()
      ensures Valid()
      ensures nodes == [] && cycleSize == 0 && orderedSize == 0 && index == map[]
      ensures maximumDepth == UNPLACED && !valid
    {
      nodes := [];
      cycle := new nat[0];
      cycleSize := 0;
      orderedNodes := new nat[0];
      orderedSize := 0;
      ordered := new Option<T>[0];
      maximumDepth := UNPLACED;
      valid := false;
      index := map[];
    }

    /** Places node dn at depth d: records its depth and position and appends it and its value. */
    method AddOrdered(g: Arena<T>, d: int, dn: nat)
      requires Valid() && dn < |g.values| == |g.depth| && Recorded(g)
      requires orderedSize < orderedNodes.Length
      modifies this`orderedSize, this`index, orderedNodes, ordered, g`depth
      ensures Valid() && Recorded(g)
      ensures g.depth == old(g.depth)[dn := d]
      ensures orderedSize == old(orderedSize) + 1
      ensures index == old(index)[dn := old(orderedSize)]
      ensures orderedNodes[..orderedSize] == old(orderedNodes[..orderedSize]) + [dn]
      ensures ordered[..orderedSize] == old(ordered[..orderedSize]) + [g.values[dn]]
    {
      g.SetDepth(dn, d);
      index := index[dn := orderedSize];
      ordered[orderedSize] := g.values[dn];
      orderedNodes[orderedSize] := dn;
      orderedSize := orderedSize + 1;
      assert orderedNodes[..orderedSize][..orderedSize - 1] == old(orderedNodes[..orderedSize]);
    }

    /**
     * Seeds node dn: a node with dependencies is marked unplaced and appended to the waiting
     * nodes, any other node is placed at depth 0.
     */
    method SeedNode(g: Arena<T>, ghost deps: seq<set<nat>>, ghost r: Run, dn: nat)
      requires Valid() && g.Valid() && Recorded(g) && dn < |g.values| && g.dependencies == deps
      requires cycleSize + orderedSize < cycle.Length && State(g) == r
      modifies this`cycleSize, this`orderedSize, this`index, cycle, orderedNodes, ordered, g`depth
      ensures Valid() && g.Valid() && Recorded(g) && g.dependencies == deps
      ensures cycleSize + orderedSize == old(cycleSize + orderedSize) + 1
      ensures State(g) == Sow(deps, r, dn)
    {
      if g.HasDependencies(dn) {
        ghost var waiting := cycle[..cycleSize];
        g.SetDepth(dn, UNPLACED);
        cycle[cycleSize] := dn;
        cycleSize := cycleSize + 1;
        assert cycle[..cycleSize] == waiting + [dn];
      } else {
        AddOrdered(g, 0, dn);
      }
    }

    /**
     * The start of an analysis: fresh output arrays for `input`, maximum depth 0, then every node
     * without dependencies placed at depth 0 and every other node waiting at UNPLACED, in
     * collection order.
     */
    method Initialize(g: Arena<T>, input: seq<nat>)
      requires g.Valid() && forall k | 0 <= k < |input| :: input[k] < |g.values|
      modifies this, g`depth
      ensures Valid() && g.Valid() && Recorded(g) && cycleSize + orderedSize == |input|
      ensures fresh(cycle) && fresh(orderedNodes) && fresh(ordered) && cycle.Length == |input|
      ensures nodes == input && valid
      ensures State(g) == Seed(g.dependencies, old(g.depth), input, |input|)
    {
      Allocate(g, input);
      SeedAll(g, input);
    }

    /** Fresh arrays of `input`'s length, nothing waiting or placed, maximum depth 0. */
    method Allocate(g: Arena<T>, input: seq<nat>)
      requires g.Valid() && forall k | 0 <= k < |input| :: input[k] < |g.values|
      modifies this
      ensures Valid() && Recorded(g) && cycleSize == 0 && orderedSize == 0
      ensures fresh(cycle) && fresh(orderedNodes) && fresh(ordered) && cycle.Length == |input|
      ensures nodes == input && valid
      ensures State(g) == Seed(g.dependencies, g.depth, input, 0)
    {
      var n := |input|;
      var waiting := new nat[n];
      var placed := new nat[n];
      var values := new Option<T>[n];
      nodes, cycle, cycleSize, orderedNodes, orderedSize, ordered := input, waiting, 0, placed, 0, values;
      index, maximumDepth, valid := map[], 0, true;
    }

    /** Seeds the nodes of `input` in collection order, starting from empty waiting and placed lists. */
    method SeedAll(g: Arena<T>, input: seq<nat>)
      requires Valid() && g.Valid() && Recorded(g) && cycle.Length == |input|
      requires forall k | 0 <= k < |input| :: input[k] < |g.values|
      requires State(g) == Seed(g.dependencies, g.depth, input, 0)
      modifies this`cycleSize, this`orderedSize, this`index, cycle, orderedNodes, ordered, g`depth
      ensures Valid() && g.Valid() && Recorded(g) && cycleSize + orderedSize == |input|
      ensures State(g) == Seed(g.dependencies, old(g.depth), input, |input|)
    {
      ghost var deps, depth0 := g.dependencies, g.depth;
      ghost var runs := SeedTrace(deps, depth0, input);
      for i := 0 to |input|
        invariant Valid() && g.Valid() && Recorded(g) && cycle.Length == |input| && g.dependencies == deps
        invariant cycleSize + orderedSize == i
        invariant State(g) == runs[i]
      {
        SeedNext(deps, depth0, input, i);
        SeedNode(g, deps, runs[i], input[i]);
      }
      assert runs[|input|] == Seed(deps, depth0, input, |input|);
    }

    /**
     * Visits the waiting node at entry i of `cycle` while the first `kept` entries hold the nodes
     * kept so far in the pass, and the analyzer is in run r: when every dependency of the node
     * has a depth, it is placed one deeper than the deepest of them and the maximum depth
     * follows; otherwise it is kept, at entry `kept`. Either way the new run is the model's visit.
     */
    method VisitNode(g: Arena<T>, n: nat, ghost deps: seq<set<nat>>, ghost r: Run, ghost x: nat, i: nat, kept: nat)
      returns (kept': nat)
      requires Valid() && Ready(g) && |g.depth| == |g.values| && Recorded(g) && g.dependencies == deps
      requires i < cycle.Length && cycle[i] == x && x < |g.values|
      requires orderedSize + kept < cycle.Length && kept <= i
      requires r == Run(g.depth, cycle[..kept], orderedNodes[..orderedSize], maximumDepth)
      modifies this`orderedSize, this`index, this`maximumDepth, cycle, orderedNodes, ordered, g`depth
      ensures Valid() && |g.depth| == |g.values| && Recorded(g) && g.dependencies == deps
      ensures orderedSize + kept' == old(orderedSize) + kept + 1 && kept' <= i + 1
      ensures forall j | i < j < cycle.Length :: cycle[j] == old(cycle[j])
      ensures Run(g.depth, cycle[..kept'], orderedNodes[..orderedSize], maximumDepth) == Visit(deps, n, r, x)
    {
      var dn := cycle[i];
      ghost var depth, waiting, placed, maximum := g.depth, cycle[..kept], orderedNodes[..orderedSize], maximumDepth;
      var min, max := DependencyDepths(g.dependencies[dn], g.depth, n);
      VisitOutcome(deps, n, depth, waiting, placed, maximum, x, min, max);
      if min != UNPLACED {
        PlaceNode(g, max + 1, dn, kept, depth, waiting, placed, maximum);
        kept' := kept;
      } else {
        KeepNode(g, kept, dn, depth, waiting, placed, maximum);
        kept' := kept + 1;
      }
    }

    /** Places node dn at depth d and lets the maximum depth follow its recorded depth. */
    method PlaceNode(g: Arena<T>, d: int, dn: nat, ghost kept: nat,
                     ghost depth: seq<int>, ghost waiting: seq<nat>, ghost placed: seq<nat>, ghost maximum: int)
      requires Valid() && dn < |g.values| == |g.depth| && Recorded(g)
      requires orderedSize < orderedNodes.Length && kept <= cycle.Length
      requires Run(g.depth, cycle[..kept], orderedNodes[..orderedSize], maximumDepth) == Run(depth, waiting, placed, maximum)
      modifies this`orderedSize, this`index, this`maximumDepth, orderedNodes, ordered, g`depth
      ensures Valid() && Recorded(g) && |g.depth| == |g.values|
      ensures orderedSize == old(orderedSize) + 1
      ensures Run(g.depth, cycle[..kept], orderedNodes[..orderedSize], maximumDepth)
        == Run(depth[dn := d], waiting, placed + [dn], Max(maximum, d))
    {
      AddOrdered(g, d, dn);
      maximumDepth := Max(maximumDepth, g.depth[dn]);
    }

    /** Keeps node dn waiting, at entry `kept` of `cycle`, after the nodes kept before it. */
    method KeepNode(g: Arena<T>, kept: nat, dn: nat,
                    ghost depth: seq<int>, ghost waiting: seq<nat>, ghost placed: seq<nat>, ghost maximum: int)
      requires Valid() && Recorded(g) && kept < cycle.Length
      requires Run(g.depth, cycle[..kept], orderedNodes[..orderedSize], maximumDepth) == Run(depth, waiting, placed, maximum)
      modifies cycle
      ensures Valid() && Recorded(g)
      ensures Run(g.depth, cycle[..kept + 1], orderedNodes[..orderedSize], maximumDepth)
        == Run(depth, waiting + [dn], placed, maximum)
      ensures forall j | kept < j < cycle.Length :: cycle[j] == old(cycle[j])
    {
      cycle[kept] := dn;
      assert cycle[..kept + 1] == old(cycle[..kept]) + [dn];
    }

    /**
     * One pass over the waiting nodes: each node whose dependencies all have a depth is placed
     * at one more than the deepest of them, and the others are compacted to the front of
     * `cycle`, in their order. The pass reports whether it placed any node, and only then
     * shortens the waiting list.
     */
    method PlacePass(g: Arena<T>, n: nat) returns (progress: bool)
      requires Valid() && Ready(g) && |g.depth| == |g.values| && Recorded(g) && cycleSize + orderedSize <= cycle.Length
      requires forall k | 0 <= k < cycleSize :: cycle[k] < |g.values|
      modifies this`cycleSize, this`orderedSize, this`index, this`maximumDepth, cycle, orderedNodes, ordered, g`depth
      ensures Valid() && |g.depth| == |g.values| && Recorded(g) && cycleSize + orderedSize == old(cycleSize + orderedSize)
      ensures State(g) == Pass(g.dependencies, n, Restarted(old(State(g))), old(cycle[..cycleSize]), old(cycleSize))
      ensures progress <==> cycleSize != old(cycleSize)
    {
      var newlyCycled := Sweep(g, n);
      progress := newlyCycled != cycleSize;
      if progress {
        cycleSize := newlyCycled;
      }
    }

    /**
     * Where the loop of a pass stands after visiting the first i of the waiting nodes `w`, of
     * which `kept` were kept: the analyzer is in state `runs[i]`, and the entries of `cycle` from
     * i on still hold the unvisited nodes.
     */
    ghost predicate Sweeping(g: Arena<T>, deps: seq<set<nat>>, runs: seq<Run>, w: seq<nat>, total: nat, i: nat, kept: nat)
      reads this`cycle, this`orderedNodes, this`ordered, this`cycleSize, this`orderedSize
      reads this`index, this`maximumDepth, g`values, g`depth, g`dependencies, cycle, orderedNodes, ordered
    {
      && Valid() && Ready(g) && |g.depth| == |g.values| && Recorded(g) && g.dependencies == deps
      && i <= |w| == cycleSize && |runs| == |w| + 1 && (forall j | 0 <= j < |w| :: w[j] < |deps|)
      && kept <= i && orderedSize + kept + (|w| - i) == total <= cycle.Length
      && (forall j | i <= j < |w| :: cycle[j] == w[j])
      && Run(g.depth, cycle[..kept], orderedNodes[..orderedSize], maximumDepth) == runs[i]
    }

    /**
     * One step of the loop of a pass: visits the waiting node at entry i, moving the analyzer
     * from the model's pass state for i, `runs[i]`, to the one for i + 1.
     */
    method SweepStep(g: Arena<T>, n: nat, ghost deps: seq<set<nat>>, ghost r0: Run, ghost runs: seq<Run>,
                     ghost w: seq<nat>, ghost total: nat, i: nat, kept: nat) returns (kept': nat)
      requires Sweeping(g, deps, runs, w, total, i, kept) && i < |w| && |r0.depth| == |deps|
      requires forall k {:trigger Pass(deps, n, r0, w, k)} | 0 <= k <= |w| :: runs[k] == Pass(deps, n, r0, w, k)
      modifies this`orderedSize, this`index, this`maximumDepth, cycle, orderedNodes, ordered, g`depth
      ensures Sweeping(g, deps, runs, w, total, i + 1, kept')
    {
      PassNext(deps, n, r0, w, i);
      kept' := VisitNode(g, n, deps, runs[i], w[i], i, kept);
    }

    /**
     * The loop of a pass: visits the waiting nodes in order and returns how many were kept, at
     * the front of `cycle`; the waiting count itself is left for the caller to update.
     */
    method Sweep(g: Arena<T>, n: nat) returns (kept: nat)
      requires Valid() && Ready(g) && |g.depth| == |g.values| && Recorded(g) && cycleSize + orderedSize <= cycle.Length
      requires forall k | 0 <= k < cycleSize :: cycle[k] < |g.values|
      modifies this`orderedSize, this`index, this`maximumDepth, cycle, orderedNodes, ordered, g`depth
      ensures Valid() && |g.depth| == |g.values| && Recorded(g)
      ensures kept <= cycleSize && kept + orderedSize == old(cycleSize + orderedSize)
      ensures Run(g.depth, cycle[..kept], orderedNodes[..orderedSize], maximumDepth)
        == Pass(g.dependencies, n, Restarted(old(State(g))), old(cycle[..cycleSize]), cycleSize)
    {
      ghost var r0 := Restarted(State(g));
      ghost var w, deps := cycle[..cycleSize], g.dependencies;
      ghost var total := orderedSize + cycleSize;
      ghost var runs := PassTrace(deps, n, r0, w);
      kept := 0;
      for i := 0 to cycleSize
        invariant Sweeping(g, deps, runs, w, total, i, kept)
      {
        kept := SweepStep(g, n, deps, r0, runs, w, total, i, kept);
      }
      assert runs[|w|] == Pass(deps, n, r0, w, |w|);
    }

    /**
     * Analyzes `input`, exactly as the analysis model computes it from the depths recorded
     * before the call; for a collection of distinct nodes closed under dependencies the result
     * is true exactly when the collection is non-empty and holds no circular dependency.
     */
    method Analyze(g: Arena<T>, input: seq<nat>) returns (result: bool)
      requires g.Valid() && forall k | 0 <= k < |input| :: input[k] < |g.values|
      modifies this, g`depth
      ensures Valid() && g.Valid() && Recorded(g)
      ensures fresh(cycle) && fresh(orderedNodes) && fresh(ordered)
      ensures nodes == input && result == valid
      ensures (State(g), result) == Analysis(g.dependencies, old(g.depth), input)
      ensures Analyzable(g.dependencies, input) ==>
        (result <==> |input| > 0 && !HasCycleIn(g.dependencies, Elems(input)))
    {
      ghost var deps, depth0 := g.dependencies, g.depth;
      Initialize(g, input);
      result := Decide(g, deps, input, |input|, Seed(deps, depth0, input, |input|));
      if Analyzable(deps, input) {
        AnalysisDecides(deps, depth0, input);
      }
    }

    /**
     * After seeding: false when no node was placed, otherwise the passes decide; the answer is
     * also kept as the analyzer's validity.
     */
    method Decide(g: Arena<T>, ghost deps: seq<set<nat>>, ghost input: seq<nat>, n: nat, ghost s: Run) returns (result: bool)
      requires nodes == input && Valid() && g.Valid() && Recorded(g) && g.dependencies == deps
      requires cycleSize + orderedSize == n == cycle.Length && forall k | 0 <= k < cycleSize :: cycle[k] < |g.values|
      requires State(g) == s
      modifies this`valid, this`cycleSize, this`orderedSize, this`index, this`maximumDepth, cycle, orderedNodes, ordered, g`depth
      ensures nodes == input && Valid() && g.Valid() && Recorded(g) && g.dependencies == deps && result == valid
      ensures (State(g), result) == Finish(deps, n, s)
    {
      if orderedSize == 0 {
        result := false;
      } else {
        result := Passes(g, n);
      }
      valid := result;
    }

    /**
     * The passes of an analysis over n nodes: while fewer than n nodes are placed, one more pass;
     * a pass that places nothing ends them with false.
     */
    method Passes(g: Arena<T>, n: nat) returns (ok: bool)
      requires Valid() && Ready(g) && |g.depth| == |g.values| && Recorded(g)
      requires cycleSize + orderedSize == n == cycle.Length
      requires forall k | 0 <= k < cycleSize :: cycle[k] < |g.values|
      modifies this`cycleSize, this`orderedSize, this`index, this`maximumDepth, cycle, orderedNodes, ordered, g`depth
      ensures Valid() && |g.depth| == |g.values| && Recorded(g)
      ensures (State(g), ok) == Rounds(g.dependencies, n, old(State(g)))
    {
      ghost var deps := g.dependencies;
      ghost var target := Rounds(deps, n, State(g));
      while orderedSize < n
        invariant Valid() && Ready(g) && |g.depth| == |g.values| && Recorded(g) && g.dependencies == deps
        invariant cycleSize + orderedSize == n == cycle.Length
        invariant forall k | 0 <= k < cycleSize :: cycle[k] < |g.values|
        invariant Rounds(deps, n, State(g)) == target
        decreases cycleSize
      {
        var progress := PlacePass(g, n);
        WaitingBounded(g);
        if !progress {
          return false;
        }
      }
      return true;
    }

    /** The waiting nodes name nodes of the arena when the model's waiting list does. */
    lemma WaitingBounded(g: Arena<T>)
      requires Valid() && forall k | 0 <= k < |State(g).waiting| :: State(g).waiting[k] < |g.values|
      ensures forall k | 0 <= k < cycleSize :: cycle[k] < |g.values|
    {
      assert forall k | 0 <= k < cycleSize :: cycle[k] == State(g).waiting[k];
    }

    /**
     * The placed nodes in levels: level d lists, in placement order, the placed nodes whose
     * recorded depth is d, for every d from 0 to the maximum depth.
     */
    method GetLevelNodes(g: Arena<T>) returns (r: Result<seq<seq<nat>>, LevelError>)
      requires Valid() && forall k | 0 <= k < orderedSize :: orderedNodes[k] < |g.depth|
      ensures maximumDepth < -1 ==> r == Failure(NegativeSize(maximumDepth + 1))
      ensures -1 <= maximumDepth ==>
        (r.Success? <==> forall k | 0 <= k < orderedSize :: 0 <= g.depth[orderedNodes[k]] <= maximumDepth)
      ensures r.Success? ==> -1 <= maximumDepth && r.value == DepthLevels(orderedNodes[..orderedSize], g.depth, maximumDepth)
      ensures r.Success? ==> multiset(Flatten(r.value)) == multiset(orderedNodes[..orderedSize])
      ensures r.Failure? && -1 <= maximumDepth ==> exists k | 0 <= k < orderedSize ::
        && r.error == DepthOutOfRange(orderedNodes[k], g.depth[orderedNodes[k]]) && !(0 <= g.depth[orderedNodes[k]] <= maximumDepth)
        && forall j | 0 <= j < k :: 0 <= g.depth[orderedNodes[j]] <= maximumDepth
    {
      r := GroupByDepth(orderedNodes, orderedNodes, orderedSize, g.depth, maximumDepth);
    }

    /**
     * The values of the placed nodes in levels: level d lists, in placement order, the values
     * recorded in `ordered` for the placed nodes whose recorded depth is d. These are the values
     * the nodes held when they were placed; a later `SetValue` is not reflected.
     */
    method GetLevels(g: Arena<T>) returns (r: Result<seq<seq<Option<T>>>, LevelError>)
      requires Valid() && forall k | 0 <= k < orderedSize :: orderedNodes[k] < |g.depth|
      ensures maximumDepth < -1 ==> r == Failure(NegativeSize(maximumDepth + 1))
      ensures -1 <= maximumDepth ==>
        (r.Success? <==> forall k | 0 <= k < orderedSize :: 0 <= g.depth[orderedNodes[k]] <= maximumDepth)
      ensures r.Success? ==> -1 <= maximumDepth
      ensures r.Success? ==> r.value == Groups(orderedNodes[..orderedSize], ordered[..orderedSize], g.depth, maximumDepth + 1)
      ensures r.Success? ==> multiset(Flatten(r.value)) == multiset(ordered[..orderedSize])
      ensures r.Success? && Recorded(g) ==>
        r.value == Groups(orderedNodes[..orderedSize], ValuesOf(g.values, orderedNodes[..orderedSize]), g.depth, maximumDepth + 1)
      ensures r.Failure? && -1 <= maximumDepth ==> exists k | 0 <= k < orderedSize ::
        && r.error == DepthOutOfRange(orderedNodes[k], g.depth[orderedNodes[k]]) && !(0 <= g.depth[orderedNodes[k]] <= maximumDepth)
        && forall j | 0 <= j < k :: 0 <= g.depth[orderedNodes[j]] <= maximumDepth
    {
      r := GroupByDepth(orderedNodes, ordered, orderedSize, g.depth, maximumDepth);
    }
  }
}
