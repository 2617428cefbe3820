/**
 * The array-based analysis as a computation on values. A `Run` is the analyzer's state at a
 * moment: the depth recorded for every node, the waiting nodes (the live part of the `cycle`
 * array), the placed nodes (the live part of `orderedNodes`) and the maximum depth. `Seed` is the
 * first loop of the analysis, `Pass` one rescan of the waiting nodes and `Rounds` the repeated
 * passes; the lemmas of this module prove what the analysis promises about them.
 */
module AnalysisModel {
  import opened Digraph
  import opened Levels

  /** The depth of a node that waits to be placed. */
  const UNPLACED: int := -1

  /** Every dependency names a node of the arena. */
  ghost predicate Closed(deps: seq<set<nat>>)
  {
    forall x, d | 0 <= x < |deps| && d in deps[x] :: d < |deps|
  }

  /** The collection an analysis expects: distinct nodes of the arena, closed under dependencies. */
  ghost predicate Analyzable(deps: seq<set<nat>>, input: seq<nat>)
  {
    && Distinct(input)
    && (forall k | 0 <= k < |input| :: input[k] < |deps|)
    && (forall k, d | 0 <= k < |input| && input[k] < |deps| && d in deps[input[k]] :: d in input)
  }

  /** The nodes of `s` without dependencies, in the order of `s`. */
  function Roots(deps: seq<set<nat>>, s: seq<nat>): (r: seq<nat>)
    requires forall k | 0 <= k < |s| :: s[k] < |deps|
    ensures forall k | 0 <= k < |s| :: s[k] in r <==> deps[s[k]] == {}
    ensures forall k | 0 <= k < |r| :: r[k] in s
    ensures forall k | 0 <= k < |r| :: r[k] < |deps| && deps[r[k]] == {}
    decreases |s|
  {
    if s == [] then []
    else
      var init := s[..|s| - 1];
      assert forall k | 0 <= k < |init| :: init[k] == s[k];
      Roots(deps, init) + (if deps[s[|s| - 1]] == {} then [s[|s| - 1]] else [])
  }

  /** The roots of a collection without repetitions are without repetitions. */
  lemma {:induction false} RootsDistinct(deps: seq<set<nat>>, s: seq<nat>)
    requires forall k | 0 <= k < |s| :: s[k] < |deps|
    requires Distinct(s)
    ensures Distinct(Roots(deps, s))
    decreases |s|
  {
    if s != [] {
      var init := s[..|s| - 1];
      RootsDistinct(deps, init);
      assert s[|s| - 1] !in init;
    }
  }

  /** The analyzer's state: recorded depths, waiting nodes, placed nodes and the maximum depth. */
  datatype Run = Run(depth: seq<int>, waiting: seq<nat>, placed: seq<nat>, maximum: int)

  /** The run a pass starts from: the same depths and listing, with no node kept waiting yet. */
  ghost function Restarted(r: Run): Run
  {
    Run(r.depth, [], r.placed, r.maximum)
  }

  /** The least depth among the nodes of `s`, starting from `n`. */
  ghost function LeastDepth(s: set<nat>, depth: seq<int>, n: int): (r: int)
    requires forall d | d in s :: d < |depth|
    ensures r <= n && forall d | d in s :: r <= depth[d]
    ensures r == n || exists d | d in s :: depth[d] == r
    decreases s
  {
    if s == {} then n
    else
      var d :| d in s;
      Min(depth[d], LeastDepth(s - {d}, depth, n))
  }

  /** The greatest depth among the nodes of `s`, starting from UNPLACED. */
  ghost function GreatestDepth(s: set<nat>, depth: seq<int>): (r: int)
    requires forall d | d in s :: d < |depth|
    ensures r >= UNPLACED && forall d | d in s :: depth[d] <= r
    ensures r == UNPLACED || exists d | d in s :: depth[d] == r
    decreases s
  {
    if s == {} then UNPLACED
    else
      var d :| d in s;
      Max(depth[d], GreatestDepth(s - {d}, depth))
  }

  /** Any bound that is below every depth of `s` and `n`, and reached, is the least depth. */
  lemma {:induction false} LeastDepthUnique(s: set<nat>, depth: seq<int>, n: int, m: int)
    requires forall d | d in s :: d < |depth|
    requires m <= n && forall d | d in s :: m <= depth[d]
    requires m == n || exists d | d in s :: depth[d] == m
    ensures m == LeastDepth(s, depth, n)
  {
    var l := LeastDepth(s, depth, n);
    if l != n {
      var d :| d in s && depth[d] == l;
      assert m <= l;
    }
    if m != n {
      var d :| d in s && depth[d] == m;
      assert l <= m;
    }
  }

  /** Any bound that is above every depth of `s` and UNPLACED, and reached, is the greatest depth. */
  lemma {:induction false} GreatestDepthUnique(s: set<nat>, depth: seq<int>, m: int)
    requires forall d | d in s :: d < |depth|
    requires m >= UNPLACED && forall d | d in s :: depth[d] <= m
    requires m == UNPLACED || exists d | d in s :: depth[d] == m
    ensures m == GreatestDepth(s, depth)
  {
    var g := GreatestDepth(s, depth);
    if g != UNPLACED {
      var d :| d in s && depth[d] == g;
      assert g <= m;
    }
    if m != UNPLACED {
      var d :| d in s && depth[d] == m;
      assert m <= g;
    }
  }

  /**
   * The first loop of the analysis over the nodes `s`: a node with dependencies waits at
   * UNPLACED, a node without is placed at depth 0.
   */
  ghost function Seed(deps: seq<set<nat>>, depth: seq<int>, s: seq<nat>, i: nat): (r: Run)
    requires i <= |s| && forall k | 0 <= k < |s| :: s[k] < |deps| && s[k] < |depth|
    ensures |r.depth| == |depth| && r.maximum == 0
    ensures |r.waiting| + |r.placed| == i
    ensures forall k | 0 <= k < |r.waiting| :: r.waiting[k] < |deps|
  {
    if i == 0 then Run(depth, [], [], 0)
    else Sow(deps, Seed(deps, depth, s, i - 1), s[i - 1])
  }

  /** Seeding one more node of `s` sows it into the run after the nodes before it. */
  lemma {:induction false} SeedNext(deps: seq<set<nat>>, depth: seq<int>, s: seq<nat>, i: nat)
    requires i < |s| && forall k | 0 <= k < |s| :: s[k] < |deps| && s[k] < |depth|
    ensures Seed(deps, depth, s, i + 1) == Sow(deps, Seed(deps, depth, s, i), s[i])
  {
  }

  /** The runs of the seeding loop over `s` after each prefix of `s`, entry k for the first k nodes. */
  lemma {:induction false} SeedTrace(deps: seq<set<nat>>, depth: seq<int>, s: seq<nat>) returns (t: seq<Run>)
    requires forall k | 0 <= k < |s| :: s[k] < |deps| && s[k] < |depth|
    ensures |t| == |s| + 1 && t[0] == Run(depth, [], [], 0)
    ensures forall k {:trigger Seed(deps, depth, s, k)} | 0 <= k <= |s| :: t[k] == Seed(deps, depth, s, k)
  {
    t := seq(|s| + 1, k requires 0 <= k <= |s| => Seed(deps, depth, s, k));
  }

  /** Seeding node x: with dependencies it waits, unplaced; without them it is placed at depth 0. */
  ghost function Sow(deps: seq<set<nat>>, r: Run, x: nat): Run
    requires x < |deps| && x < |r.depth|
  {
    if deps[x] != {} then Run(r.depth[x := UNPLACED], r.waiting + [x], r.placed, r.maximum)
    else Run(r.depth[x := 0], r.waiting, r.placed + [x], r.maximum)
  }

  /**
   * Visiting the waiting node x during a pass: when no dependency of x is at UNPLACED (the least
   * depth, starting from n, is not UNPLACED), x is placed one below its deepest dependency and
   * the maximum depth follows; otherwise x stays waiting.
   */
  ghost function Visit(deps: seq<set<nat>>, n: nat, r: Run, x: nat): (r': Run)
    requires Closed(deps) && |r.depth| == |deps| && x < |deps|
    ensures |r'.depth| == |deps|
  {
    if LeastDepth(deps[x], r.depth, n) != UNPLACED then
      var d := GreatestDepth(deps[x], r.depth) + 1;
      Run(r.depth[x := d], r.waiting, r.placed + [x], Max(r.maximum, d))
    else
      Run(r.depth, r.waiting + [x], r.placed, r.maximum)
  }

  /** A pass over the first i waiting nodes of `w`, in their order, starting from `r`. */
  ghost function Pass(deps: seq<set<nat>>, n: nat, r: Run, w: seq<nat>, i: nat): (r': Run)
    requires Closed(deps) && |r.depth| == |deps|
    requires i <= |w| && forall k | 0 <= k < |w| :: w[k] < |deps|
    ensures |r'.depth| == |deps|
    ensures |r'.waiting| + |r'.placed| == |r.waiting| + |r.placed| + i
    ensures |r'.waiting| >= |r.waiting| && |r'.placed| >= |r.placed|
    ensures (forall k | 0 <= k < |r.waiting| :: r.waiting[k] < |deps|) ==>
      forall k | 0 <= k < |r'.waiting| :: r'.waiting[k] < |deps|
  {
    if i == 0 then r else Visit(deps, n, Pass(deps, n, r, w, i - 1), w[i - 1])
  }

  /**
   * The passes of the analysis: while fewer than n nodes are placed, pass over the waiting nodes;
   * a pass that places nothing ends the analysis with false.
   */
  ghost function Rounds(deps: seq<set<nat>>, n: nat, r: Run): (res: (Run, bool))
    requires Closed(deps) && |r.depth| == |deps|
    requires forall k | 0 <= k < |r.waiting| :: r.waiting[k] < |deps|
    decreases |r.waiting|
  {
    if |r.placed| >= n then (r, true)
    else
      var p := Pass(deps, n, Restarted(r), r.waiting, |r.waiting|);
      if |p.waiting| == |r.waiting| then (p, false)
      else Rounds(deps, n, p)
  }

  /**
   * The whole analysis of `input` from the recorded depths `depth`: the seeding loop, then false
   * when nothing was placed, and otherwise the passes.
   */
  ghost function Analysis(deps: seq<set<nat>>, depth: seq<int>, input: seq<nat>): (res: (Run, bool))
    requires Closed(deps) && |depth| == |deps|
    requires forall k | 0 <= k < |input| :: input[k] < |deps|
  {
    Finish(deps, |input|, Seed(deps, depth, input, |input|))
  }

  /** What follows the seeding loop: false when nothing was placed, and otherwise the passes. */
  ghost function Finish(deps: seq<set<nat>>, n: nat, s: Run): (res: (Run, bool))
    requires Closed(deps) && |s.depth| == |deps|
    requires forall k | 0 <= k < |s.waiting| :: s.waiting[k] < |deps|
  {
    if |s.placed| == 0 then (s, false) else Rounds(deps, n, s)
  }

  /** The position of every listed node, as recorded when it was listed; a repeated node keeps its last position. */
  function IndexOf(s: seq<nat>): (m: map<nat, nat>)
    ensures forall x | x in m :: m[x] < |s| && s[m[x]] == x
    decreases |s|
  {
    if s == [] then map[] else IndexOf(s[..|s| - 1])[s[|s| - 1] := |s| - 1]
  }

  /** In a listing without repetitions, every node's recorded position is where it is listed. */
  lemma {:induction false} IndexOfPositions(s: seq<nat>)
    requires Distinct(s)
    ensures forall j | 0 <= j < |s| :: s[j] in IndexOf(s) && IndexOf(s)[s[j]] == j
    decreases |s|
  {
    if s != [] {
      var init := s[..|s| - 1];
      IndexOfPositions(init);
      forall j | 0 <= j < |s| ensures s[j] in IndexOf(s) && IndexOf(s)[s[j]] == j {
        if j < |s| - 1 {
          assert init[j] == s[j] && s[j] != s[|s| - 1];
        }
      }
    }
  }

  /**
   * The depth rule for node x: x and each of its dependencies have a depth of at least 0, each
   * dependency below x; x is at depth 0 without dependencies and otherwise one below its deepest
   * dependency.
   */
  ghost predicate DepthRule(deps: seq<set<nat>>, depth: seq<int>, x: nat)
  {
    && x < |deps| && x < |depth| && 0 <= depth[x]
    && (forall d | d in deps[x] :: d < |depth| && 0 <= depth[d] < depth[x])
    && (deps[x] == {} ==> depth[x] == 0)
    && (deps[x] != {} ==> exists d | d in deps[x] :: depth[d] + 1 == depth[x])
  }

  /** Every node of the collection is at UNPLACED or deeper, and is listed as placed unless at UNPLACED. */
  ghost predicate Tracked(depth: seq<int>, input: seq<nat>, placed: seq<nat>)
  {
    forall k | 0 <= k < |input| ::
      input[k] < |depth| && UNPLACED <= depth[input[k]] && (depth[input[k]] != UNPLACED ==> input[k] in placed)
  }

  /**
   * The placed listing: no node twice, every listed node obeys the depth rule, and every
   * dependency of a listed node that is listed comes before it.
   */
  ghost predicate Listing(deps: seq<set<nat>>, depth: seq<int>, placed: seq<nat>)
  {
    && Distinct(placed)
    && (forall j | 0 <= j < |placed| :: DepthRule(deps, depth, placed[j]))
    && (forall i, j {:trigger placed[i] in deps[placed[j]]} | 0 <= i < |placed| && 0 <= j < |placed| && placed[j] < |deps| && placed[i] in deps[placed[j]] :: i < j)
  }

  /** The nodes of the collection at depth 0 open the listing, in collection order. */
  ghost predicate RootsFirst(depth: seq<int>, input: seq<nat>, placed: seq<nat>)
    requires forall k | 0 <= k < |input| :: input[k] < |depth|
  {
    var roots := AtDepth(input, depth, 0);
    |roots| <= |placed| && placed[..|roots|] == roots
  }

  /** The maximum depth is the greatest depth of a placed node, and 0 when no node is placed deeper. */
  ghost predicate MaximumOf(depth: seq<int>, placed: seq<nat>, maximum: int)
    requires forall j | 0 <= j < |placed| :: placed[j] < |depth|
  {
    maximum == Max(0, DepthBound(placed, depth) - 1)
  }

  /**
   * The state between passes: the waiting nodes are the collection's nodes at UNPLACED in
   * collection order, each with some dependency; the placed nodes are listed dependencies
   * first, at the depths the depth rule gives, nodes at depth 0 first; every node of the
   * collection is in exactly one of the two.
   */
  ghost predicate Good(deps: seq<set<nat>>, input: seq<nat>, r: Run)
  {
    && Closed(deps) && Analyzable(deps, input) && |r.depth| == |deps|
    && Tracked(r.depth, input, r.placed)
    && Listing(deps, r.depth, r.placed)
    && r.waiting == AtDepth(input, r.depth, UNPLACED)
    && (forall j | 0 <= j < |r.waiting| :: deps[r.waiting[j]] != {})
    && RootsFirst(r.depth, input, r.placed)
    && MaximumOf(r.depth, r.placed, r.maximum)
    && |r.waiting| + |r.placed| == |input|
  }

  /** Node x has a dependency at UNPLACED. */
  ghost predicate Blocked(deps: seq<set<nat>>, depth: seq<int>, x: nat)
  {
    x < |deps| && exists d | d in deps[x] :: d < |depth| && depth[d] == UNPLACED
  }

  /** Every node of `w` has a dependency at UNPLACED. */
  ghost predicate AllBlocked(deps: seq<set<nat>>, depth: seq<int>, w: seq<nat>)
  {
    forall k | 0 <= k < |w| :: Blocked(deps, depth, w[k])
  }

  /** Where the seeding loop stands after node x: at depth 0 without dependencies, else at UNPLACED. */
  ghost predicate Seeded(deps: seq<set<nat>>, depth: seq<int>, x: nat)
  {
    x < |deps| && x < |depth| && (if deps[x] == {} then depth[x] == 0 else depth[x] == UNPLACED)
  }

  /** The state of the seeding loop after the first i nodes of the collection. */
  ghost predicate SeedState(deps: seq<set<nat>>, input: seq<nat>, i: nat, r: Run)
  {
    && Closed(deps) && Analyzable(deps, input) && i <= |input| && |r.depth| == |deps|
    && r.waiting == AtDepth(input[..i], r.depth, UNPLACED)
    && r.placed == AtDepth(input[..i], r.depth, 0)
    && (forall k | 0 <= k < i :: Seeded(deps, r.depth, input[k]))
  }

  /** Seeding node i moves only node i, and leaves the loop in its state after i + 1 nodes. */
  lemma {:induction false} SeedStep(deps: seq<set<nat>>, depth: seq<int>, input: seq<nat>, i: nat)
    requires Closed(deps) && Analyzable(deps, input) && |depth| == |deps| && i < |input|
    requires SeedState(deps, input, i, Seed(deps, depth, input, i))
    ensures SeedState(deps, input, i + 1, Seed(deps, depth, input, i + 1))
  {
    var r := Seed(deps, depth, input, i);
    assert Seed(deps, depth, input, i + 1) == Sow(deps, r, input[i]);
    SowLists(deps, input, i, r);
    SowSeeded(deps, input, i, r);
  }

  /** Sowing node i files it under the waiting or the placed nodes and keeps the others' lists. */
  lemma {:induction false} SowLists(deps: seq<set<nat>>, input: seq<nat>, i: nat, r: Run)
    requires Closed(deps) && Analyzable(deps, input) && i < |input| && |r.depth| == |deps|
    requires r.waiting == AtDepth(input[..i], r.depth, UNPLACED) && r.placed == AtDepth(input[..i], r.depth, 0)
    ensures var r' := Sow(deps, r, input[i]);
      && r'.waiting == AtDepth(input[..i + 1], r'.depth, UNPLACED)
      && r'.placed == AtDepth(input[..i + 1], r'.depth, 0)
  {
    var x := input[i];
    var r' := Sow(deps, r, x);
    assert x !in input[..i];
    assert r'.depth == r.depth[x := if deps[x] == {} then 0 else UNPLACED];
    AtDepthFrame(input[..i], r.depth, r'.depth, UNPLACED);
    AtDepthFrame(input[..i], r.depth, r'.depth, 0);
    assert input[..i + 1] == input[..i] + [x];
    AtDepthSnoc(input[..i], r'.depth, UNPLACED, x);
    AtDepthSnoc(input[..i], r'.depth, 0, x);
  }

  /** Sowing node i leaves every node seeded so far, and node i, marked as seeded. */
  lemma {:induction false} SowSeeded(deps: seq<set<nat>>, input: seq<nat>, i: nat, r: Run)
    requires Closed(deps) && Analyzable(deps, input) && i < |input| && |r.depth| == |deps|
    requires forall k | 0 <= k < i :: Seeded(deps, r.depth, input[k])
    ensures forall k | 0 <= k < i + 1 :: Seeded(deps, Sow(deps, r, input[i]).depth, input[k])
  {
    var x := input[i];
    var depth' := Sow(deps, r, x).depth;
    assert depth' == r.depth[x := if deps[x] == {} then 0 else UNPLACED];
    forall k | 0 <= k < i + 1 ensures Seeded(deps, depth', input[k]) {
      if k < i {
        assert Seeded(deps, r.depth, input[k]) && input[k] != x;
      }
    }
  }

  /** After the first i nodes, the seeding loop is in its state for i. */
  lemma {:induction false} SeedRun(deps: seq<set<nat>>, depth: seq<int>, input: seq<nat>, i: nat)
    requires Closed(deps) && Analyzable(deps, input) && |depth| == |deps| && i <= |input|
    ensures SeedState(deps, input, i, Seed(deps, depth, input, i))
    decreases i
  {
    if i > 0 {
      SeedRun(deps, depth, input, i - 1);
      assert i - 1 + 1 == i;
      SeedStep(deps, depth, input, i - 1);
    } else {
      assert input[..0] == [];
    }
  }

  /** At the end of the seeding loop every node of the collection is tracked, and the waiting nodes have dependencies. */
  lemma {:induction false} SeedTracked(deps: seq<set<nat>>, input: seq<nat>, r: Run)
    requires SeedState(deps, input, |input|, r)
    ensures Tracked(r.depth, input, r.placed)
    ensures r.waiting == AtDepth(input, r.depth, UNPLACED) && r.placed == AtDepth(input, r.depth, 0)
    ensures forall j | 0 <= j < |r.waiting| :: deps[r.waiting[j]] != {}
  {
    assert input[..|input|] == input;
    forall k | 0 <= k < |input|
      ensures input[k] < |r.depth| && UNPLACED <= r.depth[input[k]] && (r.depth[input[k]] != UNPLACED ==> input[k] in r.placed)
    {
      assert Seeded(deps, r.depth, input[k]);
      assert input[k] in input;
    }
    forall j | 0 <= j < |r.waiting| ensures deps[r.waiting[j]] != {} {
      var x := r.waiting[j];
      assert x in r.waiting;
      var k :| 0 <= k < |input| && input[k] == x;
      assert Seeded(deps, r.depth, input[k]) && r.depth[x] == UNPLACED;
    }
  }

  /** At the end of the seeding loop the placed nodes are the nodes without dependencies, all at depth 0. */
  lemma {:induction false} SeedListing(deps: seq<set<nat>>, input: seq<nat>, r: Run)
    requires SeedState(deps, input, |input|, r)
    ensures Listing(deps, r.depth, r.placed)
    ensures RootsFirst(r.depth, input, r.placed)
    ensures r.maximum == 0 ==> MaximumOf(r.depth, r.placed, r.maximum)
  {
    assert input[..|input|] == input;
    var p := r.placed;
    AtDepthDistinct(input, r.depth, 0);
    forall j | 0 <= j < |p| ensures DepthRule(deps, r.depth, p[j]) && deps[p[j]] == {} {
      assert p[j] in p;
      var k :| 0 <= k < |input| && input[k] == p[j];
      assert Seeded(deps, r.depth, input[k]);
    }
    assert p[..|p|] == p;
    var b := DepthBound(p, r.depth);
    assert b <= 1;
  }

  /** When the seeding loop ends, the analyzer is in a state between passes. */
  lemma {:induction false} SeedGood(deps: seq<set<nat>>, depth: seq<int>, input: seq<nat>)
    requires Closed(deps) && Analyzable(deps, input) && |depth| == |deps|
    ensures Good(deps, input, Seed(deps, depth, input, |input|))
  {
    SeedRun(deps, depth, input, |input|);
    SeedEnd(deps, input, Seed(deps, depth, input, |input|));
  }

  /** A seeding loop that went over the whole collection, with maximum depth 0, ends between passes. */
  lemma {:induction false} SeedEnd(deps: seq<set<nat>>, input: seq<nat>, r: Run)
    requires SeedState(deps, input, |input|, r) && r.maximum == 0 && |r.waiting| + |r.placed| == |input|
    ensures Good(deps, input, r)
  {
    SeedTracked(deps, input, r);
    SeedListing(deps, input, r);
  }

  /** From d0 to d1 every node of the collection keeps its depth or moves from UNPLACED to depth 1 or deeper. */
  ghost predicate Moved(d0: seq<int>, d1: seq<int>, input: seq<nat>)
  {
    forall k | 0 <= k < |input| && input[k] < |d0| && input[k] < |d1| ::
      d1[input[k]] == d0[input[k]] || (d0[input[k]] == UNPLACED && 1 <= d1[input[k]])
  }

  /**
   * What a pass keeps true of the depths, the placed nodes and the maximum depth, against the
   * state between passes r0: the collection stays tracked, the listing stays a listing that
   * extends r0's, a node only moves from UNPLACED to depth 1 or deeper, and the maximum follows.
   */
  ghost predicate Settled(deps: seq<set<nat>>, input: seq<nat>, r0: Run, depth: seq<int>, placed: seq<nat>, maximum: int)
    requires |r0.depth| == |deps|
  {
    && |depth| == |deps|
    && Tracked(depth, input, placed)
    && Listing(deps, depth, placed)
    && Moved(r0.depth, depth, input)
    && |r0.placed| <= |placed| && placed[..|r0.placed|] == r0.placed
    && MaximumOf(depth, placed, maximum)
  }

  /** The nodes of `w` from position i on are at UNPLACED. */
  ghost predicate Unvisited(w: seq<nat>, i: nat, depth: seq<int>)
  {
    forall k | i <= k < |w| :: w[k] < |depth| && depth[w[k]] == UNPLACED
  }

  /** The depths, the placed nodes and the maximum depth are those of r0. */
  ghost predicate Unchanged(r0: Run, depth: seq<int>, placed: seq<nat>, maximum: int)
  {
    depth == r0.depth && placed == r0.placed && maximum == r0.maximum
  }

  /**
   * The state of a pass that started from the state between passes r0, after visiting the first
   * i waiting nodes: the nodes kept so far are those visited still at UNPLACED, in order; the
   * nodes not yet visited are at UNPLACED; and while nothing was placed, the state is r0's and
   * every visited node is blocked.
   */
  ghost predicate PassState(deps: seq<set<nat>>, input: seq<nat>, r0: Run, i: nat, r: Run)
  {
    && Good(deps, input, r0) && i <= |r0.waiting|
    && Settled(deps, input, r0, r.depth, r.placed, r.maximum)
    && Unvisited(r0.waiting, i, r.depth)
    && r.waiting == AtDepth(r0.waiting[..i], r.depth, UNPLACED)
    && |r.placed| + |r.waiting| == |r0.placed| + i
    && (|r.waiting| == i ==> Unchanged(r0, r.depth, r.placed, r.maximum) && AllBlocked(deps, r0.depth, r0.waiting[..i]))
  }

  /** A pass starts from the state between passes with no node kept yet. */
  lemma {:induction false} PassStart(deps: seq<set<nat>>, input: seq<nat>, r0: Run)
    requires Good(deps, input, r0)
    ensures PassState(deps, input, r0, 0, Restarted(r0))
  {
    var w := r0.waiting;
    assert w[..0] == [];
    forall k | 0 <= k < |w| ensures w[k] < |r0.depth| && r0.depth[w[k]] == UNPLACED {
      assert w[k] in w;
    }
    assert r0.placed[..|r0.placed|] == r0.placed;
  }

  /**
   * Placing x, a node of the collection at UNPLACED, at a depth obeying the depth rule keeps the
   * collection tracked and the listing a listing.
   */
  lemma {:induction false} PlaceListing(deps: seq<set<nat>>, depth: seq<int>, input: seq<nat>, placed: seq<nat>, x: nat, dx: int)
    requires |depth| == |deps|
    requires Tracked(depth, input, placed) && Listing(deps, depth, placed)
    requires x < |depth| && depth[x] == UNPLACED
    requires DepthRule(deps, depth[x := dx], x)
    ensures Tracked(depth[x := dx], input, placed + [x])
    ensures Listing(deps, depth[x := dx], placed + [x])
  {
    var depth', p' := depth[x := dx], placed + [x];
    forall j | 0 <= j < |placed| ensures placed[j] != x && DepthRule(deps, depth', placed[j]) {
      var y := placed[j];
      assert DepthRule(deps, depth, y);
      forall d | d in deps[y] ensures d != x {
      }
    }
    forall i, j | 0 <= i < |p'| && 0 <= j < |p'| && p'[j] < |deps| && p'[i] in deps[p'[j]] ensures i < j {
      if j < |placed| {
        assert DepthRule(deps, depth, placed[j]);
      }
    }
    forall k | 0 <= k < |input|
      ensures input[k] < |depth'| && UNPLACED <= depth'[input[k]] && (depth'[input[k]] != UNPLACED ==> input[k] in p')
    {
      if input[k] != x && depth[input[k]] != UNPLACED {
        assert input[k] in placed;
      }
    }
  }

  /** Placing x at depth dx (at least 0), x not yet placed, keeps the maximum depth up to date. */
  lemma {:induction false} MaximumPlace(r: Run, x: nat, dx: int)
    requires forall j | 0 <= j < |r.placed| :: r.placed[j] < |r.depth| && r.placed[j] != x
    requires x < |r.depth| && 0 <= dx && MaximumOf(r.depth, r.placed, r.maximum)
    ensures MaximumOf(r.depth[x := dx], r.placed + [x], Max(r.maximum, dx))
  {
    var depth', p' := r.depth[x := dx], r.placed + [x];
    assert p'[..|p'| - 1] == r.placed;
    DepthBoundFrame(r.placed, r.depth, depth');
  }

  /**
   * With no dependency of x below UNPLACED, and n at least 0, the least depth of x's dependencies
   * is UNPLACED exactly when x is blocked.
   */
  lemma {:induction false} LeastBlocked(deps: seq<set<nat>>, depth: seq<int>, n: int, x: nat)
    requires x < |deps| && 0 <= n
    requires forall d | d in deps[x] :: d < |depth| && UNPLACED <= depth[d]
    ensures LeastDepth(deps[x], depth, n) == UNPLACED <==> Blocked(deps, depth, x)
  {
  }

  /** Keeping the blocked node w[i] waiting moves the pass on to w[i + 1]. */
  lemma {:induction false} KeepStep(deps: seq<set<nat>>, input: seq<nat>, r0: Run, i: nat, r: Run, r': Run)
    requires PassState(deps, input, r0, i, r) && i < |r0.waiting|
    requires Blocked(deps, r.depth, r0.waiting[i])
    requires r' == Run(r.depth, r.waiting + [r0.waiting[i]], r.placed, r.maximum)
    ensures PassState(deps, input, r0, i + 1, r')
  {
    var w, x := r0.waiting, r0.waiting[i];
    TakeSnoc(w, i);
    AtDepthSnoc(w[..i], r.depth, UNPLACED, x);
    if |r.waiting| == i {
      assert Blocked(deps, r0.depth, x);
    }
  }

  /** The waiting nodes of a state between passes are listed once each, are nodes of the collection, and are at UNPLACED. */
  lemma {:induction false} WaitingNodes(deps: seq<set<nat>>, input: seq<nat>, r0: Run)
    requires Good(deps, input, r0)
    ensures Distinct(r0.waiting)
    ensures forall k | 0 <= k < |r0.waiting| :: r0.waiting[k] in input && r0.waiting[k] < |deps|
    ensures forall k | 0 <= k < |r0.waiting| :: r0.depth[r0.waiting[k]] == UNPLACED && deps[r0.waiting[k]] != {}
  {
    AtDepthDistinct(input, r0.depth, UNPLACED);
    forall k | 0 <= k < |r0.waiting| ensures r0.waiting[k] in input && r0.depth[r0.waiting[k]] == UNPLACED {
      assert r0.waiting[k] in r0.waiting;
    }
  }

  /** The dependencies of a node of the collection are at UNPLACED or deeper. */
  lemma {:induction false} DependenciesTracked(deps: seq<set<nat>>, input: seq<nat>, depth: seq<int>, placed: seq<nat>, x: nat)
    requires Analyzable(deps, input) && Tracked(depth, input, placed)
    requires x in input
    ensures x < |deps| && forall d | d in deps[x] :: d in input && d < |depth| && UNPLACED <= depth[d]
  {
    var k :| 0 <= k < |input| && input[k] == x;
    forall d | d in deps[x] ensures d in input && d < |depth| && UNPLACED <= depth[d] {
      assert input[k] < |deps| && d in deps[input[k]];
      assert d in input;
    }
  }

  /**
   * A waiting node of the collection with dependencies, none of them at UNPLACED, obeys the depth
   * rule once placed one below its deepest dependency, at depth 1 or deeper.
   */
  lemma {:induction false} PlaceRule(deps: seq<set<nat>>, depth: seq<int>, x: nat)
    requires x < |deps| && x < |depth| && depth[x] == UNPLACED && deps[x] != {}
    requires forall d | d in deps[x] :: d < |depth| && UNPLACED <= depth[d]
    requires !Blocked(deps, depth, x)
    ensures 1 <= GreatestDepth(deps[x], depth) + 1
    ensures DepthRule(deps, depth[x := GreatestDepth(deps[x], depth) + 1], x)
  {
    var g := GreatestDepth(deps[x], depth);
    var depth' := depth[x := g + 1];
    forall d | d in deps[x] ensures d != x && 0 <= depth[d] {
    }
    var e :| e in deps[x];
    assert 0 <= depth[e] <= g;
    forall d | d in deps[x] ensures d < |depth'| && 0 <= depth'[d] < depth'[x] {
    }
    var m :| m in deps[x] && depth[m] == g;
    assert depth'[m] + 1 == depth'[x];
  }

  /** Placing the waiting node x by the depth rule keeps what a pass keeps true. */
  lemma {:induction false} PlaceSettled(deps: seq<set<nat>>, input: seq<nat>, r0: Run, r: Run, x: nat, dx: int)
    requires |r0.depth| == |deps| && |r.depth| == |deps|
    requires Settled(deps, input, r0, r.depth, r.placed, r.maximum)
    requires x < |deps| && r.depth[x] == UNPLACED && r0.depth[x] == UNPLACED && 1 <= dx
    requires DepthRule(deps, r.depth[x := dx], x)
    ensures Settled(deps, input, r0, r.depth[x := dx], r.placed + [x], Max(r.maximum, dx))
  {
    var depth', p' := r.depth[x := dx], r.placed + [x];
    PlaceListing(deps, r.depth, input, r.placed, x, dx);
    forall j | 0 <= j < |r.placed| ensures r.placed[j] < |r.depth| && r.placed[j] != x {
      assert DepthRule(deps, r.depth, r.placed[j]);
    }
    MaximumPlace(r, x, dx);
    assert p'[..|r0.placed|] == r.placed[..|r0.placed|];
  }

  /** Placing the unblocked node w[i] moves the pass on to w[i + 1]. */
  lemma {:induction false} PlaceStep(deps: seq<set<nat>>, input: seq<nat>, r0: Run, i: nat, r: Run, r': Run, dx: int)
    requires PassState(deps, input, r0, i, r) && i < |r0.waiting|
    requires 1 <= dx && DepthRule(deps, r.depth[r0.waiting[i] := dx], r0.waiting[i])
    requires r' == Run(r.depth[r0.waiting[i] := dx], r.waiting, r.placed + [r0.waiting[i]], Max(r.maximum, dx))
    ensures PassState(deps, input, r0, i + 1, r')
  {
    var x := r0.waiting[i];
    WaitingNodes(deps, input, r0);
    PlaceSettled(deps, input, r0, r, x, dx);
    PlacedLeaves(r0.waiting, i, r.depth, dx);
  }

  /**
   * Giving the unvisited node w[i] of a list of distinct nodes a depth dx other than UNPLACED
   * leaves the nodes after it unvisited and the visited nodes at UNPLACED as they were.
   */
  lemma {:induction false} PlacedLeaves(w: seq<nat>, i: nat, depth: seq<int>, dx: int)
    requires Distinct(w) && i < |w| && Unvisited(w, i, depth) && dx != UNPLACED
    requires forall k | 0 <= k < |w| :: w[k] < |depth|
    ensures Unvisited(w, i + 1, depth[w[i] := dx])
    ensures AtDepth(w[..i + 1], depth[w[i] := dx], UNPLACED) == AtDepth(w[..i], depth, UNPLACED)
  {
    var x := w[i];
    var depth' := depth[x := dx];
    forall k | 0 <= k < |w| && k != i ensures w[k] != x {
    }
    TakeSnoc(w, i);
    AtDepthFrame(w[..i], depth, depth', UNPLACED);
    AtDepthSnoc(w[..i], depth', UNPLACED, x);
  }

  /** Visiting w[i] moves a pass on to w[i + 1]. */
  lemma {:induction false} VisitStep(deps: seq<set<nat>>, input: seq<nat>, r0: Run, i: nat, r: Run, r': Run)
    requires PassState(deps, input, r0, i, r) && i < |r0.waiting|
    requires r' == Visit(deps, |input|, r, r0.waiting[i])
    ensures PassState(deps, input, r0, i + 1, r')
  {
    if Blocked(deps, r.depth, r0.waiting[i]) {
      VisitKeeps(deps, input, r0, i, r, r');
    } else {
      VisitPlaces(deps, input, r0, i, r, r');
    }
  }

  /** The waiting node w[i] of a pass, and the depths of its dependencies, as the visit sees them. */
  lemma {:induction false} VisitFacts(deps: seq<set<nat>>, input: seq<nat>, r0: Run, i: nat, r: Run)
    requires PassState(deps, input, r0, i, r) && i < |r0.waiting|
    ensures var x := r0.waiting[i];
      && x < |deps| && x < |r.depth| && r.depth[x] == UNPLACED && r0.depth[x] == UNPLACED && deps[x] != {}
      && (forall d | d in deps[x] :: d < |r.depth| && UNPLACED <= r.depth[d])
      && (LeastDepth(deps[x], r.depth, |input|) == UNPLACED <==> Blocked(deps, r.depth, x))
  {
    var x := r0.waiting[i];
    WaitingNodes(deps, input, r0);
    DependenciesTracked(deps, input, r.depth, r.placed, x);
    LeastBlocked(deps, r.depth, |input|, x);
  }

  /** Visiting the blocked node w[i] keeps it waiting and moves the pass on to w[i + 1]. */
  lemma {:induction false} VisitKeeps(deps: seq<set<nat>>, input: seq<nat>, r0: Run, i: nat, r: Run, r': Run)
    requires PassState(deps, input, r0, i, r) && i < |r0.waiting|
    requires Blocked(deps, r.depth, r0.waiting[i])
    requires r' == Visit(deps, |input|, r, r0.waiting[i])
    ensures PassState(deps, input, r0, i + 1, r')
  {
    var x := r0.waiting[i];
    VisitFacts(deps, input, r0, i, r);
    assert r' == Run(r.depth, r.waiting + [x], r.placed, r.maximum);
    KeepStep(deps, input, r0, i, r, r');
  }

  /** Visiting the unblocked node w[i] places it by the depth rule and moves the pass on to w[i + 1]. */
  lemma {:induction false} VisitPlaces(deps: seq<set<nat>>, input: seq<nat>, r0: Run, i: nat, r: Run, r': Run)
    requires PassState(deps, input, r0, i, r) && i < |r0.waiting|
    requires !Blocked(deps, r.depth, r0.waiting[i])
    requires r' == Visit(deps, |input|, r, r0.waiting[i])
    ensures PassState(deps, input, r0, i + 1, r')
  {
    var x := r0.waiting[i];
    VisitFacts(deps, input, r0, i, r);
    var dx := GreatestDepth(deps[x], r.depth) + 1;
    PlaceVisit(deps, |input|, r, x, dx);
    PlaceStep(deps, input, r0, i, r, r', dx);
  }

  /** Visiting an unblocked waiting node x places it one below its deepest dependency, by the depth rule. */
  lemma {:induction false} PlaceVisit(deps: seq<set<nat>>, n: nat, r: Run, x: nat, dx: int)
    requires Closed(deps) && |r.depth| == |deps|
    requires x < |deps| && r.depth[x] == UNPLACED && deps[x] != {}
    requires forall d | d in deps[x] :: d < |r.depth| && UNPLACED <= r.depth[d]
    requires !Blocked(deps, r.depth, x) && dx == GreatestDepth(deps[x], r.depth) + 1
    ensures 1 <= dx && DepthRule(deps, r.depth[x := dx], x)
    ensures Visit(deps, n, r, x) == Run(r.depth[x := dx], r.waiting, r.placed + [x], Max(r.maximum, dx))
  {
    LeastBlocked(deps, r.depth, n, x);
    PlaceRule(deps, r.depth, x);
    var min, max := LeastDepth(deps[x], r.depth, n), GreatestDepth(deps[x], r.depth);
    assert min != UNPLACED && max + 1 == dx;
    VisitOutcome(deps, n, r.depth, r.waiting, r.placed, r.maximum, x, min, max);
    assert r == Run(r.depth, r.waiting, r.placed, r.maximum);
  }

  /**
   * The visit of x, given the least and the greatest depth among its dependencies: x is placed
   * one below the deepest of them when the least is not UNPLACED, and kept waiting otherwise.
   */
  lemma {:induction false} VisitOutcome(deps: seq<set<nat>>, n: nat, depth: seq<int>, waiting: seq<nat>, placed: seq<nat>, maximum: int, x: nat, min: int, max: int)
    requires Closed(deps) && |depth| == |deps| && x < |deps|
    requires min == LeastDepth(deps[x], depth, n) && max == GreatestDepth(deps[x], depth)
    ensures Visit(deps, n, Run(depth, waiting, placed, maximum), x) == if min != UNPLACED
      then Run(depth[x := max + 1], waiting, placed + [x], Max(maximum, max + 1))
      else Run(depth, waiting + [x], placed, maximum)
  {
  }

  /** After visiting the first i waiting nodes, a pass is in its state for i. */
  lemma {:induction false} PassRun(deps: seq<set<nat>>, input: seq<nat>, r0: Run, i: nat)
    requires Good(deps, input, r0) && i <= |r0.waiting|
    ensures PassState(deps, input, r0, i, Pass(deps, |input|, Restarted(r0), r0.waiting, i))
    decreases i
  {
    if i == 0 {
      PassZero(deps, input, r0, i);
    } else {
      PassRun(deps, input, r0, i - 1);
      PassRunStep(deps, input, r0, i - 1, i);
    }
  }

  /** Before its first visit, a pass is in its state for 0. */
  lemma {:induction false} PassZero(deps: seq<set<nat>>, input: seq<nat>, r0: Run, i: nat)
    requires Good(deps, input, r0) && i == 0
    ensures PassState(deps, input, r0, i, Pass(deps, |input|, Restarted(r0), r0.waiting, i))
  {
    PassStart(deps, input, r0);
    assert Pass(deps, |input|, Restarted(r0), r0.waiting, 0) == Restarted(r0);
  }

  /** A pass in its state for k is, after its visit of waiting node k, in its state for i = k + 1. */
  lemma {:induction false} PassRunStep(deps: seq<set<nat>>, input: seq<nat>, r0: Run, k: nat, i: nat)
    requires Good(deps, input, r0) && i == k + 1 && i <= |r0.waiting|
    requires PassState(deps, input, r0, k, Pass(deps, |input|, Restarted(r0), r0.waiting, k))
    ensures PassState(deps, input, r0, i, Pass(deps, |input|, Restarted(r0), r0.waiting, i))
  {
    var w := r0.waiting;
    var r, r' := Pass(deps, |input|, Restarted(r0), w, k), Pass(deps, |input|, Restarted(r0), w, i);
    WaitingNodes(deps, input, r0);
    PassNext(deps, |input|, Restarted(r0), w, k);
    VisitStep(deps, input, r0, k, r, r');
  }

  /** A pass over one more waiting node is the shorter pass followed by a visit of that node. */
  lemma {:induction false} PassNext(deps: seq<set<nat>>, n: nat, r: Run, w: seq<nat>, k: nat)
    requires Closed(deps) && |r.depth| == |deps|
    requires k < |w| && forall j | 0 <= j < |w| :: w[j] < |deps|
    ensures Pass(deps, n, r, w, k + 1) == Visit(deps, n, Pass(deps, n, r, w, k), w[k])
  {
  }

  /**
   * The states of a pass over `w` from `r` after each prefix of `w`, entry k for the first k
   * nodes.
   */
  lemma {:induction false} PassTrace(deps: seq<set<nat>>, n: nat, r: Run, w: seq<nat>) returns (t: seq<Run>)
    requires Closed(deps) && |r.depth| == |deps| && forall k | 0 <= k < |w| :: w[k] < |deps|
    ensures |t| == |w| + 1 && t[0] == r
    ensures forall k {:trigger Pass(deps, n, r, w, k)} | 0 <= k <= |w| :: t[k] == Pass(deps, n, r, w, k)
  {
    t := seq(|w| + 1, k requires 0 <= k <= |w| => Pass(deps, n, r, w, k));
  }

  /** A pass that placed nothing leaves the state between passes as it was, every waiting node blocked. */
  lemma {:induction false} PassStalled(deps: seq<set<nat>>, input: seq<nat>, r0: Run)
    requires Good(deps, input, r0)
    requires |Pass(deps, |input|, Restarted(r0), r0.waiting, |r0.waiting|).waiting| == |r0.waiting|
    ensures Pass(deps, |input|, Restarted(r0), r0.waiting, |r0.waiting|) == r0
    ensures AllBlocked(deps, r0.depth, r0.waiting)
  {
    var w := r0.waiting;
    PassRun(deps, input, r0, |w|);
    StallEnd(deps, input, r0, Pass(deps, |input|, Restarted(r0), w, |w|));
  }

  /** A pass that placed some node ends in a state between passes. */
  lemma {:induction false} PassProgress(deps: seq<set<nat>>, input: seq<nat>, r0: Run)
    requires Good(deps, input, r0)
    requires |Pass(deps, |input|, Restarted(r0), r0.waiting, |r0.waiting|).waiting| != |r0.waiting|
    ensures Good(deps, input, Pass(deps, |input|, Restarted(r0), r0.waiting, |r0.waiting|))
  {
    var w := r0.waiting;
    PassRun(deps, input, r0, |w|);
    PassEnd(deps, input, r0, Pass(deps, |input|, Restarted(r0), w, |w|));
  }

  /** A pass that ends having placed nothing ends in the state it started from. */
  lemma {:induction false} StallEnd(deps: seq<set<nat>>, input: seq<nat>, r0: Run, r: Run)
    requires PassState(deps, input, r0, |r0.waiting|, r) && |r.waiting| == |r0.waiting|
    ensures r == r0 && AllBlocked(deps, r0.depth, r0.waiting)
  {
    var w := r0.waiting;
    assert w[..|w|] == w;
    WaitingNodes(deps, input, r0);
    AtDepthAll(w, r0.depth, UNPLACED);
  }

  /** A pass that ends having placed some node ends in a state between passes. */
  lemma {:induction false} PassEnd(deps: seq<set<nat>>, input: seq<nat>, r0: Run, r: Run)
    requires PassState(deps, input, r0, |r0.waiting|, r)
    ensures Good(deps, input, r)
  {
    assert r0.waiting[..|r0.waiting|] == r0.waiting;
    EndWaiting(deps, input, r0, r.depth, r.waiting);
    EndRoots(deps, input, r0, r.depth, r.placed);
  }

  /** The nodes kept waiting at the end of a pass are the collection's nodes still at UNPLACED, each with dependencies. */
  lemma {:induction false} EndWaiting(deps: seq<set<nat>>, input: seq<nat>, r0: Run, depth: seq<int>, waiting: seq<nat>)
    requires Good(deps, input, r0) && |depth| == |deps| && Moved(r0.depth, depth, input)
    requires waiting == AtDepth(r0.waiting, depth, UNPLACED)
    ensures waiting == AtDepth(input, depth, UNPLACED)
    ensures forall j | 0 <= j < |waiting| :: deps[waiting[j]] != {}
  {
    forall k | 0 <= k < |input| ensures depth[input[k]] == UNPLACED ==> r0.depth[input[k]] == UNPLACED {
    }
    AtDepthNarrow(input, r0.depth, depth, UNPLACED);
    forall j | 0 <= j < |waiting| ensures deps[waiting[j]] != {} {
      assert waiting[j] in waiting;
      var k :| 0 <= k < |r0.waiting| && r0.waiting[k] == waiting[j];
    }
  }

  /** At the end of a pass the nodes at depth 0 still open the listing. */
  lemma {:induction false} EndRoots(deps: seq<set<nat>>, input: seq<nat>, r0: Run, depth: seq<int>, placed: seq<nat>)
    requires Good(deps, input, r0) && |depth| == |deps| && Moved(r0.depth, depth, input)
    requires |r0.placed| <= |placed| && placed[..|r0.placed|] == r0.placed
    ensures RootsFirst(depth, input, placed)
  {
    AtDepthFrame(input, r0.depth, depth, 0);
    var roots := AtDepth(input, depth, 0);
    assert placed[..|roots|] == placed[..|r0.placed|][..|roots|];
  }

  /**
   * The passes end in a state between passes; they succeed exactly when no node is left waiting,
   * and when they fail every waiting node is blocked.
   */
  lemma {:induction false} RoundsEnd(deps: seq<set<nat>>, input: seq<nat>, r: Run)
    requires Good(deps, input, r)
    ensures var (p, ok) := Rounds(deps, |input|, r);
      && Good(deps, input, p)
      && (ok <==> p.waiting == [])
      && (!ok ==> AllBlocked(deps, p.depth, p.waiting))
    decreases |r.waiting|
  {
    if |r.placed| < |input| {
      var p := Pass(deps, |input|, Restarted(r), r.waiting, |r.waiting|);
      if |p.waiting| == |r.waiting| {
        PassStalled(deps, input, r);
      } else {
        PassProgress(deps, input, r);
        RoundsEnd(deps, input, p);
      }
    }
  }

  /**
   * The analysis ends in a state between passes; it succeeds exactly when the collection is not
   * empty and no node is left waiting, and when it fails on a non-empty collection some node is
   * left waiting and every waiting node is blocked.
   */
  lemma {:induction false} AnalysisEnd(deps: seq<set<nat>>, depth: seq<int>, input: seq<nat>)
    requires Closed(deps) && Analyzable(deps, input) && |depth| == |deps|
    ensures var (r, ok) := Analysis(deps, depth, input);
      && Good(deps, input, r)
      && (ok <==> |input| > 0 && r.waiting == [])
      && (!ok && |input| > 0 ==> r.waiting != [] && AllBlocked(deps, r.depth, r.waiting))
  {
    var s := Seed(deps, depth, input, |input|);
    SeedGood(deps, depth, input);
    if |s.placed| == 0 {
      forall k | 0 <= k < |s.waiting| ensures Blocked(deps, s.depth, s.waiting[k]) {
        var x := s.waiting[k];
        assert x in s.waiting;
        var d :| d in deps[x];
        var j :| 0 <= j < |input| && input[j] == x;
        assert d in input;
      }
    } else {
      RoundsEnd(deps, input, s);
    }
  }

  /** In a state between passes, blocked waiting nodes hold a circular dependency among the collection's nodes. */
  lemma {:induction false} BlockedCycle(deps: seq<set<nat>>, input: seq<nat>, r: Run)
    requires Analyzable(deps, input) && forall k | 0 <= k < |input| :: input[k] < |r.depth|
    requires r.waiting == AtDepth(input, r.depth, UNPLACED)
    requires r.waiting != [] && AllBlocked(deps, r.depth, r.waiting)
    ensures HasCycleIn(deps, Elems(input))
  {
    var w := Elems(r.waiting);
    forall x | x in w ensures x < |deps| && exists d :: d in deps[x] && d in w {
      var k :| 0 <= k < |r.waiting| && r.waiting[k] == x;
      assert Blocked(deps, r.depth, x);
      var d :| d in deps[x] && d < |r.depth| && r.depth[d] == UNPLACED;
      var j :| 0 <= j < |input| && input[j] == x;
      assert d in input;
      assert d in r.waiting;
    }
    assert r.waiting[0] in w;
    StuckHasCycle(deps, w, Elems(input));
  }

  /** In a state between passes with no node waiting, the collection holds no circular dependency. */
  lemma {:induction false} PlacedAcyclic(deps: seq<set<nat>>, input: seq<nat>, r: Run)
    requires Good(deps, input, r) && r.waiting == []
    ensures !HasCycleIn(deps, Elems(input))
  {
    forall x | x in Elems(input) ensures DepthRule(deps, r.depth, x) {
      var k :| 0 <= k < |input| && input[k] == x;
      assert x !in r.waiting;
      var j :| 0 <= j < |r.placed| && r.placed[j] == x;
    }
    var rank := map x | x in Elems(input) :: r.depth[x] as nat;
    forall x, d | x in Elems(input) && x < |deps| && d in deps[x] && d in Elems(input) ensures rank[d] < rank[x] {
      assert DepthRule(deps, r.depth, x);
    }
    RankedNoCycle(deps, Elems(input), rank);
  }

  /**
   * The analysis of a collection of distinct nodes, closed under dependencies, succeeds exactly
   * when the collection is not empty and holds no circular dependency.
   */
  lemma {:induction false} AnalysisDecides(deps: seq<set<nat>>, depth: seq<int>, input: seq<nat>)
    requires Closed(deps) && Analyzable(deps, input) && |depth| == |deps|
    ensures Analysis(deps, depth, input).1 <==> |input| > 0 && !HasCycleIn(deps, Elems(input))
  {
    AnalysisEnd(deps, depth, input);
    var (r, ok) := Analysis(deps, depth, input);
    if ok {
      PlacedAcyclic(deps, input, r);
    } else if |input| > 0 {
      BlockedCycle(deps, input, r);
    }
  }

  /** In a state between passes, a node of the collection at depth 0 or deeper is placed and obeys the depth rule. */
  lemma {:induction false} PlacedRule(deps: seq<set<nat>>, input: seq<nat>, r: Run, x: nat)
    requires Good(deps, input, r)
    requires x in input && 0 <= r.depth[x]
    ensures x in r.placed && DepthRule(deps, r.depth, x)
    ensures forall d | d in deps[x] :: d in input && 0 <= r.depth[d] < r.depth[x]
  {
    var k :| 0 <= k < |input| && input[k] == x;
    var j :| 0 <= j < |r.placed| && r.placed[j] == x;
    assert DepthRule(deps, r.depth, x);
    forall d | d in deps[x] ensures d in input {
      assert input[k] < |deps| && d in deps[input[k]];
    }
  }

  /**
   * In a state between passes, the nodes of a circular dependency among the collection's nodes
   * are all waiting: none of them can be placed.
   */
  lemma {:induction false} CycleWaits(deps: seq<set<nat>>, input: seq<nat>, r: Run, p: seq<nat>)
    requires Good(deps, input, r)
    requires IsCycle(deps, p) && forall k | 0 <= k < |p| :: p[k] in input
    ensures forall k | 0 <= k < |p| :: p[k] in r.waiting
  {
    var placed := set x | x in Elems(input) && x < |r.depth| && 0 <= r.depth[x];
    forall x, d | x in placed && x < |deps| && d in deps[x] ensures d in placed {
      PlacedRule(deps, input, r, x);
    }
    forall k | 0 <= k < |p| ensures p[k] in r.waiting {
      var j :| 0 <= j < |input| && input[j] == p[k];
      if r.depth[p[k]] != UNPLACED {
        CycleInside(deps, p, placed, k);
        var rank := map x | x in Elems(p) :: r.depth[x] as nat;
        forall x, d | x in Elems(p) && x < |deps| && d in deps[x] && d in Elems(p) ensures rank[d] < rank[x] {
          PlacedRule(deps, input, r, x);
        }
        RankedNoCycle(deps, Elems(p), rank);
        assert false;
      }
    }
  }

  /**
   * When the analysis succeeds, the placed nodes are the collection's nodes, each once, and every
   * dependency of a placed node is placed before it.
   */
  lemma {:induction false} AnalysisOrder(deps: seq<set<nat>>, depth: seq<int>, input: seq<nat>)
    requires Closed(deps) && Analyzable(deps, input) && |depth| == |deps|
    ensures var (r, ok) := Analysis(deps, depth, input);
      ok ==>
        && |r.placed| == |input| && Distinct(r.placed) && Elems(r.placed) == Elems(input)
        && forall j, d | 0 <= j < |r.placed| && r.placed[j] < |deps| && d in deps[r.placed[j]] :: d in r.placed[..j]
  {
    AnalysisEnd(deps, depth, input);
    var (r, ok) := Analysis(deps, depth, input);
    if ok {
      ListingComplete(deps, input, r);
    }
  }

  /**
   * In a state between passes with no node waiting, the placed nodes are the collection's nodes,
   * each once, and every dependency of a placed node is placed before it.
   */
  lemma {:induction false} ListingComplete(deps: seq<set<nat>>, input: seq<nat>, r: Run)
    requires Good(deps, input, r) && r.waiting == []
    ensures |r.placed| == |input| && Distinct(r.placed) && Elems(r.placed) == Elems(input)
    ensures forall j, d | 0 <= j < |r.placed| && r.placed[j] < |deps| && d in deps[r.placed[j]] :: d in r.placed[..j]
  {
    var p := r.placed;
    forall x | x in Elems(input) ensures x in Elems(p) {
      var k :| 0 <= k < |input| && input[k] == x;
      assert x !in r.waiting;
    }
    DistinctCount(p);
    DistinctCount(input);
    assert |Elems(p) - Elems(input)| == 0;
    ListingOrder(deps, input, p, r.depth);
  }

  /** In a complete listing of a collection closed under dependencies, every dependency of a listed node comes before it. */
  lemma {:induction false} ListingOrder(deps: seq<set<nat>>, input: seq<nat>, p: seq<nat>, depth: seq<int>)
    requires Analyzable(deps, input) && Listing(deps, depth, p) && Elems(p) == Elems(input)
    ensures forall j, d | 0 <= j < |p| && p[j] < |deps| && d in deps[p[j]] :: d in p[..j]
  {
    forall j, d | 0 <= j < |p| && p[j] < |deps| && d in deps[p[j]] ensures d in p[..j] {
      assert p[j] in Elems(input);
      var k :| 0 <= k < |input| && input[k] == p[j];
      assert d in input;
      assert d in Elems(p);
      var i :| 0 <= i < |p| && p[i] == d;
      assert p[..j][i] == d;
    }
  }

  /**
   * In a state between passes every placed node lies at a depth from 0 to the maximum depth, and
   * some placed node lies at the maximum depth when any node is placed.
   */
  lemma {:induction false} LevelsInRange(deps: seq<set<nat>>, input: seq<nat>, r: Run)
    requires Good(deps, input, r)
    ensures 0 <= r.maximum
    ensures forall j | 0 <= j < |r.placed| :: 0 <= r.depth[r.placed[j]] <= r.maximum
    ensures r.placed != [] ==> exists j | 0 <= j < |r.placed| :: r.depth[r.placed[j]] == r.maximum
  {
    forall j | 0 <= j < |r.placed| ensures 0 <= r.depth[r.placed[j]] {
      assert DepthRule(deps, r.depth, r.placed[j]);
    }
  }

  /**
   * The levels of a successful analysis, one per depth from 0 to the maximum depth: a node lies
   * in level d exactly when it is placed at depth d.
   */
  lemma {:induction false} AnalysisLevels(deps: seq<set<nat>>, depth: seq<int>, input: seq<nat>, r: Run)
    requires Closed(deps) && Analyzable(deps, input) && |depth| == |deps|
    requires Analysis(deps, depth, input) == (r, true)
    ensures |r.depth| == |deps| && 0 <= r.maximum
    ensures forall j | 0 <= j < |r.placed| :: r.placed[j] < |r.depth| && 0 <= r.depth[r.placed[j]] <= r.maximum
    ensures forall d: nat, x: nat | d <= r.maximum ::
      x in DepthLevels(r.placed, r.depth, r.maximum)[d] <==> x in input && r.depth[x] == d
  {
    Completed(deps, depth, input, r);
    ListedLevels(r.placed, r.depth, r.maximum, input);
  }

  /**
   * The levels of a successful analysis together hold the nodes of the collection, each once.
   */
  lemma {:induction false} AnalysisLevelsPermute(deps: seq<set<nat>>, depth: seq<int>, input: seq<nat>, r: Run)
    requires Closed(deps) && Analyzable(deps, input) && |depth| == |deps|
    requires Analysis(deps, depth, input) == (r, true)
    ensures |r.depth| == |deps| && 0 <= r.maximum
    ensures forall j | 0 <= j < |r.placed| :: r.placed[j] < |r.depth|
    ensures multiset(Flatten(DepthLevels(r.placed, r.depth, r.maximum))) == multiset(r.placed)
    ensures Distinct(r.placed) && Elems(r.placed) == Elems(input)
  {
    Completed(deps, depth, input, r);
    GroupsArePermutation(r.placed, r.placed, r.depth, r.maximum + 1);
  }

  /**
   * A successful analysis ends with every node of the collection listed once, at a depth from 0
   * to the maximum depth.
   */
  lemma {:induction false} Completed(deps: seq<set<nat>>, depth: seq<int>, input: seq<nat>, r: Run)
    requires Closed(deps) && Analyzable(deps, input) && |depth| == |deps|
    requires Analysis(deps, depth, input) == (r, true)
    ensures |r.depth| == |deps| && 0 <= r.maximum
    ensures forall j | 0 <= j < |r.placed| :: r.placed[j] < |r.depth| && 0 <= r.depth[r.placed[j]] <= r.maximum
    ensures Distinct(r.placed) && Elems(r.placed) == Elems(input)
  {
    AnalysisEnd(deps, depth, input);
    ListingComplete(deps, input, r);
    LevelsInRange(deps, input, r);
  }

  /** The levels of a listing of the nodes of `input` hold exactly those nodes, each at its depth. */
  lemma {:induction false} ListedLevels(placed: seq<nat>, depth: seq<int>, maximum: int, input: seq<nat>)
    requires 0 <= maximum && Elems(placed) == Elems(input)
    requires forall j | 0 <= j < |placed| :: placed[j] < |depth| && 0 <= depth[placed[j]] <= maximum
    ensures forall d: nat, x: nat | d <= maximum ::
      x in DepthLevels(placed, depth, maximum)[d] <==> x in input && depth[x] == d
  {
    forall d: nat, x: nat | d <= maximum
      ensures x in DepthLevels(placed, depth, maximum)[d] <==> x in input && depth[x] == d
    {
      LevelMember(placed, depth, maximum, d, x);
      assert x in placed <==> x in Elems(placed);
      assert x in input <==> x in Elems(input);
    }
  }

  /**
   * After a successful analysis every dependency of a node of the collection lies in the
   * collection at a smaller depth, so with `AnalysisLevels` in a lower level.
   */
  lemma {:induction false} LevelsDepend(deps: seq<set<nat>>, depth: seq<int>, input: seq<nat>, r: Run)
    requires Closed(deps) && Analyzable(deps, input) && |depth| == |deps|
    requires Analysis(deps, depth, input) == (r, true)
    ensures |r.depth| == |deps|
    ensures forall x: nat, y: nat | x in input && y in deps[x] :: y in input && 0 <= r.depth[y] < r.depth[x]
  {
    AnalysisEnd(deps, depth, input);
    ListingComplete(deps, input, r);
    LevelsInRange(deps, input, r);
    forall x: nat, y: nat | x in input && y in deps[x] ensures y in input && 0 <= r.depth[y] < r.depth[x] {
      assert x in Elems(r.placed);
      PlacedRule(deps, input, r, x);
    }
  }

  /** Filtering by depth 0 picks the roots when exactly the nodes without dependencies are at depth 0. */
  lemma {:induction false} RootsAtDepth(deps: seq<set<nat>>, s: seq<nat>, depth: seq<int>)
    requires forall k | 0 <= k < |s| :: s[k] < |deps| && s[k] < |depth|
    requires forall k | 0 <= k < |s| :: depth[s[k]] == 0 <==> deps[s[k]] == {}
    ensures AtDepth(s, depth, 0) == Roots(deps, s)
    decreases |s|
  {
    if s != [] {
      RootsAtDepth(deps, s[..|s| - 1], depth);
    }
  }

  /**
   * In a state between passes, a node of the collection is at depth 0 exactly when it has no
   * dependencies.
   */
  lemma {:induction false} RootsAtZero(deps: seq<set<nat>>, input: seq<nat>, r: Run, k: nat)
    requires Good(deps, input, r) && k < |input|
    ensures r.depth[input[k]] == 0 <==> deps[input[k]] == {}
  {
    var x := input[k];
    if r.depth[x] == UNPLACED {
      assert x in AtDepth(input, r.depth, UNPLACED);
      var j :| 0 <= j < |r.waiting| && r.waiting[j] == x;
    } else {
      PlacedRule(deps, input, r, x);
      if deps[x] != {} {
        var d :| d in deps[x];
      }
    }
  }

  /**
   * Whatever the outcome, the analysis places first the nodes of the collection without
   * dependencies, in collection order.
   */
  lemma {:induction false} AnalysisRootsFirst(deps: seq<set<nat>>, depth: seq<int>, input: seq<nat>)
    requires Closed(deps) && Analyzable(deps, input) && |depth| == |deps|
    ensures var r := Analysis(deps, depth, input).0;
      |Roots(deps, input)| <= |r.placed| && r.placed[..|Roots(deps, input)|] == Roots(deps, input)
  {
    AnalysisEnd(deps, depth, input);
    var r := Analysis(deps, depth, input).0;
    forall k | 0 <= k < |input| ensures r.depth[input[k]] == 0 <==> deps[input[k]] == {} {
      RootsAtZero(deps, input, r, k);
    }
    RootsAtDepth(deps, input, r.depth);
  }

  /**
   * When the analysis fails, the waiting nodes (the live part of `cycle`) are exactly the
   * collection's unplaced nodes in collection order: none when the collection is empty, some
   * otherwise, every node of a circular dependency among them, and the whole collection when
   * every node has a dependency.
   */
  lemma {:induction false} AnalysisCycle(deps: seq<set<nat>>, depth: seq<int>, input: seq<nat>)
    requires Closed(deps) && Analyzable(deps, input) && |depth| == |deps|
    ensures var (r, ok) := Analysis(deps, depth, input);
      !ok ==>
        && |r.depth| == |deps|
        && r.waiting == AtDepth(input, r.depth, UNPLACED)
        && |r.waiting| + |r.placed| == |input|
        && (|input| > 0 <==> r.waiting != [])
        && (forall p | IsCycle(deps, p) && (forall k | 0 <= k < |p| :: p[k] in input) ::
              forall k | 0 <= k < |p| :: p[k] in r.waiting)
        && ((forall k | 0 <= k < |input| :: deps[input[k]] != {}) ==> r.waiting == input)
  {
    AnalysisEnd(deps, depth, input);
    var (r, ok) := Analysis(deps, depth, input);
    if !ok {
      forall p | IsCycle(deps, p) && (forall k | 0 <= k < |p| :: p[k] in input)
        ensures forall k | 0 <= k < |p| :: p[k] in r.waiting
      {
        CycleWaits(deps, input, r, p);
      }
      if forall k | 0 <= k < |input| :: deps[input[k]] != {} {
        WhollyCircular(deps, input, r);
      }
    }
  }

  /** The nodes of `input` that are not at UNPLACED. */
  ghost function PlacedSet(input: seq<nat>, depth: seq<int>): (r: set<nat>)
    ensures forall x :: x in r <==> x in input && x < |depth| && depth[x] != UNPLACED
  {
    set x | x in Elems(input) && x < |depth| && depth[x] != UNPLACED
  }

  /** In a state between passes where every node has a dependency, no node is placed and all wait. */
  lemma {:induction false} WhollyCircular(deps: seq<set<nat>>, input: seq<nat>, r: Run)
    requires Good(deps, input, r)
    requires forall k | 0 <= k < |input| :: deps[input[k]] != {}
    ensures r.placed == [] && r.waiting == input
  {
    var placed := PlacedSet(input, r.depth);
    if placed != {} {
      var x := Shallowest(input, r.depth, placed);
      PlacedRule(deps, input, r, x);
      assert false;
    }
    AllWaiting(deps, input, r);
  }

  /** A placed node of the collection at the least depth among the placed ones. */
  lemma {:induction false} Shallowest(input: seq<nat>, depth: seq<int>, placed: set<nat>) returns (x: nat)
    requires placed != {} && placed == PlacedSet(input, depth)
    ensures x in placed && forall y | y in placed :: depth[x] <= depth[y]
  {
    var x0 :| x0 in placed;
    var m := LeastDepth(placed, depth, depth[x0]);
    if m == depth[x0] {
      x := x0;
    } else {
      x :| x in placed && depth[x] == m;
    }
  }

  /** In a state between passes where every node of the collection is unplaced, all of them wait and none is placed. */
  lemma {:induction false} AllWaiting(deps: seq<set<nat>>, input: seq<nat>, r: Run)
    requires Good(deps, input, r)
    requires forall x | x in Elems(input) && x < |r.depth| :: r.depth[x] == UNPLACED
    ensures r.placed == [] && r.waiting == input
  {
    forall k | 0 <= k < |input| ensures input[k] < |r.depth| && r.depth[input[k]] == UNPLACED {
      assert input[k] in Elems(input);
    }
    AtDepthAll(input, r.depth, UNPLACED);
  }

  /**
   * A successful analysis gives every node of the collection the depth the depth rule asks for,
   * and its maximum depth is the greatest of them.
   */
  lemma {:induction false} AnalysisDepths(deps: seq<set<nat>>, depth: seq<int>, input: seq<nat>)
    requires Closed(deps) && Analyzable(deps, input) && |depth| == |deps|
    ensures var (r, ok) := Analysis(deps, depth, input);
      ok ==>
        && (forall k | 0 <= k < |input| :: DepthRule(deps, r.depth, input[k]) && r.depth[input[k]] <= r.maximum)
        && (exists k | 0 <= k < |input| :: r.depth[input[k]] == r.maximum)
  {
    AnalysisEnd(deps, depth, input);
    var (r, ok) := Analysis(deps, depth, input);
    if ok {
      LevelsInRange(deps, input, r);
      ListingComplete(deps, input, r);
      forall k | 0 <= k < |input| ensures DepthRule(deps, r.depth, input[k]) && r.depth[input[k]] <= r.maximum {
        assert input[k] in Elems(r.placed);
        var j :| 0 <= j < |r.placed| && r.placed[j] == input[k];
      }
      var j :| 0 <= j < |r.placed| && r.depth[r.placed[j]] == r.maximum;
      assert r.placed[j] in Elems(input);
      var k :| 0 <= k < |input| && input[k] == r.placed[j];
    }
  }

  /**
   * Whatever the outcome, every node of the collection ends either placed, at a depth obeying
   * the depth rule, or waiting at UNPLACED; the waiting nodes keep collection order.
   */
  lemma {:induction false} AnalysisPartition(deps: seq<set<nat>>, depth: seq<int>, input: seq<nat>)
    requires Closed(deps) && Analyzable(deps, input) && |depth| == |deps|
    ensures var r := Analysis(deps, depth, input).0;
      && |r.depth| == |deps|
      && r.waiting == AtDepth(input, r.depth, UNPLACED)
      && |r.waiting| + |r.placed| == |input|
      && (forall j | 0 <= j < |r.placed| :: DepthRule(deps, r.depth, r.placed[j]))
      && (forall k | 0 <= k < |input| :: input[k] in r.placed <==> r.depth[input[k]] != UNPLACED)
  {
    AnalysisEnd(deps, depth, input);
    var r := Analysis(deps, depth, input).0;
    forall k | 0 <= k < |input| ensures input[k] in r.placed <==> r.depth[input[k]] != UNPLACED {
      if input[k] in r.placed {
        var j :| 0 <= j < |r.placed| && r.placed[j] == input[k];
        assert DepthRule(deps, r.depth, r.placed[j]);
      }
    }
  }
}
