/**
 * Graph facts shared by both analyzers. A dependency graph is given by its adjacency:
 * entry x of `deps` is the set of node ids that node x depends on.
 */
module Digraph {

  /** The set of ids listed in a node collection. */
  function Elems(s: seq<nat>): (r: set<nat>)
    ensures forall x :: x in r <==> x in s
  {
    set x | x in s
  }

  /** No node is listed twice. */
  ghost predicate Distinct(s: seq<nat>)
  {
    forall i, j | 0 <= i < j < |s| :: s[i] != s[j]
  }

  /** A closed walk along dependency edges: each node depends on the next, the last on the first. */
  ghost predicate IsCycle(deps: seq<set<nat>>, p: seq<nat>)
  {
    && |p| > 0
    && (forall k | 0 <= k < |p| :: p[k] < |deps|)
    && Linked(deps, p)
    && p[0] in deps[p[|p| - 1]]
  }

  /** Each node of the walk depends on the node after it. */
  ghost predicate Linked(deps: seq<set<nat>>, p: seq<nat>)
  {
    forall i, j | 0 <= i < |p| && j == i + 1 < |p| :: p[i] < |deps| && p[j] in deps[p[i]]
  }

  /** Some circular dependency runs entirely through the nodes of `s`. */
  ghost predicate HasCycleIn(deps: seq<set<nat>>, s: set<nat>)
  {
    exists p :: IsCycle(deps, p) && forall k | 0 <= k < |p| :: p[k] in s
  }

  /** Every node of `w` depends on some node of `w`: no node of `w` can ever be placed. */
  ghost predicate Stuck(deps: seq<set<nat>>, w: set<nat>)
  {
    && (forall x | x in w :: x < |deps|)
    && (forall x {:trigger deps[x]} | x in w :: exists d :: d in deps[x] && d in w)
  }

  /**
   * A ranking that strictly decreases along every dependency edge inside `s` rules out
   * a circular dependency inside `s`.
   */
  lemma RankedNoCycle(deps: seq<set<nat>>, s: set<nat>, rank: map<nat, nat>)
    requires forall x | x in s :: x in rank
    requires forall x, d | x in s && x < |deps| && d in deps[x] && d in s :: rank[d] < rank[x]
    ensures !HasCycleIn(deps, s)
  {
    if HasCycleIn(deps, s) {
      var p :| IsCycle(deps, p) && forall k | 0 <= k < |p| :: p[k] in s;
      var k := 0;
      while k < |p| - 1
        invariant 0 <= k <= |p| - 1
        invariant rank[p[k]] + k <= rank[p[0]]
      {
        assert p[k + 1] in deps[p[k]];
        k := k + 1;
      }
      assert false;
    }
  }

  /**
   * A node listing in which every node's dependencies (inside the listing) come before it
   * rules out a circular dependency among the listed nodes.
   */
  lemma TopologicalNoCycle(deps: seq<set<nat>>, s: seq<nat>)
    requires Distinct(s)
    requires forall k, d | 0 <= k < |s| && s[k] < |deps| && d in deps[s[k]] && d in s :: d in s[..k]
    ensures !HasCycleIn(deps, Elems(s))
  {
    var rank := map k | 0 <= k < |s| :: s[k] := k;
    forall x | x in Elems(s) ensures x in rank && rank[x] < |s| && s[rank[x]] == x {
      var k :| 0 <= k < |s| && s[k] == x;
      assert rank[s[k]] == k;
    }
    forall x, d | x in Elems(s) && x < |deps| && d in deps[x] && d in Elems(s)
      ensures rank[d] < rank[x]
    {
      var k := rank[x];
      assert d in s[..k];
      var j :| 0 <= j < k && s[..k][j] == d;
      assert s[j] == d;
      assert rank[d] == j;
    }
    RankedNoCycle(deps, Elems(s), rank);
  }

  /** A sequence longer than the set its elements come from repeats an element. */
  lemma {:induction false} Pigeonhole(p: seq<nat>, w: set<nat>) returns (i: nat, j: nat)
    requires forall k | 0 <= k < |p| :: p[k] in w
    requires |p| > |w|
    ensures i < j < |p| && p[i] == p[j]
    decreases |p|
  {
    if p[0] in p[1..] {
      var m :| 0 <= m < |p[1..]| && p[1..][m] == p[0];
      i, j := 0, m + 1;
    } else {
      assert |w - {p[0]}| == |w| - 1;
      var i', j' := Pigeonhole(p[1..], w - {p[0]});
      i, j := i' + 1, j' + 1;
    }
  }

  /** A walk of n steps from x that never leaves the stuck set w. */
  ghost function Walk(deps: seq<set<nat>>, w: set<nat>, x: nat, n: nat): (p: seq<nat>)
    requires x in w
    requires Stuck(deps, w)
    ensures |p| == n + 1 && p[0] == x
    ensures forall k | 0 <= k < |p| :: p[k] in w && p[k] < |deps|
    ensures Linked(deps, p)
    decreases n
  {
    if n == 0 then [x]
    else
      var y :| y in deps[x] && y in w;
      [x] + Walk(deps, w, y, n - 1)
  }

  /** A walk that revisits a node contains a circular dependency. */
  lemma RepeatedWalkHasCycle(deps: seq<set<nat>>, p: seq<nat>, i: nat, j: nat, s: set<nat>)
    requires i < j < |p| && p[i] == p[j]
    requires forall k | 0 <= k < |p| :: p[k] in s && p[k] < |deps|
    requires Linked(deps, p)
    ensures HasCycleIn(deps, s)
  {
    var c := p[i..j];
    forall a, b | 0 <= a < |c| && b == a + 1 < |c| ensures c[b] in deps[c[a]] {
      assert c[b] == p[i + b] && c[a] == p[i + a];
    }
    assert p[j] in deps[p[j - 1]];
    assert IsCycle(deps, c);
  }

  /**
   * A non-empty stuck set holds a circular dependency: walking inside it for longer than its
   * size must revisit a node.
   */
  lemma StuckHasCycle(deps: seq<set<nat>>, w: set<nat>, s: set<nat>)
    requires w != {} && w <= s
    requires Stuck(deps, w)
    ensures HasCycleIn(deps, s)
  {
    var x :| x in w;
    var p := Walk(deps, w, x, |w|);
    var i, j := Pigeonhole(p, w);
    RepeatedWalkHasCycle(deps, p, i, j, s);
  }

  /** A set closed under dependencies that holds one node of a circular dependency holds all of it. */
  lemma CycleInside(deps: seq<set<nat>>, p: seq<nat>, s: set<nat>, k0: nat)
    requires IsCycle(deps, p) && k0 < |p| && p[k0] in s
    requires forall x, d | x in s && x < |deps| && d in deps[x] :: d in s
    ensures forall k | 0 <= k < |p| :: p[k] in s
  {
    var m := k0;
    while m < |p| - 1
      invariant k0 <= m <= |p| - 1
      invariant forall t | k0 <= t <= m :: p[t] in s
    {
      assert p[m + 1] in deps[p[m]];
      m := m + 1;
    }
    m := 0;
    while m < k0
      invariant 0 <= m <= k0
      invariant forall t | 0 <= t <= m :: p[t] in s
    {
      assert p[m + 1] in deps[p[m]];
      m := m + 1;
    }
  }

  /** A listing without repetitions has as many distinct nodes as entries. */
  lemma {:induction false} DistinctCount(s: seq<nat>)
    requires Distinct(s)
    ensures |Elems(s)| == |s|
    decreases |s|
  {
    if s != [] {
      var init := s[..|s| - 1];
      DistinctCount(init);
      assert Elems(s) == Elems(init) + {s[|s| - 1]};
      assert s[|s| - 1] !in Elems(init);
    }
  }

  /** `rev` is `deps` with every edge turned around. */
  ghost predicate Transposed(deps: seq<set<nat>>, rev: seq<set<nat>>)
  {
    |rev| == |deps| && forall x, y | 0 <= x < |deps| && 0 <= y < |deps| :: y in rev[x] <==> x in deps[y]
  }

  /** Turning every edge around keeps a circular dependency circular, through the same nodes. */
  lemma {:induction false} TransposedCycle(deps: seq<set<nat>>, rev: seq<set<nat>>, s: set<nat>)
    requires Transposed(deps, rev)
    requires HasCycleIn(deps, s)
    ensures HasCycleIn(rev, s)
  {
    var p :| IsCycle(deps, p) && forall k | 0 <= k < |p| :: p[k] in s;
    var n := |p|;
    var q := seq(n, k requires 0 <= k < n => p[n - 1 - k]);
    forall i, j | 0 <= i < |q| && j == i + 1 < |q| ensures q[i] < |rev| && q[j] in rev[q[i]] {
      assert p[n - 1 - i] in deps[p[n - 2 - i]];
    }
    assert q[0] in rev[q[n - 1]] by {
      assert p[0] in deps[p[n - 1]];
    }
    assert forall k | 0 <= k < |q| :: q[k] in s && q[k] < |rev| by {
      forall k | 0 <= k < |q| ensures q[k] in s && q[k] < |rev| {
        assert q[k] == p[n - 1 - k];
      }
    }
    assert IsCycle(rev, q);
  }

  /** A graph and its transpose hold a circular dependency through the same node sets. */
  lemma {:induction false} TransposedCycles(deps: seq<set<nat>>, rev: seq<set<nat>>, s: set<nat>)
    requires Transposed(deps, rev)
    ensures HasCycleIn(deps, s) <==> HasCycleIn(rev, s)
  {
    if HasCycleIn(deps, s) {
      TransposedCycle(deps, rev, s);
    }
    if HasCycleIn(rev, s) {
      TransposedCycle(rev, deps, s);
    }
  }
}
