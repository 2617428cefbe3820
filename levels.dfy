/**
 * Depth-indexed grouping of an ordered node list, shared by the array-based analyzer
 * (its level lists) and the queue-based analyzer (its depth groups). A node list is a
 * sequence of node ids; `depth` is the depth recorded for each id.
 */
module Levels {
  import opened Digraph

  /**
   * Why grouping nodes by depth throws: a negative group count (an array allocation fails) or a
   * node whose depth names no group (an index fails).
   */
  datatype LevelError = NegativeSize(size: int) | DepthOutOfRange(node: nat, depth: int)

  /** The larger of two depths. */
  function Max(a: int, b: int): (r: int)
    ensures r >= a && r >= b && (r == a || r == b)
  {
    if a >= b then a else b
  }

  /** The smaller of two depths. */
  function Min(a: int, b: int): (r: int)
    ensures r <= a && r <= b && (r == a || r == b)
  {
    if a <= b then a else b
  }

  /** The nodes of `s` whose recorded depth is `d`, in the order of `s`. */
  function AtDepth(s: seq<nat>, depth: seq<int>, d: int): (r: seq<nat>)
    requires forall k | 0 <= k < |s| :: s[k] < |depth|
    ensures |r| <= |s|
    ensures forall x {:trigger x in r} :: x in r <==> x in s && x < |depth| && depth[x] == d
    ensures forall k | 0 <= k < |r| :: r[k] in s
    decreases |s|
  {
    if s == [] then []
    else AtDepth(s[..|s| - 1], depth, d) + (if depth[s[|s| - 1]] == d then [s[|s| - 1]] else [])
  }

  /** Filtering a list extended by one node extends the filtered list by that node exactly when it is at depth `d`. */
  lemma AtDepthSnoc(s: seq<nat>, depth: seq<int>, d: int, x: nat)
    requires forall k | 0 <= k < |s| :: s[k] < |depth|
    requires x < |depth|
    ensures AtDepth(s + [x], depth, d) == AtDepth(s, depth, d) + (if depth[x] == d then [x] else [])
  {
    assert (s + [x])[..|s|] == s;
  }

  /** Filtering a list whose nodes are all at depth `d` keeps the whole list. */
  lemma {:induction false} AtDepthAll(s: seq<nat>, depth: seq<int>, d: int)
    requires forall k | 0 <= k < |s| :: s[k] < |depth| && depth[s[k]] == d
    ensures AtDepth(s, depth, d) == s
    decreases |s|
  {
    if s != [] {
      AtDepthAll(s[..|s| - 1], depth, d);
    }
  }

  /** A prefix one longer is the prefix extended by the next entry. */
  lemma TakeSnoc<X>(s: seq<X>, i: nat)
    requires i < |s|
    ensures s[..i + 1] == s[..i] + [s[i]]
  {
  }

  /**
   * The entries of `vs` (one per node of `s`) whose node has recorded depth `d`, in the
   * order of `s`.
   */
  function Select<X>(s: seq<nat>, vs: seq<X>, depth: seq<int>, d: int): (r: seq<X>)
    requires |vs| == |s|
    requires forall k | 0 <= k < |s| :: s[k] < |depth|
    ensures |r| <= |s|
    ensures (forall k | 0 <= k < |s| :: depth[s[k]] != d) ==> r == []
    decreases |s|
  {
    if s == [] then []
    else Select(s[..|s| - 1], vs[..|vs| - 1], depth, d) + (if depth[s[|s| - 1]] == d then [vs[|vs| - 1]] else [])
  }

  /** The number of depth groups a scan of `s` grows: one more than the largest depth, none for no nodes. */
  function DepthBound(s: seq<nat>, depth: seq<int>): (r: nat)
    requires forall k | 0 <= k < |s| :: s[k] < |depth|
    ensures forall k | 0 <= k < |s| :: depth[s[k]] < r
    ensures s == [] ==> r == 0
    ensures (forall k | 0 <= k < |s| :: depth[s[k]] >= 0) && s != [] ==>
      exists k | 0 <= k < |s| :: depth[s[k]] + 1 == r
    decreases |s|
  {
    if s == [] then 0
    else
      var b := DepthBound(s[..|s| - 1], depth);
      assert forall k | 0 <= k < |s| - 1 :: s[..|s| - 1][k] == s[k];
      if depth[s[|s| - 1]] + 1 > b then depth[s[|s| - 1]] + 1 else b
  }

  /** One more node raises the group count to one past its depth, if that is more. */
  lemma {:induction false} DepthBoundSnoc(s: seq<nat>, depth: seq<int>, i: nat)
    requires i < |s|
    requires forall k | 0 <= k < |s| :: s[k] < |depth|
    ensures DepthBound(s[..i + 1], depth) == Max(DepthBound(s[..i], depth), depth[s[i]] + 1)
  {
    assert s[..i + 1][..i] == s[..i];
  }

  /** `DepthBound` only looks at the depths of the listed nodes. */
  lemma {:induction false} DepthBoundFrame(s: seq<nat>, d0: seq<int>, d1: seq<int>)
    requires forall k | 0 <= k < |s| :: s[k] < |d0| && s[k] < |d1| && d0[s[k]] == d1[s[k]]
    ensures DepthBound(s, d0) == DepthBound(s, d1)
    decreases |s|
  {
    if s != [] {
      DepthBoundFrame(s[..|s| - 1], d0, d1);
    }
  }

  /** The concatenation of a list of groups. */
  function Flatten<X>(gs: seq<seq<X>>): seq<X>
    decreases |gs|
  {
    if gs == [] then [] else Flatten(gs[..|gs| - 1]) + gs[|gs| - 1]
  }

  /** The groups for depths 0 .. m - 1 of the entries `vs` of the node list `s`. */
  function Groups<X>(s: seq<nat>, vs: seq<X>, depth: seq<int>, m: nat): (r: seq<seq<X>>)
    requires |vs| == |s|
    requires forall k | 0 <= k < |s| :: s[k] < |depth|
    ensures |r| == m && forall d | 0 <= d < m :: r[d] == Select(s, vs, depth, d)
  {
    seq(m, d requires 0 <= d < m => Select(s, vs, depth, d))
  }

  /** Selecting a node list's own ids picks the same nodes as `AtDepth`. */
  lemma {:induction false} SelectSelf(s: seq<nat>, depth: seq<int>, d: int)
    requires forall k | 0 <= k < |s| :: s[k] < |depth|
    ensures Select(s, s, depth, d) == AtDepth(s, depth, d)
    decreases |s|
  {
    if s != [] {
      SelectSelf(s[..|s| - 1], depth, d);
    }
  }

  /** The nodes at one depth of a list without repetitions are themselves without repetitions. */
  lemma {:induction false} AtDepthDistinct(s: seq<nat>, depth: seq<int>, d: int)
    requires forall k | 0 <= k < |s| :: s[k] < |depth|
    requires Distinct(s)
    ensures Distinct(AtDepth(s, depth, d))
    decreases |s|
  {
    if s != [] {
      var init := s[..|s| - 1];
      AtDepthDistinct(init, depth, d);
      assert s[|s| - 1] !in init;
    }
  }

  /** `AtDepth` only looks at whether each listed node is at depth `d`. */
  lemma {:induction false} AtDepthFrame(s: seq<nat>, d0: seq<int>, d1: seq<int>, d: int)
    requires forall k | 0 <= k < |s| :: s[k] < |d0| && s[k] < |d1| && (d0[s[k]] == d <==> d1[s[k]] == d)
    ensures AtDepth(s, d0, d) == AtDepth(s, d1, d)
    decreases |s|
  {
    if s != [] {
      AtDepthFrame(s[..|s| - 1], d0, d1, d);
    }
  }

  /**
   * Filtering twice by depth `d`, first under `d0` and then under `d1`, is filtering once under
   * `d1`, when every node at depth `d` under `d1` was already at depth `d` under `d0`.
   */
  lemma {:induction false} AtDepthNarrow(s: seq<nat>, d0: seq<int>, d1: seq<int>, d: int)
    requires forall k | 0 <= k < |s| :: s[k] < |d0| && s[k] < |d1|
    requires forall k | 0 <= k < |s| :: d1[s[k]] == d ==> d0[s[k]] == d
    ensures AtDepth(AtDepth(s, d0, d), d1, d) == AtDepth(s, d1, d)
    decreases |s|
  {
    if s != [] {
      var init, last := s[..|s| - 1], s[|s| - 1];
      AtDepthNarrow(init, d0, d1, d);
      var once := AtDepth(init, d0, d);
      if d0[last] == d {
        assert AtDepth(s, d0, d) == once + [last];
        assert (once + [last])[..|once + [last]| - 1] == once;
      } else {
        assert AtDepth(s, d0, d) == once;
      }
    }
  }

  /** Appending one entry to group e adds exactly that entry to the concatenation, as a multiset. */
  lemma {:induction false} FlattenAppendAt<X>(gs: seq<seq<X>>, e: nat, v: X)
    requires e < |gs|
    ensures multiset(Flatten(gs[e := gs[e] + [v]])) == multiset(Flatten(gs)) + multiset{v}
    decreases |gs|
  {
    var gs' := gs[e := gs[e] + [v]];
    var n := |gs|;
    assert gs'[..n - 1] == if e == n - 1 then gs[..n - 1] else gs[..n - 1][e := gs[e] + [v]];
    if e < n - 1 {
      FlattenAppendAt(gs[..n - 1], e, v);
    }
  }

  /** Appending to group e when every later group is empty appends to the concatenation. */
  lemma {:induction false} FlattenAppendLast<X>(gs: seq<seq<X>>, e: nat, v: X)
    requires e < |gs|
    requires forall d | e < d < |gs| :: gs[d] == []
    ensures Flatten(gs[e := gs[e] + [v]]) == Flatten(gs) + [v]
    decreases |gs|
  {
    var gs' := gs[e := gs[e] + [v]];
    var n := |gs|;
    if e == n - 1 {
      assert gs'[..n - 1] == gs[..n - 1];
    } else {
      assert gs'[..n - 1] == gs[..n - 1][e := gs[e] + [v]];
      FlattenAppendLast(gs[..n - 1], e, v);
      assert gs'[n - 1] == gs[n - 1] == [];
    }
  }

  /** Extending the node list by one node extends exactly the group of that node's depth. */
  lemma GroupsSnoc<X>(s: seq<nat>, vs: seq<X>, depth: seq<int>, m: nat)
    requires |vs| == |s| && s != []
    requires forall k | 0 <= k < |s| :: s[k] < |depth|
    requires 0 <= depth[s[|s| - 1]] < m
    ensures var e := depth[s[|s| - 1]];
      var g := Groups(s[..|s| - 1], vs[..|vs| - 1], depth, m);
      Groups(s, vs, depth, m) == g[e := g[e] + [vs[|vs| - 1]]]
  {
    var e := depth[s[|s| - 1]];
    var g := Groups(s[..|s| - 1], vs[..|vs| - 1], depth, m);
    var h := Groups(s, vs, depth, m);
    forall d | 0 <= d < m ensures h[d] == g[e := g[e] + [vs[|vs| - 1]]][d] {
      assert h[d] == Select(s[..|s| - 1], vs[..|vs| - 1], depth, d) + (if e == d then [vs[|vs| - 1]] else []);
    }
  }

  /**
   * Grouping by depth loses and invents nothing: when every depth lies in 0 .. m - 1, the groups
   * together hold exactly the grouped entries.
   */
  lemma {:induction false} GroupsArePermutation<X>(s: seq<nat>, vs: seq<X>, depth: seq<int>, m: nat)
    requires |vs| == |s|
    requires forall k | 0 <= k < |s| :: s[k] < |depth| && 0 <= depth[s[k]] < m
    ensures multiset(Flatten(Groups(s, vs, depth, m))) == multiset(vs)
    decreases |s|
  {
    if s == [] {
      var g := Groups(s, vs, depth, m);
      forall d | 0 <= d < m ensures g[d] == [] { }
      FlattenEmpty(g);
    } else {
      var init, vinit := s[..|s| - 1], vs[..|vs| - 1];
      assert vs == vinit + [vs[|vs| - 1]];
      GroupsArePermutation(init, vinit, depth, m);
      GroupsSnoc(s, vs, depth, m);
      FlattenAppendAt(Groups(init, vinit, depth, m), depth[s[|s| - 1]], vs[|vs| - 1]);
    }
  }

  /**
   * When the node list is ordered by non-decreasing depth, concatenating the groups gives back the
   * grouped entries in their original order.
   */
  lemma {:induction false} GroupsOfSorted<X>(s: seq<nat>, vs: seq<X>, depth: seq<int>, m: nat)
    requires |vs| == |s|
    requires forall k | 0 <= k < |s| :: s[k] < |depth| && 0 <= depth[s[k]] < m
    requires forall i, j | 0 <= i < j < |s| :: depth[s[i]] <= depth[s[j]]
    ensures Flatten(Groups(s, vs, depth, m)) == vs
    decreases |s|
  {
    if s == [] {
      var g := Groups(s, vs, depth, m);
      forall d | 0 <= d < m ensures g[d] == [] { }
      FlattenEmpty(g);
    } else {
      var init, vinit := s[..|s| - 1], vs[..|vs| - 1];
      var e := depth[s[|s| - 1]];
      assert vs == vinit + [vs[|vs| - 1]];
      GroupsOfSorted(init, vinit, depth, m);
      GroupsSnoc(s, vs, depth, m);
      var g := Groups(init, vinit, depth, m);
      forall d | e < d < m ensures g[d] == [] {
        assert forall k | 0 <= k < |init| :: depth[init[k]] <= e;
      }
      FlattenAppendLast(g, e, vs[|vs| - 1]);
    }
  }

  /** The levels of a node list: the nodes at each depth from 0 to `maximum`, in list order. */
  function DepthLevels(s: seq<nat>, depth: seq<int>, maximum: int): (r: seq<seq<nat>>)
    requires -1 <= maximum
    requires forall k | 0 <= k < |s| :: s[k] < |depth|
    ensures |r| == maximum + 1
  {
    Groups(s, s, depth, maximum + 1)
  }

  /** A node lies in level d of a node list exactly when it is listed at depth d. */
  lemma {:induction false} LevelMember(s: seq<nat>, depth: seq<int>, maximum: int, d: nat, x: nat)
    requires -1 <= maximum
    requires forall k | 0 <= k < |s| :: s[k] < |depth|
    requires d <= maximum
    ensures x in DepthLevels(s, depth, maximum)[d] <==> x in s && depth[x] == d
  {
    SelectSelf(s, depth, d);
  }

  /** Concatenating empty groups gives nothing. */
  lemma {:induction false} FlattenEmpty<X>(gs: seq<seq<X>>)
    requires forall d | 0 <= d < |gs| :: gs[d] == []
    ensures Flatten(gs) == []
    decreases |gs|
  {
    if gs != [] {
      FlattenEmpty(gs[..|gs| - 1]);
    }
  }

  /** Adding a group past every listed depth adds an empty group and leaves the others alone. */
  lemma {:induction false} GroupsGrow<X>(s: seq<nat>, vs: seq<X>, depth: seq<int>, m: nat)
    requires |vs| == |s|
    requires forall k | 0 <= k < |s| :: s[k] < |depth| && depth[s[k]] < m
    ensures Groups(s, vs, depth, m + 1) == Groups(s, vs, depth, m) + [[]]
  {
    assert Select(s, vs, depth, m) == [];
  }

  /** Group d of a node list's grown groups holds exactly the listed nodes at depth d. */
  lemma {:induction false} GroupMembers(s: seq<nat>, depth: seq<int>)
    requires forall k | 0 <= k < |s| :: s[k] < |depth|
    ensures forall d: nat, x: nat | d < DepthBound(s, depth) ::
      x in Groups(s, s, depth, DepthBound(s, depth))[d] <==> x in s && depth[x] == d
  {
    forall d: nat, x: nat | d < DepthBound(s, depth)
      ensures x in Groups(s, s, depth, DepthBound(s, depth))[d] <==> x in s && depth[x] == d
    {
      SelectSelf(s, depth, d);
    }
  }

  /** The grown groups of a node list in order of non-decreasing depth, laid end to end, give back its entries. */
  lemma {:induction false} SortedGroups<X>(s: seq<nat>, vs: seq<X>, depth: seq<int>)
    requires |vs| == |s|
    requires forall k | 0 <= k < |s| :: s[k] < |depth| && depth[s[k]] >= 0
    requires forall i, j | 0 <= i < j < |s| :: depth[s[i]] <= depth[s[j]]
    ensures Flatten(Groups(s, vs, depth, DepthBound(s, depth))) == vs
  {
    GroupsOfSorted(s, vs, depth, DepthBound(s, depth));
  }
}
