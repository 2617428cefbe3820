/**
 * Dependency nodes. Every node lives in an arena and is named by its id; the arena keeps, per
 * node, its value (null modelled as None), its depth and its two mirrored edge sets: the nodes it
 * depends on (`dependencies`) and the nodes that depend on it (`dependents`).
 */
module Nodes {
  import opened Wrappers

  /** Why a node refuses an edge: a node cannot depend on itself. */
  datatype NodeError = SelfDependency

  /**
   * The node invariant: every edge joins two nodes of the arena, no node depends on itself, and
   * y is among x's dependencies exactly when x is among y's dependents.
   */
  ghost predicate Mirrored(dependencies: seq<set<nat>>, dependents: seq<set<nat>>)
  {
    && |dependencies| == |dependents|
    && (forall x, y | 0 <= x < |dependencies| && y in dependencies[x] :: y < |dependencies| && y != x)
    && (forall x, y | 0 <= x < |dependents| && y in dependents[x] :: y < |dependents|)
    && (forall x, y | 0 <= x < |dependencies| && 0 <= y < |dependencies| ::
          y in dependencies[x] <==> x in dependents[y])
  }

  /** The values held by the nodes of `s`, entry by entry; a node outside the arena holds none. */
  function ValuesOf<T>(values: seq<Option<T>>, s: seq<nat>): (r: seq<Option<T>>)
    ensures |r| == |s|
    ensures forall k | 0 <= k < |s| && s[k] < |values| :: r[k] == values[s[k]]
    decreases |s|
  {
    if s == [] then []
    else ValuesOf(values, s[..|s| - 1]) + [if s[|s| - 1] < |values| then values[s[|s| - 1]] else None]
  }

  /** Listing one more node of the arena appends its value. */
  lemma {:induction false} ValuesOfSnoc<T>(values: seq<Option<T>>, s: seq<nat>, x: nat)
    requires x < |values|
    ensures ValuesOf(values, s + [x]) == ValuesOf(values, s) + [values[x]]
  {
    assert (s + [x])[..|s|] == s;
  }

  class Arena<T(==)> {
    var values: seq<Option<T>>
    var depth: seq<int>
    var dependencies: seq<set<nat>>
    var dependents: seq<set<nat>>

    ghost predicate Valid()
      reads this
    {
      && |depth| == |values|
      && |dependencies| == |values|
      && Mirrored(dependencies, dependents)
    }

    /** An arena without nodes. */
    constructor ()
      ensures Valid()
      ensures values == [] && depth == [] && dependencies == [] && dependents == []
    {
      values, depth, dependencies, dependents := [], [], [], [];
    }

    /** A new node holding `v`, without edges, at the default depth 0. */
    method NewNode(v: Option<T>) returns (id: nat)
      requires Valid()
      modifies this
      ensures Valid()
      ensures id == old(|values|)
      ensures values == old(values) + [v] && depth == old(depth) + [0]
      ensures dependencies == old(dependencies) + [{}] && dependents == old(dependents) + [{}]
    {
      id := |values|;
      values, depth := values + [v], depth + [0];
      dependencies, dependents := dependencies + [{}], dependents + [{}];
    }

    /** Node a comes to depend on node b, and b records a as a dependent; a node cannot depend on itself. */
    method AddDependency(a: nat, b: nat) returns (r: Outcome<NodeError>)
      requires Valid() && a < |values| && b < |values|
      modifies this`dependencies, this`dependents
      ensures Valid()
      ensures r.Fail? <==> a == b
      ensures r.Fail? ==> dependencies == old(dependencies) && dependents == old(dependents)
      ensures r.Done? ==> dependencies == old(dependencies)[a := old(dependencies[a]) + {b}]
      ensures r.Done? ==> dependents == old(dependents)[b := old(dependents[b]) + {a}]
    {
      if a == b {
        return Fail(SelfDependency);
      }
      dependencies := dependencies[a := dependencies[a] + {b}];
      dependents := dependents[b := dependents[b] + {a}];
      r := Done;
    }

    /** Node b comes to depend on node a, and a records b as a dependent; a node cannot depend on itself. */
    method AddDependent(a: nat, b: nat) returns (r: Outcome<NodeError>)
      requires Valid() && a < |values| && b < |values|
      modifies this`dependencies, this`dependents
      ensures Valid()
      ensures r.Fail? <==> a == b
      ensures r.Fail? ==> dependencies == old(dependencies) && dependents == old(dependents)
      ensures r.Done? ==> dependents == old(dependents)[a := old(dependents[a]) + {b}]
      ensures r.Done? ==> dependencies == old(dependencies)[b := old(dependencies[b]) + {a}]
    {
      if a == b {
        return Fail(SelfDependency);
      }
      dependents := dependents[a := dependents[a] + {b}];
      dependencies := dependencies[b := dependencies[b] + {a}];
      r := Done;
    }

    /** Node a stops depending on node b, on both sides of the edge; nothing changes without the edge. */
    method RemoveDependency(a: nat, b: nat)
      requires Valid() && a < |values| && b < |values|
      modifies this`dependencies, this`dependents
      ensures Valid()
      ensures dependencies == old(dependencies)[a := old(dependencies[a]) - {b}]
      ensures dependents == old(dependents)[b := old(dependents[b]) - {a}]
      ensures b !in old(dependencies[a]) ==> dependencies == old(dependencies) && dependents == old(dependents)
    {
      if b !in dependencies[a] {
        assert a !in dependents[b];
        assert dependencies[a] - {b} == dependencies[a] && dependents[b] - {a} == dependents[b];
        assert dependencies[a := dependencies[a] - {b}] == dependencies;
        assert dependents[b := dependents[b] - {a}] == dependents;
      }
      dependencies := dependencies[a := dependencies[a] - {b}];
      dependents := dependents[b := dependents[b] - {a}];
    }

    /** Node b stops depending on node a, on both sides of the edge; nothing changes without the edge. */
    method RemoveDependent(a: nat, b: nat)
      requires Valid() && a < |values| && b < |values|
      modifies this`dependencies, this`dependents
      ensures Valid()
      ensures dependents == old(dependents)[a := old(dependents[a]) - {b}]
      ensures dependencies == old(dependencies)[b := old(dependencies[b]) - {a}]
      ensures b !in old(dependents[a]) ==> dependencies == old(dependencies) && dependents == old(dependents)
    {
      if b !in dependents[a] {
        assert a !in dependencies[b];
        assert dependents[a] - {b} == dependents[a] && dependencies[b] - {a} == dependencies[b];
        assert dependents[a := dependents[a] - {b}] == dependents;
        assert dependencies[b := dependencies[b] - {a}] == dependencies;
      }
      dependents := dependents[a := dependents[a] - {b}];
      dependencies := dependencies[b := dependencies[b] - {a}];
    }

    /**
     * Detaches every dependent of node a: returns the former dependents, leaves a without
     * dependents and removes a from each former dependent's dependencies; no other edge changes.
     */
    method ClearDependents(a: nat) returns (cleared: set<nat>)
      requires Valid() && a < |values|
      modifies this`dependencies, this`dependents
      ensures Valid()
      ensures cleared == old(dependents[a])
      ensures dependents == old(dependents)[a := {}]
      ensures |dependencies| == old(|dependencies|)
      ensures forall x | 0 <= x < |dependencies| :: dependencies[x] == old(dependencies[x]) - {a}
    {
      cleared := dependents[a];
      var rest := cleared;
      while rest != {}
        invariant Valid()
        invariant rest <= cleared
        invariant |dependencies| == old(|dependencies|)
        invariant dependents == old(dependents)[a := rest]
        invariant forall x | 0 <= x < |dependencies| ::
          dependencies[x] == if x in rest then old(dependencies[x]) else old(dependencies[x]) - {a}
        decreases rest
      {
        var dependent :| dependent in rest;
        RemoveDependency(dependent, a);
        rest := rest - {dependent};
      }
    }

    /**
     * Detaches every dependency of node a: returns the former dependencies, leaves a without
     * dependencies and removes a from each former dependency's dependents; no other edge changes.
     */
    method ClearDependencies(a: nat) returns (cleared: set<nat>)
      requires Valid() && a < |values|
      modifies this`dependencies, this`dependents
      ensures Valid()
      ensures cleared == old(dependencies[a])
      ensures dependencies == old(dependencies)[a := {}]
      ensures |dependents| == old(|dependents|)
      ensures forall x | 0 <= x < |dependents| :: dependents[x] == old(dependents[x]) - {a}
    {
      cleared := dependencies[a];
      var rest := cleared;
      while rest != {}
        invariant Valid()
        invariant rest <= cleared
        invariant |dependents| == old(|dependents|)
        invariant dependencies == old(dependencies)[a := rest]
        invariant forall x | 0 <= x < |dependents| ::
          dependents[x] == if x in rest then old(dependents[x]) else old(dependents[x]) - {a}
        decreases rest
      {
        var dependency :| dependency in rest;
        RemoveDependent(dependency, a);
        rest := rest - {dependency};
      }
    }

    /** Node a has dependencies exactly when some node lists a among its dependents. */
    predicate HasDependencies(a: nat)
      reads this
      requires Valid() && a < |values|
      ensures HasDependencies(a) <==> exists y | 0 <= y < |values| :: a in dependents[y]
    {
      assert forall y | y in dependencies[a] :: y < |values| && a in dependents[y];
      dependencies[a] != {}
    }

    /** Node a has dependents exactly when some node lists a among its dependencies. */
    predicate HasDependents(a: nat)
      reads this
      requires Valid() && a < |values|
      ensures HasDependents(a) <==> exists y | 0 <= y < |values| :: a in dependencies[y]
    {
      assert forall y | y in dependents[a] :: y < |values| && a in dependencies[y];
      dependents[a] != {}
    }

    /** Records the depth an analyzer assigned to node a. */
    method SetDepth(a: nat, d: int)
      requires a < |depth|
      modifies this`depth
      ensures depth == old(depth)[a := d]
    {
      depth := depth[a := d];
    }

    /** Replaces the value held by node a. */
    method SetValue(a: nat, v: Option<T>)
      requires a < |values|
      modifies this`values
      ensures values == old(values)[a := v]
    {
      values := values[a := v];
    }

    /**
     * Node equality as the nodes define it: the same node, or both values null, or both values
     * present and equal; this is exactly equality of the held values.
     */
    predicate Equals(a: nat, b: nat)
      reads this
      requires a < |values| && b < |values|
      ensures Equals(a, b) <==> values[a] == values[b]
    {
      a == b ||
      match (values[a], values[b])
      case (None, None) => true
      case (Some(x), Some(y)) => x == y
      case _ => false
    }

    /** The hash of node a: 0 for a null value, otherwise the value's own hash `hash`. */
    function HashCode(a: nat, hash: T -> int): (h: int)
      reads this
      requires a < |values|
      ensures values[a] == None ==> h == 0
      ensures values[a].Some? ==> h == hash(values[a].value)
    {
      match values[a]
      case None => 0
      case Some(v) => hash(v)
    }

    /** The values held by the arena's nodes are pairwise different. */
    ghost predicate DistinctValues()
      reads this
    {
      forall a, b | 0 <= a < b < |values| :: values[a] != values[b]
    }

    /** Equal nodes have equal hashes, whatever the values' hash function. */
    lemma HashAgreesWithEquals(a: nat, b: nat, hash: T -> int)
      requires a < |values| && b < |values|
      requires Equals(a, b)
      ensures HashCode(a, hash) == HashCode(b, hash)
    {
    }

    /** When values are pairwise different, node equality is node identity. */
    lemma EqualsIsIdentity(a: nat, b: nat)
      requires a < |values| && b < |values|
      requires DistinctValues()
      ensures Equals(a, b) <==> a == b
    {
      if a < b {
        assert values[a] != values[b];
      } else if b < a {
        assert values[b] != values[a];
      }
    }
  }
}
