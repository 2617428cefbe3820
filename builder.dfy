/**
 * A builder of dependency nodes keyed by `K`. It records, per key, a set of keys (`dependents`)
 * and, per key, the value of its node; `GetDependencyNodes` then creates one node per key with a
 * value and wires the recorded pairs as edges. The wiring runs opposite to what the builder's
 * method names suggest: for a recorded pair (c, d) the node of c gains the node of d as a
 * dependent, so the node of d comes to depend on the node of c.
 */
module Builder {
  import opened Wrappers
  import opened Nodes

  /**
   * Why wiring throws: a recorded key whose node does not exist (a null node, dereferenced) or a
   * key recorded against itself (a node cannot depend on itself).
   */
  datatype MapError<K> = MissingNode(key: K, missing: K) | SelfDependent(key: K)

  /** The set recorded for `key`, empty when none was. */
  function Recorded<K>(m: map<K, set<K>>, key: K): (r: set<K>)
    ensures key in m ==> r == m[key]
    ensures key !in m ==> r == {}
  {
    if key in m then m[key] else {}
  }

  /** `m` with `value` added to the set of `key`, the set created empty on first use. */
  function Insert<K>(m: map<K, set<K>>, key: K, value: K): (r: map<K, set<K>>)
    ensures r.Keys == m.Keys + {key}
    ensures r[key] == Recorded(m, key) + {value}
    ensures forall k | k in m && k != key :: r[k] == m[k]
  {
    m[key := Recorded(m, key) + {value}]
  }

  /** Inserting an element already recorded changes nothing. */
  lemma {:induction false} InsertPresent<K>(m: map<K, set<K>>, key: K, value: K)
    requires key in m && value in m[key]
    ensures Insert(m, key, value) == m
  {
    assert m[key] + {value} == m[key];
  }

  /** Inserting twice is inserting once. */
  lemma {:induction false} InsertIdempotent<K>(m: map<K, set<K>>, key: K, value: K)
    ensures Insert(Insert(m, key, value), key, value) == Insert(m, key, value)
  {
    InsertPresent(Insert(m, key, value), key, value);
  }

  /** Insertions of different pairs commute. */
  lemma {:induction false} InsertCommutes<K>(m: map<K, set<K>>, k1: K, v1: K, k2: K, v2: K)
    ensures Insert(Insert(m, k1, v1), k2, v2) == Insert(Insert(m, k2, v2), k1, v1)
  {
    var a := Insert(Insert(m, k1, v1), k2, v2);
    var b := Insert(Insert(m, k2, v2), k1, v1);
    assert a.Keys == b.Keys;
    forall k | k in a ensures a[k] == b[k] {
      if k == k1 && k == k2 {
        assert a[k] == Recorded(m, k) + {v1} + {v2};
        assert b[k] == Recorded(m, k) + {v2} + {v1};
      }
    }
  }

  /** A pair the wiring cannot build: its second key has no node, or both keys are the same. */
  predicate Unwirable<K, V>(values: map<K, V>, c: K, d: K)
  {
    d !in values || d == c
  }

  /**
   * The node ids `nodeMap` gives the keys are distinct and are exactly the ids from `base` up to
   * `size`: one new node per key.
   */
  ghost predicate Numbering<K>(nodeMap: map<K, nat>, base: nat, size: nat)
  {
    && (forall k | k in nodeMap :: base <= nodeMap[k] < size)
    && (forall a, b | a in nodeMap && b in nodeMap && a != b :: nodeMap[a] != nodeMap[b])
    && (forall x | base <= x < size :: Numbered(nodeMap, x))
  }

  /** Some key has node id x. */
  ghost predicate Numbered<K>(nodeMap: map<K, nat>, x: nat)
  {
    exists k | k in nodeMap :: nodeMap[k] == x
  }

  /** Numbering a new key with the next id keeps the numbering one node per key. */
  lemma {:induction false} NumberingGrows<K>(nodeMap: map<K, nat>, base: nat, size: nat, key: K)
    requires Numbering(nodeMap, base, size) && key !in nodeMap && base <= size
    ensures Numbering(nodeMap[key := size], base, size + 1)
  {
    var m := nodeMap[key := size];
    forall x | base <= x < size + 1 ensures Numbered(m, x) {
      if x == size {
        assert m[key] == x;
      } else {
        assert Numbered(nodeMap, x);
        var k :| k in nodeMap && nodeMap[k] == x;
        assert m[k] == x;
      }
    }
  }

  /**
   * The wiring of a recorded pair (c, d) between the nodes of `nodeMap`: as written, the node of d
   * is a dependent of the node of c; when `forward`, as documented, the node of c is a dependent
   * of the node of d.
   */
  ghost predicate Edge<K>(dependents: seq<set<nat>>, nodeMap: map<K, nat>, forward: bool, c: K, d: K)
    requires c in nodeMap && d in nodeMap
    requires nodeMap[c] < |dependents| && nodeMap[d] < |dependents|
  {
    if forward then nodeMap[c] in dependents[nodeMap[d]] else nodeMap[d] in dependents[nodeMap[c]]
  }

  /**
   * Among the nodes of `nodeMap`, the pair (c, d) is wired exactly when d is in `wired[c]`; the
   * nodes of `nodeMap` have no dependents outside those from `base` on, and `wired` names only
   * pairs of different keys with nodes.
   */
  ghost predicate Wired<K>(dependents: seq<set<nat>>, nodeMap: map<K, nat>, base: nat, wired: map<K, set<K>>, forward: bool)
  {
    && (forall c | c in nodeMap :: nodeMap[c] < |dependents| && c in wired)
    && (forall c, d | c in wired && d in wired[c] :: d in nodeMap && d != c)
    && (forall c, d | c in nodeMap && d in nodeMap :: Edge(dependents, nodeMap, forward, c, d) <==> d in wired[c])
    && (forall c, y | c in nodeMap && y in dependents[nodeMap[c]] :: base <= y)
  }

  /** Wiring one more pair of different keys with nodes adds exactly that pair to the wiring. */
  lemma {:induction false} WiredGrows<K>(dependents0: seq<set<nat>>, dependents: seq<set<nat>>, nodeMap: map<K, nat>, base: nat,
                                         wired: map<K, set<K>>, key: K, d: K, forward: bool)
    requires Wired(dependents0, nodeMap, base, wired, forward)
    requires key in nodeMap && d in nodeMap && key != d
    requires forall a, b | a in nodeMap && b in nodeMap && a != b :: nodeMap[a] != nodeMap[b]
    requires forall k | k in nodeMap :: base <= nodeMap[k]
    requires forward ==> dependents == dependents0[nodeMap[d] := dependents0[nodeMap[d]] + {nodeMap[key]}]
    requires !forward ==> dependents == dependents0[nodeMap[key] := dependents0[nodeMap[key]] + {nodeMap[d]}]
    ensures Wired(dependents, nodeMap, base, wired[key := wired[key] + {d}], forward)
  {
    var next := wired[key := wired[key] + {d}];
    forall c, e | c in nodeMap && e in nodeMap ensures Edge(dependents, nodeMap, forward, c, e) <==> e in next[c] {
      assert Edge(dependents0, nodeMap, forward, c, e) <==> e in wired[c];
    }
  }

  /** The pairs wired once every key with a node outside `rest` is done. */
  ghost function Plan<K>(nodeMap: map<K, nat>, dependents: map<K, set<K>>, rest: set<K>): (r: map<K, set<K>>)
    ensures r.Keys == nodeMap.Keys
    ensures forall c | c in nodeMap :: r[c] == if c in rest then {} else Recorded(dependents, c)
  {
    map c | c in nodeMap :: if c in rest then {} else Recorded(dependents, c)
  }

  /** Finishing one more key wires its recorded pairs and leaves the others as they were. */
  lemma {:induction false} PlanStep<K>(nodeMap: map<K, nat>, dependents: map<K, set<K>>, rest: set<K>, key: K)
    requires key in rest && key in nodeMap
    ensures Plan(nodeMap, dependents, rest)[key := Recorded(dependents, key)] == Plan(nodeMap, dependents, rest - {key})
  {
    var a := Plan(nodeMap, dependents, rest)[key := Recorded(dependents, key)];
    var b := Plan(nodeMap, dependents, rest - {key});
    assert a.Keys == b.Keys;
    forall c | c in a ensures a[c] == b[c] { }
  }

  /** The edges of the first `base` nodes are those of an earlier arena. */
  ghost predicate Kept(dependencies0: seq<set<nat>>, dependents0: seq<set<nat>>, dependencies: seq<set<nat>>, dependents: seq<set<nat>>, base: nat)
  {
    && base <= |dependencies0| && base <= |dependents0| && base <= |dependencies| && base <= |dependents|
    && forall x | 0 <= x < base :: dependencies[x] == dependencies0[x] && dependents[x] == dependents0[x]
  }

  /** Once every key is done, the wiring is exactly the recorded pairs, and every recorded pair was wirable. */
  lemma {:induction false} WiringDone<K, V>(dependents: seq<set<nat>>, nodeMap: map<K, nat>, base: nat, recorded: map<K, set<K>>,
                                            values: map<K, V>, forward: bool)
    requires nodeMap.Keys == values.Keys && Wired(dependents, nodeMap, base, Plan(nodeMap, recorded, {}), forward)
    ensures forall c, d | c in values && d in Recorded(recorded, c) :: !Unwirable(values, c, d)
    ensures forall c, d | c in nodeMap && d in nodeMap :: Edge(dependents, nodeMap, forward, c, d) <==> d in Recorded(recorded, c)
    ensures forall c, y | c in nodeMap && y in dependents[nodeMap[c]] :: base <= y
  {
    var wired := Plan(nodeMap, recorded, {});
    forall c, d | c in values && d in Recorded(recorded, c) ensures !Unwirable(values, c, d) {
      assert d in wired[c];
    }
  }

  class DependencyMap<K(==), V(==)> {
    /** Per key, the keys recorded with it. */
    var dependents: map<K, set<K>>
    /** Per key, the value of its node (None for a null value). */
    var values: map<K, Option<V>>

    /** A builder without values or recorded pairs. */
    constructor ()
      ensures dependents == map[] && values == map[]
    {
      dependents, values := map[], map[];
    }

    /** Records `dependency` with `child`. */
    method AddDependency(child: K, dependency: K)
      modifies this`dependents
      ensures dependents == Insert(old(dependents), child, dependency)
    {
      AddToListMap(child, dependency);
    }

    /** Records `parent` with `dependent`: the same as `AddDependency(dependent, parent)`. */
    method AddDependent(parent: K, dependent: K)
      modifies this`dependents
      ensures dependents == Insert(old(dependents), dependent, parent)
    {
      AddToListMap(dependent, parent);
    }

    /** Sets or replaces the value of `key`'s node; the recorded pairs stay as they are. */
    method Add(key: K, value: Option<V>)
      modifies this`values
      ensures values == old(values)[key := value]
    {
      values := values[key := value];
    }

    /** Adds `value` to the set recorded for `key`, creating the set on first use. */
    method AddToListMap(key: K, value: K)
      modifies this`dependents
      ensures dependents == Insert(old(dependents), key, value)
    {
      var list: set<K>;
      if key in dependents {
        list := dependents[key];
      } else {
        list := {};
        dependents := dependents[key := list];
      }
      dependents := dependents[key := list + {value}];
    }

    /**
     * Creates one fresh node per key with a value, holding that value, then for each such key c
     * and each key d recorded with it gives the node of c the node of d as a dependent, so that
     * the node of d depends on the node of c. Keys recorded without a value of their own are
     * skipped. A recorded d without a node, or d equal to c, throws; which offending pair is met
     * first depends on hash order. The nodes already in the arena keep their values and edges.
     */
    method GetDependencyNodes(g: Arena<V>) returns (r: Result<map<K, nat>, MapError<K>>)
      requires g.Valid()
      modifies g
      ensures g.Valid() && old(|g.values|) <= |g.values|
      ensures forall x | 0 <= x < old(|g.values|) ::
        g.values[x] == old(g.values[x]) && g.dependencies[x] == old(g.dependencies[x]) && g.dependents[x] == old(g.dependents[x])
      ensures r.Failure? <==> exists c, d | c in values && d in Recorded(dependents, c) :: Unwirable(values, c, d)
      ensures r.Failure? ==> exists c, d | c in values && d in Recorded(dependents, c) ::
        Unwirable(values, c, d) && r.error == if d in values then SelfDependent(c) else MissingNode(c, d)
      ensures r.Success? ==> r.value.Keys == values.Keys && Numbering(r.value, old(|g.values|), |g.values|)
      ensures r.Success? ==> forall k | k in r.value :: g.values[r.value[k]] == values[k]
      ensures r.Success? ==> forall c, d | c in r.value && d in r.value ::
        r.value[d] in g.dependents[r.value[c]] <==> d in Recorded(dependents, c)
      ensures r.Success? ==> forall c, d | c in r.value && d in r.value ::
        r.value[c] in g.dependencies[r.value[d]] <==> d in Recorded(dependents, c)
      ensures r.Success? ==> forall c, y | c in r.value && y in g.dependents[r.value[c]] :: old(|g.values|) <= y
    {
      ghost var base := |g.values|;
      var nodeMap := MakeNodes(g);
      r := WireNodes(g, nodeMap, base, false);
    }

    /**
     * The wiring the builder's documentation describes: for each key c with a value and each key
     * d recorded with it, the node of c depends on the node of d. Otherwise as `GetDependencyNodes`.
     */
    method GetDependencyNodesAsDocumented(g: Arena<V>) returns (r: Result<map<K, nat>, MapError<K>>)
      requires g.Valid()
      modifies g
      ensures g.Valid() && old(|g.values|) <= |g.values|
      ensures forall x | 0 <= x < old(|g.values|) ::
        g.values[x] == old(g.values[x]) && g.dependencies[x] == old(g.dependencies[x]) && g.dependents[x] == old(g.dependents[x])
      ensures r.Failure? <==> exists c, d | c in values && d in Recorded(dependents, c) :: Unwirable(values, c, d)
      ensures r.Failure? ==> exists c, d | c in values && d in Recorded(dependents, c) ::
        Unwirable(values, c, d) && r.error == if d in values then SelfDependent(c) else MissingNode(c, d)
      ensures r.Success? ==> r.value.Keys == values.Keys && Numbering(r.value, old(|g.values|), |g.values|)
      ensures r.Success? ==> forall k | k in r.value :: g.values[r.value[k]] == values[k]
      ensures r.Success? ==> forall c, d | c in r.value && d in r.value ::
        r.value[d] in g.dependencies[r.value[c]] <==> d in Recorded(dependents, c)
      ensures r.Success? ==> forall c, d | c in r.value && d in r.value ::
        r.value[c] in g.dependents[r.value[d]] <==> d in Recorded(dependents, c)
      ensures r.Success? ==> forall c, y | c in r.value && y in g.dependents[r.value[c]] :: old(|g.values|) <= y
    {
      ghost var base := |g.values|;
      var nodeMap := MakeNodes(g);
      r := WireNodes(g, nodeMap, base, true);
    }

    /** The first loop: one fresh node per key with a value, without edges. */
    method MakeNodes(g: Arena<V>) returns (nodeMap: map<K, nat>)
      requires g.Valid()
      modifies g
      ensures g.Valid() && old(|g.values|) <= |g.values|
      ensures forall x | 0 <= x < old(|g.values|) ::
        g.values[x] == old(g.values[x]) && g.dependencies[x] == old(g.dependencies[x]) && g.dependents[x] == old(g.dependents[x])
      ensures nodeMap.Keys == values.Keys && Numbering(nodeMap, old(|g.values|), |g.values|)
      ensures forall k | k in nodeMap :: g.values[nodeMap[k]] == values[k] && g.dependents[nodeMap[k]] == {}
    {
      nodeMap := map[];
      var keys := values.Keys;
      while keys != {}
        invariant g.Valid() && old(|g.values|) <= |g.values|
        invariant forall x | 0 <= x < old(|g.values|) ::
          g.values[x] == old(g.values[x]) && g.dependencies[x] == old(g.dependencies[x]) && g.dependents[x] == old(g.dependents[x])
        invariant keys <= values.Keys && nodeMap.Keys == values.Keys - keys
        invariant Numbering(nodeMap, old(|g.values|), |g.values|)
        invariant forall k | k in nodeMap :: g.values[nodeMap[k]] == values[k] && g.dependents[nodeMap[k]] == {}
        decreases keys
      {
        var key :| key in keys;
        var id := g.NewNode(values[key]);
        NumberingGrows(nodeMap, old(|g.values|), id, key);
        nodeMap := nodeMap[key := id];
        keys := keys - {key};
      }
    }

    /** The second loop: wires the recorded pairs of every key with a node, in the direction `forward` picks. */
    method WireNodes(g: Arena<V>, nodeMap: map<K, nat>, ghost base: nat, forward: bool) returns (r: Result<map<K, nat>, MapError<K>>)
      requires g.Valid() && base <= |g.values|
      requires nodeMap.Keys == values.Keys && Numbering(nodeMap, base, |g.values|)
      requires forall k | k in nodeMap :: g.values[nodeMap[k]] == values[k] && g.dependents[nodeMap[k]] == {}
      modifies g`dependencies, g`dependents
      ensures g.Valid()
      ensures forall x | 0 <= x < base :: g.dependencies[x] == old(g.dependencies[x]) && g.dependents[x] == old(g.dependents[x])
      ensures r.Failure? <==> exists c, d | c in values && d in Recorded(dependents, c) :: Unwirable(values, c, d)
      ensures r.Failure? ==> exists c, d | c in values && d in Recorded(dependents, c) ::
        Unwirable(values, c, d) && r.error == if d in values then SelfDependent(c) else MissingNode(c, d)
      ensures r.Success? ==> r.value == nodeMap
      ensures r.Success? ==> forall c, d | c in nodeMap && d in nodeMap ::
        Edge(g.dependents, nodeMap, forward, c, d) <==> d in Recorded(dependents, c)
      ensures r.Success? ==> forall c, y | c in nodeMap && y in g.dependents[nodeMap[c]] :: base <= y
    {
      assert Wired(g.dependents, nodeMap, base, Plan(nodeMap, dependents, nodeMap.Keys), forward);
      var o := WireKeys(g, nodeMap, base, forward);
      if o.Fail? {
        r := Failure(o.error);
      } else {
        WiringDone(g.dependents, nodeMap, base, dependents, values, forward);
        r := Success(nodeMap);
      }
    }

    /** The loop of the second step: wires each key in turn, and stops at the first pair it cannot wire. */
    method WireKeys(g: Arena<V>, nodeMap: map<K, nat>, ghost base: nat, forward: bool) returns (o: Outcome<MapError<K>>)
      requires g.Valid() && base <= |g.values|
      requires nodeMap.Keys == values.Keys && Numbering(nodeMap, base, |g.values|)
      requires Wired(g.dependents, nodeMap, base, Plan(nodeMap, dependents, nodeMap.Keys), forward)
      modifies g`dependencies, g`dependents
      ensures g.Valid()
      ensures Kept(old(g.dependencies), old(g.dependents), g.dependencies, g.dependents, base)
      ensures o.Done? ==> Wired(g.dependents, nodeMap, base, Plan(nodeMap, dependents, {}), forward)
      ensures o.Fail? ==> exists c, d | c in values && d in Recorded(dependents, c) ::
        Unwirable(values, c, d) && o.error == if d in values then SelfDependent(c) else MissingNode(c, d)
    {
      var rest := nodeMap.Keys;
      ghost var wired := Plan(nodeMap, dependents, rest);
      o := Done;
      while rest != {}
        invariant g.Valid() && base <= |g.values|
        invariant Kept(old(g.dependencies), old(g.dependents), g.dependencies, g.dependents, base)
        invariant o.Done? && rest <= nodeMap.Keys && wired == Plan(nodeMap, dependents, rest)
        invariant Wired(g.dependents, nodeMap, base, wired, forward)
        decreases rest
      {
        var key :| key in rest;
        o, wired := WireNode(g, nodeMap, base, key, wired, forward);
        if o.Fail? {
          assert key in values;
          return;
        }
        PlanStep(nodeMap, dependents, rest, key);
        rest := rest - {key};
      }
    }

    /**
     * The inner loop: wires `key` with each key recorded with it; as written, the node of `key`
     * gains the node of each as a dependent.
     */
    method WireNode(g: Arena<V>, nodeMap: map<K, nat>, ghost base: nat, key: K, ghost wired: map<K, set<K>>, forward: bool)
      returns (o: Outcome<MapError<K>>, ghost next: map<K, set<K>>)
      requires g.Valid() && base <= |g.values|
      requires nodeMap.Keys == values.Keys && Numbering(nodeMap, base, |g.values|)
      requires key in nodeMap && Wired(g.dependents, nodeMap, base, wired, forward) && wired[key] == {}
      modifies g`dependencies, g`dependents
      ensures g.Valid() && |g.values| == old(|g.values|)
      ensures Kept(old(g.dependencies), old(g.dependents), g.dependencies, g.dependents, base)
      ensures o.Done? ==> next == wired[key := Recorded(dependents, key)]
      ensures o.Done? ==> Wired(g.dependents, nodeMap, base, next, forward)
      ensures o.Fail? ==> exists d | d in Recorded(dependents, key) ::
        Unwirable(values, key, d) && o.error == if d in values then SelfDependent(key) else MissingNode(key, d)
    {
      o, next := Done, wired;
      if key in dependents {
        var deps := dependents[key];
        assert next == wired[key := dependents[key] - deps] by {
          assert dependents[key] - deps == {};
          assert wired[key := {}] == wired;
        }
        while deps != {}
          invariant g.Valid() && |g.values| == old(|g.values|)
          invariant Kept(old(g.dependencies), old(g.dependents), g.dependencies, g.dependents, base)
          invariant o.Done? && deps <= dependents[key]
          invariant next == wired[key := dependents[key] - deps]
          invariant Wired(g.dependents, nodeMap, base, next, forward)
          decreases deps
        {
          var d :| d in deps;
          ghost var prior := next;
          o, next := WirePair(g, nodeMap, base, key, d, next, forward);
          if o.Fail? {
            assert d in Recorded(dependents, key);
            return;
          }
          assert next == wired[key := dependents[key] - (deps - {d})] by {
            assert prior[key] + {d} == dependents[key] - (deps - {d});
          }
          deps := deps - {d};
        }
      }
      assert next == wired[key := Recorded(dependents, key)] by {
        if key in dependents {
          assert dependents[key] - {} == dependents[key];
        } else {
          assert wired[key := {}] == wired;
        }
      }
    }

    /**
     * Wires the pair (key, d): as written, the node of `key` gains the node of `d` as a dependent;
     * when `forward`, the node of `key` gains it as a dependency. Either throws without a node for
     * d or for d equal to key.
     */
    method WirePair(g: Arena<V>, nodeMap: map<K, nat>, ghost base: nat, key: K, d: K, ghost wired: map<K, set<K>>, forward: bool)
      returns (o: Outcome<MapError<K>>, ghost next: map<K, set<K>>)
      requires g.Valid() && base <= |g.values|
      requires nodeMap.Keys == values.Keys && Numbering(nodeMap, base, |g.values|)
      requires key in nodeMap && Wired(g.dependents, nodeMap, base, wired, forward)
      modifies g`dependencies, g`dependents
      ensures g.Valid() && |g.values| == old(|g.values|)
      ensures Kept(old(g.dependencies), old(g.dependents), g.dependencies, g.dependents, base)
      ensures o.Done? <==> !Unwirable(values, key, d)
      ensures o.Done? ==> next == wired[key := wired[key] + {d}] && Wired(g.dependents, nodeMap, base, next, forward)
      ensures o.Fail? ==> o.error == if d in values then SelfDependent(key) else MissingNode(key, d)
    {
      next := wired;
      if d !in nodeMap {
        o := Fail(MissingNode(key, d));
      } else {
        ghost var dependents0 := g.dependents;
        var added;
        if forward {
          added := g.AddDependency(nodeMap[key], nodeMap[d]);
        } else {
          added := g.AddDependent(nodeMap[key], nodeMap[d]);
        }
        if added.Fail? {
          o := Fail(SelfDependent(key));
        } else {
          WiredGrows(dependents0, g.dependents, nodeMap, base, wired, key, d, forward);
          next := wired[key := wired[key] + {d}];
          o := Done;
        }
      }
    }
  }
}
