/**
 * The dependency map scenarios of the repository's tests: the diamond's pairs recorded in a map
 * and wired into nodes, as written and as documented, then analyzed by the queue-based analysis.
 */
module MapScenarios {
  import opened Digraph
  import opened Levels
  import opened AnalysisModel
  import opened KahnModel
  import opened Builder
  import opened Scenarios

  /**
   * The pairs the map tests record for the diamond, keys standing for the values 0 .. 4:
   * `AddDependency(0, 1)`, `AddDependency(2, 0)`, `AddDependency(1, 3)`, `AddDependency(1, 4)`.
   */
  function MapDiamond(): (m: map<nat, set<nat>>)
    ensures forall c | 0 <= c < 5 :: Recorded(m, c) == Diamond[c]
  {
    var m := Insert(Insert(Insert(Insert(map[], 0, 1), 2, 0), 1, 3), 1, 4);
    assert Recorded(m, 1) == {3, 4};
    m
  }

  /** The reversed diamond turns every edge of the diamond around. */
  lemma ReversedTransposes()
    ensures forall x, y | 0 <= x < 5 && 0 <= y < 5 :: y in Reversed[x] <==> x in Diamond[y]
  {
  }

  /**
   * The reversed diamond is still free of circular dependencies, so the valid verdict the map
   * tests expect for the diamond holds as written; only the order and the groups change.
   */
  lemma ReversedAcyclic()
    ensures Transposed(Diamond, Reversed)
    ensures !HasCycleIn(Reversed, Elems(All))
  {
    ReversedTransposes();
    DiamondAcyclic();
    TransposedCycles(Diamond, Reversed, Elems(All));
  }

  /**
   * Wired as written, with node ids equal to the keys, the diamond's pairs give the reversed
   * diamond, whose queue-based analysis takes the node of 2 first and groups it alone at depth 0,
   * where the map tests expect the nodes of 3 and 4.
   */
  lemma MapDiamondAsWritten(nodeMap: map<nat, nat>, deps: seq<set<nat>>, input: seq<nat>, out: seq<nat>,
                            left: seq<set<nat>>, dependents: seq<set<nat>>, depth: seq<int>)
    requires |deps| == 5 && Closed(deps)
    requires forall k | 0 <= k < 5 :: k in nodeMap && nodeMap[k] == k
    requires forall c, d | c in nodeMap && d in nodeMap && nodeMap[c] < 5 && nodeMap[d] < 5 ::
      nodeMap[c] in deps[nodeMap[d]] <==> d in Recorded(MapDiamond(), c)
    requires |depth| == 5 && Drained(deps, input, out, left, dependents, depth)
    requires |out| == 5 && Elems(out) == Elems(All)
    ensures deps == Reversed
    ensures out[..3] == [2, 0, 1] && Groups(out, out, depth, DepthBound(out, depth)) == [[2], [0], [1], [out[3], out[4]]]
  {
    assert deps == Reversed by {
      WiredAsWritten(nodeMap, deps);
    }
    ReversedDrained(input, out, left, dependents, depth);
  }

  /** Wired as written, with node ids equal to the keys, the diamond's pairs give the reversed diamond. */
  lemma WiredAsWritten(nodeMap: map<nat, nat>, deps: seq<set<nat>>)
    requires |deps| == 5 && Closed(deps)
    requires forall k | 0 <= k < 5 :: k in nodeMap && nodeMap[k] == k
    requires forall c, d | c in nodeMap && d in nodeMap && nodeMap[c] < 5 && nodeMap[d] < 5 ::
      nodeMap[c] in deps[nodeMap[d]] <==> d in Recorded(MapDiamond(), c)
    ensures deps == Reversed
  {
    ReversedTransposes();
    forall x | 0 <= x < 5 ensures deps[x] == Reversed[x] {
      forall y | y in deps[x] ensures y in Reversed[x] {
        assert nodeMap[y] in deps[nodeMap[x]];
      }
      forall y | y in Reversed[x] ensures y in deps[x] {
        assert nodeMap[y] == y && nodeMap[x] == x;
      }
    }
  }

  /**
   * Wired as documented, with node ids equal to the keys, the diamond's pairs give the diamond,
   * whose queue-based analysis takes the nodes of 3 and 4 first and groups them at depth 0, then
   * 1, 0 and 2, as the map tests expect.
   */
  lemma MapDiamondAsDocumented(nodeMap: map<nat, nat>, deps: seq<set<nat>>, input: seq<nat>, out: seq<nat>,
                               left: seq<set<nat>>, dependents: seq<set<nat>>, depth: seq<int>)
    requires |deps| == 5 && Closed(deps)
    requires forall k | 0 <= k < 5 :: k in nodeMap && nodeMap[k] == k
    requires forall c, d | c in nodeMap && d in nodeMap && nodeMap[c] < 5 && nodeMap[d] < 5 ::
      nodeMap[d] in deps[nodeMap[c]] <==> d in Recorded(MapDiamond(), c)
    requires |depth| == 5 && Drained(deps, input, out, left, dependents, depth)
    requires |out| == 5 && Elems(out) == Elems(All)
    ensures deps == Diamond
    ensures out[2..] == [1, 0, 2] && ((out[0] == 3 && out[1] == 4) || (out[0] == 4 && out[1] == 3))
    ensures Groups(out, out, depth, DepthBound(out, depth)) == [[out[0], out[1]], [1], [0], [2]]
  {
    assert deps == Diamond by {
      WiredAsDocumented(nodeMap, deps);
    }
    DiamondDrained(input, out, left, dependents, depth);
  }

  /** Wired as documented, with node ids equal to the keys, the diamond's pairs give the diamond. */
  lemma WiredAsDocumented(nodeMap: map<nat, nat>, deps: seq<set<nat>>)
    requires |deps| == 5 && Closed(deps)
    requires forall k | 0 <= k < 5 :: k in nodeMap && nodeMap[k] == k
    requires forall c, d | c in nodeMap && d in nodeMap && nodeMap[c] < 5 && nodeMap[d] < 5 ::
      nodeMap[d] in deps[nodeMap[c]] <==> d in Recorded(MapDiamond(), c)
    ensures deps == Diamond
  {
    forall x | 0 <= x < 5 ensures deps[x] == Diamond[x] {
      forall y | y in deps[x] ensures y in Diamond[x] {
        assert nodeMap[y] in deps[nodeMap[x]];
      }
      forall y | y in Diamond[x] ensures y in deps[x] {
        assert nodeMap[y] == y && nodeMap[x] == x;
      }
    }
  }
}
