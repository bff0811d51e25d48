/**
 * What the final state of `find_paths` determines: the costs do not depend
 * on the tie-break, the (x, y) tie-break fixes every predecessor, and the
 * two defective tie-breaks of ass2-q.c and ass2-a.c on concrete grids.
 */
module RouteFacts {
  import opened Grid
  import opened Relaxation
  import Trace

  /** Whatever tie-break ran, the final costs agree: only `via` depends on the rule. */
  lemma CostsDetermined(r1: Rule, r2: Rule, g: seq<Corner>, starts: seq<int>,
                        cost1: seq<int>, via1: seq<int>, cost2: seq<int>, via2: seq<int>)
    requires EdgesInRange(g) && StartsInRange(g, starts)
    requires ShortestPaths(r1, g, starts, cost1, via1) && ShortestPaths(r2, g, starts, cost2, via2)
    ensures cost1 == cost2
  {
    forall v | 0 <= v < |g|
      ensures cost1[v] == cost2[v]
    {
      CappedDistanceUnique(g, starts, v, cost1[v], cost2[v]);
    }
  }

  /** No two corners share both coordinates, as in a grid where each corner is named once. */
  ghost predicate DistinctCoordinates(g: seq<Corner>)
  {
    forall u, v :: 0 <= u < |g| && 0 <= v < |g| && u != v ==> g[u].x != g[v].x || g[u].y != g[v].y
  }

  /** If no tight street into `v` comes from below its predecessor, that predecessor is the least among them. */
  lemma LeastTightPredecessor(g: seq<Corner>, cost: seq<int>, via: seq<int>, a: int, j: int, v: int)
    requires EdgesInRange(g) && |cost| == |via| == |g| && ViaLexMinimal(g, cost, via)
    requires 0 <= a < |g| && 0 <= j < |g[a].out| && g[a].out[j].to == v
    requires 0 <= via[v] < |g| && cost[a] + g[a].out[j].weight == cost[v]
    ensures !LexLess(g[a], g[via[v]])
  {
  }

  /**
   * With the (x, y) tie-break and distinct coordinates, the final state is
   * unique: any two runs (whatever the order of the worklist) leave the
   * same predecessor at every corner.
   */
  lemma ViaDetermined(r1: Rule, r2: Rule, g: seq<Corner>, starts: seq<int>,
                      cost1: seq<int>, via1: seq<int>, cost2: seq<int>, via2: seq<int>)
    requires EdgesInRange(g) && StartsInRange(g, starts) && DistinctCoordinates(g)
    requires r1 != ARule && r2 != ARule
    requires ShortestPaths(r1, g, starts, cost1, via1) && ShortestPaths(r2, g, starts, cost2, via2)
    ensures via1 == via2
  {
    CostsDetermined(r1, r2, g, starts, cost1, via1, cost2, via2);
    forall v | 0 <= v < |g|
      ensures via1[v] == via2[v]
    {
      ViaAgreesAt(g, starts, cost1, via1, via2, v);
    }
  }

  /** The step of `ViaDetermined` at one corner, once the costs are known to agree. */
  lemma ViaAgreesAt(g: seq<Corner>, starts: seq<int>, cost: seq<int>, via1: seq<int>, via2: seq<int>, v: int)
    requires EdgesInRange(g) && StartsInRange(g, starts) && DistinctCoordinates(g)
    requires |cost| == |via1| == |via2| == |g|
    requires forall k :: 0 <= k < |starts| ==> via1[starts[k]] == NULL && via2[starts[k]] == NULL
    requires forall u :: 0 <= u < |g| && u !in starts ==> (via1[u] == NULL <==> cost[u] == MAX_SECS)
    requires forall u :: 0 <= u < |g| && u !in starts ==> (via2[u] == NULL <==> cost[u] == MAX_SECS)
    requires ViaOnTightEdge(g, cost, via1) && ViaOnTightEdge(g, cost, via2)
    requires ViaLexMinimal(g, cost, via1) && ViaLexMinimal(g, cost, via2)
    requires 0 <= v < |g|
    ensures via1[v] == via2[v]
  {
    if v in starts {
      var k :| 0 <= k < |starts| && starts[k] == v;
    } else if via1[v] != NULL && via2[v] != NULL {
      var a, b := via1[v], via2[v];
      var ja :| 0 <= ja < |g[a].out| && g[a].out[ja].to == v && cost[v] == cost[a] + g[a].out[ja].weight;
      var jb :| 0 <= jb < |g[b].out| && g[b].out[jb].to == v && cost[v] == cost[b] + g[b].out[jb].weight;
      LeastTightPredecessor(g, cost, via2, a, ja, v);
      LeastTightPredecessor(g, cost, via1, b, jb, v);
      assert g[a].x == g[b].x && g[a].y == g[b].y;
    }
  }

  /**
   * In ass2-a.c `y` holds the row letter itself; once it is at least every
   * column number, the comparison `y < node->via->x` never holds and a tie
   * is only broken by a strictly lower column.
   */
  lemma MixedLessIgnoresRow(a: Corner, b: Corner)
    requires a.y >= b.x
    ensures MixedLess(a, b) <==> a.x < b.x
  {
  }

  /** Two corners of one column: the (x, y) order prefers the upper one, ass2-a.c's comparison does not. */
  lemma MixedLessMissesRowTie()
    ensures var a := Corner(1, 'a' as int, []); var b := Corner(1, 'c' as int, []);
      LexLess(a, b) && !MixedLess(a, b) && !Prefers(ARule, a, b) && Prefers(LexRule, a, b)
  {
  }

  /**
   * The first step of ass2-q.c's loop on a grid where start 0 has a
   * zero-time street into start 1: the arrival ties with cost 0 while
   * `via` of corner 1 is NULL, so the tie-break reads through NULL.
   */
  lemma QTieBreakReachesNull()
    ensures var g := [Corner(0, 0, [Edge(0, 1, 0)]), Corner(1, 0, [])];
      var starts := [0, 1];
      var st := Seeded(g, starts).(wl := [1], cur := 0, done := 0);
      EdgesInRange(g) && NonNegative(g) && StartsInRange(g, starts) &&
      Decide(QRule, g, 0, NewCost(g, st), st.cost[1], st.via[1]) == NullDeref &&
      NullDerefAt(g, starts, st.cost, st.via, 0, 1)
  {
    var g := [Corner(0, 0, [Edge(0, 1, 0)]), Corner(1, 0, [])];
    var starts := [0, 1];
    var st := Seeded(g, starts).(wl := [1], cur := 0, done := 0);
    assert st.cost[0] == 0 && st.cost[1] == 0;
    assert g[0].out[0].to == 1;
  }

  /** On the same input the guarded tie-breaks keep the start's NULL predecessor. */
  lemma GuardedTieBreakKeeps(rule: Rule)
    requires rule != QRule
    ensures var g := [Corner(0, 0, [Edge(0, 1, 0)]), Corner(1, 0, [])];
      var st := Seeded(g, [0, 1]);
      Decide(rule, g, 0, st.cost[0] + 0, st.cost[1], st.via[1]) == Keep
  {
  }

  /**
   * A 2 x 2 grid with x_dim 2, so corner (x, y) has index 2 * y + x: the
   * start 1a (index 1) has a 1-second street south to 1b (index 3), and 1b
   * and 0b (index 2) are joined both ways by zero-time streets.
   */
  function ZeroTimeLoop(): (g: seq<Corner>)
    ensures |g| == 4 && EdgesInRange(g) && NonNegative(g)
  {
    [Corner(0, 0, []), Corner(1, 0, [Edge(1, 3, 1)]), Corner(0, 1, [Edge(2, 3, 0)]), Corner(1, 1, [Edge(3, 2, 0)])]
  }

  /** The costs and predecessors the runs on `ZeroTimeLoop` end with. */
  const LoopCost: seq<int> := [MAX_SECS, 0, 1, 1]
  const LoopVia: seq<int> := [NULL, NULL, 3, 2]

  lemma ZeroTimeLoopRelaxed()
    ensures AllRelaxed(ZeroTimeLoop(), LoopCost)
  {
    var g := ZeroTimeLoop();
    forall u, j | 0 <= u < |g| && 0 <= j < |g[u].out|
      ensures LoopCost[g[u].out[j].to] <= LoopCost[u] + g[u].out[j].weight
    {
      assert u != 0;
    }
  }

  /** The walks 1a, 1a -> 1b and 1a -> 1b -> 0b, of lengths 0, 1 and 1. */
  lemma ZeroTimeLoopWalks()
    ensures IsWalk(ZeroTimeLoop(), [1], [], 1) && Weight([]) == 0
    ensures IsWalk(ZeroTimeLoop(), [1], [Edge(1, 3, 1)], 3) && Weight([Edge(1, 3, 1)]) == 1
    ensures IsWalk(ZeroTimeLoop(), [1], [Edge(1, 3, 1), Edge(3, 2, 0)], 2) && Weight([Edge(1, 3, 1), Edge(3, 2, 0)]) == 1
  {
    var g := ZeroTimeLoop();
    var walk3 := [Edge(1, 3, 1)];
    var walk2 := [Edge(1, 3, 1), Edge(3, 2, 0)];
    assert walk3[..0] == [] && walk2[..1] == walk3;
    assert walk2[1] in g[3].out;
  }

  /** Each cost is the length of a shortest walk from 1a, or MAX_SECS for 0a, which no street enters. */
  lemma ZeroTimeLoopDistance(v: int)
    requires 0 <= v < 4
    ensures IsCappedDistance(ZeroTimeLoop(), [1], v, LoopCost[v])
  {
    ZeroTimeLoopRelaxed();
    forall es | IsWalk(ZeroTimeLoop(), [1], es, v)
      ensures LoopCost[v] <= Weight(es)
    {
      RelaxedBoundsWalks(ZeroTimeLoop(), [1], LoopCost, es, v);
    }
    ZeroTimeLoopWalks();
  }

  lemma ZeroTimeLoopVia()
    ensures ViaOnTightEdge(ZeroTimeLoop(), LoopCost, LoopVia)
    ensures ViaLexMinimal(ZeroTimeLoop(), LoopCost, LoopVia)
  {
    var g := ZeroTimeLoop();
    assert g[3].out[0].to == 2 && g[2].out[0].to == 3;
  }

  /** 1a is the only start, with cost 0 and no predecessor; 0a alone is unreached and without predecessor. */
  lemma ZeroTimeLoopSeeds()
    ensures CostsBounded(LoopCost) && |LoopCost| == |LoopVia| == 4
    ensures LoopCost[1] == 0 && LoopVia[1] == NULL
    ensures forall v :: 0 <= v < 4 && v != 1 ==> (LoopVia[v] == NULL <==> LoopCost[v] == MAX_SECS)
  {
  }

  /** Relaxing the street 0b -> 1b reaches 1b at its cost with predecessor 1a, of a higher column. */
  lemma ZeroTimeLoopRetargets(rule: Rule)
    ensures Decide(rule, ZeroTimeLoop(), 2, 1, 1, 1) == Retarget
  {
    var g := ZeroTimeLoop();
    assert g[2].x < g[1].x;
  }

  /**
   * Zero times are accepted, and on this grid the final state names 0b as
   * the predecessor of 1b and 1b as that of 0b: when 0b is expanded its
   * street reaches 1b at 1b's own cost from a lower column, so every
   * tie-break retargets. Following `via` from 1b never meets NULL, and the
   * state is a cheapest-route state all the same.
   */
  lemma ZeroTimeLoopIsFinal()
    ensures ShortestPaths(LexRule, ZeroTimeLoop(), [1], LoopCost, LoopVia)
  {
    forall v | 0 <= v < 4
      ensures IsCappedDistance(ZeroTimeLoop(), [1], v, LoopCost[v])
    {
      ZeroTimeLoopDistance(v);
    }
    ZeroTimeLoopSeeds();
    ZeroTimeLoopRelaxed();
    ZeroTimeLoopVia();
  }

  /** The two predecessors point at each other, so the costs do not descend along them. */
  lemma ZeroTimeLoopCycle()
    ensures LoopVia[LoopVia[3]] == 3 && !Trace.ViaDescends(LoopCost, LoopVia)
  {
    assert LoopVia[2] != NULL && !(LoopCost[LoopVia[2]] < LoopCost[2]);
  }

  lemma ZeroTimeLoopDistinct()
    ensures DistinctCoordinates(ZeroTimeLoop())
  {
  }

  /**
   * Any completed run from 1a with the (column, row) tie-break, in either
   * program, and any completed run of ass2-q.c ends in that state.
   */
  lemma ZeroTimeLoopEveryRun(rule: Rule, cost: seq<int>, via: seq<int>)
    requires rule != ARule && ShortestPaths(rule, ZeroTimeLoop(), [1], cost, via)
    ensures cost == LoopCost && via == LoopVia && via[3] == 2 && via[2] == 3
  {
    ZeroTimeLoopIsFinal();
    ZeroTimeLoopDistinct();
    CostsDetermined(rule, LexRule, ZeroTimeLoop(), [1], cost, via, LoopCost, LoopVia);
    ViaDetermined(rule, LexRule, ZeroTimeLoop(), [1], cost, via, LoopCost, LoopVia);
  }
}
