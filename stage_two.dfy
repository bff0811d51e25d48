/**
 * `print_stage_2` of both programs: one `find_paths` run from the first
 * location, then a trace for every later location that the run reached
 * (its `via` is not NULL). The printed text is left out; what is kept is
 * the sequence of routes, each a sequence of corner indices from the start.
 */
module StageTwo {
  import opened Grid
  import opened Relaxation
  import opened Trace
  import FindPathsQueue
  import FindPathsArray

  ghost predicate InGrid(g: seq<Corner>, locs: seq<int>)
  {
    forall k :: 0 <= k < |locs| ==> 0 <= locs[k] < |g|
  }

  /** The route of every target the run reached, in the targets' order. */
  function Routes(cost: seq<int>, via: seq<int>, targets: seq<int>): (rs: seq<seq<int>>)
    requires ViaDescends(cost, via)
    requires forall k :: 0 <= k < |targets| ==> 0 <= targets[k] < |via|
    ensures |rs| <= |targets|
  {
    if targets == [] then []
    else
      var last := targets[|targets| - 1];
      Routes(cost, via, targets[..|targets| - 1]) + (if via[last] != NULL then [Route(cost, via, last)] else [])
  }

  /** Exactly the reached targets get a route, and each route ends at its target. */
  lemma {:induction false} RoutesAreTheReached(cost: seq<int>, via: seq<int>, targets: seq<int>)
    requires ViaDescends(cost, via)
    requires forall k :: 0 <= k < |targets| ==> 0 <= targets[k] < |via|
    ensures forall k :: 0 <= k < |targets| && via[targets[k]] != NULL ==> Route(cost, via, targets[k]) in Routes(cost, via, targets)
    ensures forall r :: r in Routes(cost, via, targets) ==>
      exists k :: 0 <= k < |targets| && via[targets[k]] != NULL && r == Route(cost, via, targets[k])
  {
    if targets != [] {
      var init := targets[..|targets| - 1];
      RoutesAreTheReached(cost, via, init);
      assert forall k :: 0 <= k < |init| ==> init[k] == targets[k];
    }
  }

  /**
   * On a completed run from the first location, every route printed starts
   * at that location with cost 0 and follows streets whose times account
   * exactly for the costs: it is a cheapest route.
   */
  lemma {:induction false} RoutesAreShortest(rule: Rule, g: seq<Corner>, start: int, cost: seq<int>, via: seq<int>, targets: seq<int>)
    requires EdgesInRange(g) && 0 <= start < |g| && ShortestPaths(rule, g, [start], cost, via)
    requires ViaDescends(cost, via) && InGrid(g, targets)
    ensures forall r :: r in Routes(cost, via, targets) ==>
      |r| >= 2 && r[0] == start && cost[r[0]] == 0 &&
      forall k :: 0 < k < |r| ==> TightHop(g, cost, r[k - 1], r[k])
  {
    RoutesAreTheReached(cost, via, targets);
    forall r | r in Routes(cost, via, targets)
      ensures |r| >= 2 && r[0] == start && cost[r[0]] == 0
      ensures forall k :: 0 < k < |r| ==> TightHop(g, cost, r[k - 1], r[k])
    {
      var k :| 0 <= k < |targets| && via[targets[k]] != NULL && r == Route(cost, via, targets[k]);
      RouteFromStart(rule, g, start, cost, via, targets[k]);
    }
  }

  lemma RouteFromStart(rule: Rule, g: seq<Corner>, start: int, cost: seq<int>, via: seq<int>, v: int)
    requires EdgesInRange(g) && 0 <= start < |g| && ShortestPaths(rule, g, [start], cost, via)
    requires ViaDescends(cost, via) && 0 <= v < |via| && via[v] != NULL
    ensures var r := Route(cost, via, v); |r| >= 2 && r[0] == start && cost[r[0]] == 0
    ensures forall k :: 0 < k < |Route(cost, via, v)| ==> TightHop(g, cost, Route(cost, via, v)[k - 1], Route(cost, via, v)[k])
  {
    RouteIsShortest(rule, g, [start], cost, via, v);
  }

  lemma RoutesSnoc(cost: seq<int>, via: seq<int>, locs: seq<int>, i: int)
    requires ViaDescends(cost, via) && 1 <= i < |locs|
    requires forall k :: 0 <= k < |locs| ==> 0 <= locs[k] < |via|
    ensures Routes(cost, via, locs[1..i + 1]) ==
      Routes(cost, via, locs[1..i]) + (if via[locs[i]] != NULL then [Route(cost, via, locs[i])] else [])
  {
    assert locs[1..i + 1][..i - 1] == locs[1..i];
  }

  /** The loop of ass2-q.c's `print_stage_2`: trace every later location that was reached. */
  method TraceAllQ(cost: seq<int>, via: seq<int>, locs: seq<int>) returns (routes: seq<seq<int>>)
    requires ViaDescends(cost, via) && |locs| > 0
    requires forall k :: 0 <= k < |locs| ==> 0 <= locs[k] < |via|
    ensures routes == Routes(cost, via, locs[1..])
  {
    routes := [];
    var i := 1;
    while i < |locs|
      invariant 1 <= i <= |locs| && routes == Routes(cost, via, locs[1..i])
    {
      RoutesSnoc(cost, via, locs, i);
      if via[locs[i]] != NULL {
        var r := TraceQ(cost, via, locs[i]);
        routes := routes + [r];
      }
      i := i + 1;
    }
    assert locs[1..i] == locs[1..];
  }

  /** The same loop in ass2-a.c, with its own trace. */
  method TraceAllA(cost: seq<int>, via: seq<int>, locs: seq<int>) returns (routes: seq<seq<int>>)
    requires ViaDescends(cost, via) && |locs| > 0
    requires forall k :: 0 <= k < |locs| ==> 0 <= locs[k] < |via|
    ensures |routes| == |Routes(cost, via, locs[1..])|
    ensures forall k :: 0 <= k < |routes| ==> routes[k] == MiddleReversed(Routes(cost, via, locs[1..])[k])
  {
    routes := [];
    var i := 1;
    while i < |locs|
      invariant 1 <= i <= |locs| && |routes| == |Routes(cost, via, locs[1..i])|
      invariant forall k :: 0 <= k < |routes| ==> routes[k] == MiddleReversed(Routes(cost, via, locs[1..i])[k])
    {
      RoutesSnoc(cost, via, locs, i);
      if via[locs[i]] != NULL {
        var r := TraceA(cost, via, locs[i]);
        routes := routes + [r];
      }
      i := i + 1;
    }
    assert locs[1..i] == locs[1..];
  }

  /**
   * ass2-q.c: `locs->items[0]` is read without a check, so the program
   * needs at least one location. A run that reaches the NULL dereference
   * of the tie-break prints no route.
   */
  method Stage2Q(g: seq<Corner>, locs: seq<int>, cost: array<int>, via: array<int>)
    returns (outcome: Outcome, routes: seq<seq<int>>)
    requires EdgesInRange(g) && PositiveTimes(g) && InGrid(g, locs) && |locs| > 0
    requires cost.Length == |g| && via.Length == |g| && cost != via
    modifies cost, via
    ensures outcome.Fault? ==> NullDerefAt(g, [locs[0]], cost[..], via[..], outcome.cur, outcome.node) && routes == []
    ensures outcome.Done? ==> ShortestPaths(QRule, g, [locs[0]], cost[..], via[..]) && ViaDescends(cost[..], via[..])
    ensures outcome.Done? ==> routes == Routes(cost[..], via[..], locs[1..])
  {
    PositiveIsNonNegative(g);
    outcome := FindPathsQueue.FindPaths(g, [locs[0]], QRule, cost, via);
    routes := [];
    if outcome.Done? {
      PositiveTimesDescend(QRule, g, [locs[0]], cost[..], via[..]);
      routes := TraceAllQ(cost[..], via[..], locs);
    }
  }

  /**
   * ass2-a.c: nothing happens without a location; otherwise every route is
   * printed with its middle reversed, as `TraceA` shows.
   */
  method Stage2A(g: seq<Corner>, locs: seq<int>, rule: Rule, cost: array<int>, via: array<int>)
    returns (routes: seq<seq<int>>)
    requires EdgesInRange(g) && PositiveTimes(g) && InGrid(g, locs) && rule != QRule
    requires cost.Length == |g| && via.Length == |g| && cost != via
    modifies cost, via
    ensures |locs| == 0 ==> routes == [] && cost[..] == old(cost[..]) && via[..] == old(via[..])
    ensures |locs| > 0 ==> ShortestPaths(rule, g, [locs[0]], cost[..], via[..]) && ViaDescends(cost[..], via[..])
    ensures |locs| > 0 ==> (|routes| == |Routes(cost[..], via[..], locs[1..])| &&
      forall k :: 0 <= k < |routes| ==> routes[k] == MiddleReversed(Routes(cost[..], via[..], locs[1..])[k]))
  {
    routes := [];
    if |locs| > 0 {
      PositiveIsNonNegative(g);
      FindPathsArray.FindPaths(g, [locs[0]], rule, cost, via);
      PositiveTimesDescend(rule, g, [locs[0]], cost[..], via[..]);
      routes := TraceAllA(cost[..], via[..], locs);
    }
  }

  lemma PositiveIsNonNegative(g: seq<Corner>)
    requires PositiveTimes(g)
    ensures NonNegative(g)
  {
  }
}
