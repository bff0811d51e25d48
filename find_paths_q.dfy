/**
 * `find_paths` of ass2-q.c: multi-source shortest paths over the corners,
 * with a FIFO queue (`queue_t`) as worklist.
 */
module FindPathsQueue {
  import opened Wrappers
  import opened Grid
  import opened Relaxation
  import opened FifoQueue

  /**
   * Resets every node to (MAX_SECS, NULL), gives the starts cost 0 and
   * enqueues them, then relaxes the streets of each dequeued node until the
   * queue is empty. `rule` is the tie-break on equal cost; ass2-q.c's own is
   * `QRule`, under which the run can stop at a NULL dereference.
   */
  method FindPaths(g: seq<Corner>, starts: seq<int>, rule: Rule, cost: array<int>, via: array<int>)
    returns (outcome: Outcome)
    requires EdgesInRange(g) && NonNegative(g) && StartsInRange(g, starts)
    requires cost.Length == |g| && via.Length == |g| && cost != via
    modifies cost, via
    ensures outcome.Done? ==> ShortestPaths(rule, g, starts, cost[..], via[..])
    ensures outcome.Fault? ==> rule == QRule && NullDerefAt(g, starts, cost[..], via[..], outcome.cur, outcome.node)
  {
    ResetNodes(cost, via);
    var toCheck := SeedStarts(g, starts, cost, via);
    ghost var st := Seeded(g, starts);
    SeededInv(rule, g, starts);

    var fault;
    fault, st := Drain(g, starts, rule, cost, via, toCheck, st);
    if fault.Some? {
      return Fault(fault.value.0, fault.value.1);
    }
    FinalState(rule, g, starts, st);
    return Done;
  }

  /**
   * The worklist loop of `find_paths`: dequeues a node and expands it until
   * the queue is empty (`dequeue` returns NULL), then clears the queue.
   * On a NULL dereference it stops with the pair (cur, node).
   */
  method Drain(g: seq<Corner>, starts: seq<int>, rule: Rule, cost: array<int>, via: array<int>,
               toCheck: Queue<int>, ghost st0: State)
    returns (fault: Option<(int, int)>, ghost st: State)
    requires EdgesInRange(g) && NonNegative(g)
    requires cost.Length == |g| && via.Length == |g| && cost != via
    requires toCheck.Valid() && cost !in toCheck.Repr && via !in toCheck.Repr
    requires st0.cost == cost[..] && st0.via == via[..] && st0.wl == toCheck.Contents && st0.cur == NULL
    requires Inv(rule, g, starts, st0)
    modifies cost, via, toCheck.Repr
    ensures fault.None? ==>
      st.cost == cost[..] && st.via == via[..] && st.wl == [] && st.cur == NULL && Inv(rule, g, starts, st)
    ensures fault.Some? ==> rule == QRule && NullDerefAt(g, starts, cost[..], via[..], fault.value.0, fault.value.1)
  {
    st := st0;
    var next := Take(toCheck);
    while next.Some?
      invariant toCheck.Valid() && fresh(toCheck.Repr - old(toCheck.Repr))
      invariant next.None? ==> toCheck.Contents == []
      invariant st.cost == cost[..] && st.via == via[..] && st.cur == NULL
      invariant st.wl == (if next.Some? then [next.value] else []) + toCheck.Contents
      invariant Inv(rule, g, starts, st)
      decreases Sum(st.cost), |st.wl|
    {
      SumNonNegative(st.cost);
      var bad;
      bad, st := Visit(g, starts, rule, cost, via, toCheck, next.value, st);
      if bad.Some? {
        return Some((next.value, bad.value)), st;
      }
      next := Take(toCheck);
    }
    toCheck.Clear();
    fault := None;
  }

  /** One pass of the worklist loop: the dequeued node `cur` is expanded. */
  method Visit(g: seq<Corner>, starts: seq<int>, rule: Rule, cost: array<int>, via: array<int>,
               toCheck: Queue<int>, cur: int, ghost st0: State)
    returns (fault: Option<int>, ghost st: State)
    requires EdgesInRange(g) && NonNegative(g)
    requires cost.Length == |g| && via.Length == |g| && cost != via
    requires toCheck.Valid() && cost !in toCheck.Repr && via !in toCheck.Repr
    requires st0.cost == cost[..] && st0.via == via[..] && st0.cur == NULL && st0.wl == [cur] + toCheck.Contents
    requires Inv(rule, g, starts, st0)
    modifies cost, via, toCheck.Repr
    ensures toCheck.Valid() && fresh(toCheck.Repr - old(toCheck.Repr))
    ensures fault.None? ==>
      st.cost == cost[..] && st.via == via[..] && st.cur == NULL && st.wl == toCheck.Contents &&
      Inv(rule, g, starts, st) && (Sum(st.cost) < Sum(st0.cost) || (Sum(st.cost) == Sum(st0.cost) && |st.wl| < |st0.wl|))
    ensures fault.Some? ==> rule == QRule && NullDerefAt(g, starts, cost[..], via[..], cur, fault.value)
  {
    DequeueStep(rule, g, starts, st0);
    st := st0.(wl := st0.wl[1..], cur := cur, done := 0);
    fault, st := Expand(g, starts, rule, cost, via, toCheck, cur, st);
  }

  /** `dequeue(to_check)`: the front node, or NULL when the queue is empty. */
  method Take(toCheck: Queue<int>) returns (next: Option<int>)
    requires toCheck.Valid()
    modifies toCheck
    ensures toCheck.Valid() && toCheck.Repr == old(toCheck.Repr)
    ensures old(toCheck.Contents) == [] ==> next == None && toCheck.Contents == []
    ensures old(toCheck.Contents) != [] ==>
      next == Some(old(toCheck.Contents)[0]) && toCheck.Contents == old(toCheck.Contents)[1..]
  {
    next := toCheck.Dequeue();
  }

  /** The first loop of `find_paths`: every node becomes unreached, without predecessor. */
  method ResetNodes(cost: array<int>, via: array<int>)
    requires cost.Length == via.Length && cost != via
    modifies cost, via
    ensures forall v :: 0 <= v < cost.Length ==> cost[v] == MAX_SECS && via[v] == NULL
  {
    var i := 0;
    while i < cost.Length
      invariant 0 <= i <= cost.Length
      invariant forall v :: 0 <= v < i ==> cost[v] == MAX_SECS && via[v] == NULL
    {
      via[i] := NULL;
      cost[i] := MAX_SECS;
      i := i + 1;
    }
  }

  /** The second loop of `find_paths`: every start costs 0 and is enqueued, in order. */
  method SeedStarts(g: seq<Corner>, starts: seq<int>, cost: array<int>, via: array<int>) returns (toCheck: Queue<int>)
    requires StartsInRange(g, starts) && cost.Length == |g| && via.Length == |g| && cost != via
    requires forall v :: 0 <= v < |g| ==> cost[v] == MAX_SECS && via[v] == NULL
    modifies cost
    ensures toCheck.Valid() && fresh(toCheck.Repr) && toCheck.Contents == starts
    ensures cost[..] == Seeded(g, starts).cost && via[..] == Seeded(g, starts).via
  {
    toCheck := new Queue<int>();
    var i := 0;
    while i < |starts|
      invariant 0 <= i <= |starts|
      invariant toCheck.Valid() && fresh(toCheck.Repr)
      invariant toCheck.Contents == starts[..i]
      invariant forall v :: 0 <= v < |g| ==> cost[v] == if v in starts[..i] then 0 else MAX_SECS
    {
      assert starts[..i + 1] == starts[..i] + [starts[i]];
      cost[starts[i]] := 0;
      toCheck.Enqueue(starts[i]);
      i := i + 1;
    }
    assert starts[..i] == starts;
  }

  /**
   * The inner loop of `find_paths`: relaxes every street of `cur`. Either
   * the invariant holds again with `cur` finished, and the costs dropped or
   * the queue is unchanged, or the q tie-break meets a NULL predecessor at
   * node `fault`.
   */
  method Expand(g: seq<Corner>, starts: seq<int>, rule: Rule, cost: array<int>, via: array<int>,
                toCheck: Queue<int>, cur: int, ghost st0: State)
    returns (fault: Option<int>, ghost st: State)
    requires EdgesInRange(g) && NonNegative(g)
    requires cost.Length == |g| && via.Length == |g| && cost != via
    requires toCheck.Valid() && cost !in toCheck.Repr && via !in toCheck.Repr
    requires st0.cost == cost[..] && st0.via == via[..] && st0.wl == toCheck.Contents
    requires 0 <= cur < |g| && st0.cur == cur && st0.done == 0 && Inv(rule, g, starts, st0)
    modifies cost, via, toCheck.Repr
    ensures toCheck.Valid() && fresh(toCheck.Repr - old(toCheck.Repr))
    ensures fault.None? ==>
      st.cost == cost[..] && st.via == via[..] && st.wl == toCheck.Contents && st.cur == NULL &&
      Inv(rule, g, starts, st) &&
      (Sum(st.cost) < Sum(st0.cost) || (Sum(st.cost) == Sum(st0.cost) && st.wl == st0.wl))
    ensures fault.Some? ==> rule == QRule && NullDerefAt(g, starts, cost[..], via[..], cur, fault.value)
  {
    st := st0;
    var j := 0;
    while j < |g[cur].out|
      invariant 0 <= j <= |g[cur].out|
      invariant toCheck.Valid() && fresh(toCheck.Repr - old(toCheck.Repr))
      invariant st.cost == cost[..] && st.via == via[..] && st.wl == toCheck.Contents
      invariant st.cur == cur && st.done == j && Inv(rule, g, starts, st)
      invariant Sum(st.cost) < Sum(st0.cost) || (Sum(st.cost) == Sum(st0.cost) && st.wl == st0.wl)
      decreases |g[cur].out| - j
    {
      fault, st := Relax(g, starts, rule, cost, via, toCheck, cur, j, st);
      if fault.Some? {
        return;
      }
      j := j + 1;
    }
    FinishStep(rule, g, starts, st);
    st := st.(cur := NULL, done := 0);
    fault := None;
  }

  /**
   * One pass of the inner loop: relaxes street `j` of `cur` as `Decide`
   * says, enqueueing the target when its cost drops.
   */
  method Relax(g: seq<Corner>, starts: seq<int>, rule: Rule, cost: array<int>, via: array<int>,
               toCheck: Queue<int>, cur: int, j: int, ghost st0: State)
    returns (fault: Option<int>, ghost st: State)
    requires EdgesInRange(g) && NonNegative(g)
    requires cost.Length == |g| && via.Length == |g| && cost != via
    requires toCheck.Valid() && cost !in toCheck.Repr && via !in toCheck.Repr
    requires st0.cost == cost[..] && st0.via == via[..] && st0.wl == toCheck.Contents
    requires 0 <= cur < |g| && 0 <= j < |g[cur].out| && st0.cur == cur && st0.done == j
    requires Inv(rule, g, starts, st0)
    modifies cost, via, toCheck.Repr
    ensures toCheck.Valid() && fresh(toCheck.Repr - old(toCheck.Repr))
    ensures st.cost == cost[..] && st.via == via[..] && st.wl == toCheck.Contents
    ensures fault.None? ==>
      st.cur == cur && st.done == j + 1 && Inv(rule, g, starts, st) &&
      (Sum(st.cost) < Sum(st0.cost) || (st.cost == st0.cost && st.wl == st0.wl))
    ensures fault.Some? ==> rule == QRule && NullDerefAt(g, starts, cost[..], via[..], cur, fault.value)
    ensures var e := g[cur].out[j];
      var a := Decide(rule, g, cur, st0.cost[cur] + e.weight, st0.cost[e.to], st0.via[e.to]);
      (fault.Some? <==> a == NullDeref) && (fault.Some? ==> fault.value == e.to) &&
      (st.cost, st.via) == RelaxStep(a, e, cur, st0.cost, st0.via) &&
      st.wl == st0.wl + (if st.cost[e.to] < st0.cost[e.to] then [e.to] else []) &&
      NoneRaised(st0.cost, st.cost)
  {
    var e := g[cur].out[j];
    var node := e.to;
    var newCost := cost[cur] + e.weight;
    match Decide(rule, g, cur, newCost, cost[node], via[node])
    case Improve =>
      st := ImproveAndEnqueue(g, starts, rule, cost, via, toCheck, cur, j, st0);
      fault := None;
    case Retarget =>
      st := RetargetTarget(g, starts, rule, cost, via, cur, j, st0);
      fault := None;
    case Keep =>
      KeepStep(rule, g, starts, st0);
      fault, st := None, st0.(done := j + 1);
    case NullDeref =>
      NullDerefStep(rule, g, starts, st0);
      fault, st := Some(node), st0;
  }

  /** The improving branch of ass2-q.c with its `enqueue(node, to_check)`. */
  method ImproveAndEnqueue(g: seq<Corner>, starts: seq<int>, rule: Rule, cost: array<int>, via: array<int>,
                           toCheck: Queue<int>, cur: int, j: int, ghost st0: State)
    returns (ghost st: State)
    requires EdgesInRange(g) && NonNegative(g)
    requires cost.Length == |g| && via.Length == |g| && cost != via
    requires toCheck.Valid() && cost !in toCheck.Repr && via !in toCheck.Repr
    requires st0.cost == cost[..] && st0.via == via[..] && st0.wl == toCheck.Contents
    requires 0 <= cur < |g| && 0 <= j < |g[cur].out| && st0.cur == cur && st0.done == j
    requires Inv(rule, g, starts, st0)
    requires NewCost(g, st0) < st0.cost[CurEdge(g, st0).to]
    modifies cost, via, toCheck.Repr
    ensures toCheck.Valid() && fresh(toCheck.Repr - old(toCheck.Repr))
    ensures st.cost == cost[..] && st.via == via[..] && st.wl == toCheck.Contents
    ensures st.cur == cur && st.done == j + 1 && Inv(rule, g, starts, st) && Sum(st.cost) < Sum(st0.cost)
    ensures var e := g[cur].out[j];
      cost[..] == st0.cost[e.to := st0.cost[cur] + e.weight] && via[..] == st0.via[e.to := cur] &&
      toCheck.Contents == st0.wl + [e.to]
    ensures (st.cost, st.via) == RelaxStep(Improve, g[cur].out[j], cur, st0.cost, st0.via)
    ensures NoneRaised(st0.cost, st.cost) && st.cost[g[cur].out[j].to] < st0.cost[g[cur].out[j].to]
  {
    st := ImproveTarget(g, starts, rule, cost, via, cur, j, st0);
    toCheck.Enqueue(g[cur].out[j].to);
  }

  /** The improving branch: the target takes `cur` as predecessor and the new cost, and joins the worklist. */
  method ImproveTarget(g: seq<Corner>, starts: seq<int>, rule: Rule, cost: array<int>, via: array<int>,
                       cur: int, j: int, ghost st0: State)
    returns (ghost st: State)
    requires EdgesInRange(g) && NonNegative(g)
    requires cost.Length == |g| && via.Length == |g| && cost != via
    requires st0.cost == cost[..] && st0.via == via[..]
    requires 0 <= cur < |g| && 0 <= j < |g[cur].out| && st0.cur == cur && st0.done == j
    requires Inv(rule, g, starts, st0)
    requires NewCost(g, st0) < st0.cost[CurEdge(g, st0).to]
    modifies cost, via
    ensures st.cost == cost[..] && st.via == via[..] && st.wl == st0.wl + [g[cur].out[j].to]
    ensures st.cur == cur && st.done == j + 1 && Inv(rule, g, starts, st) && Sum(st.cost) < Sum(st0.cost)
    ensures var e := g[cur].out[j];
      cost[..] == st0.cost[e.to := st0.cost[cur] + e.weight] && via[..] == st0.via[e.to := cur]
    ensures (st.cost, st.via) == RelaxStep(Improve, g[cur].out[j], cur, st0.cost, st0.via)
    ensures NoneRaised(st0.cost, st.cost) && st.cost[g[cur].out[j].to] < st0.cost[g[cur].out[j].to]
  {
    var e := g[cur].out[j];
    ImproveStep(rule, g, starts, st0);
    st := Improved(g, st0);
    via[e.to] := cur;
    cost[e.to] := cost[cur] + e.weight;
  }

  /** The tie-break branch: only the target's predecessor changes. */
  method RetargetTarget(g: seq<Corner>, starts: seq<int>, rule: Rule, cost: array<int>, via: array<int>,
                         cur: int, j: int, ghost st0: State)
    returns (ghost st: State)
    requires EdgesInRange(g) && NonNegative(g)
    requires cost.Length == |g| && via.Length == |g| && cost != via
    requires st0.cost == cost[..] && st0.via == via[..]
    requires 0 <= cur < |g| && 0 <= j < |g[cur].out| && st0.cur == cur && st0.done == j
    requires Inv(rule, g, starts, st0)
    requires Decide(rule, g, cur, NewCost(g, st0), st0.cost[CurEdge(g, st0).to], st0.via[CurEdge(g, st0).to]) == Retarget
    modifies via
    ensures st.cost == cost[..] && st.via == via[..] && st.wl == st0.wl
    ensures st.cur == cur && st.done == j + 1 && Inv(rule, g, starts, st) && st.cost == st0.cost
    ensures cost[..] == st0.cost && via[..] == st0.via[g[cur].out[j].to := cur]
    ensures (st.cost, st.via) == RelaxStep(Retarget, g[cur].out[j], cur, st0.cost, st0.via)
    ensures NoneRaised(st0.cost, st.cost)
  {
    RetargetStep(rule, g, starts, st0);
    st := Retargeted(g, st0);
    via[g[cur].out[j].to] := cur;
  }
}
