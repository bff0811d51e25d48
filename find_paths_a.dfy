/**
 * `find_paths` of ass2-a.c: the same multi-source relaxation with an
 * `array_t` as worklist, appended to with `array_insert(.., -1)` and taken
 * from the front with `array_remove(0, ..)`. Its tie-break checks for a NULL
 * predecessor first, so no run dereferences NULL.
 */
module FindPathsArray {
  import opened Wrappers
  import opened Grid
  import opened Placement
  import opened Relaxation
  import opened PtrArray
  import FindPathsQueue

  /**
   * `rule` is the tie-break on equal cost: ass2-a.c's own is `ARule`, its
   * evident intent `LexRule`.
   */
  method FindPaths(g: seq<Corner>, starts: seq<int>, rule: Rule, cost: array<int>, via: array<int>)
    requires EdgesInRange(g) && NonNegative(g) && StartsInRange(g, starts) && rule != QRule
    requires cost.Length == |g| && via.Length == |g| && cost != via
    modifies cost, via
    ensures ShortestPaths(rule, g, starts, cost[..], via[..])
  {
    // the first loop is the same as in ass2-q.c, with UNDEF_VAL = MAX_SECS = 999
    FindPathsQueue.ResetNodes(cost, via);
    var toCheck := SeedStarts(g, starts, cost, via);
    ghost var st := Seeded(g, starts);
    SeededInv(rule, g, starts);
    st := Drain(g, starts, rule, cost, via, toCheck, st);
    FinalState(rule, g, starts, st);
  }

  /** The second loop: every start costs 0 and is appended, in order. */
  method SeedStarts(g: seq<Corner>, starts: seq<int>, cost: array<int>, via: array<int>) returns (toCheck: DynArray<int>)
    requires StartsInRange(g, starts) && cost.Length == |g| && via.Length == |g| && cost != via
    requires forall v :: 0 <= v < |g| ==> cost[v] == MAX_SECS && via[v] == NULL
    modifies cost
    ensures toCheck.Valid() && fresh(toCheck.Repr) && toCheck.Contents == starts
    ensures cost[..] == Seeded(g, starts).cost && via[..] == Seeded(g, starts).via
  {
    toCheck := new DynArray<int>(1);
    var i := 0;
    while i < |starts|
      invariant 0 <= i <= |starts|
      invariant toCheck.Valid() && fresh(toCheck.Repr)
      invariant toCheck.Contents == starts[..i]
      invariant forall v :: 0 <= v < |g| ==> cost[v] == if v in starts[..i] then 0 else MAX_SECS
    {
      assert starts[..i + 1] == starts[..i] + [starts[i]];
      cost[starts[i]] := 0;
      Append(toCheck, starts[i]);
      i := i + 1;
    }
    assert starts[..i] == starts;
  }

  /** The worklist loop: removes the front node and expands it until `array_remove` returns NULL. */
  method Drain(g: seq<Corner>, starts: seq<int>, rule: Rule, cost: array<int>, via: array<int>,
               toCheck: DynArray<int>, ghost st0: State)
    returns (ghost st: State)
    requires EdgesInRange(g) && NonNegative(g) && rule != QRule
    requires cost.Length == |g| && via.Length == |g| && cost != via
    requires toCheck.Valid() && cost !in toCheck.Repr && via !in toCheck.Repr
    requires st0.cost == cost[..] && st0.via == via[..] && st0.wl == toCheck.Contents && st0.cur == NULL
    requires Inv(rule, g, starts, st0)
    modifies cost, via, toCheck.Repr
    ensures st.cost == cost[..] && st.via == via[..] && st.wl == [] && st.cur == NULL && Inv(rule, g, starts, st)
  {
    st := st0;
    var next := Take(toCheck);
    while next.Some?
      invariant toCheck.Valid() && fresh(toCheck.Repr - old(toCheck.Repr))
      invariant next.None? ==> toCheck.Contents == []
      invariant st.cost == cost[..] && st.via == via[..] && st.cur == NULL
      invariant st.wl == (if next.Some? then [next.value] else []) + toCheck.Contents
      invariant Inv(rule, g, starts, st)
      decreases Sum(st.cost), |st.wl|
    {
      var cur := next.value;
      ghost var before := st;
      SumNonNegative(st.cost);
      DequeueStep(rule, g, starts, st);
      assert st.wl[0] == cur && st.wl[1..] == toCheck.Contents;
      st := st.(wl := st.wl[1..], cur := st.wl[0], done := 0);
      st := Expand(g, starts, rule, cost, via, toCheck, cur, st);
      assert Sum(st.cost) < Sum(before.cost) || |st.wl| < |before.wl|;
      next := Take(toCheck);
      assert st.wl == (if next.Some? then [next.value] else []) + toCheck.Contents;
    }
    assert st.wl == [];
  }

  /** `array_insert(node, -1, to_check)`: appends at the back. */
  method Append(toCheck: DynArray<int>, node: int)
    requires toCheck.Valid()
    modifies toCheck.Repr
    ensures toCheck.Valid() && fresh(toCheck.Repr - old(toCheck.Repr))
    ensures toCheck.Contents == old(toCheck.Contents) + [node]
  {
    QueueStep(toCheck.Contents, node);
    toCheck.Insert(node, -1);
  }

  /** `array_remove(0, to_check)`: the front item, or NULL when the array is empty. */
  method Take(toCheck: DynArray<int>) returns (next: Option<int>)
    requires toCheck.Valid()
    modifies toCheck.Repr
    ensures toCheck.Valid() && toCheck.Repr == old(toCheck.Repr)
    ensures old(toCheck.Contents) == [] ==> next == None && toCheck.Contents == []
    ensures old(toCheck.Contents) != [] ==>
      next == Some(old(toCheck.Contents)[0]) && toCheck.Contents == old(toCheck.Contents)[1..]
  {
    QueueStep(toCheck.Contents, 0);
    next := toCheck.Remove(0);
  }

  /** The inner loop: relaxes every street of `cur`; the costs drop or the worklist is unchanged. */
  method Expand(g: seq<Corner>, starts: seq<int>, rule: Rule, cost: array<int>, via: array<int>,
                toCheck: DynArray<int>, cur: int, ghost st0: State)
    returns (ghost st: State)
    requires EdgesInRange(g) && NonNegative(g) && rule != QRule
    requires cost.Length == |g| && via.Length == |g| && cost != via
    requires toCheck.Valid() && cost !in toCheck.Repr && via !in toCheck.Repr
    requires st0.cost == cost[..] && st0.via == via[..] && st0.wl == toCheck.Contents
    requires 0 <= cur < |g| && st0.cur == cur && st0.done == 0 && Inv(rule, g, starts, st0)
    modifies cost, via, toCheck.Repr
    ensures toCheck.Valid() && fresh(toCheck.Repr - old(toCheck.Repr))
    ensures st.cost == cost[..] && st.via == via[..] && st.wl == toCheck.Contents && st.cur == NULL
    ensures Inv(rule, g, starts, st)
    ensures Sum(st.cost) < Sum(st0.cost) || (Sum(st.cost) == Sum(st0.cost) && st.wl == st0.wl)
  {
    st := st0;
    var j := 0;
    while j < |g[cur].out|
      invariant 0 <= j <= |g[cur].out|
      invariant toCheck.Valid() && fresh(toCheck.Repr - old(toCheck.Repr))
      invariant st.cost == cost[..] && st.via == via[..] && st.wl == toCheck.Contents
      invariant st.cur == cur && st.done == j && Inv(rule, g, starts, st)
      invariant Sum(st.cost) < Sum(st0.cost) || (Sum(st.cost) == Sum(st0.cost) && st.wl == st0.wl)
      decreases |g[cur].out| - j
    {
      st := Relax(g, starts, rule, cost, via, toCheck, cur, j, st);
      j := j + 1;
    }
    FinishStep(rule, g, starts, st);
    st := st.(cur := NULL, done := 0);
  }

  /** One street of `cur`, relaxed as `Decide` says; an improved target is appended to the worklist. */
  method Relax(g: seq<Corner>, starts: seq<int>, rule: Rule, cost: array<int>, via: array<int>,
               toCheck: DynArray<int>, cur: int, j: int, ghost st0: State)
    returns (ghost st: State)
    requires EdgesInRange(g) && NonNegative(g) && rule != QRule
    requires cost.Length == |g| && via.Length == |g| && cost != via
    requires toCheck.Valid() && cost !in toCheck.Repr && via !in toCheck.Repr
    requires st0.cost == cost[..] && st0.via == via[..] && st0.wl == toCheck.Contents
    requires 0 <= cur < |g| && 0 <= j < |g[cur].out| && st0.cur == cur && st0.done == j
    requires Inv(rule, g, starts, st0)
    modifies cost, via, toCheck.Repr
    ensures toCheck.Valid() && fresh(toCheck.Repr - old(toCheck.Repr))
    ensures st.cost == cost[..] && st.via == via[..] && st.wl == toCheck.Contents
    ensures st.cur == cur && st.done == j + 1 && Inv(rule, g, starts, st)
    ensures Sum(st.cost) < Sum(st0.cost) || (st.cost == st0.cost && st.wl == st0.wl)
    ensures var e := g[cur].out[j];
      (st.cost, st.via) ==
        RelaxStep(Decide(rule, g, cur, st0.cost[cur] + e.weight, st0.cost[e.to], st0.via[e.to]), e, cur, st0.cost, st0.via) &&
      st.wl == st0.wl + (if st.cost[e.to] < st0.cost[e.to] then [e.to] else []) &&
      NoneRaised(st0.cost, st.cost)
  {
    var e := g[cur].out[j];
    var node := e.to;
    var newCost := cost[cur] + e.weight;
    var action := Decide(rule, g, cur, newCost, cost[node], via[node]);
    if action == Improve {
      st := FindPathsQueue.ImproveTarget(g, starts, rule, cost, via, cur, j, st0);
      Append(toCheck, node);
    } else if action == Retarget {
      st := FindPathsQueue.RetargetTarget(g, starts, rule, cost, via, cur, j, st0);
    } else {
      assert action == Keep;
      KeepStep(rule, g, starts, st0);
      st := st0.(done := j + 1);
    }
  }
}
