/**
 * The stage-2 trace of both programs: following `via` from a location back
 * to the start and printing the corners from the start onwards. ass2-q.c
 * collects the chain with appends and pops it from the back; ass2-a.c
 * collects it with inserts at index 0 and reads the array from the back.
 */
module Trace {
  import opened Wrappers
  import opened Grid
  import opened Placement
  import opened Relaxation
  import PtrList
  import PtrArray

  /** Every predecessor link leads to a corner of strictly lower, non-negative cost. */
  ghost predicate ViaDescends(cost: seq<int>, via: seq<int>)
  {
    |cost| == |via| &&
    forall v :: 0 <= v < |via| && via[v] != NULL ==> 0 <= via[v] < |via| && 0 <= cost[via[v]] < cost[v]
  }

  function Reverse<T>(s: seq<T>): (r: seq<T>)
    ensures |r| == |s| && forall k :: 0 <= k < |s| ==> r[k] == s[|s| - 1 - k]
  {
    if s == [] then [] else Reverse(s[1..]) + [s[0]]
  }

  /**
   * The corners stage 2 prints for location v: the corner reached by
   * following `via` from v until it is NULL, then each corner on the way
   * back to v.
   */
  function Route(cost: seq<int>, via: seq<int>, v: int): (r: seq<int>)
    requires ViaDescends(cost, via) && 0 <= v < |via|
    ensures |r| >= 1 && r[|r| - 1] == v
    ensures forall k :: 0 <= k < |r| ==> 0 <= r[k] < |via|
    ensures via[r[0]] == NULL
    ensures forall k {:trigger via[r[k]]} :: 0 < k < |r| ==> via[r[k]] == r[k - 1]
    decreases if 0 <= v < |cost| then cost[v] else 0
  {
    if via[v] == NULL then [v] else Route(cost, via, via[v]) + [v]
  }

  /** Costs rise strictly along a route, so no corner appears on it twice. */
  lemma {:induction false} RouteAscends(cost: seq<int>, via: seq<int>, v: int)
    requires ViaDescends(cost, via) && 0 <= v < |via|
    ensures forall k, l :: 0 <= k < l < |Route(cost, via, v)| ==>
      cost[Route(cost, via, v)[k]] < cost[Route(cost, via, v)[l]]
    decreases cost[v]
  {
    if via[v] != NULL {
      RouteAscends(cost, via, via[v]);
      var r, rest := Route(cost, via, v), Route(cost, via, via[v]);
      assert r == rest + [v];
      assert rest[|rest| - 1] == via[v] && cost[via[v]] < cost[v];
      forall k, l | 0 <= k < l < |r|
        ensures cost[r[k]] < cost[r[l]]
      {
        assert r[k] == rest[k];
        if l < |rest| {
          assert r[l] == rest[l];
        } else if k < |rest| - 1 {
          assert cost[rest[k]] < cost[rest[|rest| - 1]];
        }
      }
    }
  }

  /** With positive street times the final state of `find_paths` descends along every `via`. */
  lemma PositiveTimesDescend(rule: Rule, g: seq<Corner>, starts: seq<int>, cost: seq<int>, via: seq<int>)
    requires EdgesInRange(g) && StartsInRange(g, starts) && PositiveTimes(g)
    requires ShortestPaths(rule, g, starts, cost, via)
    ensures ViaDescends(cost, via)
  {
    forall v | 0 <= v < |via| && via[v] != NULL
      ensures 0 <= via[v] < |via| && 0 <= cost[via[v]] < cost[v]
    {
      var u := via[v];
      var j :| 0 <= j < |g[u].out| && g[u].out[j].to == v && cost[v] == cost[u] + g[u].out[j].weight;
    }
  }

  /** Every street takes at least one second. */
  ghost predicate PositiveTimes(g: seq<Corner>)
  {
    forall u, j :: 0 <= u < |g| && 0 <= j < |g[u].out| ==> g[u].out[j].weight > 0
  }

  /** Some street from u to v accounts exactly for the difference of their costs. */
  ghost predicate TightHop(g: seq<Corner>, cost: seq<int>, u: int, v: int)
  {
    0 <= u < |g| && 0 <= v < |cost| && 0 <= u < |cost| &&
    exists j :: 0 <= j < |g[u].out| && g[u].out[j].to == v && cost[v] == cost[u] + g[u].out[j].weight
  }

  /**
   * On the final state of `find_paths`, the route printed for a location
   * with a predecessor is a cheapest way there: it starts at a start
   * corner, every hop is a street, and each corner's cost is its
   * predecessor's plus the street's time.
   */
  lemma RouteIsShortest(rule: Rule, g: seq<Corner>, starts: seq<int>, cost: seq<int>, via: seq<int>, v: int)
    requires EdgesInRange(g) && StartsInRange(g, starts) && ShortestPaths(rule, g, starts, cost, via)
    requires ViaDescends(cost, via) && 0 <= v < |via| && via[v] != NULL
    ensures |Route(cost, via, v)| >= 2 && Route(cost, via, v)[0] in starts && cost[Route(cost, via, v)[0]] == 0
    ensures forall k :: 0 < k < |Route(cost, via, v)| ==> TightHop(g, cost, Route(cost, via, v)[k - 1], Route(cost, via, v)[k])
  {
    var r := Route(cost, via, v);
    RouteAscends(cost, via, v);
    assert cost[r[0]] < cost[v] < MAX_SECS;
    forall k | 0 < k < |r|
      ensures TightHop(g, cost, r[k - 1], r[k])
    {
      assert via[r[k]] == r[k - 1];
    }
    var k :| 0 <= k < |starts| && starts[k] == r[0];
  }

  // ---------------------------------------------------------------- ass2-q.c

  /** The last item of a list: `list_remove(-1, path)`. */
  method Pop(path: PtrList.List<int>) returns (r: Option<int>)
    requires path.Valid()
    modifies path.Repr
    ensures path.Valid() && path.Repr == old(path.Repr)
    ensures old(path.Contents) == [] ==> r == None && path.Contents == []
    ensures old(path.Contents) != [] ==>
      r == Some(old(path.Contents)[|old(path.Contents)| - 1]) && path.Contents == old(path.Contents)[..|old(path.Contents)| - 1]
  {
    ghost var s := path.Contents;
    r := path.Remove(-1);
    if s != [] {
      assert Removed(s, |s| - 1) == s[..|s| - 1];
    }
  }

  /** One step up the `via` chain: the route of cnr is the route of its predecessor followed by cnr. */
  lemma StepBack(cost: seq<int>, via: seq<int>, cnr: int, taken: seq<int>)
    requires ViaDescends(cost, via) && 0 <= cnr < |via| && via[cnr] != NULL
    ensures Route(cost, via, cnr) + Reverse(taken) == Route(cost, via, via[cnr]) + Reverse(taken + [cnr])
  {
    ReverseSnoc(taken, Some(cnr));
  }

  /**
   * The trace of ass2-q.c's `print_stage_2`: append each corner met while
   * following `via` from the location, then print the corner with no
   * predecessor and pop the list from the back.
   */
  method TraceQ(cost: seq<int>, via: seq<int>, v: int) returns (route: seq<int>)
    requires ViaDescends(cost, via) && 0 <= v < |via|
    ensures route == Route(cost, via, v)
  {
    var path := new PtrList.List<int>(1);
    var cnr := v;
    while via[cnr] != NULL
      invariant path.Valid() && fresh(path.Repr)
      invariant 0 <= cnr < |via| && Route(cost, via, v) == Route(cost, via, cnr) + Reverse(path.Contents)
      decreases cost[cnr]
    {
      StepBack(cost, via, cnr, path.Contents);
      InsertedAppends(path.Contents, cnr, -1);
      path.Insert(cnr, -1);
      cnr := via[cnr];
    }
    route := PopAll(cnr, path);
  }

  /** Print `first`, then pop and print every item of `path` from the back until it is empty. */
  method PopAll(first: int, path: PtrList.List<int>) returns (route: seq<int>)
    requires path.Valid()
    modifies path.Repr
    ensures path.Valid() && path.Repr == old(path.Repr) && path.Contents == []
    ensures route == [first] + Reverse(old(path.Contents))
  {
    route := [first];
    var next := Pop(path);
    ReverseSnoc(path.Contents, next);
    while next.Some?
      invariant path.Valid() && path.Repr == old(path.Repr)
      invariant next.None? ==> path.Contents == []
      invariant [first] + Reverse(old(path.Contents)) == route + (if next.Some? then [next.value] else []) + Reverse(path.Contents)
      decreases |path.Contents| + (if next.Some? then 1 else 0)
    {
      route := route + [next.value];
      next := Pop(path);
      ReverseSnoc(path.Contents, next);
    }
  }

  lemma ReverseSnoc(s: seq<int>, r: Option<int>)
    ensures r.Some? ==> Reverse(s + [r.value]) == [r.value] + Reverse(s)
  {
    if r.Some? {
      var a, b := Reverse(s + [r.value]), [r.value] + Reverse(s);
      assert |a| == |b|;
      forall k | 0 <= k < |a|
        ensures a[k] == b[k]
      {
        if k > 0 {
          assert a[k] == (s + [r.value])[|s| - k];
        }
      }
    }
  }

  lemma ReverseAppend(a: seq<int>, b: seq<int>)
    ensures Reverse(a + b) == Reverse(b) + Reverse(a)
  {
    assert |Reverse(a + b)| == |Reverse(b) + Reverse(a)|;
    forall k | 0 <= k < |a| + |b|
      ensures Reverse(a + b)[k] == (Reverse(b) + Reverse(a))[k]
    {
    }
  }

  lemma ReverseReverse(s: seq<int>)
    ensures Reverse(Reverse(s)) == s
  {
  }

  // ---------------------------------------------------------------- ass2-a.c

  /** The array after inserting each of `s` at index 0, in order, with `array_insert`'s placement. */
  function AtFront(s: seq<int>): seq<int>
  {
    if s == [] then [] else Inserted(AtFront(s[..|s| - 1]), s[|s| - 1], 0)
  }

  lemma AtFrontSnoc(s: seq<int>, x: int)
    ensures AtFront(s + [x]) == Inserted(AtFront(s), x, 0)
  {
    assert (s + [x])[..|s|] == s;
  }

  /** Inserting c1, c2, ..., cm at index 0 leaves the array [c1, cm, ..., c2]. */
  lemma {:induction false} AtFrontShape(s: seq<int>)
    requires |s| > 0
    ensures AtFront(s) == [s[0]] + Reverse(s[1..])
  {
    if |s| > 1 {
      var p, x := s[..|s| - 1], s[|s| - 1];
      AtFrontShape(p);
      var a := AtFront(p);
      assert a == [s[0]] + Reverse(p[1..]);
      InsertAtZeroLandsSecond(a, x);
      assert AtFront(s) == [s[0], x] + a[1..];
      assert a[1..] == Reverse(p[1..]);
      assert s[1..] == p[1..] + [x];
      ReverseSnoc(p[1..], Some(x));
      assert Reverse(s[1..]) == [x] + Reverse(p[1..]);
    } else {
      assert AtFront(s) == Inserted([], s[0], 0);
    }
  }

  /** A route with its two ends kept in place and the corners between them in reverse order. */
  function MiddleReversed(r: seq<int>): seq<int>
  {
    if |r| <= 2 then r else [r[0]] + Reverse(r[1..|r| - 1]) + [r[|r| - 1]]
  }

  /** Printing the start and then the array built by `AtFront` from the back gives the middle-reversed route. */
  lemma PrintedFromBack(start: int, taken: seq<int>)
    ensures [start] + Reverse(AtFront(taken)) == MiddleReversed([start] + Reverse(taken))
  {
    if taken != [] {
      var t0, rest := taken[0], taken[1..];
      assert taken == [t0] + rest;
      AtFrontShape(taken);
      assert Reverse(AtFront(taken)) == rest + [t0] by {
        ReverseAppend([t0], Reverse(rest));
        ReverseReverse(rest);
      }
      var r := [start] + Reverse(taken);
      assert Reverse(taken) == Reverse(rest) + [t0] by {
        ReverseAppend([t0], rest);
      }
      if rest != [] {
        assert r[1..|r| - 1] == Reverse(rest) && r[|r| - 1] == t0;
        ReverseReverse(rest);
      }
    }
  }

  /** ass2-a.c's order is the route exactly when the route has at most three corners. */
  lemma MiddleReversedIsRoute(cost: seq<int>, via: seq<int>, v: int)
    requires ViaDescends(cost, via) && 0 <= v < |via|
    ensures MiddleReversed(Route(cost, via, v)) == Route(cost, via, v) <==> |Route(cost, via, v)| <= 3
  {
    var r := Route(cost, via, v);
    if |r| >= 4 {
      RouteAscends(cost, via, v);
      assert MiddleReversed(r)[1] == r[|r| - 2];
      assert cost[r[1]] < cost[r[|r| - 2]];
    } else if |r| == 3 {
      assert Reverse(r[1..2]) == r[1..2];
    }
  }

  /**
   * The trace of ass2-a.c's `print_stage_2`: insert each corner met while
   * following `via` at index 0, then print the corner with no predecessor
   * and the array from its last item down.
   */
  method TraceA(cost: seq<int>, via: seq<int>, v: int) returns (route: seq<int>)
    requires ViaDescends(cost, via) && 0 <= v < |via|
    ensures route == MiddleReversed(Route(cost, via, v))
  {
    var arr := new PtrArray.DynArray<int>(1);
    var cnr := v;
    ghost var taken: seq<int> := [];
    while via[cnr] != NULL
      invariant arr.Valid() && fresh(arr.Repr)
      invariant 0 <= cnr < |via| && Route(cost, via, v) == Route(cost, via, cnr) + Reverse(taken)
      invariant arr.Contents == AtFront(taken)
      decreases cost[cnr]
    {
      StepBack(cost, via, cnr, taken);
      AtFrontSnoc(taken, cnr);
      arr.Insert(cnr, 0);
      taken := taken + [cnr];
      cnr := via[cnr];
    }
    route := ReadBack(cnr, arr);
    PrintedFromBack(cnr, taken);
  }

  /** Print `first`, then the array's items from its last down to index 0. */
  method ReadBack(first: int, arr: PtrArray.DynArray<int>) returns (route: seq<int>)
    requires arr.Valid()
    ensures route == [first] + Reverse(arr.Contents)
  {
    route := [first];
    var j := arr.count;
    while j > 0
      invariant 0 <= j <= arr.count
      invariant route == [first] + Reverse(arr.Contents[j..])
    {
      j := j - 1;
      assert arr.Contents[j..] == [arr.Contents[j]] + arr.Contents[j + 1..];
      ReverseAppend([arr.Contents[j]], arr.Contents[j + 1..]);
      route := route + [arr.items[j].value];
    }
    assert arr.Contents[0..] == arr.Contents;
  }

  /** The trace ass2-a.c evidently intends: append each corner, then read the array from the back. */
  method TraceAFixed(cost: seq<int>, via: seq<int>, v: int) returns (route: seq<int>)
    requires ViaDescends(cost, via) && 0 <= v < |via|
    ensures route == Route(cost, via, v)
  {
    var arr := new PtrArray.DynArray<int>(1);
    var cnr := v;
    while via[cnr] != NULL
      invariant arr.Valid() && fresh(arr.Repr)
      invariant 0 <= cnr < |via| && Route(cost, via, v) == Route(cost, via, cnr) + Reverse(arr.Contents)
      decreases cost[cnr]
    {
      StepBack(cost, via, cnr, arr.Contents);
      InsertedAppends(arr.Contents, cnr, -1);
      arr.Insert(cnr, -1);
      cnr := via[cnr];
    }
    route := ReadBack(cnr, arr);
  }

  /** A four-corner route 0 -> 1 -> 2 -> 3: ass2-a.c prints 0, 2, 1, 3. */
  lemma MiddleReversedOnThreeHops()
    ensures var cost := [0, 1, 2, 3]; var via := [NULL, 0, 1, 2];
      ViaDescends(cost, via) && Route(cost, via, 3) == [0, 1, 2, 3] && MiddleReversed(Route(cost, via, 3)) == [0, 2, 1, 3]
  {
    RouteOfThreeHops();
    MiddleOfFour();
  }

  lemma RouteOfThreeHops()
    ensures var cost := [0, 1, 2, 3]; var via := [NULL, 0, 1, 2];
      ViaDescends(cost, via) && Route(cost, via, 3) == [0, 1, 2, 3]
  {
    var cost := [0, 1, 2, 3];
    var via := [NULL, 0, 1, 2];
    assert Route(cost, via, 0) == [0];
    assert Route(cost, via, 1) == [0, 1];
    assert Route(cost, via, 2) == [0, 1, 2];
  }

  lemma MiddleOfFour()
    ensures MiddleReversed([0, 1, 2, 3]) == [0, 2, 1, 3]
  {
    var r := [0, 1, 2, 3];
    assert r[1..3] == [1, 2];
    assert Reverse([1, 2]) == [2, 1] by {
      assert [1, 2][1..] == [2];
      assert Reverse([2]) == [2];
    }
  }
}
