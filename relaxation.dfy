/**
 * The relaxation of `find_paths`, common to ass2-q.c and ass2-a.c, on an
 * index-based graph: node ids are positions in `g`, `cost` and `via` are
 * sequences indexed by node, `via` is NULL (-1) for "no predecessor".
 *
 * The module holds the decision taken for each outgoing street, the
 * invariant the worklist loop keeps, one lemma per kind of loop step, and
 * what the invariant gives once the worklist is empty: every cost is the
 * shortest-walk distance from the nearest start, capped at MAX_SECS.
 */
module Relaxation {
  import opened Grid

  /**
   * The tie-break applied on an equal-cost arrival: `QRule` as ass2-q.c
   * writes it (no NULL check, matching axes), `ARule` as ass2-a.c writes it
   * (NULL check, `y` compared with the other node's `x`), `LexRule` the
   * evident intent (NULL check, matching axes).
   */
  datatype Rule = QRule | ARule | LexRule

  /** What happens to the target of a street when it is relaxed. */
  datatype Action = Improve | Retarget | Keep | NullDeref

  /** The (x, y) order the tie-break is meant to use. */
  predicate LexLess(a: Corner, b: Corner)
  {
    a.x < b.x || (a.x == b.x && a.y < b.y)
  }

  /** The comparison of ass2-a.c: on equal columns `y` is compared with the other node's `x`. */
  predicate MixedLess(a: Corner, b: Corner)
  {
    a.x < b.x || (a.x == b.x && a.y < b.x)
  }

  /** Whether `rule` lets `a` take over from `b` as predecessor. */
  predicate Prefers(rule: Rule, a: Corner, b: Corner)
  {
    if rule == ARule then MixedLess(a, b) else LexLess(a, b)
  }

  /**
   * The branch taken for a street from `cur` whose target has cost `cost`
   * and predecessor `via`, when the arrival costs `newCost`.
   */
  function Decide(rule: Rule, g: seq<Corner>, cur: int, newCost: int, cost: int, via: int): (a: Action)
    requires 0 <= cur < |g| && (via == NULL || 0 <= via < |g|)
    ensures a == Improve <==> newCost < cost
    ensures a == NullDeref <==> rule == QRule && newCost == cost && via == NULL
    ensures a == Retarget ==> newCost == cost && via != NULL && Prefers(rule, g[cur], g[via])
    ensures a == Keep && newCost == cost && via != NULL ==> !Prefers(rule, g[cur], g[via])
  {
    match rule
    case QRule =>
      if newCost < cost then Improve
      else if newCost == cost then
        (if via == NULL then NullDeref
         else if LexLess(g[cur], g[via]) then Retarget
         else Keep)
      else Keep
    case ARule =>
      if newCost < cost then Improve
      else if via != NULL && newCost == cost && MixedLess(g[cur], g[via]) then Retarget
      else Keep
    case LexRule =>
      if newCost < cost then Improve
      else if via != NULL && newCost == cost && LexLess(g[cur], g[via]) then Retarget
      else Keep
  }

  /**
   * The costs and predecessors after relaxing street `e` of `cur` with
   * action `a`: an improvement gives the target the arrival cost and `cur`
   * as predecessor, a tie-break only the predecessor, and the other actions
   * leave both arrays as they are.
   */
  function RelaxStep(a: Action, e: Edge, cur: int, cost: seq<int>, via: seq<int>): (r: (seq<int>, seq<int>))
    requires 0 <= cur < |cost| && 0 <= e.to < |cost| && |cost| == |via|
    ensures |r.0| == |cost| && |r.1| == |via|
    ensures forall v :: 0 <= v < |cost| && v != e.to ==> r.0[v] == cost[v] && r.1[v] == via[v]
  {
    match a
    case Improve => (cost[e.to := cost[cur] + e.weight], via[e.to := cur])
    case Retarget => (cost, via[e.to := cur])
    case _ => (cost, via)
  }

  /** No cost in `after` is above the same node's cost in `before`. */
  ghost predicate NoneRaised(before: seq<int>, after: seq<int>)
  {
    |after| == |before| && forall v :: 0 <= v < |before| ==> after[v] <= before[v]
  }

  /**
   * Relaxing one street as `Decide` chooses never raises a cost and lowers
   * at most the target's, to exactly the arrival cost; the predecessor
   * changes only to `cur`, and only when the arrival is no dearer.
   */
  lemma RelaxOnlyLowers(rule: Rule, g: seq<Corner>, cur: int, j: int, cost: seq<int>, via: seq<int>)
    requires 0 <= cur < |g| && 0 <= j < |g[cur].out| && |cost| == |via| == |g|
    requires 0 <= g[cur].out[j].to < |g| && (via[g[cur].out[j].to] == NULL || 0 <= via[g[cur].out[j].to] < |g|)
    ensures var e := g[cur].out[j];
      var r := RelaxStep(Decide(rule, g, cur, cost[cur] + e.weight, cost[e.to], via[e.to]), e, cur, cost, via);
      NoneRaised(cost, r.0) &&
      (r.0[e.to] < cost[e.to] <==> cost[cur] + e.weight < cost[e.to]) &&
      (r.0[e.to] < cost[e.to] ==> r.0[e.to] == cost[cur] + e.weight) &&
      (r.1[e.to] != via[e.to] ==> r.1[e.to] == cur && cost[cur] + e.weight <= cost[e.to])
  {
    var e := g[cur].out[j];
    var a := Decide(rule, g, cur, cost[cur] + e.weight, cost[e.to], via[e.to]);
    var r := RelaxStep(a, e, cur, cost, via);
    forall v | 0 <= v < |g|
      ensures r.0[v] <= cost[v]
    {
      if v == e.to && a == Improve {
        assert r.0[v] == cost[cur] + e.weight;
      }
    }
  }

  /** How `find_paths` ends: normally, or by reading the predecessor of `node` while it is NULL. */
  datatype Outcome = Done | Fault(cur: int, node: int)

  /**
   * The state in which ass2-q.c's tie-break reads `node->via` while it is
   * NULL: a street from `cur` reaches `node` at exactly its cost, and `node`
   * is either unreached (cost MAX_SECS) or a start (cost 0).
   */
  ghost predicate NullDerefAt(g: seq<Corner>, starts: seq<int>, cost: seq<int>, via: seq<int>, cur: int, node: int)
  {
    |cost| == |via| == |g| && 0 <= cur < |g| && 0 <= node < |g| && via[node] == NULL &&
    (cost[node] == MAX_SECS || (cost[node] == 0 && node in starts)) &&
    exists j :: 0 <= j < |g[cur].out| && g[cur].out[j].to == node &&
                cost[cur] + g[cur].out[j].weight == cost[node]
  }

  // ---------------------------------------------------------------- graphs

  /** Every street of corner u leaves u and ends at a corner of the grid. */
  ghost predicate EdgesInRange(g: seq<Corner>)
  {
    forall u, j :: 0 <= u < |g| && 0 <= j < |g[u].out| ==>
      g[u].out[j].from == u && 0 <= g[u].out[j].to < |g|
  }

  /** Street times are never negative. */
  ghost predicate NonNegative(g: seq<Corner>)
  {
    forall u, j :: 0 <= u < |g| && 0 <= j < |g[u].out| ==> g[u].out[j].weight >= 0
  }

  ghost predicate StartsInRange(g: seq<Corner>, starts: seq<int>)
  {
    forall k :: 0 <= k < |starts| ==> 0 <= starts[k] < |g|
  }

  /** `es` is a walk along streets of `g` from some start to `v` (the empty walk stands at a start). */
  ghost predicate IsWalk(g: seq<Corner>, starts: seq<int>, es: seq<Edge>, v: int)
  {
    if es == [] then v in starts
    else
      es[0].from in starts && es[|es| - 1].to == v &&
      (forall k :: 0 <= k < |es| ==> 0 <= es[k].from < |g| && es[k] in g[es[k].from].out) &&
      (forall k :: 0 <= k < |es| - 1 ==> es[k].to == es[k + 1].from)
  }

  /**
   * `c` is the length of a shortest walk from any start to `v`, capped at
   * MAX_SECS: no walk is shorter, and below the cap some walk has length `c`.
   */
  ghost predicate IsCappedDistance(g: seq<Corner>, starts: seq<int>, v: int, c: int)
  {
    c <= MAX_SECS &&
    (forall es :: IsWalk(g, starts, es, v) ==> c <= Weight(es)) &&
    (c < MAX_SECS ==> exists es :: IsWalk(g, starts, es, v) && Weight(es) == c)
  }

  /** A walk to `u` followed by a street out of `u` is a walk to the street's end. */
  lemma WalkExtend(g: seq<Corner>, starts: seq<int>, es: seq<Edge>, u: int, e: Edge)
    requires IsWalk(g, starts, es, u) && 0 <= u < |g| && e in g[u].out && e.from == u
    ensures IsWalk(g, starts, es + [e], e.to)
    ensures Weight(es + [e]) == Weight(es) + e.weight
  {
    var r := es + [e];
    assert r[..|r| - 1] == es;
  }

  /** Dropping the last street of a walk leaves a walk to that street's source. */
  lemma WalkPrefix(g: seq<Corner>, starts: seq<int>, es: seq<Edge>, v: int)
    requires IsWalk(g, starts, es, v) && es != []
    ensures IsWalk(g, starts, es[..|es| - 1], es[|es| - 1].from)
  {
    var p := es[..|es| - 1];
    if p != [] {
      assert p[|p| - 1].to == es[|es| - 2].to == es[|es| - 1].from;
      forall k | 0 <= k < |p|
        ensures 0 <= p[k].from < |g| && p[k] in g[p[k].from].out
      {
        assert p[k] == es[k];
      }
    }
  }

  /** The capped distance of a node is unique. */
  lemma CappedDistanceUnique(g: seq<Corner>, starts: seq<int>, v: int, c1: int, c2: int)
    requires IsCappedDistance(g, starts, v, c1) && IsCappedDistance(g, starts, v, c2)
    ensures c1 == c2
  {
    if c1 < MAX_SECS {
      var es :| IsWalk(g, starts, es, v) && Weight(es) == c1;
      assert c2 <= c1;
    }
    if c2 < MAX_SECS {
      var es :| IsWalk(g, starts, es, v) && Weight(es) == c2;
      assert c1 <= c2;
    }
  }

  /** If every street is relaxed and every start costs 0, no walk is shorter than the cost of its end. */
  lemma {:induction false} RelaxedBoundsWalks(g: seq<Corner>, starts: seq<int>, cost: seq<int>, es: seq<Edge>, v: int)
    requires |cost| == |g| && EdgesInRange(g) && StartsInRange(g, starts)
    requires AllRelaxed(g, cost)
    requires forall k :: 0 <= k < |starts| ==> cost[starts[k]] <= 0
    requires IsWalk(g, starts, es, v)
    ensures cost[v] <= Weight(es)
    decreases |es|
  {
    if es == [] {
      var k :| 0 <= k < |starts| && starts[k] == v;
    } else {
      var e := es[|es| - 1];
      WalkPrefix(g, starts, es, v);
      RelaxedBoundsWalks(g, starts, cost, es[..|es| - 1], e.from);
      var j :| 0 <= j < |g[e.from].out| && g[e.from].out[j] == e;
      assert cost[e.to] <= cost[e.from] + e.weight;
    }
  }

  // ---------------------------------------------------------------- final state

  /** Every street u -> v satisfies cost[v] <= cost[u] + weight. */
  ghost predicate AllRelaxed(g: seq<Corner>, cost: seq<int>)
    requires |cost| == |g| && EdgesInRange(g)
  {
    forall u, j :: 0 <= u < |g| && 0 <= j < |g[u].out| ==>
      cost[g[u].out[j].to] <= cost[u] + g[u].out[j].weight
  }

  /** A node with a predecessor is reached over a street from it whose length accounts for its cost exactly. */
  ghost predicate ViaOnTightEdge(g: seq<Corner>, cost: seq<int>, via: seq<int>)
    requires |cost| == |via| == |g|
  {
    forall v :: 0 <= v < |g| && via[v] != NULL ==>
      0 <= via[v] < |g| && cost[v] < MAX_SECS &&
      exists j :: 0 <= j < |g[via[v]].out| && g[via[v]].out[j].to == v &&
                  cost[v] == cost[via[v]] + g[via[v]].out[j].weight
  }

  /** No street that arrives at a node at exactly its cost comes from a node lexicographically below its predecessor. */
  ghost predicate ViaLexMinimal(g: seq<Corner>, cost: seq<int>, via: seq<int>)
    requires |cost| == |via| == |g| && EdgesInRange(g)
  {
    forall u, j :: 0 <= u < |g| && 0 <= j < |g[u].out| &&
      0 <= via[g[u].out[j].to] < |g| && cost[u] + g[u].out[j].weight == cost[g[u].out[j].to]
      ==> !LexLess(g[u], g[via[g[u].out[j].to]])
  }

  /**
   * The state `find_paths` leaves when it runs to completion: the capped
   * shortest-walk distances (between 0 and MAX_SECS), every street relaxed, starts at cost 0 without
   * predecessor, NULL `via` exactly on the unreached non-starts, every `via`
   * on a tight street, and (for the (x, y) tie-breaks) the least predecessor.
   */
  ghost predicate ShortestPaths(rule: Rule, g: seq<Corner>, starts: seq<int>, cost: seq<int>, via: seq<int>)
    requires EdgesInRange(g) && StartsInRange(g, starts)
  {
    |cost| == |via| == |g| && CostsBounded(cost) &&
    (forall v :: 0 <= v < |g| ==> IsCappedDistance(g, starts, v, cost[v])) &&
    AllRelaxed(g, cost) &&
    (forall k :: 0 <= k < |starts| ==> cost[starts[k]] == 0 && via[starts[k]] == NULL) &&
    (forall v :: 0 <= v < |g| && v !in starts ==> (via[v] == NULL <==> cost[v] == MAX_SECS)) &&
    ViaOnTightEdge(g, cost, via) &&
    (rule != ARule ==> ViaLexMinimal(g, cost, via))
  }

  // ---------------------------------------------------------------- loop state

  /**
   * Ghost snapshot of the loop: the node fields, a street index and a walk
   * witnessing each predecessor and each cost, the worklist contents, the
   * node being expanded (`cur`, NULL between expansions) and how many of its
   * streets have been relaxed (`done`).
   */
  datatype State = State(cost: seq<int>, via: seq<int>, viaEdge: seq<int>, walks: seq<seq<Edge>>,
                         wl: seq<int>, cur: int, done: int)

  /** A street j of u is settled when u waits in no worklist slot and is not partway through expansion before street j. */
  ghost predicate Settled(wl: seq<int>, cur: int, done: int, u: int, j: int)
  {
    u !in wl && (u != cur || j < done)
  }

  ghost predicate CostsBounded(cost: seq<int>)
  {
    forall v :: 0 <= v < |cost| ==> 0 <= cost[v] <= MAX_SECS
  }

  ghost predicate StartsSeeded(starts: seq<int>, cost: seq<int>, via: seq<int>)
    requires |cost| == |via|
  {
    forall k :: 0 <= k < |starts| && 0 <= starts[k] < |cost| ==> cost[starts[k]] == 0 && via[starts[k]] == NULL
  }

  /** A node reached without predecessor is a start. */
  ghost predicate NullMeansStart(starts: seq<int>, cost: seq<int>, via: seq<int>)
    requires |cost| == |via|
  {
    forall v :: 0 <= v < |cost| && via[v] == NULL && cost[v] < MAX_SECS ==> cost[v] == 0 && v in starts
  }

  /** Each predecessor is the source of a recorded street into the node, and the node costs at least as much as arriving over it. */
  ghost predicate ViaJustified(g: seq<Corner>, cost: seq<int>, via: seq<int>, viaEdge: seq<int>)
    requires |cost| == |via| == |viaEdge| == |g|
  {
    forall v :: 0 <= v < |g| && via[v] != NULL ==>
      0 <= via[v] < |g| && cost[v] < MAX_SECS &&
      0 <= viaEdge[v] < |g[via[v]].out| && g[via[v]].out[viaEdge[v]].to == v &&
      cost[v] >= cost[via[v]] + g[via[v]].out[viaEdge[v]].weight
  }

  /** Every cost below MAX_SECS is the length of a recorded walk. */
  ghost predicate WalksWitness(g: seq<Corner>, starts: seq<int>, cost: seq<int>, walks: seq<seq<Edge>>)
    requires |cost| == |walks|
  {
    forall v :: 0 <= v < |cost| && cost[v] < MAX_SECS ==>
      IsWalk(g, starts, walks[v], v) && Weight(walks[v]) == cost[v]
  }

  ghost predicate RelaxedWhereSettled(g: seq<Corner>, cost: seq<int>, wl: seq<int>, cur: int, done: int)
    requires |cost| == |g| && EdgesInRange(g)
  {
    forall u, j :: 0 <= u < |g| && 0 <= j < |g[u].out| && Settled(wl, cur, done, u, j) ==>
      cost[g[u].out[j].to] <= cost[u] + g[u].out[j].weight
  }

  ghost predicate TieMinWhereSettled(g: seq<Corner>, cost: seq<int>, via: seq<int>, wl: seq<int>, cur: int, done: int)
    requires |cost| == |via| == |g| && EdgesInRange(g)
  {
    forall u, j :: 0 <= u < |g| && 0 <= j < |g[u].out| && Settled(wl, cur, done, u, j) &&
      0 <= via[g[u].out[j].to] < |g| && cost[u] + g[u].out[j].weight == cost[g[u].out[j].to]
      ==> !LexLess(g[u], g[via[g[u].out[j].to]])
  }

  ghost predicate Shape(g: seq<Corner>, st: State)
  {
    |st.cost| == |st.via| == |st.viaEdge| == |st.walks| == |g| &&
    (forall k :: 0 <= k < |st.wl| ==> 0 <= st.wl[k] < |g|) &&
    (forall v :: 0 <= v < |g| ==> st.via[v] == NULL || 0 <= st.via[v] < |g|) &&
    (st.cur == NULL || (0 <= st.cur < |g| && 0 <= st.done <= |g[st.cur].out|))
  }

  /**
   * The facts the loop invariant keeps beyond the shape and the cost bounds;
   * with an (x, y) tie-break they include that every settled predecessor is
   * the least one.
   */
  ghost predicate InvParts(rule: Rule, g: seq<Corner>, starts: seq<int>, st: State)
    requires EdgesInRange(g) && Shape(g, st)
  {
    StartsSeeded(starts, st.cost, st.via) &&
    NullMeansStart(starts, st.cost, st.via) &&
    ViaJustified(g, st.cost, st.via, st.viaEdge) &&
    WalksWitness(g, starts, st.cost, st.walks) &&
    RelaxedWhereSettled(g, st.cost, st.wl, st.cur, st.done) &&
    (rule != ARule ==> TieMinWhereSettled(g, st.cost, st.via, st.wl, st.cur, st.done))
  }

  /**
   * The invariant of the worklist loop of `find_paths`. Its parts sit under
   * a quantifier triggered by `InvParts` itself, so only a proof that names
   * `InvParts` unfolds them; the methods that merely pass the invariant on
   * stay small (`InvUnfold` states the equivalence).
   */
  ghost predicate Inv(rule: Rule, g: seq<Corner>, starts: seq<int>, st: State)
    requires EdgesInRange(g)
  {
    Shape(g, st) && CostsBounded(st.cost) &&
    forall s {:trigger InvParts(rule, g, starts, s)} :: s == st ==> InvParts(rule, g, starts, s)
  }

  lemma InvUnfold(rule: Rule, g: seq<Corner>, starts: seq<int>, st: State)
    requires EdgesInRange(g) && Shape(g, st)
    ensures Inv(rule, g, starts, st) <==> CostsBounded(st.cost) && InvParts(rule, g, starts, st)
  {
    if CostsBounded(st.cost) && InvParts(rule, g, starts, st) {
      forall s | s == st
        ensures InvParts(rule, g, starts, s)
      {
      }
    }
  }

  /** The street being relaxed. */
  function CurEdge(g: seq<Corner>, st: State): Edge
    requires 0 <= st.cur < |g| && 0 <= st.done < |g[st.cur].out|
  {
    g[st.cur].out[st.done]
  }

  /** `new_cost`: the cost of arriving over the street being relaxed. */
  function NewCost(g: seq<Corner>, st: State): int
    requires 0 <= st.cur < |g| && 0 <= st.done < |g[st.cur].out| && |st.cost| == |g|
  {
    st.cost[st.cur] + CurEdge(g, st).weight
  }

  /** The state after an improvement: the target gets the new cost and `cur` as predecessor, and is enqueued. */
  ghost function Improved(g: seq<Corner>, st: State): State
    requires EdgesInRange(g) && Shape(g, st) && st.cur != NULL && st.done < |g[st.cur].out|
  {
    var e := CurEdge(g, st);
    State(st.cost[e.to := NewCost(g, st)], st.via[e.to := st.cur], st.viaEdge[e.to := st.done],
          st.walks[e.to := st.walks[st.cur] + [e]], st.wl + [e.to], st.cur, st.done + 1)
  }

  /** The state after a tie-break: only the target's predecessor changes. */
  ghost function Retargeted(g: seq<Corner>, st: State): State
    requires EdgesInRange(g) && Shape(g, st) && st.cur != NULL && st.done < |g[st.cur].out|
  {
    var e := CurEdge(g, st);
    st.(via := st.via[e.to := st.cur], viaEdge := st.viaEdge[e.to := st.done], done := st.done + 1)
  }

  /** The sum of all costs, which bounds the number of improvements. */
  function Sum(s: seq<int>): int
  {
    if s == [] then 0 else s[0] + Sum(s[1..])
  }

  /** Changing one entry changes the sum by the difference. */
  lemma {:induction false} SumUpdate(s: seq<int>, k: int, x: int)
    requires 0 <= k < |s|
    ensures Sum(s[k := x]) == Sum(s) - s[k] + x
  {
    if k > 0 {
      SumUpdate(s[1..], k - 1, x);
      assert s[k := x][1..] == s[1..][k - 1 := x];
    }
  }

  /** A sum of non-negative entries is non-negative. */
  lemma {:induction false} SumNonNegative(s: seq<int>)
    requires forall k :: 0 <= k < |s| ==> s[k] >= 0
    ensures Sum(s) >= 0
  {
    if s != [] {
      SumNonNegative(s[1..]);
    }
  }

  // ---------------------------------------------------------------- steps

  /** The costs and predecessors right after `find_paths` has reset every node and seeded the starts. */
  ghost function Seeded(g: seq<Corner>, starts: seq<int>): State
  {
    State(seq(|g|, v => if v in starts then 0 else MAX_SECS), seq(|g|, v => NULL), seq(|g|, v => NULL),
          seq(|g|, v => []), starts, NULL, 0)
  }

  lemma SeededInv(rule: Rule, g: seq<Corner>, starts: seq<int>)
    requires EdgesInRange(g) && NonNegative(g) && StartsInRange(g, starts)
    ensures Inv(rule, g, starts, Seeded(g, starts))
  {
    var st := Seeded(g, starts);
    forall u, j | 0 <= u < |g| && 0 <= j < |g[u].out| && Settled(st.wl, st.cur, st.done, u, j)
      ensures st.cost[g[u].out[j].to] <= st.cost[u] + g[u].out[j].weight
    {
      assert u !in starts;
    }
    assert InvParts(rule, g, starts, Seeded(g, starts));
  }

  /** The preconditions shared by the steps that relax the street `done` of `cur`. */
  ghost predicate Relaxing(g: seq<Corner>, st: State)
  {
    EdgesInRange(g) && NonNegative(g) && Shape(g, st) && CostsBounded(st.cost) &&
    st.cur != NULL && st.done < |g[st.cur].out|
  }

  lemma ImproveRelaxed(g: seq<Corner>, st: State)
    requires Relaxing(g, st) && NewCost(g, st) < st.cost[CurEdge(g, st).to]
    requires RelaxedWhereSettled(g, st.cost, st.wl, st.cur, st.done)
    ensures var s := Improved(g, st); RelaxedWhereSettled(g, s.cost, s.wl, s.cur, s.done)
  {
    var s := Improved(g, st);
    var v := CurEdge(g, st).to;
    forall u, j | 0 <= u < |g| && 0 <= j < |g[u].out| && Settled(s.wl, s.cur, s.done, u, j)
      ensures s.cost[g[u].out[j].to] <= s.cost[u] + g[u].out[j].weight
    {
      assert u != v;
      if !(u == st.cur && j == st.done) {
        assert Settled(st.wl, st.cur, st.done, u, j);
      }
    }
  }

  lemma ImproveTieMin(g: seq<Corner>, st: State)
    requires Relaxing(g, st) && NewCost(g, st) < st.cost[CurEdge(g, st).to]
    requires RelaxedWhereSettled(g, st.cost, st.wl, st.cur, st.done)
    requires TieMinWhereSettled(g, st.cost, st.via, st.wl, st.cur, st.done)
    ensures var s := Improved(g, st); TieMinWhereSettled(g, s.cost, s.via, s.wl, s.cur, s.done)
  {
    var s := Improved(g, st);
    var v := CurEdge(g, st).to;
    forall u, j | 0 <= u < |g| && 0 <= j < |g[u].out| && Settled(s.wl, s.cur, s.done, u, j) &&
      0 <= s.via[g[u].out[j].to] < |g| && s.cost[u] + g[u].out[j].weight == s.cost[g[u].out[j].to]
      ensures !LexLess(g[u], g[s.via[g[u].out[j].to]])
    {
      assert u != v;
      if !(u == st.cur && j == st.done) {
        assert Settled(st.wl, st.cur, st.done, u, j);
      } else {
        assert s.via[g[u].out[j].to] == u;
      }
    }
  }

  lemma ImproveVia(g: seq<Corner>, st: State)
    requires Relaxing(g, st) && NewCost(g, st) < st.cost[CurEdge(g, st).to]
    requires ViaJustified(g, st.cost, st.via, st.viaEdge)
    ensures var s := Improved(g, st); ViaJustified(g, s.cost, s.via, s.viaEdge)
  {
    var s := Improved(g, st);
    var v := CurEdge(g, st).to;
    assert v != st.cur;
    forall w | 0 <= w < |g| && s.via[w] != NULL
      ensures 0 <= s.via[w] < |g| && s.cost[w] < MAX_SECS &&
        0 <= s.viaEdge[w] < |g[s.via[w]].out| && g[s.via[w]].out[s.viaEdge[w]].to == w &&
        s.cost[w] >= s.cost[s.via[w]] + g[s.via[w]].out[s.viaEdge[w]].weight
    {
      if w != v {
        assert s.cost[s.via[w]] <= st.cost[st.via[w]];
      }
    }
  }

  lemma ImproveWalks(g: seq<Corner>, starts: seq<int>, st: State)
    requires Relaxing(g, st) && NewCost(g, st) < st.cost[CurEdge(g, st).to]
    requires WalksWitness(g, starts, st.cost, st.walks)
    ensures var s := Improved(g, st); WalksWitness(g, starts, s.cost, s.walks)
  {
    var e := CurEdge(g, st);
    assert st.cost[st.cur] < MAX_SECS;
    WalkExtend(g, starts, st.walks[st.cur], st.cur, e);
  }

  lemma ImproveRoots(g: seq<Corner>, starts: seq<int>, st: State)
    requires Relaxing(g, st) && NewCost(g, st) < st.cost[CurEdge(g, st).to]
    requires StartsSeeded(starts, st.cost, st.via) && NullMeansStart(starts, st.cost, st.via)
    ensures var s := Improved(g, st); StartsSeeded(starts, s.cost, s.via) && NullMeansStart(starts, s.cost, s.via)
  {
    var s := Improved(g, st);
    var v := CurEdge(g, st).to;
    forall k | 0 <= k < |starts| && 0 <= starts[k] < |s.cost|
      ensures s.cost[starts[k]] == 0 && s.via[starts[k]] == NULL
    {
      assert starts[k] != v;
    }
  }

  lemma ImproveShape(g: seq<Corner>, st: State)
    requires Relaxing(g, st) && NewCost(g, st) < st.cost[CurEdge(g, st).to]
    ensures var s := Improved(g, st); Shape(g, s) && CostsBounded(s.cost)
  {
  }

  /** An improvement keeps the invariant and lowers the sum of the costs. */
  lemma ImproveStep(rule: Rule, g: seq<Corner>, starts: seq<int>, st: State)
    requires EdgesInRange(g) && NonNegative(g)
    requires Inv(rule, g, starts, st) && st.cur != NULL && st.done < |g[st.cur].out|
    requires NewCost(g, st) < st.cost[CurEdge(g, st).to]
    ensures Inv(rule, g, starts, Improved(g, st))
    ensures Sum(Improved(g, st).cost) < Sum(st.cost)
  {
    assert InvParts(rule, g, starts, st);
    SumUpdate(st.cost, CurEdge(g, st).to, NewCost(g, st));
    ImproveShape(g, st);
    ImproveRoots(g, starts, st);
    ImproveRelaxed(g, st);
    if rule != ARule {
      ImproveTieMin(g, st);
    }
    ImproveVia(g, st);
    ImproveWalks(g, starts, st);
    assert InvParts(rule, g, starts, Improved(g, st));
  }

  lemma RetargetRelaxed(g: seq<Corner>, st: State)
    requires Relaxing(g, st) && NewCost(g, st) == st.cost[CurEdge(g, st).to]
    requires RelaxedWhereSettled(g, st.cost, st.wl, st.cur, st.done)
    ensures RelaxedWhereSettled(g, st.cost, st.wl, st.cur, st.done + 1)
  {
    forall u, j | 0 <= u < |g| && 0 <= j < |g[u].out| && Settled(st.wl, st.cur, st.done + 1, u, j)
      ensures st.cost[g[u].out[j].to] <= st.cost[u] + g[u].out[j].weight
    {
      if !(u == st.cur && j == st.done) {
        assert Settled(st.wl, st.cur, st.done, u, j);
      }
    }
  }

  lemma RetargetTieMin(g: seq<Corner>, st: State)
    requires Relaxing(g, st) && NewCost(g, st) == st.cost[CurEdge(g, st).to]
    requires 0 <= st.via[CurEdge(g, st).to] < |g| && LexLess(g[st.cur], g[st.via[CurEdge(g, st).to]])
    requires TieMinWhereSettled(g, st.cost, st.via, st.wl, st.cur, st.done)
    ensures var s := Retargeted(g, st); TieMinWhereSettled(g, s.cost, s.via, s.wl, s.cur, s.done)
  {
    var s := Retargeted(g, st);
    var v := CurEdge(g, st).to;
    var prior := st.via[v];
    forall u, j | 0 <= u < |g| && 0 <= j < |g[u].out| && Settled(s.wl, s.cur, s.done, u, j) &&
      0 <= s.via[g[u].out[j].to] < |g| && s.cost[u] + g[u].out[j].weight == s.cost[g[u].out[j].to]
      ensures !LexLess(g[u], g[s.via[g[u].out[j].to]])
    {
      if !(u == st.cur && j == st.done) {
        assert Settled(st.wl, st.cur, st.done, u, j);
        if g[u].out[j].to == v {
          assert !LexLess(g[u], g[prior]);
        }
      }
    }
  }

  lemma RetargetVia(g: seq<Corner>, st: State)
    requires Relaxing(g, st) && NewCost(g, st) == st.cost[CurEdge(g, st).to]
    requires st.via[CurEdge(g, st).to] != NULL
    requires ViaJustified(g, st.cost, st.via, st.viaEdge)
    ensures var s := Retargeted(g, st); ViaJustified(g, s.cost, s.via, s.viaEdge)
  {
  }

  /** A tie-break keeps the invariant. */
  lemma RetargetStep(rule: Rule, g: seq<Corner>, starts: seq<int>, st: State)
    requires EdgesInRange(g) && NonNegative(g)
    requires Inv(rule, g, starts, st) && st.cur != NULL && st.done < |g[st.cur].out|
    requires Decide(rule, g, st.cur, NewCost(g, st), st.cost[CurEdge(g, st).to], st.via[CurEdge(g, st).to]) == Retarget
    ensures Inv(rule, g, starts, Retargeted(g, st))
  {
    assert InvParts(rule, g, starts, st);
    var v := CurEdge(g, st).to;
    var s := Retargeted(g, st);
    assert StartsSeeded(starts, s.cost, s.via) by {
      forall k | 0 <= k < |starts| && 0 <= starts[k] < |s.cost|
        ensures s.cost[starts[k]] == 0 && s.via[starts[k]] == NULL
      {
        assert starts[k] != v;
      }
    }
    RetargetVia(g, st);
    RetargetRelaxed(g, st);
    if rule != ARule {
      RetargetTieMin(g, st);
    }
    assert InvParts(rule, g, starts, Retargeted(g, st));
  }

  lemma KeepRelaxed(g: seq<Corner>, st: State)
    requires Relaxing(g, st) && NewCost(g, st) >= st.cost[CurEdge(g, st).to]
    requires RelaxedWhereSettled(g, st.cost, st.wl, st.cur, st.done)
    ensures RelaxedWhereSettled(g, st.cost, st.wl, st.cur, st.done + 1)
  {
    forall u, j | 0 <= u < |g| && 0 <= j < |g[u].out| && Settled(st.wl, st.cur, st.done + 1, u, j)
      ensures st.cost[g[u].out[j].to] <= st.cost[u] + g[u].out[j].weight
    {
      if !(u == st.cur && j == st.done) {
        assert Settled(st.wl, st.cur, st.done, u, j);
      }
    }
  }

  lemma KeepTieMin(g: seq<Corner>, st: State)
    requires Relaxing(g, st)
    requires NewCost(g, st) == st.cost[CurEdge(g, st).to] && 0 <= st.via[CurEdge(g, st).to] < |g| ==>
      !LexLess(g[st.cur], g[st.via[CurEdge(g, st).to]])
    requires TieMinWhereSettled(g, st.cost, st.via, st.wl, st.cur, st.done)
    ensures TieMinWhereSettled(g, st.cost, st.via, st.wl, st.cur, st.done + 1)
  {
    forall u, j | 0 <= u < |g| && 0 <= j < |g[u].out| && Settled(st.wl, st.cur, st.done + 1, u, j) &&
      0 <= st.via[g[u].out[j].to] < |g| && st.cost[u] + g[u].out[j].weight == st.cost[g[u].out[j].to]
      ensures !LexLess(g[u], g[st.via[g[u].out[j].to]])
    {
      if !(u == st.cur && j == st.done) {
        assert Settled(st.wl, st.cur, st.done, u, j);
      }
    }
  }

  /** Leaving the target alone keeps the invariant. */
  lemma KeepStep(rule: Rule, g: seq<Corner>, starts: seq<int>, st: State)
    requires EdgesInRange(g) && NonNegative(g)
    requires Inv(rule, g, starts, st) && st.cur != NULL && st.done < |g[st.cur].out|
    requires Decide(rule, g, st.cur, NewCost(g, st), st.cost[CurEdge(g, st).to], st.via[CurEdge(g, st).to]) == Keep
    ensures Inv(rule, g, starts, st.(done := st.done + 1))
  {
    assert InvParts(rule, g, starts, st);
    KeepRelaxed(g, st);
    if rule != ARule {
      KeepTieMin(g, st);
    }
    assert InvParts(rule, g, starts, st.(done := st.done + 1));
  }

  /** When ass2-q.c's tie-break reads a NULL predecessor, the target is unreached or a start reached again at cost 0. */
  lemma NullDerefStep(rule: Rule, g: seq<Corner>, starts: seq<int>, st: State)
    requires EdgesInRange(g)
    requires Inv(rule, g, starts, st) && st.cur != NULL && st.done < |g[st.cur].out|
    requires Decide(rule, g, st.cur, NewCost(g, st), st.cost[CurEdge(g, st).to], st.via[CurEdge(g, st).to]) == NullDeref
    ensures NullDerefAt(g, starts, st.cost, st.via, st.cur, CurEdge(g, st).to)
  {
    assert InvParts(rule, g, starts, st);
  }

  /** Taking the head of the worklist for expansion keeps the invariant. */
  lemma DequeueStep(rule: Rule, g: seq<Corner>, starts: seq<int>, st: State)
    requires EdgesInRange(g) && Inv(rule, g, starts, st) && st.cur == NULL && st.wl != []
    ensures Inv(rule, g, starts, st.(wl := st.wl[1..], cur := st.wl[0], done := 0))
  {
    assert InvParts(rule, g, starts, st);
    var s := st.(wl := st.wl[1..], cur := st.wl[0], done := 0);
    forall u, j | 0 <= u < |g| && 0 <= j < |g[u].out| && Settled(s.wl, s.cur, s.done, u, j)
      ensures Settled(st.wl, st.cur, st.done, u, j)
    {
      assert st.wl == [st.wl[0]] + st.wl[1..];
    }
    assert InvParts(rule, g, starts, st.(wl := st.wl[1..], cur := st.wl[0], done := 0));
  }

  /** Finishing the expansion of `cur` keeps the invariant. */
  lemma FinishStep(rule: Rule, g: seq<Corner>, starts: seq<int>, st: State)
    requires EdgesInRange(g) && Inv(rule, g, starts, st) && st.cur != NULL && st.done == |g[st.cur].out|
    ensures Inv(rule, g, starts, st.(cur := NULL, done := 0))
  {
    assert InvParts(rule, g, starts, st);
    forall u, j | 0 <= u < |g| && 0 <= j < |g[u].out| && Settled(st.wl, NULL, 0, u, j)
      ensures Settled(st.wl, st.cur, st.done, u, j)
    {
    }
    assert InvParts(rule, g, starts, st.(cur := NULL, done := 0));
  }

  /** Once the worklist is empty the invariant is the shortest-path state. */
  lemma FinalState(rule: Rule, g: seq<Corner>, starts: seq<int>, st: State)
    requires EdgesInRange(g) && NonNegative(g) && StartsInRange(g, starts)
    requires Inv(rule, g, starts, st) && st.cur == NULL && st.wl == []
    ensures ShortestPaths(rule, g, starts, st.cost, st.via)
  {
    assert InvParts(rule, g, starts, st);
    forall u, j | 0 <= u < |g| && 0 <= j < |g[u].out|
      ensures Settled(st.wl, st.cur, st.done, u, j)
    {
    }
    assert AllRelaxed(g, st.cost);
    forall v | 0 <= v < |g|
      ensures IsCappedDistance(g, starts, v, st.cost[v])
    {
      forall es | IsWalk(g, starts, es, v)
        ensures st.cost[v] <= Weight(es)
      {
        RelaxedBoundsWalks(g, starts, st.cost, es, v);
      }
    }
    assert ViaOnTightEdge(g, st.cost, st.via) by {
      forall v | 0 <= v < |g| && st.via[v] != NULL
        ensures 0 <= st.via[v] < |g| && st.cost[v] < MAX_SECS &&
          exists j :: 0 <= j < |g[st.via[v]].out| && g[st.via[v]].out[j].to == v &&
                      st.cost[v] == st.cost[st.via[v]] + g[st.via[v]].out[j].weight
      {
        var j := st.viaEdge[v];
        assert Settled(st.wl, st.cur, st.done, st.via[v], j);
      }
    }
    forall v | 0 <= v < |g| && v !in starts
      ensures st.via[v] == NULL <==> st.cost[v] == MAX_SECS
    {
    }
  }
}
