/**
 * The city grid shared by both programs: intersections (corners) in
 * row-major order, directed streets, the four directions and the index
 * arithmetic used while reading the city.
 */
module Grid {

  /** MAX_SECS (ass2-q.c) / UNDEF_VAL (ass2-a.c): an unusable street, and the "not reached" cost. */
  const MAX_SECS := 999
  /** The NULL `via` of a node no path has reached. */
  const NULL := -1
  const CARD_DIRS := 4
  const EAST := 0
  const NORTH := 1
  const WEST := 2
  const SOUTH := 3

  /** `edge_t`: a street from corner `from` to corner `to`, both by index. */
  datatype Edge = Edge(from: int, to: int, weight: int)

  /** The fixed part of `node_t`: its coordinates and its outgoing streets. */
  datatype Corner = Corner(x: int, y: int, out: seq<Edge>)

  /** A corner name as read: the column number and the row letter. */
  datatype Name = Name(col: int, row: char)

  /** `dir_offset`: the change of row-major index one step in direction `dir`. */
  function DirOffset(dir: int, xDim: int): int
  {
    if dir == EAST then 1
    else if dir == NORTH then -xDim
    else if dir == WEST then -1
    else xDim
  }

  /** Column change of one step in a direction. */
  function Dx(dir: int): int
  {
    if dir == EAST then 1 else if dir == WEST then -1 else 0
  }

  /** Row change of one step in a direction (rows grow southwards). */
  function Dy(dir: int): int
  {
    if dir == NORTH then -1 else if dir == SOUTH then 1 else 0
  }

  /** The direction that undoes `dir`. */
  function Opposite(dir: int): int
  {
    if dir == EAST then WEST
    else if dir == NORTH then SOUTH
    else if dir == WEST then EAST
    else NORTH
  }

  /** Row-major index of column `x`, row `y`. */
  function CellIndex(x: int, y: int, xDim: int): int
  {
    x + y * xDim
  }

  /** The 0-based row of a row letter (`c - 'a'`). */
  function RowOf(c: char): int
  {
    c as int - 'a' as int
  }

  /** The index of a named corner, `col + (row - 'a') * x_dim`. */
  function NameIndex(n: Name, xDim: int): int
  {
    n.col + RowOf(n.row) * xDim
  }

  /** A step by `DirOffset` is a step of one cell in that direction. */
  lemma OffsetIsOneStep(x: int, y: int, xDim: int, dir: int)
    requires 0 <= dir < CARD_DIRS
    ensures CellIndex(x, y, xDim) + DirOffset(dir, xDim) == CellIndex(x + Dx(dir), y + Dy(dir), xDim)
  {
    if dir == NORTH {
      assert (y - 1) * xDim == y * xDim - xDim;
    } else if dir == SOUTH {
      assert (y + 1) * xDim == y * xDim + xDim;
    }
  }

  /** Going in a direction and then in its opposite returns to the start. */
  lemma OppositeUndoes(dir: int, xDim: int)
    requires 0 <= dir < CARD_DIRS
    ensures 0 <= Opposite(dir) < CARD_DIRS && Opposite(Opposite(dir)) == dir
    ensures DirOffset(Opposite(dir), xDim) == -DirOffset(dir, xDim)
  {
  }

  /** Inside an x_dim by y_dim grid the row-major index is within bounds and names one cell only. */
  lemma CellIndexInjective(x1: int, y1: int, x2: int, y2: int, xDim: int, yDim: int)
    requires 0 <= x1 < xDim && 0 <= x2 < xDim && 0 <= y1 < yDim && 0 <= y2 < yDim
    ensures 0 <= CellIndex(x1, y1, xDim) < xDim * yDim
    ensures CellIndex(x1, y1, xDim) == CellIndex(x2, y2, xDim) ==> x1 == x2 && y1 == y2
  {
    BelowRow(x1, y1, xDim, yDim);
    if y1 < y2 {
      BelowRow(x1, y1, xDim, y2);
      assert y2 * xDim <= CellIndex(x2, y2, xDim);
    } else if y2 < y1 {
      BelowRow(x2, y2, xDim, y1);
      assert y1 * xDim <= CellIndex(x1, y1, xDim);
    }
  }

  /** A cell of row `y` has an index below the first cell of any later row `r`. */
  lemma BelowRow(x: int, y: int, xDim: int, r: int)
    requires 0 <= x < xDim && 0 <= y < r
    ensures 0 <= CellIndex(x, y, xDim) < r * xDim
  {
    assert (y + 1) * xDim <= r * xDim by {
      assert r * xDim - (y + 1) * xDim == (r - y - 1) * xDim;
    }
    assert 0 <= y * xDim;
  }

  /** The sum of the weights of a sequence of streets. */
  function Weight(es: seq<Edge>): int
  {
    if es == [] then 0 else Weight(es[..|es| - 1]) + es[|es| - 1].weight
  }

  /** The street read for direction `dir` of corner `index`, if its time is usable. */
  function StreetFor(index: int, times: seq<int>, xDim: int, dir: nat): seq<Edge>
    requires dir < |times|
  {
    if times[dir] == MAX_SECS then [] else [Edge(index, index + DirOffset(dir, xDim), times[dir])]
  }

  /** The streets appended to a corner's `out` list by the first `d` times, in E, N, W, S order. */
  function StreetsUpTo(index: int, times: seq<int>, xDim: int, d: nat): seq<Edge>
    requires d <= |times|
  {
    if d == 0 then [] else StreetsUpTo(index, times, xDim, d - 1) + StreetFor(index, times, xDim, d - 1)
  }

  /** How many of the first `d` times are the unusable 999. */
  function UnusableUpTo(times: seq<int>, d: nat): nat
    requires d <= |times|
  {
    if d == 0 then 0 else UnusableUpTo(times, d - 1) + (if times[d - 1] == MAX_SECS then 1 else 0)
  }

  /** The sum of the usable ones among the first `d` times. */
  function SecsUpTo(times: seq<int>, d: nat): int
    requires d <= |times|
  {
    if d == 0 then 0 else SecsUpTo(times, d - 1) + (if times[d - 1] == MAX_SECS then 0 else times[d - 1])
  }

  /** Every time becomes either a street or an unusable count, never both: streets plus unusable equal the times read. */
  lemma {:induction false} StreetsPlusUnusable(index: int, times: seq<int>, xDim: int, d: nat)
    requires d <= |times|
    ensures |StreetsUpTo(index, times, xDim, d)| + UnusableUpTo(times, d) == d
  {
    if d > 0 {
      StreetsPlusUnusable(index, times, xDim, d - 1);
    }
  }

  lemma WeightSnoc(es: seq<Edge>, e: Edge)
    ensures Weight(es + [e]) == Weight(es) + e.weight
  {
    assert (es + [e])[..|es|] == es;
  }

  /** The seconds added to `total_secs` are exactly the weights of the streets created. */
  lemma {:induction false} SecsAreStreetWeights(index: int, times: seq<int>, xDim: int, d: nat)
    requires d <= |times|
    ensures SecsUpTo(times, d) == Weight(StreetsUpTo(index, times, xDim, d))
  {
    if d > 0 {
      SecsAreStreetWeights(index, times, xDim, d - 1);
      var prev := StreetsUpTo(index, times, xDim, d - 1);
      assert StreetsUpTo(index, times, xDim, d) == prev + StreetFor(index, times, xDim, d - 1);
      if times[d - 1] != MAX_SECS {
        WeightSnoc(prev, Edge(index, index + DirOffset(d - 1, xDim), times[d - 1]));
      } else {
        assert prev + [] == prev;
      }
    }
  }

  /**
   * Each street leaves the corner it was read for, has a usable time, and
   * goes one step in the direction of that time.
   */
  lemma {:induction false} StreetsFollowDirections(index: int, times: seq<int>, xDim: int, d: nat)
    requires d <= |times|
    ensures forall e :: e in StreetsUpTo(index, times, xDim, d) ==>
              e.from == index && e.weight != MAX_SECS &&
              exists dir :: 0 <= dir < d && times[dir] == e.weight && e.to == index + DirOffset(dir, xDim)
  {
    if d > 0 {
      StreetsFollowDirections(index, times, xDim, d - 1);
    }
  }
}
