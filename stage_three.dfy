/**
 * The arrow choice of `print_stage_3` in both programs. After `find_paths`
 * runs from every location, each pair of neighbouring corners is drawn with
 * an arrow in the direction the route flows when one of them is the other's
 * predecessor, and with a blank filler otherwise. The strings and the
 * layout of the map are left out; a `Glyph` names the string chosen.
 */
module StageThree {
  import opened Wrappers
  import opened Grid
  import opened Relaxation
  import Trace

  /** ARROW_EAST, ARROW_NORTH, ARROW_WEST, ARROW_SOUTH, BLANK_LAT and BLANK_LON. */
  datatype Glyph = ArrowEast | ArrowNorth | ArrowWest | ArrowSouth | BlankLat | BlankLon

  /** The direction an arrow points; a blank points nowhere. */
  function Points(glyph: Glyph): Option<int>
  {
    match glyph
    case ArrowEast => Some(EAST)
    case ArrowNorth => Some(NORTH)
    case ArrowWest => Some(WEST)
    case ArrowSouth => Some(SOUTH)
    case _ => None
  }

  /** `arrow_to`: the arrow pointing in `dir`. */
  function ArrowTo(dir: int): (r: Glyph)
    ensures 0 <= dir < CARD_DIRS ==> Points(r) == Some(dir)
  {
    if dir == EAST then ArrowEast
    else if dir == NORTH then ArrowNorth
    else if dir == WEST then ArrowWest
    else ArrowSouth
  }

  /** `arrow_from`: the arrow pointing against `dir`. */
  function ArrowFrom(dir: int): (r: Glyph)
    ensures 0 <= dir < CARD_DIRS ==> Points(r) == Some(Opposite(dir))
  {
    if dir == EAST then ArrowWest
    else if dir == NORTH then ArrowSouth
    else if dir == WEST then ArrowEast
    else ArrowNorth
  }

  /** `blank`: the filler of the right width, lateral between east and west neighbours. */
  function Blank(dir: int): (r: Glyph)
    ensures Points(r) == None
    ensures r == BlankLat <==> dir == EAST || dir == WEST
  {
    if dir == EAST || dir == WEST then BlankLat else BlankLon
  }

  /**
   * ass2-a.c's `print_arrow` for corner c1 and its neighbour c2 in
   * direction `dir`: an arrow exactly when one of them is the other's
   * predecessor, pointing from the predecessor to the successor.
   */
  function PrintArrow(via: seq<int>, c1: int, c2: int, dir: int): (r: Glyph)
    requires 0 <= c1 < |via| && 0 <= c2 < |via| && 0 <= dir < CARD_DIRS
    ensures Points(r).Some? <==> via[c2] == c1 || via[c1] == c2
    ensures via[c2] == c1 ==> Points(r) == Some(dir)
    ensures via[c2] != c1 && via[c1] == c2 ==> Points(r) == Some(Opposite(dir))
    ensures Points(r).None? ==> r == Blank(dir)
  {
    if via[c2] != NULL && via[c2] == c1 then ArrowTo(dir)
    else if via[c1] != NULL && via[c1] == c2 then ArrowFrom(dir)
    else Blank(dir)
  }

  /**
   * On the final state of `find_paths`, an arrow from c1 towards c2 stands
   * for a street from c1 to c2 that the cheapest route to c2 uses.
   */
  lemma ArrowIsTightHop(rule: Rule, g: seq<Corner>, starts: seq<int>, cost: seq<int>, via: seq<int>, c1: int, c2: int, dir: int)
    requires EdgesInRange(g) && StartsInRange(g, starts) && ShortestPaths(rule, g, starts, cost, via)
    requires 0 <= c1 < |g| && 0 <= c2 < |g| && 0 <= dir < CARD_DIRS
    requires Points(PrintArrow(via, c1, c2, dir)) == Some(dir)
    ensures Trace.TightHop(g, cost, c1, c2)
  {
    OppositeUndoes(dir, 0);
    assert via[c2] == c1;
  }

  /** The cell index of corner (x, y) as both programs compute it: `y * x_d + x`. */
  lemma CellInGrid(x: int, y: int, xDim: int, yDim: int)
    requires 0 <= x < xDim && 0 <= y < yDim
    ensures 0 <= y * xDim + x < xDim * yDim && 0 <= (y + 1) * xDim + x
    ensures y + 1 < yDim ==> (y + 1) * xDim + x < xDim * yDim
  {
    CellIndexInjective(x, y, x, y, xDim, yDim);
    if y + 1 < yDim {
      CellIndexInjective(x, y + 1, x, y + 1, xDim, yDim);
    }
  }

  /**
   * ass2-q.c's choice between corner (x, y) and its west neighbour, for
   * x > 0: ARROW_WEST when the neighbour's predecessor is the corner,
   * ARROW_EAST when the corner's predecessor is the neighbour.
   */
  function WestArrowQ(via: seq<int>, x: int, y: int, xDim: int, yDim: int): (r: Glyph)
    requires |via| == xDim * yDim && 0 < x < xDim && 0 <= y < yDim
    ensures (CellInGrid(x, y, xDim, yDim); r == PrintArrow(via, y * xDim + x, y * xDim + x - 1, WEST))
  {
    CellInGrid(x, y, xDim, yDim);
    var index := y * xDim + x;
    var west := index + DirOffset(WEST, xDim);
    if via[west] == index then ArrowWest
    else if via[index] == west then ArrowEast
    else BlankLat
  }

  /**
   * The south neighbour is checked with `index + x_d < x_d * y_d`, which
   * holds exactly when the corner is not on the last row.
   */
  lemma SouthCheck(x: int, y: int, xDim: int, yDim: int)
    requires 0 <= x < xDim && 0 <= y < yDim
    ensures y * xDim + x + xDim < xDim * yDim <==> y + 1 < yDim
  {
    CellInGrid(x, y, xDim, yDim);
    if y + 1 >= yDim {
      assert y + 1 == yDim;
      assert y * xDim + x + xDim == yDim * xDim + x;
    }
  }

  /**
   * ass2-q.c's choice between corner (x, y) and its south neighbour:
   * ARROW_SOUTH when the neighbour's predecessor is the corner,
   * ARROW_NORTH when the corner's predecessor is the neighbour.
   */
  function SouthArrowQ(via: seq<int>, x: int, y: int, xDim: int, yDim: int): (r: Glyph)
    requires |via| == xDim * yDim && 0 <= x < xDim && 0 <= y && y + 1 < yDim
    ensures (CellInGrid(x, y, xDim, yDim); r == PrintArrow(via, y * xDim + x, y * xDim + x + xDim, SOUTH))
  {
    CellInGrid(x, y, xDim, yDim);
    var index := y * xDim + x;
    var south := index + DirOffset(SOUTH, xDim);
    if via[south] == index then ArrowSouth
    else if via[index] == south then ArrowNorth
    else BlankLon
  }
}
