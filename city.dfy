/**
 * The city that `read_city_data` builds, shared by both programs: the
 * records it reads (a corner name and four street times), the counters it
 * keeps, and when the streets it creates stay inside the grid.
 */
module City {
  import opened Grid
  import opened Relaxation

  /** One corner as read: its name and its street times in E, N, W, S order. */
  datatype Record = Record(name: Name, times: seq<int>)

  /** `city_t` without the names' text: corners by index, taxi locations by index, the two counters. */
  datatype CityData = CityData(xDim: int, yDim: int, cnrs: seq<Corner>, locs: seq<int>,
                               totalSecs: int, unusable: int)

  /** Every record carries four times. */
  ghost predicate FourTimes(records: seq<Record>)
  {
    forall k :: 0 <= k < |records| ==> |records[k].times| == CARD_DIRS
  }

  /** The name lies inside an x_dim by y_dim grid. */
  predicate NameInGrid(n: Name, xDim: int, yDim: int)
  {
    0 <= n.col < xDim && 0 <= RowOf(n.row) < yDim
  }

  /** `unusable` after the given records: the number of 999 times among them. */
  function UnusableOf(records: seq<Record>): nat
    requires FourTimes(records)
  {
    if records == [] then 0
    else UnusableOf(records[..|records| - 1]) + UnusableUpTo(records[|records| - 1].times, CARD_DIRS)
  }

  /** `total_secs` after the given records: the sum of their usable times. */
  function SecsOf(records: seq<Record>): int
    requires FourTimes(records)
  {
    if records == [] then 0
    else SecsOf(records[..|records| - 1]) + SecsUpTo(records[|records| - 1].times, CARD_DIRS)
  }

  /** Of the 4 * n possible streets, at most all can be unusable: the count stage 1 reports is bounded. */
  lemma {:induction false} UnusableAtMostPossibilities(records: seq<Record>)
    requires FourTimes(records)
    ensures UnusableOf(records) <= CARD_DIRS * |records|
  {
    if records != [] {
      var last := records[|records| - 1];
      UnusableAtMostPossibilities(records[..|records| - 1]);
      StreetsPlusUnusable(0, last.times, 0, CARD_DIRS);
    }
  }

  /** With non-negative times the total of the usable ones is non-negative. */
  lemma {:induction false} SecsNonNegative(records: seq<Record>)
    requires FourTimes(records)
    requires forall k, d :: 0 <= k < |records| && 0 <= d < CARD_DIRS ==> records[k].times[d] >= 0
    ensures SecsOf(records) >= 0
  {
    if records != [] {
      var last := records[|records| - 1];
      SecsNonNegative(records[..|records| - 1]);
      SecsAreStreetWeights(0, last.times, 0, CARD_DIRS);
      StreetWeightsNonNegative(last.times, CARD_DIRS);
    }
  }

  lemma {:induction false} StreetWeightsNonNegative(times: seq<int>, d: nat)
    requires d <= |times| && forall k :: 0 <= k < d ==> times[k] >= 0
    ensures SecsUpTo(times, d) >= 0
  {
    if d > 0 {
      StreetWeightsNonNegative(times, d - 1);
    }
  }

  /** The times of a corner at column x, row y are 999 wherever a step would leave the grid. */
  ghost predicate BorderedAt(times: seq<int>, x: int, y: int, xDim: int, yDim: int)
    requires |times| == CARD_DIRS
  {
    forall dir :: 0 <= dir < CARD_DIRS && times[dir] != MAX_SECS ==>
      0 <= x + Dx(dir) < xDim && 0 <= y + Dy(dir) < yDim
  }

  /**
   * The streets read for a corner at column x, row y of a bordered grid all
   * leave that corner and end at the neighbouring cell one step away.
   */
  lemma StreetsReachNeighbours(times: seq<int>, x: int, y: int, xDim: int, yDim: int)
    requires |times| == CARD_DIRS && 0 <= x < xDim && 0 <= y < yDim
    requires BorderedAt(times, x, y, xDim, yDim)
    ensures forall e :: e in StreetsUpTo(CellIndex(x, y, xDim), times, xDim, CARD_DIRS) ==>
      e.from == CellIndex(x, y, xDim) && 0 <= e.to < xDim * yDim && e.weight != MAX_SECS &&
      exists dir :: 0 <= dir < CARD_DIRS && times[dir] == e.weight &&
        e.to == CellIndex(x + Dx(dir), y + Dy(dir), xDim)
  {
    var index := CellIndex(x, y, xDim);
    StreetsFollowDirections(index, times, xDim, CARD_DIRS);
    forall e | e in StreetsUpTo(index, times, xDim, CARD_DIRS)
      ensures 0 <= e.to < xDim * yDim &&
        exists dir :: 0 <= dir < CARD_DIRS && times[dir] == e.weight &&
          e.to == CellIndex(x + Dx(dir), y + Dy(dir), xDim)
    {
      var dir :| 0 <= dir < CARD_DIRS && times[dir] == e.weight && e.to == index + DirOffset(dir, xDim);
      OffsetIsOneStep(x, y, xDim, dir);
      CellIndexInjective(x + Dx(dir), y + Dy(dir), x, y, xDim, yDim);
    }
  }

  /** The streets of a corner read with a usable non-negative time have a non-negative weight. */
  lemma StreetsNonNegative(index: int, times: seq<int>, xDim: int)
    requires |times| == CARD_DIRS && forall d :: 0 <= d < CARD_DIRS ==> times[d] >= 0
    ensures forall e :: e in StreetsUpTo(index, times, xDim, CARD_DIRS) ==> e.weight >= 0
  {
    StreetsFollowDirections(index, times, xDim, CARD_DIRS);
  }
}
