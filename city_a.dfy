/**
 * The building part of ass2-a.c's `read_city_data`: the i-th corner record
 * fills corner i whatever its name says, `y` keeps the row letter itself,
 * the street targets are written out per direction, and the locations are
 * read as a column number and a row letter.
 */
module CityA {
  import opened Grid
  import opened Relaxation
  import opened City
  import CityQ

  /** The target of the street in direction `dir` from corner i, as ass2-a.c writes it. */
  function Target(i: int, dir: int, xDim: int): (t: int)
    requires 0 <= dir < CARD_DIRS
    ensures t == i + DirOffset(dir, xDim)
  {
    if dir == EAST then i + 1
    else if dir == NORTH then i - xDim
    else if dir == WEST then i - 1
    else i + xDim
  }

  /** What ass2-a.c stores for record i: its column, the row letter as a number, and its streets. */
  function CornerOf(r: Record, i: int, xDim: int): Corner
    requires |r.times| == CARD_DIRS
  {
    Corner(r.name.col, r.name.row as int, StreetsUpTo(i, r.times, xDim, CARD_DIRS))
  }

  /** The input the program assumes: all corners present, in index order, and locations inside the grid. */
  ghost predicate ValidInput(xDim: int, yDim: int, records: seq<Record>, locNames: seq<Name>)
  {
    xDim > 0 && yDim > 0 && |records| == xDim * yDim && FourTimes(records) &&
    (forall k :: 0 <= k < |locNames| ==> NameInGrid(locNames[k], xDim, yDim))
  }

  /** The city ass2-a.c builds: corner i from record i, locations by `(y_coord - 'a') * x + x_coord`. */
  ghost predicate Built(city: CityData, xDim: int, yDim: int, records: seq<Record>, locNames: seq<Name>)
    requires ValidInput(xDim, yDim, records, locNames)
  {
    city.xDim == xDim && city.yDim == yDim && |city.cnrs| == |records| &&
    (forall i :: 0 <= i < |records| ==> city.cnrs[i] == CornerOf(records[i], i, xDim)) &&
    |city.locs| == |locNames| &&
    (forall k :: 0 <= k < |locNames| ==> city.locs[k] == RowOf(locNames[k].row) * xDim + locNames[k].col) &&
    city.totalSecs == SecsOf(records) && city.unusable == UnusableOf(records)
  }

  /** `read_city_data`: x * y corners, each record read into the next corner, then the locations. */
  method ReadCity(xDim: int, yDim: int, records: seq<Record>, locNames: seq<Name>) returns (city: CityData)
    requires ValidInput(xDim, yDim, records, locNames)
    ensures Built(city, xDim, yDim, records, locNames)
  {
    var cnrs: seq<Corner> := [];
    var total, unusable := 0, 0;
    var i := 0;
    while i < |records|
      invariant 0 <= i <= |records| && |cnrs| == i
      invariant total == SecsOf(records[..i]) && unusable == UnusableOf(records[..i])
      invariant forall v :: 0 <= v < i ==> cnrs[v] == CornerOf(records[v], v, xDim)
    {
      var r := records[i];
      var out, secs, bad := ReadStreets(i, r.times, xDim);
      cnrs := cnrs + [Corner(r.name.col, r.name.row as int, out)];
      total, unusable := total + secs, unusable + bad;
      assert records[..i + 1][..i] == records[..i];
      i := i + 1;
    }
    assert records[..i] == records;
    var locs := ReadLocations(locNames, xDim);
    city := CityData(xDim, yDim, cnrs, locs, total, unusable);
  }

  /** The four times of corner i: 999 counts as unusable, any other time is a street to `Target`. */
  method ReadStreets(i: int, times: seq<int>, xDim: int) returns (out: seq<Edge>, secs: int, unusable: int)
    requires |times| == CARD_DIRS
    ensures out == StreetsUpTo(i, times, xDim, CARD_DIRS)
    ensures secs == SecsUpTo(times, CARD_DIRS) && unusable == UnusableUpTo(times, CARD_DIRS)
  {
    out, secs, unusable := [], 0, 0;
    var j := 0;
    while j < CARD_DIRS
      invariant 0 <= j <= CARD_DIRS
      invariant out == StreetsUpTo(i, times, xDim, j)
      invariant secs == SecsUpTo(times, j) && unusable == UnusableUpTo(times, j)
    {
      if times[j] == MAX_SECS {
        unusable := unusable + 1;
      } else {
        secs := secs + times[j];
        out := out + [Edge(i, Target(i, j, xDim), times[j])];
      }
      j := j + 1;
    }
  }

  /** The location loop: `i = (y_coord - 'a') * x + x_coord` for each name read. */
  method ReadLocations(locNames: seq<Name>, xDim: int) returns (locs: seq<int>)
    ensures |locs| == |locNames|
    ensures forall k :: 0 <= k < |locNames| ==> locs[k] == NameIndex(locNames[k], xDim)
  {
    locs := [];
    var l := 0;
    while l < |locNames|
      invariant 0 <= l <= |locNames| && |locs| == l
      invariant forall k :: 0 <= k < l ==> locs[k] == NameIndex(locNames[k], xDim)
    {
      locs := locs + [RowOf(locNames[l].row) * xDim + locNames[l].col];
      l := l + 1;
    }
  }

  /** Records whose names follow their positions, as a well-formed input file lists them. */
  ghost predicate InOrder(xDim: int, yDim: int, records: seq<Record>)
  {
    forall i :: 0 <= i < |records| ==> NameInGrid(records[i].name, xDim, yDim) && NameIndex(records[i].name, xDim) == i
  }

  /**
   * On records in index order both programs build the same city: the same
   * streets, locations and counters; only `y` differs, the row letter in
   * ass2-a.c and its distance from 'a' in ass2-q.c.
   */
  lemma SameCityAsQ(xDim: int, yDim: int, records: seq<Record>, locNames: seq<Name>, cq: CityData, ca: CityData)
    requires ValidInput(xDim, yDim, records, locNames) && InOrder(xDim, yDim, records)
    requires CityQ.ValidInput(xDim, yDim, records, locNames)
    requires CityQ.Built(cq, xDim, yDim, records, locNames) && Built(ca, xDim, yDim, records, locNames)
    ensures |cq.cnrs| == |ca.cnrs| && cq.locs == ca.locs
    ensures cq.totalSecs == ca.totalSecs && cq.unusable == ca.unusable
    ensures forall i :: 0 <= i < |ca.cnrs| ==>
      cq.cnrs[i].out == ca.cnrs[i].out && cq.cnrs[i].x == ca.cnrs[i].x && cq.cnrs[i].y == ca.cnrs[i].y - 'a' as int
  {
    forall i | 0 <= i < |ca.cnrs|
      ensures cq.cnrs[i].out == ca.cnrs[i].out && cq.cnrs[i].x == ca.cnrs[i].x && cq.cnrs[i].y == ca.cnrs[i].y - 'a' as int
    {
      assert CityQ.IndexOf(records[i], xDim) == i;
    }
  }

  /** Records in index order build a grid `find_paths` accepts when every border time is 999 and no time is negative. */
  lemma BuiltIsSearchable(city: CityData, xDim: int, yDim: int, records: seq<Record>, locNames: seq<Name>)
    requires ValidInput(xDim, yDim, records, locNames) && Built(city, xDim, yDim, records, locNames)
    requires InOrder(xDim, yDim, records)
    requires forall i :: 0 <= i < |records| ==>
      BorderedAt(records[i].times, records[i].name.col, RowOf(records[i].name.row), xDim, yDim)
    requires forall i, d :: 0 <= i < |records| && 0 <= d < CARD_DIRS ==> records[i].times[d] >= 0
    ensures EdgesInRange(city.cnrs) && NonNegative(city.cnrs) && StartsInRange(city.cnrs, city.locs)
  {
    var g := city.cnrs;
    forall u, j | 0 <= u < |g| && 0 <= j < |g[u].out|
      ensures g[u].out[j].from == u && 0 <= g[u].out[j].to < |g| && g[u].out[j].weight >= 0
    {
      var r := records[u];
      StreetsReachNeighbours(r.times, r.name.col, RowOf(r.name.row), xDim, yDim);
      StreetsNonNegative(u, r.times, xDim);
      assert g[u].out[j] in StreetsUpTo(u, r.times, xDim, CARD_DIRS);
    }
    forall k | 0 <= k < |city.locs|
      ensures 0 <= city.locs[k] < |g|
    {
      CellIndexInjective(locNames[k].col, RowOf(locNames[k].row), 0, 0, xDim, yDim);
    }
  }
}
