/**
 * The building part of ass2-q.c's `read_city_data`: every corner record is
 * placed at the index its name gives, its four times become streets or
 * unusable counts, and the names after the corners are taxi locations.
 */
module CityQ {
  import opened Grid
  import opened Relaxation
  import opened City
  import RouteFacts

  /** The index a record's name gives, `atoi(name) + (last letter - 'a') * x_dim`. */
  function IndexOf(r: Record, xDim: int): int
  {
    NameIndex(r.name, xDim)
  }

  /** What ass2-q.c stores for a record: its coordinates, `y` counted from row 'a' as 0, and its streets. */
  function CornerOf(r: Record, xDim: int): Corner
    requires |r.times| == CARD_DIRS
  {
    Corner(r.name.col, RowOf(r.name.row), StreetsUpTo(IndexOf(r, xDim), r.times, xDim, CARD_DIRS))
  }

  /** The input the program assumes valid: one record per corner, named inside the grid, no name twice. */
  ghost predicate ValidInput(xDim: int, yDim: int, records: seq<Record>, locNames: seq<Name>)
  {
    xDim > 0 && yDim > 0 && |records| == xDim * yDim && FourTimes(records) &&
    (forall k :: 0 <= k < |records| ==> NameInGrid(records[k].name, xDim, yDim)) &&
    (forall k, m :: 0 <= k < m < |records| ==> IndexOf(records[k], xDim) != IndexOf(records[m], xDim)) &&
    (forall k :: 0 <= k < |locNames| ==> NameInGrid(locNames[k], xDim, yDim))
  }

  /** No record among the given ones names corner v. */
  ghost predicate Unnamed(records: seq<Record>, xDim: int, v: int)
  {
    forall k :: 0 <= k < |records| ==> IndexOf(records[k], xDim) != v
  }

  /** The city described by valid input: each named corner holds its record, the counters sum the times. */
  ghost predicate Built(city: CityData, xDim: int, yDim: int, records: seq<Record>, locNames: seq<Name>)
    requires ValidInput(xDim, yDim, records, locNames)
  {
    city.xDim == xDim && city.yDim == yDim && |city.cnrs| == xDim * yDim &&
    (forall k :: 0 <= k < |records| ==>
      0 <= IndexOf(records[k], xDim) < |city.cnrs| && city.cnrs[IndexOf(records[k], xDim)] == CornerOf(records[k], xDim)) &&
    (forall v :: 0 <= v < |city.cnrs| && Unnamed(records, xDim, v) ==> city.cnrs[v] == Corner(0, 0, [])) &&
    |city.locs| == |locNames| &&
    (forall k :: 0 <= k < |locNames| ==> city.locs[k] == NameIndex(locNames[k], xDim)) &&
    city.totalSecs == SecsOf(records) && city.unusable == UnusableOf(records)
  }

  /**
   * `read_city_data` after tokenising: creates x_dim * y_dim empty corners,
   * fills in each record, then appends the locations.
   */
  method ReadCity(xDim: int, yDim: int, records: seq<Record>, locNames: seq<Name>) returns (city: CityData)
    requires ValidInput(xDim, yDim, records, locNames)
    ensures Built(city, xDim, yDim, records, locNames)
  {
    var cnrs: seq<Corner> := [];
    var i := 0;
    while i < xDim * yDim
      invariant 0 <= i <= xDim * yDim && |cnrs| == i
      invariant forall v :: 0 <= v < i ==> cnrs[v] == Corner(0, 0, [])
    {
      cnrs := cnrs + [Corner(0, 0, [])];
      i := i + 1;
    }
    var total, unusable;
    cnrs, total, unusable := ReadCorners(xDim, yDim, records, locNames, cnrs);
    var locs := ReadLocations(locNames, xDim);
    city := CityData(xDim, yDim, cnrs, locs, total, unusable);
  }

  /** The corner records, in input order: each fills in the corner its name gives. */
  method ReadCorners(xDim: int, yDim: int, records: seq<Record>, locNames: seq<Name>, cnrs0: seq<Corner>)
    returns (cnrs: seq<Corner>, total: int, unusable: int)
    requires ValidInput(xDim, yDim, records, locNames)
    requires |cnrs0| == xDim * yDim && forall v :: 0 <= v < |cnrs0| ==> cnrs0[v] == Corner(0, 0, [])
    ensures |cnrs| == xDim * yDim
    ensures total == SecsOf(records) && unusable == UnusableOf(records)
    ensures forall m :: 0 <= m < |records| ==>
      0 <= IndexOf(records[m], xDim) < |cnrs| && cnrs[IndexOf(records[m], xDim)] == CornerOf(records[m], xDim)
    ensures forall v :: 0 <= v < |cnrs| && Unnamed(records, xDim, v) ==> cnrs[v] == Corner(0, 0, [])
  {
    cnrs, total, unusable := cnrs0, 0, 0;
    var k := 0;
    while k < |records|
      invariant 0 <= k <= |records| && |cnrs| == xDim * yDim
      invariant total == SecsOf(records[..k]) && unusable == UnusableOf(records[..k])
      invariant FilledUpTo(records, xDim, k, cnrs)
    {
      cnrs, total, unusable := ReadCorner(xDim, yDim, records, locNames, k, cnrs, total, unusable);
      k := k + 1;
    }
    assert records[..k] == records;
  }

  /** One pass of the loop over the corner records: record k fills in its corner and adds to both counters. */
  method ReadCorner(xDim: int, yDim: int, records: seq<Record>, locNames: seq<Name>, k: int,
                    cnrs0: seq<Corner>, total0: int, unusable0: int)
    returns (cnrs: seq<Corner>, total: int, unusable: int)
    requires ValidInput(xDim, yDim, records, locNames) && 0 <= k < |records| && |cnrs0| == xDim * yDim
    requires total0 == SecsOf(records[..k]) && unusable0 == UnusableOf(records[..k])
    requires FilledUpTo(records, xDim, k, cnrs0)
    ensures |cnrs| == xDim * yDim && FilledUpTo(records, xDim, k + 1, cnrs)
    ensures total == SecsOf(records[..k + 1]) && unusable == UnusableOf(records[..k + 1])
  {
    var r := records[k];
    var index := IndexOf(r, xDim);
    FillStep(xDim, yDim, records, locNames, k, cnrs0);
    var out, secs, bad := ReadStreets(index, r.times, xDim);
    cnrs := cnrs0[index := Corner(r.name.col, RowOf(r.name.row), cnrs0[index].out + out)];
    assert cnrs0[index].out + out == out;
    total, unusable := total0 + secs, unusable0 + bad;
    assert records[..k + 1][..k] == records[..k];
  }

  /** After the first k records: each of them filled in its corner, and every corner none of them names is still empty. */
  ghost predicate FilledUpTo(records: seq<Record>, xDim: int, k: int, cnrs: seq<Corner>)
    requires 0 <= k <= |records| && FourTimes(records)
  {
    (forall m :: 0 <= m < k ==>
      0 <= IndexOf(records[m], xDim) < |cnrs| && cnrs[IndexOf(records[m], xDim)] == CornerOf(records[m], xDim)) &&
    (forall v :: 0 <= v < |cnrs| && Unnamed(records[..k], xDim, v) ==> cnrs[v] == Corner(0, 0, []))
  }

  /** Filling in record k keeps the earlier records' corners, since no two records name the same corner. */
  lemma FillStep(xDim: int, yDim: int, records: seq<Record>, locNames: seq<Name>, k: int, cnrs: seq<Corner>)
    requires ValidInput(xDim, yDim, records, locNames) && 0 <= k < |records| && |cnrs| == xDim * yDim
    requires FilledUpTo(records, xDim, k, cnrs)
    ensures 0 <= IndexOf(records[k], xDim) < |cnrs|
    ensures var index := IndexOf(records[k], xDim);
      cnrs[index].out == [] &&
      FilledUpTo(records, xDim, k + 1, cnrs[index := CornerOf(records[k], xDim)])
  {
    RecordIndexInGrid(xDim, yDim, records, locNames, k);
    var index := IndexOf(records[k], xDim);
    assert Unnamed(records[..k], xDim, index);
    var next := cnrs[index := CornerOf(records[k], xDim)];
    forall v | 0 <= v < |next| && Unnamed(records[..k + 1], xDim, v)
      ensures next[v] == Corner(0, 0, [])
    {
      assert records[..k + 1][k] == records[k];
      forall m | 0 <= m < k
        ensures IndexOf(records[..k][m], xDim) != v
      {
        assert records[..k][m] == records[..k + 1][m];
      }
    }
  }

  /** The names after the corner records: each location is the corner its name gives. */
  method ReadLocations(locNames: seq<Name>, xDim: int) returns (locs: seq<int>)
    ensures |locs| == |locNames|
    ensures forall m :: 0 <= m < |locNames| ==> locs[m] == NameIndex(locNames[m], xDim)
  {
    locs := [];
    var l := 0;
    while l < |locNames|
      invariant 0 <= l <= |locNames| && |locs| == l
      invariant forall m :: 0 <= m < l ==> locs[m] == NameIndex(locNames[m], xDim)
    {
      locs := locs + [NameIndex(locNames[l], xDim)];
      l := l + 1;
    }
  }

  /**
   * The loop over the four times of one corner: each 999 counts as
   * unusable, every other time becomes a street to `index + dir_offset(dir)`
   * and adds to the seconds.
   */
  method ReadStreets(index: int, times: seq<int>, xDim: int) returns (out: seq<Edge>, secs: int, unusable: int)
    requires |times| == CARD_DIRS
    ensures out == StreetsUpTo(index, times, xDim, CARD_DIRS)
    ensures secs == SecsUpTo(times, CARD_DIRS) && unusable == UnusableUpTo(times, CARD_DIRS)
  {
    out, secs, unusable := [], 0, 0;
    var dir := 0;
    while dir < CARD_DIRS
      invariant 0 <= dir <= CARD_DIRS
      invariant out == StreetsUpTo(index, times, xDim, dir)
      invariant secs == SecsUpTo(times, dir) && unusable == UnusableUpTo(times, dir)
    {
      if times[dir] == MAX_SECS {
        unusable := unusable + 1;
      } else {
        secs := secs + times[dir];
        out := out + [Edge(index, index + DirOffset(dir, xDim), times[dir])];
      }
      dir := dir + 1;
    }
  }

  /** Every record's corner is one of the grid's, and each corner is named by at most one record. */
  lemma RecordIndexInGrid(xDim: int, yDim: int, records: seq<Record>, locNames: seq<Name>, k: int)
    requires ValidInput(xDim, yDim, records, locNames) && 0 <= k < |records|
    ensures 0 <= IndexOf(records[k], xDim) < xDim * yDim
  {
    CellIndexInjective(records[k].name.col, RowOf(records[k].name.row), 0, 0, xDim, yDim);
  }

  /** The streets of one record on a bordered grid with non-negative times leave its corner and stay inside the grid. */
  lemma CornerStreetsInGrid(r: Record, xDim: int, yDim: int)
    requires |r.times| == CARD_DIRS && NameInGrid(r.name, xDim, yDim)
    requires BorderedAt(r.times, r.name.col, RowOf(r.name.row), xDim, yDim)
    requires forall d :: 0 <= d < CARD_DIRS ==> r.times[d] >= 0
    ensures forall j :: 0 <= j < |CornerOf(r, xDim).out| ==>
      CornerOf(r, xDim).out[j].from == IndexOf(r, xDim) && 0 <= CornerOf(r, xDim).out[j].to < xDim * yDim &&
      CornerOf(r, xDim).out[j].weight >= 0
  {
    var out := CornerOf(r, xDim).out;
    StreetsReachNeighbours(r.times, r.name.col, RowOf(r.name.row), xDim, yDim);
    StreetsNonNegative(IndexOf(r, xDim), r.times, xDim);
    forall j | 0 <= j < |out|
      ensures out[j] in StreetsUpTo(IndexOf(r, xDim), r.times, xDim, CARD_DIRS)
    {
    }
  }

  /**
   * On a bordered grid (999 wherever a street would leave it) with
   * non-negative times, the city is a graph `find_paths` accepts: every
   * street leaves its corner and ends inside the grid, no time is
   * negative, every location is a corner.
   */
  lemma BuiltIsSearchable(city: CityData, xDim: int, yDim: int, records: seq<Record>, locNames: seq<Name>)
    requires ValidInput(xDim, yDim, records, locNames) && Built(city, xDim, yDim, records, locNames)
    requires forall k :: 0 <= k < |records| ==>
      BorderedAt(records[k].times, records[k].name.col, RowOf(records[k].name.row), xDim, yDim)
    requires forall k, d :: 0 <= k < |records| && 0 <= d < CARD_DIRS ==> records[k].times[d] >= 0
    ensures EdgesInRange(city.cnrs) && NonNegative(city.cnrs) && StartsInRange(city.cnrs, city.locs)
  {
    var g := city.cnrs;
    forall u, j | 0 <= u < |g| && 0 <= j < |g[u].out|
      ensures g[u].out[j].from == u && 0 <= g[u].out[j].to < |g| && g[u].out[j].weight >= 0
    {
      if !Unnamed(records, xDim, u) {
        var k :| 0 <= k < |records| && IndexOf(records[k], xDim) == u;
        CornerStreetsInGrid(records[k], xDim, yDim);
        assert g[u] == CornerOf(records[k], xDim);
      }
    }
    forall k | 0 <= k < |city.locs|
      ensures 0 <= city.locs[k] < |g|
    {
      CellIndexInjective(locNames[k].col, RowOf(locNames[k].row), 0, 0, xDim, yDim);
    }
  }

  /** The indices named by the first n records. */
  ghost function NamedUpTo(records: seq<Record>, xDim: int, n: nat): set<int>
    requires n <= |records|
  {
    if n == 0 then {} else NamedUpTo(records, xDim, n - 1) + {IndexOf(records[n - 1], xDim)}
  }

  /** The indices 0 .. n - 1. */
  ghost function Below(n: nat): set<int>
  {
    if n == 0 then {} else Below(n - 1) + {n - 1}
  }

  lemma {:induction false} BelowCount(n: nat)
    ensures |Below(n)| == n && forall u :: u in Below(n) <==> 0 <= u < n
  {
    if n > 0 {
      BelowCount(n - 1);
    }
  }

  /** The first n records name n distinct corners of the grid, and only named ones. */
  lemma {:induction false} NamedUpToCount(xDim: int, yDim: int, records: seq<Record>, locNames: seq<Name>, n: nat)
    requires ValidInput(xDim, yDim, records, locNames) && n <= |records|
    ensures |NamedUpTo(records, xDim, n)| == n
    ensures NamedUpTo(records, xDim, n) <= Below(xDim * yDim)
    ensures forall u :: u in NamedUpTo(records, xDim, n) ==> !Unnamed(records, xDim, u)
  {
    BelowCount(xDim * yDim);
    if n > 0 {
      NamedUpToCount(xDim, yDim, records, locNames, n - 1);
      RecordIndexInGrid(xDim, yDim, records, locNames, n - 1);
      var u := IndexOf(records[n - 1], xDim);
      if u in NamedUpTo(records, xDim, n - 1) {
        NamedEarlier(records, xDim, n - 1, u);
      }
    }
  }

  /** An index named by the first n records is the index of one of them. */
  lemma {:induction false} NamedEarlier(records: seq<Record>, xDim: int, n: nat, u: int)
    requires n <= |records| && u in NamedUpTo(records, xDim, n)
    ensures exists k :: 0 <= k < n && IndexOf(records[k], xDim) == u
  {
    if IndexOf(records[n - 1], xDim) != u {
      NamedEarlier(records, xDim, n - 1, u);
    }
  }

  /** With one record per corner and no name twice, every corner is named by some record. */
  lemma EveryCornerNamed(xDim: int, yDim: int, records: seq<Record>, locNames: seq<Name>, v: int)
    requires ValidInput(xDim, yDim, records, locNames) && 0 <= v < xDim * yDim
    ensures !Unnamed(records, xDim, v)
  {
    var named := NamedUpTo(records, xDim, |records|);
    NamedUpToCount(xDim, yDim, records, locNames, |records|);
    BelowCount(xDim * yDim);
    var rest := Below(xDim * yDim) - named;
    assert Below(xDim * yDim) == named + rest && named * rest == {};
    assert |rest| == 0;
    assert v in named;
    NamedEarlier(records, xDim, |records|, v);
  }

  /** Distinct names give distinct coordinates, so the (x, y) tie-break fixes every predecessor. */
  lemma BuiltHasDistinctCoordinates(city: CityData, xDim: int, yDim: int, records: seq<Record>, locNames: seq<Name>)
    requires ValidInput(xDim, yDim, records, locNames) && Built(city, xDim, yDim, records, locNames)
    ensures RouteFacts.DistinctCoordinates(city.cnrs)
  {
    var g := city.cnrs;
    forall u, v | 0 <= u < |g| && 0 <= v < |g| && u != v
      ensures g[u].x != g[v].x || g[u].y != g[v].y
    {
      EveryCornerNamed(xDim, yDim, records, locNames, u);
      EveryCornerNamed(xDim, yDim, records, locNames, v);
      var ku :| 0 <= ku < |records| && IndexOf(records[ku], xDim) == u;
      var kv :| 0 <= kv < |records| && IndexOf(records[kv], xDim) == v;
      assert g[u] == CornerOf(records[ku], xDim) && g[v] == CornerOf(records[kv], xDim);
    }
  }
}
