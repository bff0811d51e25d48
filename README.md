# Taxi routes on a city grid, modelled in Dafny

Two C programs, ass2-q.c and ass2-a.c, read the same input. It is a city of
`x_dim` by `y_dim` street corners, named like `3c` (column 3, row `c`). For
every corner it gives four street times, east, north, west and south, where
999 means no street. A list of taxi locations follows.

Both programs store the corners in a growable pointer array. They find the
cheapest route from a set of start corners to every corner with a
multi-source relaxation over a worklist. The worklist is a linked FIFO queue
in ass2-q.c and the array itself in ass2-a.c. On equal cost, the corner with
the lower (column, row) becomes the recorded predecessor.

Stage 2 traces the route from the first location to each later one. Stage 3
runs the search from all locations at once and draws an arrow between two
neighbouring corners when one is the other's predecessor.

The model keeps the corners and streets by index (`Grid.Corner`,
`Grid.Edge`); NULL is `-1`. Costs and predecessors are arrays that
`find_paths` overwrites, and the containers are classes over an
`array<Option<T>>`.

The module layout:
- `Placement` holds the shared insertion and deletion rule.
- `PtrList`, `PtrArray` and `FifoQueue` hold the containers.
- `Relaxation` holds the shared tie-break, invariant and step lemmas.
- `FindPathsQueue` and `FindPathsArray` hold the two searches.
- `RouteFacts` holds what the final state determines.
- `City`, `CityQ` and `CityA` hold corner building.
- `Trace` and `StageTwo` hold stage 2.
- `StageThree` holds the arrow choice.

The specification of `find_paths` is `Relaxation.ShortestPaths`:
- every cost is the capped shortest distance from a start (at most 999);
- every street is relaxed;
- every predecessor sits on a street that accounts exactly for the cost difference;
- under the (column, row) tie-break, no tight street comes from a lower corner than the predecessor.

A NULL predecessor must never be dereferenced. ass2-q.c:387 reads
`node->via->x` without checking; ass2-a.c:368 checks first. The model follows
the code and reports ass2-q.c's dereference as the `Fault` outcome.

## Model

| member | source | states |
|---|---|---|
| Placement.InsertSlot | ass2-q.c:413-432 | the shifting loop stops at `index + 1` for an index inside the list; the item is appended exactly when the index is not before the last item |
| Placement.InsertedAddsItem | ass2-a.c:404-423 | an insertion adds exactly the new item to the multiset of contents |
| Placement.RemovedTakesItem | ass2-q.c:437-454 | a removal takes out exactly the item at the position |
| Placement.Removed | ass2-q.c:445-452 | after removing position i the items before i stay and the later ones move down one place |
| Placement.InsertedAppends | ass2-q.c:413-432 | index -1, or any index at or past the last item, appends the item at the end |
| Placement.InsertThenRemoveSlot | ass2-q.c:413-454 | the inserted item sits at the insertion slot, and deleting that slot gives back the old contents |
| Placement.InsertAtZeroLandsSecond | ass2-a.c:404-423 | inserting at index 0 into a non-empty array puts the item second, not first |
| Placement.StackRoundTrip | ass2-q.c:413-454 | a push with index -1 followed by removing the last position is a round trip |
| Placement.QueueStep | ass2-a.c:348-350 | appending with -1 and removing position 0 behave as a FIFO queue |
| Placement.InsertedAt | ass2-q.c:410-412 | the positional insert the comment describes: the item lands at the index and removing it gives back the old contents |
| Placement.InsertedMisplacesInterior | ass2-q.c:421-429 | for an interior index before the last item, the code's insert and the positional insert disagree |
| PtrList.List.constructor | ass2-q.c:401-408 | `new_list`: an empty list with room for the given size, at least one |
| PtrList.List.Insert | ass2-q.c:413-432 | `list_insert`: the contents become `Inserted(old, item, index)` and the size doubles when the new length reaches it |
| PtrList.List.Remove | ass2-q.c:437-454 | `list_remove`: NULL and no change for an empty list or an index outside -1 .. len-1; otherwise the item at the index (the last one for -1) is returned, the later items move down and the vacated slot becomes NULL |
| PtrList.List.Clear | ass2-q.c:457-462 | `clear_list`: no items, length and size 0 |
| PtrArray.Grown | ass2-a.c:407-412 | `ceil(size * 1.618)` always exceeds the old size |
| PtrArray.RemoveLastReadsBeforeBuffer | ass2-a.c:428-434 | index -1 passes `array_remove`'s range check on a non-empty array and then selects slot -1 |
| PtrArray.DynArray.constructor | ass2-a.c:394-401 | `array_new`: an empty array with room for the given size, at least one |
| PtrArray.DynArray.Insert | ass2-a.c:404-423 | `array_insert`: the contents become `Inserted(old, item, index)` and the size grows to `Grown(size)` when the new count reaches it |
| PtrArray.DynArray.Remove | ass2-a.c:428-446 | `array_remove` for every index but -1 on a non-empty array: NULL and no change out of range, otherwise the item at the index is returned and the later items move down |
| FifoQueue.Queue.constructor | ass2-q.c:466-472 | `new_queue`: an empty queue |
| FifoQueue.Queue.Enqueue | ass2-q.c:475-492 | `enqueue`: the item joins the back and the length grows by one |
| FifoQueue.Queue.Dequeue | ass2-q.c:496-512 | `dequeue`: NULL on an empty queue, otherwise the front item is returned and removed |
| FifoQueue.Queue.Clear | ass2-q.c:515-526 | `clear_queue`: the queue is empty with no first or last element |
| FifoQueue.FillThenDrain | ass2-q.c:475-512 | every item enqueued comes back out of `dequeue` in the order it went in |
| Grid.OffsetIsOneStep | ass2-q.c:339-346 | `dir_offset` moves the row-major index exactly one step in the direction |
| Grid.OppositeUndoes | ass2-q.c:339-346 | the opposite direction's offset is the negated offset, and opposite is an involution |
| Grid.CellIndexInjective | ass2-q.c:293 | `x + y * x_dim` lies in the grid and names each corner once |
| Grid.StreetsPlusUnusable | ass2-q.c:305-327 | of the four times read for a corner, each one becomes either a street or an unusable count |
| Grid.SecsAreStreetWeights | ass2-q.c:321 | the seconds added to `total_secs` are exactly the weights of the streets created |
| Grid.StreetsFollowDirections | ass2-q.c:317-326 | every street leaves its corner, has a usable time, and ends one `dir_offset` away in the direction of that time |
| Relaxation.RelaxStep | ass2-q.c:378-391 | one branch of the relaxation changes at most the target's cost and predecessor |
| Relaxation.RelaxOnlyLowers | ass2-q.c:376-391 | a relaxation step never raises a cost; the target's cost drops exactly when the arrival is cheaper, and then to the arrival cost; a changed predecessor is the current corner, on an arrival no dearer than the old cost |
| Relaxation.Decide | ass2-q.c:378-391 | the relaxation branch improves exactly when the arrival is cheaper; ass2-q.c dereferences NULL exactly on an equal-cost arrival at a node with no predecessor; a retarget happens only on a tie the rule prefers |
| Relaxation.CappedDistanceUnique | ass2-q.c:350-392 | the capped shortest distance of a corner is unique |
| Relaxation.RelaxedBoundsWalks | ass2-q.c:350-392 | once every street is relaxed and the starts cost 0, no walk is cheaper than its end corner's cost |
| Relaxation.FinalState | ass2-q.c:369-393 | when the worklist is empty the invariant gives `ShortestPaths` |
| FindPathsQueue.ResetNodes | ass2-q.c:357-362 | every node becomes unreached (999) with a NULL predecessor |
| FindPathsQueue.SeedStarts | ass2-q.c:363-367 | every start costs 0 and the queue holds the starts in order |
| FindPathsQueue.FindPaths | ass2-q.c:350-397 | either the final costs and predecessors satisfy `ShortestPaths`, or the run stops with the q rule at the NULL dereference |
| FindPathsQueue.Drain | ass2-q.c:369-394 | the worklist loop ends with an empty queue and the invariant, or at the NULL dereference |
| FindPathsQueue.Take | ass2-q.c:369 | `dequeue` yields the queue's front and leaves the rest, or nothing on an empty queue |
| FindPathsQueue.Visit | ass2-q.c:370-393 | one dequeued node is expanded: either the invariant holds again with the cost sum or the queue smaller, or the q rule has reached the NULL dereference |
| FindPathsQueue.Expand | ass2-q.c:374-392 | relaxing every street of the dequeued node keeps the invariant |
| FindPathsQueue.Relax | ass2-q.c:376-391 | one street is relaxed as `Decide` says: the new costs and predecessors are `RelaxStep` of the branch taken; the target is enqueued exactly when its cost drops; no cost rises; the run faults exactly on the q rule's NULL dereference, at the target |
| FindPathsQueue.ImproveTarget | ass2-q.c:380-384 | the target alone takes the arrival cost and the current corner as predecessor; every other cost and predecessor stays; the target's cost drops and the cost sum drops |
| FindPathsQueue.ImproveAndEnqueue | ass2-q.c:380-385 | the improvement of `ImproveTarget`, then the target joins the back of the queue |
| FindPathsQueue.RetargetTarget | ass2-q.c:386-391 | the costs stay and the target alone takes the current corner as predecessor |
| FindPathsArray.FindPaths | ass2-a.c:332-377 | with an array worklist and the guarded tie-break the final state satisfies `ShortestPaths`; no NULL is dereferenced |
| FindPathsArray.SeedStarts | ass2-a.c:345-349 | every start costs 0 and the array holds the starts in order |
| FindPathsArray.Append | ass2-a.c:365 | `array_insert(node, to_check, -1)` appends the node |
| FindPathsArray.Take | ass2-a.c:350 | `array_remove(0, to_check)` takes the front node, or NULL when the array is empty |
| FindPathsArray.Drain | ass2-a.c:350-373 | the worklist loop ends with an empty array and the invariant |
| FindPathsArray.Relax | ass2-a.c:357-372 | one street is relaxed as `Decide` says, with the NULL-checked tie-break: the new costs and predecessors are `RelaxStep` of the branch taken; the target is appended exactly when its cost drops; no cost rises |
| RouteFacts.CostsDetermined | ass2-q.c:350-392 | the final costs do not depend on the tie-break rule |
| RouteFacts.ViaDetermined | ass2-q.c:386-391 | with the (column, row) tie-break and distinct coordinates, every run leaves the same predecessors |
| RouteFacts.ViaAgreesAt | ass2-q.c:386-391 | two final states with the same costs, both tight and least by (column, row), agree on the predecessor of any one corner |
| RouteFacts.MixedLessIgnoresRow | ass2-a.c:368-369 | once `y` is at least the other column, ass2-a.c breaks a tie only on a strictly lower column |
| RouteFacts.MixedLessMissesRowTie | ass2-a.c:368-369 | two corners of one column: the (column, row) order prefers the upper one, ass2-a.c's comparison does not |
| RouteFacts.QTieBreakReachesNull | ass2-q.c:387-388 | two starts joined by a zero-time street: the first relaxation ties at cost 0 with a NULL predecessor |
| RouteFacts.GuardedTieBreakKeeps | ass2-a.c:368 | on the same input the NULL-checked tie-break keeps the start's NULL predecessor |
| RouteFacts.ZeroTimeLoopRelaxed | ass2-q.c:376-391 | on the grid with start 1a and streets 1a to 1b (1 second), 1b to 0b and 0b to 1b (0 seconds), the costs 999, 0, 1, 1 leave every street relaxed |
| RouteFacts.ZeroTimeLoopDistance | ass2-q.c:350-392 | on that grid those costs are the capped shortest distances from 1a |
| RouteFacts.ZeroTimeLoopRetargets | ass2-q.c:386-391 | on that grid the zero-time arrival at 1b from 0b ties, and every rule retargets 1b to 0b |
| RouteFacts.ZeroTimeLoopIsFinal | ass2-q.c:350-392 | on that grid the state where 0b and 1b are each other's predecessor satisfies `ShortestPaths` under the (column, row) rule |
| RouteFacts.ZeroTimeLoopCycle | ass2-q.c:165-184 | in that state the predecessor links of 0b and 1b form a cycle, so predecessors do not descend in cost |
| RouteFacts.ZeroTimeLoopEveryRun | ass2-q.c:350-392 | every final state of that grid under ass2-q.c's rule or the (column, row) rule is that cyclic state |
| City.UnusableAtMostPossibilities | ass2-q.c:312-316 | the unusable count is at most four per corner |
| City.SecsNonNegative | ass2-q.c:321 | with non-negative times the total seconds are non-negative |
| City.StreetsReachNeighbours | ass2-q.c:322-325 | on a grid bordered by 999 times every street ends at the neighbouring corner inside the grid |
| CityQ.ReadCity | ass2-q.c:277-334 | the city holds every record at the index its name gives, empty corners elsewhere, the locations by name, and the two counters |
| CityQ.ReadCorners | ass2-q.c:290-328 | each record fills in the corner its name gives and adds its streets and counts |
| CityQ.ReadCorner | ass2-q.c:296-327 | one record fills in its corner, keeps every other filled and empty corner, and adds its seconds and unusable count |
| CityQ.FillStep | ass2-q.c:294-304 | the corner of the next record is still empty, since no two records name the same corner, and filling it keeps the earlier ones |
| CityQ.ReadStreets | ass2-q.c:305-327 | the four times become streets to `index + dir_offset(dir)`, unusable counts and seconds |
| CityQ.ReadLocations | ass2-q.c:329-333 | each location is the corner index its name gives |
| CityQ.BuiltIsSearchable | ass2-q.c:256-336 | a bordered city with non-negative times is a graph `find_paths` accepts |
| CityQ.EveryCornerNamed | ass2-q.c:294-328 | with one record per corner and no name twice, every corner is named |
| CityQ.BuiltHasDistinctCoordinates | ass2-q.c:300-302 | distinct names give the corners distinct coordinates |
| CityA.Target | ass2-a.c:309-312 | the written-out street target equals `i + dir_offset(dir)` |
| CityA.ReadCity | ass2-a.c:250-327 | corner i comes from record i whatever its name, `y` keeps the row letter, locations are `(y_coord - 'a') * x + x_coord` |
| CityA.ReadStreets | ass2-a.c:294-316 | the four times of corner i become streets to `Target`, unusable counts and seconds |
| CityA.ReadLocations | ass2-a.c:319-323 | each location index is `(y_coord - 'a') * x + x_coord` |
| CityA.SameCityAsQ | ass2-a.c:283-322 | on records in index order both programs build the same streets, locations and counters; only `y` differs by 'a' |
| CityA.BuiltIsSearchable | ass2-a.c:250-327 | a bordered, in-order city with non-negative times is a graph `find_paths` accepts |
| Trace.Route | ass2-q.c:173-184 | the printed route ends at the location, starts at a corner with no predecessor and each corner's predecessor is the one before it |
| Trace.RouteAscends | ass2-q.c:173-177 | along a route the costs rise strictly |
| Trace.PositiveTimesDescend | ass2-q.c:378-391 | with positive street times every predecessor costs strictly less |
| Trace.RouteIsShortest | ass2-q.c:165-184 | on the final state the route starts at a start with cost 0 and every hop is a street whose time accounts for the cost difference |
| Trace.Pop | ass2-q.c:180 | `list_remove(-1, path)` returns the last item and leaves the rest |
| Trace.TraceQ | ass2-q.c:173-184 | ass2-q.c's trace prints exactly `Route` |
| Trace.PopAll | ass2-q.c:178-184 | popping until NULL prints the list reversed |
| Trace.AtFrontShape | ass2-a.c:151-155 | inserting c1, c2, ..., cm each at index 0 leaves the array [c1, cm, ..., c2] |
| Trace.PrintedFromBack | ass2-a.c:156-163 | printing the start and then that array from the back gives the route with its middle reversed |
| Trace.MiddleReversedIsRoute | ass2-a.c:151-163 | that order is the route exactly when the route has at most three corners |
| Trace.TraceA | ass2-a.c:148-163 | ass2-a.c's trace prints `MiddleReversed(Route)` |
| Trace.ReadBack | ass2-a.c:158-163 | reading the array from its last item down prints it reversed |
| Trace.TraceAFixed | ass2-a.c:148-163 | the trace with appends instead of inserts at 0 prints exactly `Route` |
| Trace.MiddleReversedOnThreeHops | ass2-a.c:151-163 | the route 0, 1, 2, 3 is printed as 0, 2, 1, 3 |
| StageTwo.Routes | ass2-q.c:167-186 | one route per later location the run reached |
| StageTwo.RoutesAreTheReached | ass2-q.c:167-169 | exactly the reached locations get a route |
| StageTwo.RoutesAreShortest | ass2-q.c:161-186 | every printed route starts at the first location with cost 0 and follows tight streets |
| StageTwo.TraceAllQ | ass2-q.c:167-186 | the location loop prints `Routes` |
| StageTwo.TraceAllA | ass2-a.c:144-167 | the location loop prints each of `Routes` with its middle reversed |
| StageTwo.Stage2Q | ass2-q.c:156-193 | search from the first location, then the routes; no route on the NULL dereference |
| StageTwo.Stage2A | ass2-a.c:130-169 | nothing without a location; otherwise the search from the first one and the middle-reversed routes |
| StageThree.ArrowTo | ass2-a.c:233-236 | `arrow_to` points in the direction |
| StageThree.ArrowFrom | ass2-a.c:237-240 | `arrow_from` points against the direction |
| StageThree.Blank | ass2-a.c:241-242 | the blank points nowhere and is the lateral filler exactly for east and west |
| StageThree.PrintArrow | ass2-a.c:229-246 | an arrow exactly when one corner is the other's predecessor, pointing from predecessor to successor; otherwise the blank |
| StageThree.ArrowIsTightHop | ass2-a.c:243-245 | on the final state, an arrow towards a corner stands for a tight street into it |
| StageThree.WestArrowQ | ass2-q.c:219-228 | ass2-q.c's west choice equals `print_arrow` towards the west neighbour |
| StageThree.SouthCheck | ass2-q.c:239 | `index + x_d < x_d * y_d` holds exactly when the corner is not on the last row |
| StageThree.SouthArrowQ | ass2-q.c:236-245 | ass2-q.c's south choice equals `print_arrow` towards the south neighbour |

## Left out

- Reading input with `scanf`, `atoi` and name parsing: the model takes the corner records and location names already split into `City.Record` and `Grid.Name`. ass2-q.c uses one read loop and tells corners from locations with a counter. That is modelled as two loops, corners first.
- All `printf` output: the stage 1 text, the stage 2 lines, and the map layout, borders and field widths of stage 3. Only the route order and the arrow choice are modelled.
- `malloc`, `realloc`, `free` and `safe_malloc`: allocation cannot fail in the model.
- Corner names stored as strings: only their column and row are kept.
- The `prev` pointers of the queue elements: they are written but never read.
- Floating point: `ceil(size * 1.618)` is computed on the exact rational 1618/1000.
- `CityQ.ReadCity`, `CityA.ReadCity`: the input is assumed valid, as ass2-q.c's comment says. There are exactly `x_dim * y_dim` records after the dimensions, the names lie inside the grid, ass2-q.c names no corner twice, and the locations lie inside the grid. Corners that no record names keep the empty corner `Corner(0, 0, [])`.
- The corner and location lists of `read_city_data`: they are kept as sequences, not as `PtrList` or `PtrArray` objects, because only their contents are read afterwards.
- `StageTwo.Stage2Q`, `StageTwo.Stage2A`: they require every street time to be positive. With zero-time streets the tie-break can link corners of equal cost into a `via` cycle, and the C trace loop would then not end (see Findings).
- `Trace.Route`, `Trace.TraceQ`, `Trace.TraceA`, `StageTwo.Routes`: they require `Trace.ViaDescends`, that every predecessor costs strictly less. This also excludes acyclic chains over zero-time streets, which the C trace follows correctly; those routes are not modelled.
- `FindPathsQueue.FindPaths`, `FindPathsArray.FindPaths`: C `int` is 32 bits, and `new_cost = cur_node->cost + edge->weight` (ass2-q.c:378, ass2-a.c:359) could overflow for huge street times. The model's integers are unbounded, so that overflow is not modelled.
- `CityQ.ReadCity`, `CityA.ReadCity`, `City.SecsOf`: the `total_secs` sum (ass2-q.c:321, ass2-a.c:307) is a 32-bit `int` in C; its overflow is not modelled, because the model's integers are unbounded.
- `StageTwo.Stage2Q`: it requires at least one location, since ass2-q.c reads `locs->items[0]` without a check.
- `PtrArray.DynArray.Remove`: it requires `index != -1` on a non-empty array, where the code reads `items[-1]`. Neither program calls it that way. See Findings.
- `print_stage_3`'s two `find_paths` calls: they are the same `FindPaths` methods with all locations as starts. The map's row and column loops are printing and are left out. The cell-level choices are `StageThree.WestArrowQ`, `StageThree.SouthArrowQ` and `StageThree.PrintArrow`.
- `main` and the stage 1 summary: these are output only.

## Findings

| source | as written | input that shows it | evidently intended | confidence | as-written member | corrected member |
|---|---|---|---|---|---|---|
| ass2-q.c:424-430 | the shift loop stops at `i > index + 1`, so an item inserted at an interior index lands at `index + 1` | insert x at index 0 into [a, b]: the result is [a, x, b] | [x, a, b], the item at the index | not executed | Placement.InsertedMisplacesInterior | Placement.InsertedAt |
| ass2-q.c:387-388 | the tie-break reads `node->via->x` when the node has no predecessor | starts 0 and 1 with a zero-time street from 0 to 1: the arrival at 1 ties at cost 0 and `via` of 1 is NULL | check `node->via` first, as ass2-a.c does | not executed | RouteFacts.QTieBreakReachesNull | RouteFacts.GuardedTieBreakKeeps |
| ass2-a.c:369 | on equal columns the row is compared with `node->via->x` | 1a and 1c tie into 1b: ass2-a.c keeps 1c; the (column, row) rule picks 1a | compare `y < node->via->y` | not executed | RouteFacts.MixedLessMissesRowTie | RouteFacts.ViaDetermined |
| ass2-q.c:386-391, ass2-a.c:368-372 | the tie-break retargets on every equal-cost arrival, also over a zero-time street, so two corners can become each other's predecessor; the trace loops at ass2-q.c:173 and ass2-a.c:151 then never end | start 1a; streets 1a to 1b 1 second, 1b to 0b 0 seconds, 0b to 1b 0 seconds: 1b's predecessor is 0b and 0b's is 1b | predecessor chains end at a start, which positive street times guarantee | not executed | RouteFacts.ZeroTimeLoopEveryRun | Trace.PositiveTimesDescend |
| ass2-a.c:153 | the trace inserts each corner at index 0, which with the insert rule above keeps the first corner in front | the route 0, 1, 2, 3 is printed as 0, 2, 1, 3 | append, then read from the back, giving 0, 1, 2, 3 | not executed | Trace.MiddleReversedOnThreeHops | Trace.TraceAFixed |
| ass2-a.c:434 | the slot is chosen with `index < -1`, so index -1 passes the range check and reads `items[-1]` | `array_remove(-1, arr)` on an array with one item | `index == -1` selects the last item, as ass2-q.c's `list_remove` does | not executed | PtrArray.RemoveLastReadsBeforeBuffer | PtrList.List.Remove |
