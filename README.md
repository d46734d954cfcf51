# Boid flock spatial grid

A Dafny model of the uniform spatial grid that buckets the boids of a flock
(`AFlock` in `Source/BoidSimulation/Flock.h`), and of the neighbour query
`ForEachNearbyBoid` that walks the grid.

- Cell number `half = ceil(BoundsRadius / CELL_SIZE)` is centred on the
  flock's origin, so the rounded cells cover `[-(half + 1/2) * CELL_SIZE,
  (half - 1/2) * CELL_SIZE)` on each axis: the grid's extent sits half a
  cell below the centre (see Findings). It has
  `GetCellDimensions = 2 * ceil(BoundsRadius / CELL_SIZE)` cubic cells of
  edge `CELL_SIZE = 125` per axis.
- A location's cell coordinate on each axis is
  `clamp(round(v / CELL_SIZE) + half, 0, dim - 1)`.
- A cell's flat index into the bucket array `BoidCells` is
  `x + y * dim + z * dim * dim`.
- A cell's centre is `(c - half) * CELL_SIZE`.

The query works in four steps:

1. It computes a clamped, inclusive range of cells around the location,
   moved by the search radius down and up on every axis.
2. It walks that range with Z slowest and X fastest.
3. It skips each cell whose box (its centre ± `CELL_SIZE / 2`) misses the
   query sphere.
4. It scans the member list of each remaining cell, and calls a functor
   with `(index, location)` for every member within the search radius.

The model has four parts:

- `engine_math.dfy` (module `EngineMath`): the engine helpers the grid uses,
  over exact reals. These are `FloorToInt32`, `CeilToInt32`, `RoundToInt32`
  as `Floor(v + 0.5)`, `Clamp`, `Square`, `DistSquared` and
  `SphereAABBIntersection`.
- `cell_grid.dfy` (module `CellGrid`): the index arithmetic as functions of
  the bounds radius, with its properties proved.
  - GetAxisCoordinate gives a valid cell for every value.
  - The flat index is a bijection onto `[0, GetNumCells)`, inverted by
    `(i % d, (i / d) % d, i / (d * d))`.
  - An unclamped location lies in its cell's box.
  - The axis coordinate names the nearest cell centre, and it is monotone.
- `neighbor_query.dfy` (module `NeighborQuery`): the specification of the
  query as functions of the grid state it reads, and the properties proved
  about it.
  - The range it computes, and the order it visits cells in.
  - What it emits: exactly the members of the visited, unpruned cells that
    lie within the radius.
  - The pruning is exact.
  - When `BoundsRadius` is a whole number of cells, it finds every unclamped
    bucketed neighbour.
- `flock.dfy` (module `BoidFlock`): class `Flock`, holding the bounds radius,
  the search radius and the bucket array `boidCells`.
  - Its method `ForEachNearbyBoid` runs the Z, Y, X and member loops
    imperatively.
  - It is proved to return exactly `NearbyHits`, the sequence of functor
    calls in the order they are made.
- `findings.dfy` (module `GridFindings`): the two ways the query as written
  misses a neighbour, each on a concrete configuration. It also holds a
  corrected grid and query, with the property that every neighbour within
  the bounds is found.

## Model

| member | source | states |
|---|---|---|
| EngineMath.FloorToInt | Source/BoidSimulation/Flock.h:58 | the greatest integer not above the value: r <= v < r + 1 |
| EngineMath.CeilToInt | Source/BoidSimulation/Flock.h:42 | the least integer not below the value |
| EngineMath.RoundToInt | Source/BoidSimulation/Flock.h:58 | the nearest integer, halves rounded up: r - 1/2 <= v < r + 1/2 |
| EngineMath.Clamp | Source/BoidSimulation/Flock.h:58 | with lo <= hi the result lies in [lo, hi], and is the value itself or the bound the value passes |
| EngineMath.Square | Source/BoidSimulation/Flock.h:123 | a square is non-negative |
| EngineMath.DistSquared | Source/BoidSimulation/Flock.h:123 | the squared distance is non-negative and zero between equal points |
| EngineMath.SphereAabbIntersection | Source/BoidSimulation/Flock.h:119 | the summed per-axis squared excess of the centre over the box, compared with the squared radius; that it holds exactly when a box point lies within the radius is SphereAabbIntersectionIff |
| EngineMath.AxisExcessIsClosest | Source/BoidSimulation/Flock.h:119 | one axis's term of the intersection test is the squared distance to the nearest point of the interval, and no point of the interval is nearer |
| EngineMath.SphereAabbIntersectionIff | Source/BoidSimulation/Flock.h:119 | the sphere/box test holds exactly when some point of the box lies within the radius |
| EngineMath.SphereAabbMeetsPoint | Source/BoidSimulation/Flock.h:119 | a box holding a point within the radius always passes the test |
| CellGrid.GetHalfCellDimensions | Source/BoidSimulation/Flock.h:40-43 | the least number of whole cells whose total length is at least the bounds radius: (half - 1) * C < R <= half * C, and at least 1 for R > 0 |
| CellGrid.GetCellDimensions | Source/BoidSimulation/Flock.h:45-48 | even, with half of it the half-extent, and at least 2 for R > 0 |
| CellGrid.CellDimensionsEven | Source/BoidSimulation/Flock.h:45-48 | for R > 0 (asserted in Flock.cpp) the dimension is 2 * half, at least 2, so the `check` of line 64 holds, and the half-extent counts enough cells for R (half * C >= R); where the cell boxes reach is AxisUnclampedInterval |
| CellGrid.GetNumCells | Source/BoidSimulation/Flock.h:50-53 | for R > 0 there are at least 8 cells |
| CellGrid.GetAxisCoordinate | Source/BoidSimulation/Flock.h:55-59 | for every value, also outside the bounds, the coordinate names a cell: 0 <= c < dim |
| CellGrid.GetCellCoordinates | Source/BoidSimulation/Flock.h:61-74 | each component equals GetAxisCoordinate of that axis, although it is computed from dim / 2; the result names a cell of the grid |
| CellGrid.GetCellIndex | Source/BoidSimulation/Flock.h:76-80 | for coordinates of a cell, the flat index lies in [0, GetNumCells) |
| CellGrid.GetLocationCellIndex | Source/BoidSimulation/Flock.h:82-85 | for every location, the index is valid in a bucket array of GetNumCells entries |
| CellGrid.GetCellLocation | Source/BoidSimulation/Flock.h:87-96 | the cell coordinates of a cell's centre are that cell again |
| CellGrid.CellBox | Source/BoidSimulation/Flock.h:119 | the box tested for a cell (centre ± C/2) is non-empty |
| CellGrid.CellIndexRoundTrip | Source/BoidSimulation/Flock.h:76-80 | (i % d, (i / d) % d, i / (d * d)) recovers the coordinates from their flat index |
| CellGrid.CellIndexOnto | Source/BoidSimulation/Flock.h:76-80 | every index in [0, GetNumCells) is the flat index of the cell that is recovered from it |
| CellGrid.CellIndexInjective | Source/BoidSimulation/Flock.h:76-80 | distinct cells have distinct flat indices |
| CellGrid.AxisUnclampedInterval | Source/BoidSimulation/Flock.h:58 | the clamp leaves a value alone exactly when it lies in [-(half + 1/2) * C, (half - 1/2) * C) |
| CellGrid.AxisInOwnCell | Source/BoidSimulation/Flock.h:87-96 | an unclamped value lies within half a cell of its cell's centre |
| CellGrid.LocationInOwnCellBox | Source/BoidSimulation/Flock.h:87-96 | an unclamped location lies in the box that line 119 tests for its own cell |
| CellGrid.AxisCoordinateNearest | Source/BoidSimulation/Flock.h:55-59 | the coordinate names the cell whose centre is nearest to the value, among all cells |
| CellGrid.AxisCoordinateMonotone | Source/BoidSimulation/Flock.h:55-59 | larger values never get smaller coordinates |
| NeighborQuery.QueryRange | Source/BoidSimulation/Flock.h:102-109 | the rounded, clamped range ends StartX..EndZ; their bounds and order are QueryRangeBounds, and their relation to the cell coordinates is QueryBoundIsAxisCoordinate and QueryRangeCoversNeighbourCell |
| NeighborQuery.QueryRangeBounds | Source/BoidSimulation/Flock.h:102-109 | StartX..EndZ are all cells of the grid, and for a non-negative radius Start <= End on every axis |
| NeighborQuery.RowOrderShape | Source/BoidSimulation/Flock.h:115 | the X loop visits X = Start .. End once each, in increasing order, at fixed Y and Z |
| NeighborQuery.PlaneOrderShape | Source/BoidSimulation/Flock.h:113-115 | the Y and X loops visit exactly the cells of the X by Y rectangle, in increasing (Y, X) order |
| NeighborQuery.BoxOrderShape | Source/BoidSimulation/Flock.h:111-115 | the three loops visit exactly the cells of the box, in increasing (Z, Y, X) order |
| NeighborQuery.PlaneOrderLength | Source/BoidSimulation/Flock.h:113-115 | the Y and X loops make (number of X) * (number of Y) visits |
| NeighborQuery.BoxOrderLength | Source/BoidSimulation/Flock.h:111-115 | the three loops make (number of X) * (number of Y) * (number of Z) visits |
| NeighborQuery.VisitOrderExactlyOnce | Source/BoidSimulation/Flock.h:111-117 | the loops visit every cell of the inclusive range and nothing else, each exactly once, with X fastest and Z slowest |
| NeighborQuery.RowHitsInOrder | Source/BoidSimulation/Flock.h:115-127 | what the X loop emits is the contributions of its row's cells, concatenated in visiting order |
| NeighborQuery.PlaneHitsInOrder | Source/BoidSimulation/Flock.h:113-128 | what the Y loop emits is the contributions of its rows, concatenated in visiting order |
| NeighborQuery.BoxHitsInOrder | Source/BoidSimulation/Flock.h:111-129 | what the Z loop emits is the contributions of all visited cells, concatenated in visiting order |
| NeighborQuery.ScanCell | Source/BoidSimulation/Flock.h:121-126 | what the scan of one member list emits, in list order; which pairs it emits is ScanCellMembership |
| NeighborQuery.CellHits | Source/BoidSimulation/Flock.h:117-126 | what one visited cell emits after the pruning; which pairs it emits is CellHitsMembership |
| NeighborQuery.NearbyHits | Source/BoidSimulation/Flock.h:98-130 | everything the query hands to its functor, in call order; which pairs it emits is NearbyHitsMembership, and its order is VisitOrderExactlyOnce |
| NeighborQuery.ScanCellMembership | Source/BoidSimulation/Flock.h:121-126 | scanning a member list emits exactly the members within the squared radius, each with its own location |
| NeighborQuery.ListedOnlyInOwnCell | Source/BoidSimulation/Flock.h:34 | when every boid is listed exactly in its own cell, the only cell listing a boid is the cell of its location |
| NeighborQuery.CellHitsMembership | Source/BoidSimulation/Flock.h:119-126 | a visited cell emits h exactly when it survives the pruning, lists h's index, and that index names a location within the radius that h carries |
| NeighborQuery.NearbyHitsMembership | Source/BoidSimulation/Flock.h:98-130 | the query emits h exactly when some cell of its range survives the pruning, lists h's index, and that index names a location within the radius that h carries; the querying boid is not excluded |
| NeighborQuery.NearbyHitsSound | Source/BoidSimulation/Flock.h:121-126 | every emitted pair is a valid boid index, within the search radius, with its own location |
| NeighborQuery.CellSurvivesIff | Source/BoidSimulation/Flock.h:119 | a cell survives the pruning exactly when its box holds a point within the search radius, so pruning never skips a cell that could yield a hit |
| NeighborQuery.PruningKeepsNeighbourCell | Source/BoidSimulation/Flock.h:119 | the cell of an unclamped boid within the radius is never pruned |
| NeighborQuery.QueryBoundIsAxisCoordinate | Source/BoidSimulation/Flock.h:102-109 | when the bounds radius is a whole number of cells, each end of the range is GetAxisCoordinate of the location moved by the radius |
| NeighborQuery.AxisQueryCovers | Source/BoidSimulation/Flock.h:102-109 | with whole cells, the range on one axis holds the coordinate of every value within the radius |
| NeighborQuery.QueryRangeCoversNeighbourCell | Source/BoidSimulation/Flock.h:102-109 | with whole cells, the range holds the cell of every location within the radius, including the querying location's own cell |
| NeighborQuery.FindsEveryBucketedNeighbour | Source/BoidSimulation/Flock.h:98-130 | with whole cells, every unclamped boid within the radius that is listed in its own cell is emitted |
| NeighborQuery.NearbyHitsExact | Source/BoidSimulation/Flock.h:98-130 | with whole cells, and every boid unclamped and listed in its own cell, the query emits exactly the boids within the radius, with their locations |
| BoidFlock.Flock.constructor | Source/BoidSimulation/Flock.h:21-34 | the flock starts with a positive bounds radius and a bucket array of GetNumCells lists |
| BoidFlock.Flock.ForEachNearbyBoid | Source/BoidSimulation/Flock.h:98-130 | the functor calls the method makes are exactly NearbyHits of the flock's state, in order |
| BoidFlock.VisitRange | Source/BoidSimulation/Flock.h:111-129 | the Z loop emits what BoxHits prescribes for the range |
| BoidFlock.VisitPlane | Source/BoidSimulation/Flock.h:113-128 | the Y loop emits what PlaneHits prescribes for its Z |
| BoidFlock.VisitRow | Source/BoidSimulation/Flock.h:115-127 | the X loop emits what RowHits prescribes for its Y and Z |
| BoidFlock.VisitCell | Source/BoidSimulation/Flock.h:117-126 | one cell emits its contribution: nothing when its box misses the sphere, its scan otherwise |
| BoidFlock.ScanMembers | Source/BoidSimulation/Flock.h:121-126 | the member loop emits the scan of the member list, in list order |
| GridFindings.HalfCellShiftMissesNeighbour | Source/BoidSimulation/Flock.h:87-96 | with the default radii, a boid at (995, 0, 0), inside the bounds and 5 from the query at (990, 0, 0), is clamped into a cell whose box does not hold it, and is not emitted |
| GridFindings.RoundedQueryMissesOwnCell | Source/BoidSimulation/Flock.h:102-109 | with bounds radius 1060, the range of the query at (-50, 0, 0) misses the querying location's own cell, and a listed, unclamped boid 10 away is not emitted |
| GridFindings.CorrectedAxisCoordinate | Source/BoidSimulation/Flock.h:55-59 | the floor-based corrected coordinate names a cell for every value |
| GridFindings.CorrectedCellCoordinates | Source/BoidSimulation/Flock.h:61-74 | the corrected cell coordinates name a cell of the grid |
| GridFindings.CorrectedCellBox | Source/BoidSimulation/Flock.h:119 | the corrected box is non-empty |
| GridFindings.CorrectedAxisCoordinateMonotone | Source/BoidSimulation/Flock.h:55-59 | larger values never get smaller corrected coordinates |
| GridFindings.CorrectedAxisInOwnCell | Source/BoidSimulation/Flock.h:87-96 | every value within the bounds, clamped or not, lies in its corrected cell's extent |
| GridFindings.CorrectedLocationInOwnCellBox | Source/BoidSimulation/Flock.h:87-96 | every location within the bounds lies in the box of its corrected cell |
| GridFindings.CorrectedQueryCoversNeighbourCell | Source/BoidSimulation/Flock.h:102-109 | for any bounds radius, the corrected range holds the corrected cell of every location within the radius |
| GridFindings.CorrectedCellHitsMembership | Source/BoidSimulation/Flock.h:119-126 | a corrected cell emits h exactly when it survives, lists h's index, and that index is within the radius |
| GridFindings.CorrectedNearbyHitsMembership | Source/BoidSimulation/Flock.h:98-130 | the corrected query emits exactly the members within the radius of the surviving cells of its range |
| GridFindings.CorrectedNearbyHitsSound | Source/BoidSimulation/Flock.h:121-126 | the corrected query emits only valid boids within the radius, with their locations |
| GridFindings.CorrectedFindsEveryNeighbour | Source/BoidSimulation/Flock.h:98-130 | for any bounds radius, every boid within the bounds that is listed in its corrected cell and lies within the radius is emitted |

## Left out

- Integer width: `int32` arithmetic is modelled with unbounded integers. GetNumCells and GetCellIndex would overflow `int32` once the cell dimension exceeds 1290, that is for bounds radii above about 80000, so their bounds describe the source only below that. RoundToInt32 and CeilToInt32 also convert a double to `int32`, which C++ leaves undefined once `|v / CELL_SIZE| >= 2^31`, that is for `|v|` of about 2.7e11 or more; at such values EngineMath.RoundToInt, EngineMath.CeilToInt, CellGrid.AxisCoordinateNearest, CellGrid.AxisCoordinateMonotone, NeighborQuery.QueryRangeBounds, NeighborQuery.QueryBoundIsAxisCoordinate and NeighborQuery.AxisQueryCovers no longer describe the source.
- Floating point: locations, radii and `CELL_SIZE` are exact reals. Rounding of the doubles and floats in the divisions, and the float-to-double widening of `BoundsRadius`, are not modelled.
- The mixed-type `FMath::Clamp(..., 0.0, ...)` for EndY (Flock.h:106) is modelled as the integer clamp. Its argument is already a whole number, so the results agree.
- The functor is modelled as the returned sequence of its `(index, location)` calls, in call order.
- BoidFlock.Flock.ForEachNearbyBoid: the three nested loops are split into one method per loop level (VisitRange, VisitPlane, VisitRow), with the X loop's body in VisitCell. The six clamped ends StartX..EndZ are computed by the function QueryRange.
- BoidFlock.Flock.ForEachNearbyBoid requires that every index stored in `BoidCells` indexes `OtherLocations`. The source indexes `OtherLocations` with those indices unchecked, so it depends on this too.
- Filling `BoidCells` and `RelocateBoidCell`: the relocation is declared but has no definition here, and no code shown fills the buckets. The bucketing invariant is therefore a hypothesis of the lemmas that need it (Bucketed, BucketedExactly), not a proved property of an operation. The size of the bucket array (GetNumCells lists) is likewise a precondition of the constructor.
- NeighborQuery.FindsEveryBucketedNeighbour: needs the bounds radius to be a whole number of cells and the neighbour's location to be unclamped, because without either the query as written misses neighbours (see Findings).
- NeighborQuery.NearbyHitsExact: needs the same two conditions for every boid, for the same reason.
- NeighborQuery.ScanCell and NeighborQuery.CellMembers: they are total, and yield nothing for an index outside the location array or the bucket array. The query's preconditions rule both out.
- The per-cell spin locks `BoidCellSpinLocks` are concurrency and are not modelled.
- Cohere, Avoid, Align, Constrain and LerpNormals (Flock.cpp:74-183) are not modelled. They are floating-point steering built on engine vector and quaternion calls.
- SimulateSynchronously, SimulateAsynchronously, the constructor's mesh set-up, BeginPlay's random placement, Tick, console variables and debug drawing are not modelled. They are engine lifecycle, I/O, randomness and rendering.
- The header's declarations of Avoid, Align, Cohere and Constrain (Flock.h:134-137) have no bodies and are not modelled.

## Findings

The model of `ForEachNearbyBoid` in `flock.dfy` and `neighbor_query.dfy` follows the code as written. The corrected grid and query live beside it in `findings.dfy`.

| source | as written | input that shows it | evidently intended | confidence | as-written member | corrected member |
|---|---|---|---|---|---|---|
| Source/BoidSimulation/Flock.h:87-96 | The rounded coordinate and the centre `(c - half) * CELL_SIZE` make the grid cover `[-(half + 1/2) C, (half - 1/2) C)` per axis. Locations between `(half - 1/2) C` and the bounds radius are clamped into the last cell, whose box does not hold them, so line 119 prunes a cell that holds a neighbour. | BoundsRadius 1000, search radius 25, query at (990, 0, 0), boid at (995, 0, 0) listed in its cell (15, 8, 8) | every boid inside the bounds and within the search radius is handed to the functor: a floor-based coordinate with centre `(c - half + 1/2) * CELL_SIZE` | medium, not executed | GridFindings.HalfCellShiftMissesNeighbour | GridFindings.CorrectedFindsEveryNeighbour |
| Source/BoidSimulation/Flock.h:102-109 | The range ends are `round((v ± r + BoundsRadius) / C)`, while a location's cell is `round(v / C) + ceil(BoundsRadius / C)`. The two differ when the bounds radius is not a whole number of cells, and the range can then miss the querying location's own cell. | BoundsRadius 1060, search radius 25, query at (-50, 0, 0), boid at (-40, 0, 0) listed exactly in its cell (9, 9, 9) | the range runs from the cell of `v - r` to the cell of `v + r` on every axis | medium, not executed | GridFindings.RoundedQueryMissesOwnCell | GridFindings.CorrectedFindsEveryNeighbour |
