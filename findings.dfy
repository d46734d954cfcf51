/**
 * Two ways in which the neighbour query of AFlock misses a boid that is
 * within the search radius, each shown on a concrete configuration, and a
 * corrected grid with the property the query is meant to have: every boid
 * within the bounds and within the search radius is found.
 */
module GridFindings {
  import opened EngineMath
  import opened CellGrid
  import opened NeighborQuery

  // ---------------------------------------------------------------------
  // The code as written

  /** With the default bounds radius 1000 and search radius 25, a boid at
      (995, 0, 0), inside the bounds sphere and 5 away from the querying
      location (990, 0, 0), is clamped into the last cell on X, whose box
      [812.5, 937.5] does not hold it; the query range is that one cell,
      and the pruning test drops it, so the boid is never handed to the
      functor although it is listed in its cell. */
  lemma HalfCellShiftMissesNeighbour(g: FlockGrid, others: seq<Vec>)
    requires g.boundsRadius == 1000.0 && g.searchRadius == 25.0
    requires WellFormed(g, others) && |others| >= 1 && others[0] == Vec(995.0, 0.0, 0.0)
    ensures WholeCells(g.boundsRadius)
    ensures DistSquared(Vec(0.0, 0.0, 0.0), others[0]) <= Square(g.boundsRadius)
    ensures DistSquared(Vec(990.0, 0.0, 0.0), others[0]) <= Square(g.searchRadius)
    ensures GetCellCoordinates(g.boundsRadius, others[0]) == Coord(15, 8, 8)
    ensures !InBox(others[0], CellBox(g.boundsRadius, Coord(15, 8, 8)))
    ensures Hit(0, others[0]) !in NearbyHits(g, Vec(990.0, 0.0, 0.0), others)
  {
    var location := Vec(990.0, 0.0, 0.0);
    var c := Coord(15, 8, 8);
    Coordinates1000();
    QueryRange1000(g);
    CellBox1000();
    assert !CellSurvives(g, location, c);
    NearbyHitsMembership(g, location, others, Hit(0, others[0]));
  }

  /** The cell of the boid of the first configuration. */
  lemma Coordinates1000()
    ensures GetHalfCellDimensions(1000.0) == 8
    ensures GetCellCoordinates(1000.0, Vec(995.0, 0.0, 0.0)) == Coord(15, 8, 8)
  {
    assert GetHalfCellDimensions(1000.0) == 8;
    assert RoundToInt(995.0 / CellSize) == 8 && RoundToInt(0.0 / CellSize) == 0;
  }

  /** The query range of the first configuration is a single cell. */
  lemma QueryRange1000(g: FlockGrid)
    requires g.boundsRadius == 1000.0 && g.searchRadius == 25.0
    ensures QueryRange(g, Vec(990.0, 0.0, 0.0)) == CellRange(Coord(15, 8, 8), Coord(15, 8, 8))
  {
    assert GetHalfCellDimensions(1000.0) == 8;
    assert RoundToInt((990.0 - 25.0 + 1000.0) / CellSize) == 16;
    assert RoundToInt((990.0 + 25.0 + 1000.0) / CellSize) == 16;
    assert RoundToInt((0.0 - 25.0 + 1000.0) / CellSize) == 8;
    assert RoundToInt((0.0 + 25.0 + 1000.0) / CellSize) == 8;
  }

  /** The box the query tests for that cell. */
  lemma CellBox1000()
    ensures CellBox(1000.0, Coord(15, 8, 8)) == Box(Vec(812.5, -62.5, -62.5), Vec(937.5, 62.5, 62.5))
  {
    assert GetHalfCellDimensions(1000.0) == 8;
  }

  /** With a bounds radius of 1060, which is not a whole number of cells,
      the query range rounds the location offset by the bounds radius while
      the cell coordinate offsets the rounded location by the half-extent, and
      the two differ by one cell: with the default search radius 25 the query
      at (-50, 0, 0) walks X = 8 only, while the querying location and a
      boid 10 away at (-40, 0, 0), neither of them clamped, are both in
      column 9, so that boid is never handed to the functor. */
  lemma RoundedQueryMissesOwnCell(g: FlockGrid, others: seq<Vec>)
    requires g.boundsRadius == 1060.0 && g.searchRadius == 25.0
    requires WellFormed(g, others) && BucketedExactly(g, others)
    requires |others| >= 1 && others[0] == Vec(-40.0, 0.0, 0.0)
    ensures !WholeCells(g.boundsRadius)
    ensures Unclamped(g.boundsRadius, others[0]) && Unclamped(g.boundsRadius, Vec(-50.0, 0.0, 0.0))
    ensures DistSquared(Vec(-50.0, 0.0, 0.0), others[0]) <= Square(g.searchRadius)
    ensures !InRange(QueryRange(g, Vec(-50.0, 0.0, 0.0)), GetCellCoordinates(g.boundsRadius, Vec(-50.0, 0.0, 0.0)))
    ensures Hit(0, others[0]) !in NearbyHits(g, Vec(-50.0, 0.0, 0.0), others)
  {
    var location := Vec(-50.0, 0.0, 0.0);
    Coordinates1060();
    var range := QueryRange(g, location);
    QueryRange1060(g);
    QueryRangeBounds(g, location);
    forall c | InRange(range, c)
      ensures 0 !in CellMembers(g, c)
    {
      ListedOnlyInOwnCell(g, others, 0, c);
    }
    NearbyHitsMembership(g, location, others, Hit(0, others[0]));
  }

  /** The cells of the two locations of the second configuration. */
  lemma Coordinates1060()
    ensures GetHalfCellDimensions(1060.0) == 9
    ensures UnclampedAxisCoordinate(1060.0, -40.0) == 9 && UnclampedAxisCoordinate(1060.0, -50.0) == 9
    ensures UnclampedAxisCoordinate(1060.0, 0.0) == 9
    ensures GetCellCoordinates(1060.0, Vec(-40.0, 0.0, 0.0)) == Coord(9, 9, 9)
    ensures GetCellCoordinates(1060.0, Vec(-50.0, 0.0, 0.0)) == Coord(9, 9, 9)
  {
    assert GetHalfCellDimensions(1060.0) == 9;
    assert RoundToInt(-40.0 / CellSize) == 0 && RoundToInt(0.0 / CellSize) == 0;
    assert RoundToInt(-50.0 / CellSize) == 0;
  }

  /** The query range of the second configuration ends at column 8. */
  lemma QueryRange1060(g: FlockGrid)
    requires g.boundsRadius == 1060.0 && g.searchRadius == 25.0
    ensures QueryRange(g, Vec(-50.0, 0.0, 0.0)).hi.x == 8
  {
    assert RoundToInt((-50.0 + 25.0 + 1060.0) / CellSize) == 8;
  }

  // ---------------------------------------------------------------------
  // The corrected grid

  /** The corrected axis coordinate: the value's cell counted from the
      negative edge of the grid, floor(value / CellSize) + half, clamped. */
  function CorrectedAxisCoordinate(boundsRadius: real, value: real): (c: int)
    ensures boundsRadius > 0.0 ==> 0 <= c < GetCellDimensions(boundsRadius)
  {
    var half := GetHalfCellDimensions(boundsRadius);
    Clamp(FloorToInt(value / CellSize) + half, 0, half * 2 - 1)
  }

  function CorrectedCellCoordinates(boundsRadius: real, location: Vec): (c: Coord)
    ensures boundsRadius > 0.0 ==> InGrid(boundsRadius, c)
  {
    Coord(CorrectedAxisCoordinate(boundsRadius, location.x),
          CorrectedAxisCoordinate(boundsRadius, location.y),
          CorrectedAxisCoordinate(boundsRadius, location.z))
  }

  /** The centre, on one axis, of the corrected cells with coordinate c:
      half a cell above the cell's lower edge. */
  function CorrectedAxisCellCentre(boundsRadius: real, c: int): real
  {
    ((c - GetHalfCellDimensions(boundsRadius)) as real + 0.5) * CellSize
  }

  /** The corrected box of a cell: its centre plus or minus half a cell. */
  function CorrectedCellBox(boundsRadius: real, c: Coord): (b: Box)
    ensures NonEmptyBox(b)
  {
    var h := CellSize / 2.0;
    var p := Vec(CorrectedAxisCellCentre(boundsRadius, c.x),
                 CorrectedAxisCellCentre(boundsRadius, c.y),
                 CorrectedAxisCellCentre(boundsRadius, c.z));
    Box(Vec(p.x - h, p.y - h, p.z - h), Vec(p.x + h, p.y + h, p.z + h))
  }

  /** The corrected query range: from the cell of the location moved down by
      the search radius to the cell of the location moved up by it. */
  function CorrectedQueryRange(g: FlockGrid, location: Vec): CellRange
  {
    var r := g.searchRadius;
    CellRange(CorrectedCellCoordinates(g.boundsRadius, Vec(location.x - r, location.y - r, location.z - r)),
              CorrectedCellCoordinates(g.boundsRadius, Vec(location.x + r, location.y + r, location.z + r)))
  }

  predicate CorrectedCellSurvives(g: FlockGrid, location: Vec, c: Coord)
  {
    SphereAabbIntersection(location, RadiusSquared(g), CorrectedCellBox(g.boundsRadius, c))
  }

  function CorrectedCellHits(g: FlockGrid, location: Vec, others: seq<Vec>, c: Coord): seq<Hit>
  {
    if !CorrectedCellSurvives(g, location, c) then []
    else ScanCell(location, RadiusSquared(g), others, CellMembers(g, c))
  }

  /** The corrected query: the same loops, pruning and scan over the
      corrected range and boxes. */
  function CorrectedNearbyHits(g: FlockGrid, location: Vec, others: seq<Vec>): seq<Hit>
  {
    ConcatMap(VisitOrder(CorrectedQueryRange(g, location)), c => CorrectedCellHits(g, location, others, c))
  }

  /** Boid i is listed in its cell of the corrected grid. */
  predicate CorrectedBucketed(g: FlockGrid, others: seq<Vec>, i: int)
    requires 0 <= i < |others|
  {
    i in CellMembers(g, CorrectedCellCoordinates(g.boundsRadius, others[i]))
  }

  /** A location within the bounds radius of the centre on every axis, as
      every location inside the bounds sphere is. */
  predicate WithinBounds(boundsRadius: real, p: Vec)
  {
    -boundsRadius <= p.x <= boundsRadius && -boundsRadius <= p.y <= boundsRadius
    && -boundsRadius <= p.z <= boundsRadius
  }

  /** Larger values never get smaller corrected axis coordinates. */
  lemma CorrectedAxisCoordinateMonotone(boundsRadius: real, a: real, b: real)
    requires boundsRadius > 0.0 && a <= b
    ensures CorrectedAxisCoordinate(boundsRadius, a) <= CorrectedAxisCoordinate(boundsRadius, b)
  {
    assert FloorToInt(a / CellSize) <= FloorToInt(b / CellSize);
  }

  /** Every value within the bounds lies, on that axis, in the corrected box
      of its corrected cell, clamped or not. */
  lemma CorrectedAxisInOwnCell(boundsRadius: real, value: real)
    requires boundsRadius > 0.0 && -boundsRadius <= value <= boundsRadius
    ensures var centre := CorrectedAxisCellCentre(boundsRadius, CorrectedAxisCoordinate(boundsRadius, value));
            centre - CellSize / 2.0 <= value <= centre + CellSize / 2.0
  {
    var half := GetHalfCellDimensions(boundsRadius);
    var k := FloorToInt(value / CellSize);
    assert -half <= k <= half;
    assert k == half ==> value == half as real * CellSize;
  }

  /** Every location within the bounds lies in the corrected box of its
      corrected cell. */
  lemma CorrectedLocationInOwnCellBox(boundsRadius: real, p: Vec)
    requires boundsRadius > 0.0 && WithinBounds(boundsRadius, p)
    ensures InBox(p, CorrectedCellBox(boundsRadius, CorrectedCellCoordinates(boundsRadius, p)))
  {
    CorrectedAxisInOwnCell(boundsRadius, p.x);
    CorrectedAxisInOwnCell(boundsRadius, p.y);
    CorrectedAxisInOwnCell(boundsRadius, p.z);
  }

  /** For any bounds radius, the corrected query range holds the corrected
      cell of every location within the search radius. */
  lemma CorrectedQueryCoversNeighbourCell(g: FlockGrid, location: Vec, p: Vec)
    requires g.boundsRadius > 0.0 && g.searchRadius >= 0.0
    requires DistSquared(location, p) <= Square(g.searchRadius)
    ensures InRange(CorrectedQueryRange(g, location), CorrectedCellCoordinates(g.boundsRadius, p))
  {
    var r, range, c := g.searchRadius, CorrectedQueryRange(g, location), CorrectedCellCoordinates(g.boundsRadius, p);
    DistSquaredAxisBound(location, p, r);
    assert range.lo.x <= c.x <= range.hi.x by {
      CorrectedAxisCoordinateMonotone(g.boundsRadius, location.x - r, p.x);
      CorrectedAxisCoordinateMonotone(g.boundsRadius, p.x, location.x + r);
    }
    assert range.lo.y <= c.y <= range.hi.y by {
      CorrectedAxisCoordinateMonotone(g.boundsRadius, location.y - r, p.y);
      CorrectedAxisCoordinateMonotone(g.boundsRadius, p.y, location.y + r);
    }
    assert range.lo.z <= c.z <= range.hi.z by {
      CorrectedAxisCoordinateMonotone(g.boundsRadius, location.z - r, p.z);
      CorrectedAxisCoordinateMonotone(g.boundsRadius, p.z, location.z + r);
    }
  }

  /** h comes from the corrected cell c: the cell survives the corrected
      pruning, lists h's index, and that index names a location within the
      search radius, which h carries. */
  predicate CorrectedHitFromCell(g: FlockGrid, location: Vec, others: seq<Vec>, c: Coord, h: Hit)
  {
    && CorrectedCellSurvives(g, location, c)
    && h.index in CellMembers(g, c)
    && 0 <= h.index < |others|
    && h.location == others[h.index]
    && DistSquared(location, others[h.index]) <= RadiusSquared(g)
  }

  lemma CorrectedCellHitsMembership(g: FlockGrid, location: Vec, others: seq<Vec>, c: Coord, h: Hit)
    requires WellFormed(g, others) && InGrid(g.boundsRadius, c)
    ensures h in CorrectedCellHits(g, location, others, c) <==> CorrectedHitFromCell(g, location, others, c, h)
  {
    var members := CellMembers(g, c);
    assert members == g.cells[GetCellIndex(g.boundsRadius, c)];
    ScanCellMembership(location, RadiusSquared(g), others, members, h);
  }

  /** What the corrected query emits: exactly the members within the search
      radius of the surviving cells of its range. */
  lemma CorrectedNearbyHitsMembership(g: FlockGrid, location: Vec, others: seq<Vec>, h: Hit)
    requires WellFormed(g, others)
    ensures h in CorrectedNearbyHits(g, location, others)
            <==> exists c :: InRange(CorrectedQueryRange(g, location), c) && CorrectedHitFromCell(g, location, others, c, h)
  {
    var r := CorrectedQueryRange(g, location);
    var f := c => CorrectedCellHits(g, location, others, c);
    ConcatMapMembership(VisitOrder(r), f, h);
    VisitOrderExactlyOnce(r);
    forall c | InRange(r, c)
      ensures h in f(c) <==> CorrectedHitFromCell(g, location, others, c, h)
    {
      CorrectedCellHitsMembership(g, location, others, c, h);
    }
  }

  /** The corrected query emits only boids within the search radius, with
      their locations. */
  lemma CorrectedNearbyHitsSound(g: FlockGrid, location: Vec, others: seq<Vec>, h: Hit)
    requires WellFormed(g, others) && h in CorrectedNearbyHits(g, location, others)
    ensures 0 <= h.index < |others| && h.location == others[h.index]
    ensures DistSquared(location, others[h.index]) <= Square(g.searchRadius)
  {
    CorrectedNearbyHitsMembership(g, location, others, h);
  }

  /** The property the query is meant to have, for any bounds radius and
      with no clamping caveat: every boid within the bounds that is listed in
      its cell and lies within the search radius is found. */
  lemma CorrectedFindsEveryNeighbour(g: FlockGrid, location: Vec, others: seq<Vec>, i: int)
    requires WellFormed(g, others) && g.searchRadius >= 0.0
    requires 0 <= i < |others| && CorrectedBucketed(g, others, i) && WithinBounds(g.boundsRadius, others[i])
    requires DistSquared(location, others[i]) <= Square(g.searchRadius)
    ensures Hit(i, others[i]) in CorrectedNearbyHits(g, location, others)
  {
    var p := others[i];
    var c := CorrectedCellCoordinates(g.boundsRadius, p);
    CorrectedQueryCoversNeighbourCell(g, location, p);
    CorrectedLocationInOwnCellBox(g.boundsRadius, p);
    SphereAabbMeetsPoint(location, RadiusSquared(g), CorrectedCellBox(g.boundsRadius, c), p);
    assert CorrectedHitFromCell(g, location, others, c, Hit(i, p));
    CorrectedNearbyHitsMembership(g, location, others, Hit(i, p));
  }
}
