/**
 * The flock actor's grid state and its neighbour query (AFlock). The bucket
 * array BoidCells holds, for every cell of the grid, the indices of the
 * boids bucketed there; the query reads it and calls a functor once per
 * nearby boid, modelled here as returning the sequence of those calls.
 */
module BoidFlock {
  import opened EngineMath
  import opened CellGrid
  import opened NeighborQuery

  class Flock {
    /** BoundsRadius: the radius of the volume the boids fly in. */
    const boundsRadius: real
    /** BoidsSearchNearbyRadius: the radius of the neighbour query. */
    const searchRadius: real
    /** BoidCells: one list of boid indices per cell of the grid. */
    var boidCells: seq<seq<int>>

    /** The bucket array has one entry per cell; the bounds radius is
        positive, as the flock asserts when it starts. */
    ghost predicate Valid()
      reads this
    {
      ValidGrid(Grid())
    }

    /** The state the neighbour query reads, as a value. */
    function Grid(): FlockGrid
      reads this
    {
      FlockGrid(boundsRadius, searchRadius, boidCells)
    }

    constructor (boundsRadius: real, searchRadius: real, boidCells: seq<seq<int>>)
      requires boundsRadius > 0.0 && |boidCells| == GetNumCells(boundsRadius)
      ensures Valid()
      ensures this.boundsRadius == boundsRadius && this.searchRadius == searchRadius
      ensures this.boidCells == boidCells
    {
      this.boundsRadius := boundsRadius;
      this.searchRadius := searchRadius;
      this.boidCells := boidCells;
    }

    /** ForEachNearbyBoid: walks the clamped cell range around location, Z
        slowest and X fastest, skips the cells whose box misses the query
        sphere and emits every member of the other cells that lies within the
        search radius, with its location, in the order the functor sees them. */
    method ForEachNearbyBoid(location: Vec, otherLocations: seq<Vec>) returns (hits: seq<Hit>)
      requires Valid()
      requires MembersIndex(boidCells, |otherLocations|)
      ensures hits == NearbyHits(Grid(), location, otherLocations)
    {
      var grid := Grid();
      // StartX .. EndZ: the clamped, rounded cell coordinates of the location
      // minus and plus the search radius on every axis.
      var range := QueryRange(grid, location);
      QueryRangeBounds(grid, location);
      ghost var f := CellContribution(grid, location, otherLocations);
      QueryPreconditions(grid, location, otherLocations);
      hits := VisitRange(grid, location, otherLocations, range, f);
      BoxHitsInOrder(f, range, range.hi.z + 1);
    }
  }

  /** f gives, for every cell of the grid, what the query emits for it. */
  ghost predicate Contributes(grid: FlockGrid, location: Vec, otherLocations: seq<Vec>, f: Coord -> seq<Hit>)
  {
    forall c {:trigger CellHits(grid, location, otherLocations, c)} ::
      InGrid(grid.boundsRadius, c) ==> f(c) == CellHits(grid, location, otherLocations, c)
  }

  /** Every cell of the grid has a member list in the bucket array, and every
      member indexes the location array. */
  ghost predicate Indexable(grid: FlockGrid, otherLocations: seq<Vec>)
  {
    && (forall c {:trigger GetCellIndex(grid.boundsRadius, c)} ::
          InGrid(grid.boundsRadius, c) ==> 0 <= GetCellIndex(grid.boundsRadius, c) < |grid.cells|)
    && MembersIndex(grid.cells, |otherLocations|)
  }

  /** What the loops below need of the grid holds for a well-formed one. */
  lemma QueryPreconditions(grid: FlockGrid, location: Vec, otherLocations: seq<Vec>)
    requires WellFormed(grid, otherLocations)
    ensures Indexable(grid, otherLocations)
    ensures Contributes(grid, location, otherLocations, CellContribution(grid, location, otherLocations))
  {
  }

  /** The Z loop of the query over a range of cells of the grid. */
  method VisitRange(grid: FlockGrid, location: Vec, otherLocations: seq<Vec>, range: CellRange,
                    ghost f: Coord -> seq<Hit>) returns (hits: seq<Hit>)
    requires Indexable(grid, otherLocations) && Contributes(grid, location, otherLocations, f)
    requires InGrid(grid.boundsRadius, range.lo) && InGrid(grid.boundsRadius, range.hi)
    ensures hits == BoxHits(f, range, range.hi.z + 1)
  {
    hits := [];
    var z := range.lo.z;
    while z < range.hi.z + 1
      invariant range.lo.z <= z && (z <= range.hi.z + 1 || z == range.lo.z)
      invariant hits == BoxHits(f, range, z)
    {
      var planeHits := VisitPlane(grid, location, otherLocations, range, z, f);
      hits := hits + planeHits;
      z := z + 1;
    }
    if z != range.hi.z + 1 {
      assert BoxHits(f, range, z) == [] == BoxHits(f, range, range.hi.z + 1);
    }
  }

  /** The Y loop for one value of Z: one row of cells per value of Y. */
  method VisitPlane(grid: FlockGrid, location: Vec, otherLocations: seq<Vec>, range: CellRange, z: int,
                    ghost f: Coord -> seq<Hit>) returns (planeHits: seq<Hit>)
    requires Indexable(grid, otherLocations) && Contributes(grid, location, otherLocations, f)
    requires InGrid(grid.boundsRadius, range.lo) && InGrid(grid.boundsRadius, range.hi)
    requires 0 <= z < GetCellDimensions(grid.boundsRadius)
    ensures planeHits == PlaneHits(f, range, range.hi.y + 1, z)
  {
    planeHits := [];
    var y := range.lo.y;
    while y < range.hi.y + 1
      invariant range.lo.y <= y && (y <= range.hi.y + 1 || y == range.lo.y)
      invariant planeHits == PlaneHits(f, range, y, z)
    {
      var rowHits := VisitRow(grid, location, otherLocations, range.lo.x, range.hi.x, y, z, f);
      planeHits := planeHits + rowHits;
      y := y + 1;
    }
    if y != range.hi.y + 1 {
      assert PlaneHits(f, range, y, z) == [] == PlaneHits(f, range, range.hi.y + 1, z);
    }
  }

  /** The X loop for one value of Y and Z: one cell per value of X. */
  method VisitRow(grid: FlockGrid, location: Vec, otherLocations: seq<Vec>, startX: int, endX: int, y: int, z: int,
                  ghost f: Coord -> seq<Hit>) returns (rowHits: seq<Hit>)
    requires Indexable(grid, otherLocations) && Contributes(grid, location, otherLocations, f)
    requires 0 <= startX && endX < GetCellDimensions(grid.boundsRadius)
    requires 0 <= y < GetCellDimensions(grid.boundsRadius) && 0 <= z < GetCellDimensions(grid.boundsRadius)
    ensures rowHits == RowHits(f, startX, endX + 1, y, z)
  {
    rowHits := [];
    var x := startX;
    while x < endX + 1
      invariant startX <= x && (x <= endX + 1 || x == startX)
      invariant rowHits == RowHits(f, startX, x, y, z)
    {
      var cellHits := VisitCell(grid, location, otherLocations, Coord(x, y, z), f);
      rowHits := rowHits + cellHits;
      x := x + 1;
    }
    if x != endX + 1 {
      assert RowHits(f, startX, x, y, z) == [] == RowHits(f, startX, endX + 1, y, z);
    }
  }

  /** The body of the X loop for one cell: the pruning test against the
      cell's box, then the scan of the cell's member list. */
  method VisitCell(grid: FlockGrid, location: Vec, otherLocations: seq<Vec>, cellCoordinates: Coord,
                   ghost f: Coord -> seq<Hit>) returns (cellHits: seq<Hit>)
    requires Indexable(grid, otherLocations) && Contributes(grid, location, otherLocations, f)
    requires InGrid(grid.boundsRadius, cellCoordinates)
    ensures cellHits == f(cellCoordinates)
  {
    var cellLocation := GetCellLocation(grid.boundsRadius, cellCoordinates);
    var half := CellSize / 2.0;
    var box := Box(Vec(cellLocation.x - half, cellLocation.y - half, cellLocation.z - half),
                   Vec(cellLocation.x + half, cellLocation.y + half, cellLocation.z + half));
    cellHits := [];
    if SphereAabbIntersection(location, Square(grid.searchRadius), box) {
      var members := grid.cells[GetCellIndex(grid.boundsRadius, cellCoordinates)];
      cellHits := ScanMembers(location, Square(grid.searchRadius), otherLocations, members);
    }
    assert cellHits == CellHits(grid, location, otherLocations, cellCoordinates);
  }

  /** The loop over one cell's member list: the functor is called for the
      members within the search radius, in list order. */
  method ScanMembers(location: Vec, radiusSquared: real, otherLocations: seq<Vec>, members: seq<int>) returns (found: seq<Hit>)
    requires forall j :: j in members ==> 0 <= j < |otherLocations|
    ensures found == ScanCell(location, radiusSquared, otherLocations, members)
  {
    found := [];
    var k := 0;
    while k < |members|
      invariant 0 <= k <= |members|
      invariant found == ScanCell(location, radiusSquared, otherLocations, members[..k])
    {
      var otherBoidIndex := members[k];
      assert otherBoidIndex in members;
      assert members[..k + 1][..k] == members[..k];
      if !(DistSquared(location, otherLocations[otherBoidIndex]) > radiusSquared) {
        found := found + [Hit(otherBoidIndex, otherLocations[otherBoidIndex])];
      }
      k := k + 1;
    }
    assert members[..k] == members;
  }
}
