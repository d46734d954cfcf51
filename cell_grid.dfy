/**
 * The uniform grid of cubic cells that buckets the boids of a flock
 * (AFlock's index arithmetic). Cell number GetHalfCellDimensions is centred
 * on the flock's origin, so the extent of the rounded cells sits half a cell
 * below the centre (see AxisUnclampedInterval). The grid has
 * GetCellDimensions cells of CellSize per axis; every function is
 * parameterised by the flock's bounds radius, the only state it reads.
 */
module CellGrid {
  import opened EngineMath

  /** Integer cell coordinates (FIntVector). */
  datatype Coord = Coord(x: int, y: int, z: int)

  /** CELL_SIZE: the edge length of one cubic cell. */
  const CellSize: real := 125.0

  /** The half-extent counted in cells: the least number of whole cells
      whose total length is at least the bounds radius. */
  function GetHalfCellDimensions(boundsRadius: real): (half: int)
    ensures (half - 1) as real * CellSize < boundsRadius <= half as real * CellSize
    ensures boundsRadius > 0.0 ==> half >= 1
  {
    CeilToInt(boundsRadius / CellSize)
  }

  /** The number of cells per axis: even, and twice the half-extent. */
  function GetCellDimensions(boundsRadius: real): (dim: int)
    ensures dim % 2 == 0 && dim / 2 == GetHalfCellDimensions(boundsRadius)
    ensures boundsRadius > 0.0 ==> dim >= 2
  {
    GetHalfCellDimensions(boundsRadius) * 2
  }

  /** The total number of cells, the size of the bucket array. */
  function GetNumCells(boundsRadius: real): (n: int)
    ensures boundsRadius > 0.0 ==> n >= 8
  {
    var dim := GetCellDimensions(boundsRadius);
    CubeAtLeastEight(dim);
    dim * dim * dim
  }

  /** Coordinates that name a cell of the grid. */
  predicate InGrid(boundsRadius: real, c: Coord)
  {
    var dim := GetCellDimensions(boundsRadius);
    0 <= c.x < dim && 0 <= c.y < dim && 0 <= c.z < dim
  }

  /** The coordinate of one axis before clamping. */
  function UnclampedAxisCoordinate(boundsRadius: real, value: real): int
  {
    RoundToInt(value / CellSize) + GetHalfCellDimensions(boundsRadius)
  }

  /** The cell coordinate of one axis is a valid cell for every value, also
      for values outside the bounds, because of the clamping. */
  function GetAxisCoordinate(boundsRadius: real, value: real): (c: int)
    ensures boundsRadius > 0.0 ==> 0 <= c < GetCellDimensions(boundsRadius)
  {
    var half := GetHalfCellDimensions(boundsRadius);
    Clamp(RoundToInt(value / CellSize) + half, 0, (half * 2) - 1)
  }

  /** The cell coordinates of a location, computed from the cell dimensions
      (halved again) rather than from the half-extent: each component is the
      axis coordinate of that component. */
  function GetCellCoordinates(boundsRadius: real, location: Vec): (c: Coord)
    ensures c == Coord(GetAxisCoordinate(boundsRadius, location.x),
                       GetAxisCoordinate(boundsRadius, location.y),
                       GetAxisCoordinate(boundsRadius, location.z))
    ensures boundsRadius > 0.0 ==> InGrid(boundsRadius, c)
  {
    var dim := GetCellDimensions(boundsRadius);
    assert dim % 2 == 0;
    var half := dim / 2;
    Coord(Clamp(RoundToInt(location.x / CellSize) + half, 0, dim - 1),
          Clamp(RoundToInt(location.y / CellSize) + half, 0, dim - 1),
          Clamp(RoundToInt(location.z / CellSize) + half, 0, dim - 1))
  }

  /** The flat index of a cell: X varies fastest, Z slowest. */
  function GetCellIndex(boundsRadius: real, c: Coord): (index: int)
    ensures InGrid(boundsRadius, c) ==> 0 <= index < GetNumCells(boundsRadius)
  {
    var dim := GetCellDimensions(boundsRadius);
    FlattenBound(c, dim);
    c.x + c.y * dim + c.z * dim * dim
  }

  /** The flat index of the cell of a location is a valid index into a bucket
      array of GetNumCells entries, for every location. */
  function GetLocationCellIndex(boundsRadius: real, location: Vec): (index: int)
    ensures boundsRadius > 0.0 ==> 0 <= index < GetNumCells(boundsRadius)
  {
    GetCellIndex(boundsRadius, GetCellCoordinates(boundsRadius, location))
  }

  /** The centre, on one axis, of the cells with coordinate c. */
  function AxisCellCentre(boundsRadius: real, c: int): real
  {
    (c - GetHalfCellDimensions(boundsRadius)) as real * CellSize
  }

  /** The centre of a cell; the cell coordinates of a cell's centre are that
      cell again. */
  function GetCellLocation(boundsRadius: real, c: Coord): (p: Vec)
    ensures boundsRadius > 0.0 && InGrid(boundsRadius, c) ==> GetCellCoordinates(boundsRadius, p) == c
  {
    var half := CeilToInt(boundsRadius / CellSize);
    Vec((c.x - half) as real * CellSize, (c.y - half) as real * CellSize, (c.z - half) as real * CellSize)
  }

  /** The box of a cell as the neighbour query tests it: the centre plus or
      minus half a cell on every axis. */
  function CellBox(boundsRadius: real, c: Coord): (b: Box)
    ensures NonEmptyBox(b)
  {
    var p := GetCellLocation(boundsRadius, c);
    var h := CellSize / 2.0;
    Box(Vec(p.x - h, p.y - h, p.z - h), Vec(p.x + h, p.y + h, p.z + h))
  }

  /** A value whose axis coordinate is not changed by the clamping. */
  predicate AxisUnclamped(boundsRadius: real, value: real)
  {
    0 <= UnclampedAxisCoordinate(boundsRadius, value) < GetCellDimensions(boundsRadius)
  }

  /** A location none of whose coordinates is clamped. */
  predicate Unclamped(boundsRadius: real, location: Vec)
  {
    AxisUnclamped(boundsRadius, location.x)
    && AxisUnclamped(boundsRadius, location.y)
    && AxisUnclamped(boundsRadius, location.z)
  }

  /** The inverse of GetCellIndex, recovering the coordinates from the flat
      index. */
  function CellCoordinatesOfIndex(boundsRadius: real, index: int): Coord
    requires boundsRadius > 0.0
  {
    var dim := GetCellDimensions(boundsRadius);
    NonNegativeProduct(dim, dim);
    Coord(index % dim, (index / dim) % dim, index / (dim * dim))
  }

  // ---------------------------------------------------------------------
  // Arithmetic helpers

  lemma NonNegativeProduct(a: int, b: int)
    requires a >= 0 && b >= 0
    ensures a * b >= 0
  {
  }

  lemma MulMonotone(a: int, b: int, k: int)
    requires a <= b && k >= 0
    ensures a * k <= b * k
  {
  }

  /** The quotient and remainder of a division are the only pair that
      satisfies the division equation. */
  lemma DivModUnique(a: int, d: int, q: int, r: int)
    requires d > 0 && 0 <= r < d && a == q * d + r
    ensures a / d == q && a % d == r
  {
    var q', r' := a / d, a % d;
    assert a == q' * d + r';
    assert (q - q') * d == r' - r;
    if q > q' {
      MulMonotone(1, q - q', d);
    } else if q < q' {
      MulMonotone(1, q' - q, d);
    }
  }

  lemma CubeAtLeastEight(dim: int)
    ensures dim >= 2 ==> dim * dim * dim >= 8
  {
    if dim >= 2 {
      MulMonotone(2, dim, dim);
      MulMonotone(4, dim * dim, dim);
    }
  }

  /** Flattening in-range coordinates and taking remainders and quotients
      gives the coordinates back. */
  lemma FlattenRoundTrip(x: int, y: int, z: int, d: int)
    requires 0 <= x < d && 0 <= y < d && 0 <= z
    ensures (x + y * d + z * d * d) % d == x
    ensures ((x + y * d + z * d * d) / d) % d == y
    ensures (x + y * d + z * d * d) / (d * d) == z
  {
    var i := x + y * d + z * d * d;
    var t := y + z * d;
    assert i == t * d + x by {
      Distribute(y, z * d, d);
    }
    DivModUnique(i, d, t, x);
    DivModUnique(t, d, z, y);
    var dd := d * d;
    assert 0 <= x + y * d < dd by {
      MulMonotone(y, d - 1, d);
      Distribute(d, -1, d);
    }
    assert i == z * dd + (x + y * d) by {
      Associate(z, d, d);
    }
    DivModUnique(i, dd, z, x + y * d);
  }

  /** Taking remainders and quotients of an index below d^3 gives in-range
      coordinates that flatten back to it. */
  lemma UnflattenRoundTrip(i: int, d: int)
    requires d > 0 && 0 <= i < d * d * d
    ensures 0 <= i % d < d && 0 <= (i / d) % d < d
    ensures d * d > 0 && 0 <= i / (d * d) < d
    ensures i % d + ((i / d) % d) * d + (i / (d * d)) * d * d == i
  {
    var x, t := i % d, i / d;
    var y, z := t % d, t / d;
    var dd := d * d;
    assert dd > 0 by {
      MulMonotone(1, d, d);
    }
    assert i == t * d + x;
    assert t == z * d + y;
    assert i == z * dd + (x + y * d) by {
      Distribute(z * d, y, d);
      Associate(z, d, d);
    }
    assert 0 <= x + y * d < dd by {
      MulMonotone(0, y, d);
      MulMonotone(y, d - 1, d);
      Distribute(d, -1, d);
    }
    DivModUnique(i, dd, z, x + y * d);
    assert 0 <= z < d by {
      if z >= d {
        MulMonotone(d, z, dd);
        Associate(d, d, d);
      }
      if z < 0 {
        MulMonotone(z, -1, dd);
      }
    }
    assert x + y * d + z * d * d == i by {
      Associate(z, d, d);
    }
  }

  /** Flattening in-range coordinates stays below dim^3. */
  lemma FlattenBound(c: Coord, dim: int)
    ensures 0 <= c.x < dim && 0 <= c.y < dim && 0 <= c.z < dim
            ==> 0 <= c.x + c.y * dim + c.z * dim * dim < dim * dim * dim
  {
    if 0 <= c.x < dim && 0 <= c.y < dim && 0 <= c.z < dim {
      var dd := dim * dim;
      assert 0 <= c.x + c.y * dim < dd by {
        MulMonotone(0, c.y, dim);
        MulMonotone(c.y, dim - 1, dim);
        Distribute(dim, -1, dim);
      }
      assert 0 <= c.z * dd <= (dim - 1) * dd by {
        MulMonotone(0, dim, dim);
        MulMonotone(0, c.z, dd);
        MulMonotone(c.z, dim - 1, dd);
      }
      assert (dim - 1) * dd == dim * dim * dim - dd by {
        Distribute(dim, -1, dd);
        Associate(dim, dim, dim);
      }
      Associate(c.z, dim, dim);
    }
  }

  lemma Distribute(a: int, b: int, d: int)
    ensures (a + b) * d == a * d + b * d
  {
  }

  lemma Associate(a: int, b: int, c: int)
    ensures a * b * c == a * (b * c)
  {
  }

  // ---------------------------------------------------------------------
  // Properties of the index arithmetic

  /** With a positive bounds radius (which the flock asserts when it starts)
      the grid has an even number of cells per axis, at least two, and its
      half-extent counts enough cells for the bounds radius. This counts
      cells only: where the cell boxes reach is AxisUnclampedInterval. */
  lemma CellDimensionsEven(boundsRadius: real)
    requires boundsRadius > 0.0
    ensures GetCellDimensions(boundsRadius) == 2 * GetHalfCellDimensions(boundsRadius)
    ensures GetCellDimensions(boundsRadius) >= 2
    ensures boundsRadius <= GetCellDimensions(boundsRadius) as real * CellSize / 2.0
  {
  }

  /** GetCellIndex followed by CellCoordinatesOfIndex recovers the
      coordinates. */
  lemma CellIndexRoundTrip(boundsRadius: real, c: Coord)
    requires boundsRadius > 0.0 && InGrid(boundsRadius, c)
    ensures CellCoordinatesOfIndex(boundsRadius, GetCellIndex(boundsRadius, c)) == c
  {
    FlattenRoundTrip(c.x, c.y, c.z, GetCellDimensions(boundsRadius));
  }

  /** Every index of the bucket array is the flat index of exactly the cell
      CellCoordinatesOfIndex gives. */
  lemma CellIndexOnto(boundsRadius: real, index: int)
    requires boundsRadius > 0.0 && 0 <= index < GetNumCells(boundsRadius)
    ensures InGrid(boundsRadius, CellCoordinatesOfIndex(boundsRadius, index))
    ensures GetCellIndex(boundsRadius, CellCoordinatesOfIndex(boundsRadius, index)) == index
  {
    UnflattenRoundTrip(index, GetCellDimensions(boundsRadius));
  }

  /** Distinct in-range coordinates have distinct flat indices. */
  lemma CellIndexInjective(boundsRadius: real, a: Coord, b: Coord)
    requires boundsRadius > 0.0 && InGrid(boundsRadius, a) && InGrid(boundsRadius, b)
    requires a != b
    ensures GetCellIndex(boundsRadius, a) != GetCellIndex(boundsRadius, b)
  {
    CellIndexRoundTrip(boundsRadius, a);
    CellIndexRoundTrip(boundsRadius, b);
  }

  /** A value is left alone by the clamping exactly when it lies in the
      half-open interval the rounded grid covers, which reaches half a cell
      beyond the grid's half-extent on the negative side and stops half a
      cell short of it on the positive side. */
  lemma AxisUnclampedInterval(boundsRadius: real, value: real)
    requires boundsRadius > 0.0
    ensures var half := GetHalfCellDimensions(boundsRadius) as real;
            AxisUnclamped(boundsRadius, value)
            <==> -(half + 0.5) * CellSize <= value < (half - 0.5) * CellSize
  {
  }

  /** A value whose coordinate is not clamped lies within half a cell of its
      cell's centre, on that axis. */
  lemma AxisInOwnCell(boundsRadius: real, value: real)
    requires boundsRadius > 0.0 && AxisUnclamped(boundsRadius, value)
    ensures var centre := AxisCellCentre(boundsRadius, GetAxisCoordinate(boundsRadius, value));
            centre - CellSize / 2.0 <= value < centre + CellSize / 2.0
  {
  }

  /** An unclamped location lies in the box, as tested by the neighbour
      query, of the cell it is bucketed in. */
  lemma LocationInOwnCellBox(boundsRadius: real, location: Vec)
    requires boundsRadius > 0.0 && Unclamped(boundsRadius, location)
    ensures InBox(location, CellBox(boundsRadius, GetCellCoordinates(boundsRadius, location)))
  {
    AxisInOwnCell(boundsRadius, location.x);
    AxisInOwnCell(boundsRadius, location.y);
    AxisInOwnCell(boundsRadius, location.z);
  }

  /** The axis coordinate names a cell whose centre is nearest to the value
      among all cells of the grid, clamped or not. */
  lemma AxisCoordinateNearest(boundsRadius: real, value: real, other: int)
    requires boundsRadius > 0.0 && 0 <= other < GetCellDimensions(boundsRadius)
    ensures Abs(value - AxisCellCentre(boundsRadius, GetAxisCoordinate(boundsRadius, value)))
            <= Abs(value - AxisCellCentre(boundsRadius, other))
  {
    var half := GetHalfCellDimensions(boundsRadius);
    var k := RoundToInt(value / CellSize);
    var c := GetAxisCoordinate(boundsRadius, value);
    var mine := AxisCellCentre(boundsRadius, c);
    var theirs := AxisCellCentre(boundsRadius, other);
    if k + half < 0 {
      // clamped to the first cell, whose centre lies above the value
      assert c == 0 && value < mine <= theirs;
    } else if k + half >= 2 * half {
      // clamped to the last cell, whose centre lies below the value
      assert c == 2 * half - 1 && theirs <= mine < value;
    } else {
      AxisInOwnCell(boundsRadius, value);
      assert mine == k as real * CellSize;
      if other != c {
        assert theirs <= mine - CellSize || mine + CellSize <= theirs;
      }
    }
  }

  /** Larger values never get smaller axis coordinates. */
  lemma AxisCoordinateMonotone(boundsRadius: real, a: real, b: real)
    requires boundsRadius > 0.0 && a <= b
    ensures GetAxisCoordinate(boundsRadius, a) <= GetAxisCoordinate(boundsRadius, b)
  {
    assert RoundToInt(a / CellSize) <= RoundToInt(b / CellSize);
  }
}
