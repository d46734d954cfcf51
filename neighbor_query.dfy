/**
 * The specification of AFlock::ForEachNearbyBoid: which cells it visits, in
 * which order, which it prunes, and which (index, location) pairs it hands
 * to its functor, as functions of the grid state it reads.
 */
module NeighborQuery {
  import opened EngineMath
  import opened CellGrid

  /** One call of the functor: the index of a nearby boid and its location. */
  datatype Hit = Hit(index: int, location: Vec)

  /** The state of the flock the query reads: the bounds radius, the search
      radius and the bucket array (one list of boid indices per cell). */
  datatype FlockGrid = FlockGrid(boundsRadius: real, searchRadius: real, cells: seq<seq<int>>)

  /** An inclusive box of cell coordinates, lo.x..hi.x by lo.y..hi.y by
      lo.z..hi.z. */
  datatype CellRange = CellRange(lo: Coord, hi: Coord)

  predicate InRange(r: CellRange, c: Coord)
  {
    r.lo.x <= c.x <= r.hi.x && r.lo.y <= c.y <= r.hi.y && r.lo.z <= c.z <= r.hi.z
  }

  /** The bucket array has one list per cell of the grid. */
  predicate ValidGrid(g: FlockGrid)
  {
    g.boundsRadius > 0.0 && |g.cells| == GetNumCells(g.boundsRadius)
  }

  /** Every boid index stored in a cell can index the location array. */
  predicate MembersIndex(cells: seq<seq<int>>, count: int)
  {
    forall i, j :: 0 <= i < |cells| && j in cells[i] ==> 0 <= j < count
  }

  predicate WellFormed(g: FlockGrid, others: seq<Vec>)
  {
    ValidGrid(g) && MembersIndex(g.cells, |others|)
  }

  /** The cell coordinate one end of the query range takes on one axis: the
      value is offset by the bounds radius, divided by the cell size, rounded
      and clamped. */
  function AxisQueryBound(boundsRadius: real, value: real): int
  {
    Clamp(RoundToInt((value + boundsRadius) / CellSize), 0, GetCellDimensions(boundsRadius) - 1)
  }

  /** The range of cells the query walks: StartX .. EndX by StartY .. EndY by
      StartZ .. EndZ. */
  function QueryRange(g: FlockGrid, location: Vec): CellRange
  {
    var radius := g.searchRadius;
    CellRange(Coord(AxisQueryBound(g.boundsRadius, location.x - radius),
                    AxisQueryBound(g.boundsRadius, location.y - radius),
                    AxisQueryBound(g.boundsRadius, location.z - radius)),
              Coord(AxisQueryBound(g.boundsRadius, location.x + radius),
                    AxisQueryBound(g.boundsRadius, location.y + radius),
                    AxisQueryBound(g.boundsRadius, location.z + radius)))
  }

  /** Both ends of the query range are cells of the grid and, for a
      non-negative search radius, the start never exceeds the end on any
      axis. */
  lemma QueryRangeBounds(g: FlockGrid, location: Vec)
    requires g.boundsRadius > 0.0
    ensures var r := QueryRange(g, location);
            && InGrid(g.boundsRadius, r.lo) && InGrid(g.boundsRadius, r.hi)
            && (g.searchRadius >= 0.0 ==> r.lo.x <= r.hi.x && r.lo.y <= r.hi.y && r.lo.z <= r.hi.z)
  {
    var radius := g.searchRadius;
    if radius >= 0.0 {
      RoundMonotone((location.x - radius + g.boundsRadius) / CellSize, (location.x + radius + g.boundsRadius) / CellSize);
      RoundMonotone((location.y - radius + g.boundsRadius) / CellSize, (location.y + radius + g.boundsRadius) / CellSize);
      RoundMonotone((location.z - radius + g.boundsRadius) / CellSize, (location.z + radius + g.boundsRadius) / CellSize);
    }
  }

  // ---------------------------------------------------------------------
  // The order of the Z/Y/X loops

  /** The number of integers from lo to hi inclusive. */
  function Span(lo: int, hi: int): nat
  {
    if hi < lo then 0 else hi - lo + 1
  }

  /** The cells the innermost loop visits for a fixed Y and Z while X runs
      from lo up to, not including, hi. */
  function RowOrder(lo: int, hi: int, y: int, z: int): seq<Coord>
    decreases hi - lo
  {
    if hi <= lo then [] else RowOrder(lo, hi - 1, y, z) + [Coord(hi - 1, y, z)]
  }

  /** The cells the two inner loops visit for a fixed Z while Y runs from the
      start of the range up to, not including, hiY. */
  function PlaneOrder(r: CellRange, hiY: int, z: int): seq<Coord>
    decreases hiY - r.lo.y
  {
    if hiY <= r.lo.y then [] else PlaneOrder(r, hiY - 1, z) + RowOrder(r.lo.x, r.hi.x + 1, hiY - 1, z)
  }

  /** The cells the three loops visit while Z runs from the start of the
      range up to, not including, hiZ. */
  function BoxOrder(r: CellRange, hiZ: int): seq<Coord>
    decreases hiZ - r.lo.z
  {
    if hiZ <= r.lo.z then [] else BoxOrder(r, hiZ - 1) + PlaneOrder(r, r.hi.y + 1, hiZ - 1)
  }

  /** Every cell the query walks, in the order it walks them. */
  function VisitOrder(r: CellRange): seq<Coord>
  {
    BoxOrder(r, r.hi.z + 1)
  }

  /** a comes before b when Z is the most and X the least significant
      coordinate. */
  predicate ZyxBefore(a: Coord, b: Coord)
  {
    a.z < b.z || (a.z == b.z && (a.y < b.y || (a.y == b.y && a.x < b.x)))
  }

  predicate ZyxSorted(s: seq<Coord>)
  {
    forall i, j :: 0 <= i < j < |s| ==> ZyxBefore(s[i], s[j])
  }

  // ---------------------------------------------------------------------
  // What the query emits

  /** The squared radius both tests compare with. */
  function RadiusSquared(g: FlockGrid): real
  {
    Square(g.searchRadius)
  }

  /** The pruning test: does the cell's box meet the query sphere? */
  predicate CellSurvives(g: FlockGrid, location: Vec, c: Coord)
  {
    SphereAabbIntersection(location, RadiusSquared(g), CellBox(g.boundsRadius, c))
  }

  /** The scan of one cell's member list: the members within the squared
      radius, in list order, each with its location. (An index that names no
      location, which the query's precondition rules out, contributes
      nothing.) */
  function ScanCell(location: Vec, radiusSquared: real, others: seq<Vec>, members: seq<int>): seq<Hit>
  {
    if members == [] then []
    else
      var last := members[|members| - 1];
      ScanCell(location, radiusSquared, others, members[..|members| - 1])
      + (if !(0 <= last < |others|) || DistSquared(location, others[last]) > radiusSquared then []
         else [Hit(last, others[last])])
  }

  /** The member list of a cell: BoidCells[GetCellIndex(c)] (empty for an
      index outside the bucket array, which a cell of the grid never has). */
  function CellMembers(g: FlockGrid, c: Coord): seq<int>
  {
    var index := GetCellIndex(g.boundsRadius, c);
    if 0 <= index < |g.cells| then g.cells[index] else []
  }

  /** What one visited cell contributes: nothing when it is pruned, its scan
      otherwise. */
  function CellHits(g: FlockGrid, location: Vec, others: seq<Vec>, c: Coord): seq<Hit>
  {
    if !CellSurvives(g, location, c) then []
    else ScanCell(location, RadiusSquared(g), others, CellMembers(g, c))
  }

  /** CellHits as a function value. */
  function CellContribution(g: FlockGrid, location: Vec, others: seq<Vec>): Coord -> seq<Hit>
  {
    c => CellHits(g, location, others, c)
  }

  /** The concatenation, in order, of what f gives for each element of s. */
  function ConcatMap<T, U>(s: seq<T>, f: T -> seq<U>): seq<U>
  {
    if s == [] then [] else ConcatMap(s[..|s| - 1], f) + f(s[|s| - 1])
  }

  /** What the X loop emits for a fixed Y and Z while X runs from lo up to,
      not including, hi, when visiting cell c emits f(c). */
  function RowHits(f: Coord -> seq<Hit>, lo: int, hi: int, y: int, z: int): seq<Hit>
    decreases hi - lo
  {
    if hi <= lo then [] else RowHits(f, lo, hi - 1, y, z) + f(Coord(hi - 1, y, z))
  }

  /** What the Y loop emits for a fixed Z while Y runs from the start of the
      range up to, not including, hiY. */
  function PlaneHits(f: Coord -> seq<Hit>, r: CellRange, hiY: int, z: int): seq<Hit>
    decreases hiY - r.lo.y
  {
    if hiY <= r.lo.y then [] else PlaneHits(f, r, hiY - 1, z) + RowHits(f, r.lo.x, r.hi.x + 1, hiY - 1, z)
  }

  /** What the Z loop emits while Z runs from the start of the range up to,
      not including, hiZ. */
  function BoxHits(f: Coord -> seq<Hit>, r: CellRange, hiZ: int): seq<Hit>
    decreases hiZ - r.lo.z
  {
    if hiZ <= r.lo.z then [] else BoxHits(f, r, hiZ - 1) + PlaneHits(f, r, r.hi.y + 1, hiZ - 1)
  }

  /** Everything the query hands to its functor, in order: the contributions
      of the visited cells in visiting order. */
  function NearbyHits(g: FlockGrid, location: Vec, others: seq<Vec>): seq<Hit>
  {
    ConcatMap(VisitOrder(QueryRange(g, location)), CellContribution(g, location, others))
  }

  // ---------------------------------------------------------------------
  // Lemmas about the visit order

  /** A cell's scan emits exactly the members within the squared radius,
      each with its own location. */
  lemma {:induction false} ScanCellMembership(location: Vec, radiusSquared: real, others: seq<Vec>, members: seq<int>, h: Hit)
    requires forall j :: j in members ==> 0 <= j < |others|
    ensures h in ScanCell(location, radiusSquared, others, members) <==>
              h.index in members && h.location == others[h.index]
              && DistSquared(location, others[h.index]) <= radiusSquared
  {
    if members != [] {
      var last := members[|members| - 1];
      var init := members[..|members| - 1];
      assert members == init + [last];
      assert forall j :: j in members <==> j in init || j == last;
      assert last in members;
      ScanCellMembership(location, radiusSquared, others, init, h);
    }
  }

  /** Visiting one more cell appends that cell's contribution. */
  lemma ConcatMapSnoc<T, U>(s: seq<T>, x: T, f: T -> seq<U>)
    ensures ConcatMap(s + [x], f) == ConcatMap(s, f) + f(x)
  {
    assert (s + [x])[..|s + [x]| - 1] == s;
  }

  /** Visiting two runs of cells one after the other emits their
      contributions one after the other. */
  lemma {:induction false} ConcatMapAppend<T, U>(a: seq<T>, b: seq<T>, f: T -> seq<U>)
    ensures ConcatMap(a + b, f) == ConcatMap(a, f) + ConcatMap(b, f)
    decreases |b|
  {
    if b != [] {
      var init, last := b[..|b| - 1], b[|b| - 1];
      assert a + b == (a + init) + [last];
      assert (a + b)[..|a + b| - 1] == a + init;
      ConcatMapAppend(a, init, f);
    } else {
      assert a + b == a;
    }
  }

  /** The X loop emits the contributions of its row of cells in order. */
  lemma {:induction false} RowHitsInOrder(f: Coord -> seq<Hit>, lo: int, hi: int, y: int, z: int)
    ensures RowHits(f, lo, hi, y, z) == ConcatMap(RowOrder(lo, hi, y, z), f)
    decreases hi - lo
  {
    if hi > lo {
      RowHitsInOrder(f, lo, hi - 1, y, z);
      ConcatMapSnoc(RowOrder(lo, hi - 1, y, z), Coord(hi - 1, y, z), f);
    }
  }

  /** The Y loop emits the contributions of its plane of cells in order. */
  lemma {:induction false} PlaneHitsInOrder(f: Coord -> seq<Hit>, r: CellRange, hiY: int, z: int)
    ensures PlaneHits(f, r, hiY, z) == ConcatMap(PlaneOrder(r, hiY, z), f)
    decreases hiY - r.lo.y
  {
    if hiY > r.lo.y {
      PlaneHitsInOrder(f, r, hiY - 1, z);
      RowHitsInOrder(f, r.lo.x, r.hi.x + 1, hiY - 1, z);
      ConcatMapAppend(PlaneOrder(r, hiY - 1, z), RowOrder(r.lo.x, r.hi.x + 1, hiY - 1, z), f);
    }
  }

  /** The three loops together emit the contributions of the visited cells
      in visiting order. */
  lemma {:induction false} BoxHitsInOrder(f: Coord -> seq<Hit>, r: CellRange, hiZ: int)
    ensures BoxHits(f, r, hiZ) == ConcatMap(BoxOrder(r, hiZ), f)
    decreases hiZ - r.lo.z
  {
    if hiZ > r.lo.z {
      BoxHitsInOrder(f, r, hiZ - 1);
      PlaneHitsInOrder(f, r, r.hi.y + 1, hiZ - 1);
      ConcatMapAppend(BoxOrder(r, hiZ - 1), PlaneOrder(r, r.hi.y + 1, hiZ - 1), f);
    }
  }

  /** An element is emitted exactly when some visited element contributes
      it. */
  lemma {:induction false} ConcatMapMembership<T, U>(s: seq<T>, f: T -> seq<U>, u: U)
    ensures u in ConcatMap(s, f) <==> exists x :: x in s && u in f(x)
  {
    if s != [] {
      var init, last := s[..|s| - 1], s[|s| - 1];
      assert s == init + [last];
      assert forall x :: x in s <==> x in init || x == last;
      ConcatMapMembership(init, f, u);
    }
  }

  lemma SortedAppend(a: seq<Coord>, b: seq<Coord>)
    requires ZyxSorted(a) && ZyxSorted(b)
    requires forall p, q :: p in a && q in b ==> ZyxBefore(p, q)
    ensures ZyxSorted(a + b)
  {
    forall i, j | 0 <= i < j < |a + b|
      ensures ZyxBefore((a + b)[i], (a + b)[j])
    {
      if j < |a| {
        assert (a + b)[i] == a[i] && (a + b)[j] == a[j];
      } else if i >= |a| {
        assert (a + b)[i] == b[i - |a|] && (a + b)[j] == b[j - |a|];
      } else {
        assert (a + b)[i] in a && (a + b)[j] in b;
      }
    }
  }

  /** The row loop visits X = lo .. hi - 1 at the given Y and Z, once each,
      in increasing order. */
  lemma {:induction false} RowOrderShape(lo: int, hi: int, y: int, z: int)
    ensures |RowOrder(lo, hi, y, z)| == Span(lo, hi - 1)
    ensures forall c :: c in RowOrder(lo, hi, y, z) <==> lo <= c.x < hi && c.y == y && c.z == z
    ensures ZyxSorted(RowOrder(lo, hi, y, z))
    decreases hi - lo
  {
    if hi > lo {
      RowOrderShape(lo, hi - 1, y, z);
      SortedAppend(RowOrder(lo, hi - 1, y, z), [Coord(hi - 1, y, z)]);
    }
  }

  /** The plane loop visits the X range of r by Y = r.lo.y .. hiY - 1 at the
      given Z, once each, in increasing (Y, X) order. */
  lemma {:induction false} PlaneOrderShape(r: CellRange, hiY: int, z: int)
    ensures forall c :: c in PlaneOrder(r, hiY, z) <==> r.lo.x <= c.x <= r.hi.x && r.lo.y <= c.y < hiY && c.z == z
    ensures ZyxSorted(PlaneOrder(r, hiY, z))
    decreases hiY - r.lo.y
  {
    if hiY > r.lo.y {
      PlaneOrderShape(r, hiY - 1, z);
      RowOrderShape(r.lo.x, r.hi.x + 1, hiY - 1, z);
      SortedAppend(PlaneOrder(r, hiY - 1, z), RowOrder(r.lo.x, r.hi.x + 1, hiY - 1, z));
    }
  }

  /** The three loops together visit the X and Y ranges of r by
      Z = r.lo.z .. hiZ - 1, once each, in increasing (Z, Y, X) order. */
  lemma {:induction false} BoxOrderShape(r: CellRange, hiZ: int)
    ensures forall c :: c in BoxOrder(r, hiZ) <==> r.lo.x <= c.x <= r.hi.x && r.lo.y <= c.y <= r.hi.y && r.lo.z <= c.z < hiZ
    ensures ZyxSorted(BoxOrder(r, hiZ))
    decreases hiZ - r.lo.z
  {
    if hiZ > r.lo.z {
      BoxOrderShape(r, hiZ - 1);
      PlaneOrderShape(r, r.hi.y + 1, hiZ - 1);
      SortedAppend(BoxOrder(r, hiZ - 1), PlaneOrder(r, r.hi.y + 1, hiZ - 1));
    }
  }

  /** The plane loop makes Span(X) visits per value of Y. */
  lemma {:induction false} PlaneOrderLength(r: CellRange, hiY: int, z: int)
    ensures |PlaneOrder(r, hiY, z)| == Span(r.lo.x, r.hi.x) * Span(r.lo.y, hiY - 1)
    decreases hiY - r.lo.y
  {
    if hiY > r.lo.y {
      PlaneOrderLength(r, hiY - 1, z);
      RowOrderShape(r.lo.x, r.hi.x + 1, hiY - 1, z);
      var a, b := Span(r.lo.x, r.hi.x), Span(r.lo.y, hiY - 2);
      assert Span(r.lo.y, hiY - 1) == b + 1;
      assert a * (b + 1) == a * b + a;
    }
  }

  /** The three loops make Span(X) * Span(Y) visits per value of Z. */
  lemma {:induction false} BoxOrderLength(r: CellRange, hiZ: int)
    ensures |BoxOrder(r, hiZ)| == Span(r.lo.x, r.hi.x) * Span(r.lo.y, r.hi.y) * Span(r.lo.z, hiZ - 1)
    decreases hiZ - r.lo.z
  {
    if hiZ > r.lo.z {
      BoxOrderLength(r, hiZ - 1);
      PlaneOrderLength(r, r.hi.y + 1, hiZ - 1);
      var a, b := Span(r.lo.x, r.hi.x) * Span(r.lo.y, r.hi.y), Span(r.lo.z, hiZ - 2);
      assert Span(r.lo.z, hiZ - 1) == b + 1;
      assert a * (b + 1) == a * b + a;
    }
  }

  /** The loops visit every cell of the inclusive range and nothing else, in
      strictly increasing (Z, Y, X) order: X varies fastest and Z slowest,
      and so no cell is visited twice. */
  lemma VisitOrderExactlyOnce(r: CellRange)
    ensures forall c :: c in VisitOrder(r) <==> InRange(r, c)
    ensures |VisitOrder(r)| == Span(r.lo.x, r.hi.x) * Span(r.lo.y, r.hi.y) * Span(r.lo.z, r.hi.z)
    ensures ZyxSorted(VisitOrder(r))
    ensures forall i, j :: 0 <= i < j < |VisitOrder(r)| ==> VisitOrder(r)[i] != VisitOrder(r)[j]
  {
    BoxOrderShape(r, r.hi.z + 1);
    BoxOrderLength(r, r.hi.z + 1);
  }

  // ---------------------------------------------------------------------
  // Lemmas about what the query emits

  /** h is what the scan of the visited cell c emits for one of its members:
      the cell survives the pruning, h's index is in its member list and
      names a location within the search radius, and h carries that
      location. */
  predicate HitFromCell(g: FlockGrid, location: Vec, others: seq<Vec>, c: Coord, h: Hit)
  {
    && CellSurvives(g, location, c)
    && h.index in CellMembers(g, c)
    && 0 <= h.index < |others|
    && h.location == others[h.index]
    && DistSquared(location, others[h.index]) <= RadiusSquared(g)
  }

  /** Boid i is listed in the cell its location is bucketed in. */
  predicate Bucketed(g: FlockGrid, others: seq<Vec>, i: int)
    requires 0 <= i < |others|
  {
    i in CellMembers(g, GetCellCoordinates(g.boundsRadius, others[i]))
  }

  /** The bucket array lists every boid in the cell of its location and
      nowhere else. */
  predicate BucketedExactly(g: FlockGrid, others: seq<Vec>)
  {
    forall i, k {:trigger i in g.cells[k]} :: 0 <= i < |others| && 0 <= k < |g.cells|
      ==> (i in g.cells[k] <==> k == GetLocationCellIndex(g.boundsRadius, others[i]))
  }

  /** Under BucketedExactly, the only cell of the grid that lists a boid is
      the cell of its location. */
  lemma ListedOnlyInOwnCell(g: FlockGrid, others: seq<Vec>, i: int, c: Coord)
    requires ValidGrid(g) && BucketedExactly(g, others)
    requires 0 <= i < |others| && InGrid(g.boundsRadius, c)
    ensures i in CellMembers(g, c) ==> c == GetCellCoordinates(g.boundsRadius, others[i])
  {
    var own := GetCellCoordinates(g.boundsRadius, others[i]);
    if i in CellMembers(g, c) {
      assert i in g.cells[GetCellIndex(g.boundsRadius, c)];
      if c != own {
        CellIndexInjective(g.boundsRadius, c, own);
      }
    }
  }

  /** The grid's bounds radius is a whole number of cells, as the default
      1000 = 8 * 125 is. */
  predicate WholeCells(boundsRadius: real)
  {
    boundsRadius == GetHalfCellDimensions(boundsRadius) as real * CellSize
  }

  /** One cell of the grid emits h exactly when h comes from that cell. */
  lemma CellHitsMembership(g: FlockGrid, location: Vec, others: seq<Vec>, c: Coord, h: Hit)
    requires WellFormed(g, others) && InGrid(g.boundsRadius, c)
    ensures h in CellHits(g, location, others, c) <==> HitFromCell(g, location, others, c, h)
  {
    var members := CellMembers(g, c);
    var index := GetCellIndex(g.boundsRadius, c);
    assert members == g.cells[index];
    assert forall j :: j in members ==> 0 <= j < |others|;
    ScanCellMembership(location, RadiusSquared(g), others, members, h);
  }

  /** What the query emits: h is handed to the functor exactly when some
      cell of the query range survives the pruning and lists h's index, that
      index names a location within the search radius, and h carries that
      location. In particular nothing is emitted from a pruned cell, no
      member of a scanned cell that passes the distance test is left out,
      and the querying boid itself is not excluded. */
  lemma NearbyHitsMembership(g: FlockGrid, location: Vec, others: seq<Vec>, h: Hit)
    requires WellFormed(g, others)
    ensures h in NearbyHits(g, location, others)
            <==> exists c :: InRange(QueryRange(g, location), c) && HitFromCell(g, location, others, c, h)
  {
    var r := QueryRange(g, location);
    var f := CellContribution(g, location, others);
    ConcatMapMembership(VisitOrder(r), f, h);
    VisitOrderExactlyOnce(r);
    forall c | InRange(r, c)
      ensures h in f(c) <==> HitFromCell(g, location, others, c, h)
    {
      CellHitsMembership(g, location, others, c, h);
    }
  }

  /** Filter soundness: everything handed to the functor is a boid within
      the search radius, with its own location. */
  lemma NearbyHitsSound(g: FlockGrid, location: Vec, others: seq<Vec>, h: Hit)
    requires WellFormed(g, others) && h in NearbyHits(g, location, others)
    ensures 0 <= h.index < |others| && h.location == others[h.index]
    ensures DistSquared(location, others[h.index]) <= Square(g.searchRadius)
  {
    NearbyHitsMembership(g, location, others, h);
  }

  /** The pruning test keeps a cell exactly when its box holds a point within
      the search radius of the location: it never skips a cell that could
      hold a hit. */
  lemma CellSurvivesIff(g: FlockGrid, location: Vec, c: Coord)
    ensures CellSurvives(g, location, c)
            <==> exists q :: InBox(q, CellBox(g.boundsRadius, c)) && DistSquared(location, q) <= Square(g.searchRadius)
  {
    SphereAabbIntersectionIff(location, RadiusSquared(g), CellBox(g.boundsRadius, c));
  }

  /** A boid within the search radius whose location is not clamped keeps
      the cell it is bucketed in from being pruned. */
  lemma PruningKeepsNeighbourCell(g: FlockGrid, location: Vec, p: Vec)
    requires g.boundsRadius > 0.0 && Unclamped(g.boundsRadius, p)
    requires DistSquared(location, p) <= Square(g.searchRadius)
    ensures CellSurvives(g, location, GetCellCoordinates(g.boundsRadius, p))
  {
    LocationInOwnCellBox(g.boundsRadius, p);
    SphereAabbMeetsPoint(location, RadiusSquared(g), CellBox(g.boundsRadius, GetCellCoordinates(g.boundsRadius, p)), p);
  }

  /** When the bounds radius is a whole number of cells, one end of the
      query range is the axis coordinate of the location moved by the search
      radius. */
  lemma QueryBoundIsAxisCoordinate(boundsRadius: real, value: real)
    requires WholeCells(boundsRadius)
    ensures AxisQueryBound(boundsRadius, value) == GetAxisCoordinate(boundsRadius, value)
  {
    var half := GetHalfCellDimensions(boundsRadius);
    assert (value + boundsRadius) / CellSize + 0.5 == value / CellSize + 0.5 + half as real;
    FloorShift(value / CellSize + 0.5, half);
  }

  /** When the bounds radius is a whole number of cells, the query range
      on one axis holds the axis coordinate of every value within the search
      radius of the location's value. */
  lemma AxisQueryCovers(boundsRadius: real, value: real, radius: real, p: real)
    requires boundsRadius > 0.0 && WholeCells(boundsRadius)
    requires value - radius <= p <= value + radius
    ensures AxisQueryBound(boundsRadius, value - radius) <= GetAxisCoordinate(boundsRadius, p)
            <= AxisQueryBound(boundsRadius, value + radius)
  {
    QueryBoundIsAxisCoordinate(boundsRadius, value - radius);
    QueryBoundIsAxisCoordinate(boundsRadius, value + radius);
    AxisCoordinateMonotone(boundsRadius, value - radius, p);
    AxisCoordinateMonotone(boundsRadius, p, value + radius);
  }

  /** When the bounds radius is a whole number of cells, the query range
      holds the cell of every location within the search radius, and so the
      cell of the querying location itself. */
  lemma QueryRangeCoversNeighbourCell(g: FlockGrid, location: Vec, p: Vec)
    requires g.boundsRadius > 0.0 && WholeCells(g.boundsRadius) && g.searchRadius >= 0.0
    requires DistSquared(location, p) <= Square(g.searchRadius)
    ensures InRange(QueryRange(g, location), GetCellCoordinates(g.boundsRadius, p))
  {
    var r, range, c := g.searchRadius, QueryRange(g, location), GetCellCoordinates(g.boundsRadius, p);
    DistSquaredAxisBound(location, p, r);
    assert range.lo.x <= c.x <= range.hi.x by {
      AxisQueryCovers(g.boundsRadius, location.x, r, p.x);
    }
    assert range.lo.y <= c.y <= range.hi.y by {
      AxisQueryCovers(g.boundsRadius, location.y, r, p.y);
    }
    assert range.lo.z <= c.z <= range.hi.z by {
      AxisQueryCovers(g.boundsRadius, location.z, r, p.z);
    }
  }

  /** Completeness: when the bounds radius is a whole number of cells, the
      query hands the functor every boid within the search radius that is
      listed in its own cell and whose location is not clamped. */
  lemma FindsEveryBucketedNeighbour(g: FlockGrid, location: Vec, others: seq<Vec>, i: int)
    requires WellFormed(g, others) && WholeCells(g.boundsRadius) && g.searchRadius >= 0.0
    requires 0 <= i < |others| && Bucketed(g, others, i) && Unclamped(g.boundsRadius, others[i])
    requires DistSquared(location, others[i]) <= Square(g.searchRadius)
    ensures Hit(i, others[i]) in NearbyHits(g, location, others)
  {
    var c := GetCellCoordinates(g.boundsRadius, others[i]);
    QueryRangeCoversNeighbourCell(g, location, others[i]);
    PruningKeepsNeighbourCell(g, location, others[i]);
    assert HitFromCell(g, location, others, c, Hit(i, others[i]));
    NearbyHitsMembership(g, location, others, Hit(i, others[i]));
  }

  /** With every boid listed in its own cell, none of them clamped, and a
      bounds radius that is a whole number of cells, the query emits exactly
      the boids within the search radius, each with its location. */
  lemma NearbyHitsExact(g: FlockGrid, location: Vec, others: seq<Vec>, h: Hit)
    requires WellFormed(g, others) && WholeCells(g.boundsRadius) && g.searchRadius >= 0.0
    requires forall i :: 0 <= i < |others| ==> Bucketed(g, others, i) && Unclamped(g.boundsRadius, others[i])
    ensures h in NearbyHits(g, location, others)
            <==> 0 <= h.index < |others| && h.location == others[h.index]
                 && DistSquared(location, others[h.index]) <= Square(g.searchRadius)
  {
    if h in NearbyHits(g, location, others) {
      NearbyHitsSound(g, location, others, h);
    }
    if && 0 <= h.index < |others| && h.location == others[h.index]
       && DistSquared(location, others[h.index]) <= Square(g.searchRadius)
    {
      FindsEveryBucketedNeighbour(g, location, others, h.index);
      assert h == Hit(h.index, others[h.index]);
    }
  }
}
