/**
 * The engine math helpers the spatial grid relies on (FMath and FVector in
 * the engine), over exact reals instead of IEEE doubles.
 */
module EngineMath {

  /** A 3D point or vector (FVector). */
  datatype Vec = Vec(x: real, y: real, z: real)

  /** An axis-aligned box (FBox) given by its minimum and maximum corners. */
  datatype Box = Box(min: Vec, max: Vec)

  /** FMath::FloorToInt32: the greatest integer not above v. */
  function FloorToInt(v: real): (r: int)
    ensures r as real <= v < r as real + 1.0
  {
    v.Floor
  }

  /** FMath::CeilToInt32: the least integer not below v. */
  function CeilToInt(v: real): (r: int)
    ensures r as real - 1.0 < v <= r as real
  {
    -FloorToInt(-v)
  }

  /** FMath::RoundToInt32, which the engine defines as FloorToInt32(v + 0.5):
      the nearest integer, halves rounded upwards. */
  function RoundToInt(v: real): (r: int)
    ensures r as real - 0.5 <= v < r as real + 0.5
  {
    FloorToInt(v + 0.5)
  }

  /** FMath::Clamp, with the engine's order of comparisons:
      X < Min ? Min : (X < Max ? X : Max). */
  function Clamp(x: int, lo: int, hi: int): (r: int)
    ensures lo <= hi ==> lo <= r <= hi
    ensures lo <= hi ==> (r == x || (x < lo && r == lo) || (hi < x && r == hi))
  {
    if x < lo then lo else if x < hi then x else hi
  }

  /** FMath::Square. */
  function Square(v: real): (s: real)
    ensures s >= 0.0
  {
    v * v
  }

  function Abs(v: real): real
  {
    if v < 0.0 then -v else v
  }

  /** FVector::DistSquared. */
  function DistSquared(a: Vec, b: Vec): (d: real)
    ensures d >= 0.0
    ensures a == b ==> d == 0.0
  {
    Square(a.x - b.x) + Square(a.y - b.y) + Square(a.z - b.z)
  }

  predicate InBox(p: Vec, b: Box)
  {
    b.min.x <= p.x <= b.max.x && b.min.y <= p.y <= b.max.y && b.min.z <= p.z <= b.max.z
  }

  predicate NonEmptyBox(b: Box)
  {
    b.min.x <= b.max.x && b.min.y <= b.max.y && b.min.z <= b.max.z
  }

  /** The squared distance that one axis contributes in
      FMath::SphereAABBIntersection: from c to the interval [lo, hi]. */
  function AxisExcess(c: real, lo: real, hi: real): real
  {
    if c < lo then Square(c - lo) else if c > hi then Square(c - hi) else 0.0
  }

  /** FMath::SphereAABBIntersection: the squared distances the three axes
      contribute are summed and compared with the squared radius. */
  function SphereAabbIntersection(center: Vec, radiusSquared: real, box: Box): bool
  {
    AxisExcess(center.x, box.min.x, box.max.x)
    + AxisExcess(center.y, box.min.y, box.max.y)
    + AxisExcess(center.z, box.min.z, box.max.z) <= radiusSquared
  }

  /** Clamping a real into [lo, hi]; the point of the interval closest to c. */
  function ClampReal(c: real, lo: real, hi: real): real
  {
    if c < lo then lo else if c > hi then hi else c
  }

  /** The point of a box closest to a given point. */
  function ClosestPoint(p: Vec, b: Box): (q: Vec)
    requires NonEmptyBox(b)
    ensures InBox(q, b)
  {
    Vec(ClampReal(p.x, b.min.x, b.max.x), ClampReal(p.y, b.min.y, b.max.y), ClampReal(p.z, b.min.z, b.max.z))
  }

  lemma SquareMonotone(a: real, b: real)
    requires 0.0 <= a <= b
    ensures Square(a) <= Square(b)
  {
    calc {
      Square(a);
    ==
      a * a;
    <=
      a * b;
    <=
      b * b;
    ==
      Square(b);
    }
  }

  lemma SquareOfNegation(a: real)
    ensures Square(-a) == Square(a)
  {
  }

  /** The excess of one axis is the squared distance to the closest point of
      the interval, and no point of the interval is closer. */
  lemma AxisExcessIsClosest(c: real, lo: real, hi: real, q: real)
    requires lo <= q <= hi
    ensures AxisExcess(c, lo, hi) == Square(c - ClampReal(c, lo, hi))
    ensures AxisExcess(c, lo, hi) <= Square(c - q)
  {
    if c < lo {
      SquareMonotone(lo - c, q - c);
      SquareOfNegation(c - lo);
      SquareOfNegation(c - q);
    } else if c > hi {
      SquareMonotone(c - hi, c - q);
    }
  }

  /** FMath::SphereAABBIntersection holds exactly when some point of the box
      is within the radius: it is true whenever a point of the box lies in
      the sphere (so the test never rejects a box that meets the sphere), and
      when it is true the box's closest point lies in the sphere. */
  lemma SphereAabbIntersectionIff(center: Vec, radiusSquared: real, box: Box)
    requires NonEmptyBox(box)
    ensures SphereAabbIntersection(center, radiusSquared, box)
            <==> exists q :: InBox(q, box) && DistSquared(center, q) <= radiusSquared
  {
    var w := ClosestPoint(center, box);
    AxisExcessIsClosest(center.x, box.min.x, box.max.x, w.x);
    AxisExcessIsClosest(center.y, box.min.y, box.max.y, w.y);
    AxisExcessIsClosest(center.z, box.min.z, box.max.z, w.z);
    if SphereAabbIntersection(center, radiusSquared, box) {
      assert InBox(w, box) && DistSquared(center, w) <= radiusSquared;
    }
    if exists q :: InBox(q, box) && DistSquared(center, q) <= radiusSquared {
      var q :| InBox(q, box) && DistSquared(center, q) <= radiusSquared;
      SphereAabbMeetsPoint(center, radiusSquared, box, q);
    }
  }

  /** The pruning direction of the equivalence above, for a given point. */
  lemma SphereAabbMeetsPoint(center: Vec, radiusSquared: real, box: Box, q: Vec)
    requires InBox(q, box) && DistSquared(center, q) <= radiusSquared
    ensures SphereAabbIntersection(center, radiusSquared, box)
  {
    AxisExcessIsClosest(center.x, box.min.x, box.max.x, q.x);
    AxisExcessIsClosest(center.y, box.min.y, box.max.y, q.y);
    AxisExcessIsClosest(center.z, box.min.z, box.max.z, q.z);
  }

  /** Shifting by a whole number shifts the floor by the same amount. */
  lemma FloorShift(v: real, k: int)
    ensures FloorToInt(v + k as real) == FloorToInt(v) + k
  {
    var a, b := FloorToInt(v + k as real), FloorToInt(v) + k;
    assert a as real <= v + k as real < a as real + 1.0;
    assert b as real <= v + k as real < b as real + 1.0;
  }

  /** Rounding is monotone. */
  lemma RoundMonotone(a: real, b: real)
    requires a <= b
    ensures RoundToInt(a) <= RoundToInt(b)
  {
  }

  /** A value whose square is at most r * r lies within r of zero. */
  lemma SquareBound(d: real, r: real)
    requires r >= 0.0 && Square(d) <= Square(r)
    ensures -r <= d <= r
  {
    SquareStrict(r, d);
    SquareStrict(r, -d);
    SquareOfNegation(d);
  }

  lemma SquareStrict(a: real, b: real)
    ensures 0.0 <= a < b ==> Square(a) < Square(b)
  {
    if 0.0 <= a < b {
      calc {
        Square(a);
      ==
        a * a;
      <=
        a * b;
      <
        b * b;
      ==
        Square(b);
      }
    }
  }

  /** Two points within distance r differ by at most r on every axis. */
  lemma DistSquaredAxisBound(a: Vec, b: Vec, r: real)
    requires r >= 0.0 && DistSquared(a, b) <= Square(r)
    ensures a.x - r <= b.x <= a.x + r
    ensures a.y - r <= b.y <= a.y + r
    ensures a.z - r <= b.z <= a.z + r
  {
    SquareBound(a.x - b.x, r);
    SquareBound(a.y - b.y, r);
    SquareBound(a.z - b.z, r);
  }
}
