/** Geometry primitives of the polyline layer: points, linestrings, polygons and
    the two vector operations the triangle-area formula is built from.
    Coordinates are modelled as mathematical reals. */
module Geometry {

  /** A 3-D point; a default-constructed point is the origin. */
  datatype Point = Point(x: real, y: real, z: real)

  const Origin: Point := Point(0.0, 0.0, 0.0)

  /** An ordered sequence of points; a position in it is a vertex index. */
  type Linestring = seq<Point>

  datatype Polygon = Polygon(exteriorRing: Linestring, interiorRings: seq<Linestring>)

  type MultiPolygon = seq<Polygon>

  function Abs(r: real): (a: real)
    ensures a >= 0.0 && (a == r || a == -r)
  {
    if r < 0.0 then -r else r
  }

  /** Planar difference a - b. The result starts as a default point and only its
      X and Y are assigned, so its Z is always 0 whatever the inputs' Z. */
  function VectorSub(a: Point, b: Point): (r: Point)
    ensures r.z == 0.0
    ensures r.x + b.x == a.x && r.y + b.y == a.y
  {
    Origin.(x := a.x - b.x, y := a.y - b.y)
  }

  /** Dot product of the XY parts of two vectors. */
  function Dot(v1: Point, v2: Point): real
  {
    v1.x * v2.x + v1.y * v2.y
  }

  /** A vector turned a quarter turn counter-clockwise in the XY plane. */
  function QuarterTurn(v: Point): Point
  {
    Point(-v.y, v.x, v.z)
  }

  /** Z component of the cross product v1 ^ v2 of two vectors in the XY plane. */
  function CrossProduct(v1: Point, v2: Point): real
  {
    v1.x * v2.y - v1.y * v2.x
  }

  /** Magnitude of the cross product of two planar vectors: twice the area of
      the triangle they span. */
  function CrossProductNorm(v1: Point, v2: Point): (r: real)
    ensures r >= 0.0
    ensures r == CrossProduct(v1, v2) || r == -CrossProduct(v1, v2)
  {
    Abs(CrossProduct(v1, v2))
  }

  /** Area of the triangle (p, c, n) seen from its middle vertex c. */
  function EffectiveArea(c: Point, p: Point, n: Point): (r: real)
    ensures r >= 0.0
  {
    0.5 * CrossProductNorm(VectorSub(n, c), VectorSub(p, c))
  }

  /** Independent reference: half the absolute value of the shoelace sum. */
  function ShoelaceArea(a: Point, b: Point, c: Point): real
  {
    0.5 * Abs(a.x * (b.y - c.y) + b.x * (c.y - a.y) + c.x * (a.y - b.y))
  }

  lemma CrossProductAntisymmetric(v1: Point, v2: Point)
    ensures CrossProduct(v1, v2) == -CrossProduct(v2, v1)
    ensures CrossProduct(v1, v1) == 0.0
  {
  }

  /** The cross product is the dot product of v1 turned a quarter turn with
      v2, and its square is the product of the squared lengths less the
      squared dot product (Lagrange's identity). */
  lemma CrossProductIsTurnedDot(v1: Point, v2: Point)
    ensures CrossProduct(v1, v2) == Dot(QuarterTurn(v1), v2)
    ensures CrossProduct(v1, v2) * CrossProduct(v1, v2) ==
      Dot(v1, v1) * Dot(v2, v2) - Dot(v1, v2) * Dot(v1, v2)
  {
  }

  lemma CrossProductNormSymmetric(v1: Point, v2: Point)
    ensures CrossProductNorm(v1, v2) == CrossProductNorm(v2, v1)
  {
    CrossProductAntisymmetric(v1, v2);
  }

  /** The effective area is the usual triangle area of the three points. */
  lemma EffectiveAreaIsTriangleArea(c: Point, p: Point, n: Point)
    ensures EffectiveArea(c, p, n) == ShoelaceArea(p, c, n)
  {
    var u := VectorSub(n, c);
    var w := VectorSub(p, c);
    var s := p.x * (c.y - n.y) + c.x * (n.y - p.y) + n.x * (p.y - c.y);
    assert CrossProduct(u, w) == (n.x - c.x) * (p.y - c.y) - (n.y - c.y) * (p.x - c.x);
    assert CrossProduct(u, w) == s;
  }

  /** Swapping the two neighbours does not change the area, and the Z
      coordinates play no part in it. */
  lemma EffectiveAreaSymmetric(c: Point, p: Point, n: Point)
    ensures EffectiveArea(c, p, n) == EffectiveArea(c, n, p)
    ensures EffectiveArea(c, p, n) == EffectiveArea(c.(z := 0.0), p.(z := 0.0), n.(z := 0.0))
  {
    CrossProductNormSymmetric(VectorSub(n, c), VectorSub(p, c));
  }

  /** A triangle with a repeated vertex has no area. */
  lemma EffectiveAreaDegenerate(c: Point, p: Point, n: Point)
    requires p == c || n == c || p == n
    ensures EffectiveArea(c, p, n) == 0.0
  {
    CrossProductAntisymmetric(VectorSub(n, c), VectorSub(p, c));
  }

  /** The values the repository's unit tests expect. */
  lemma PrimitiveExamples()
    ensures VectorSub(Point(10.0, 20.0, 0.0), Point(5.0, 1.0, 0.0)) == Point(5.0, 19.0, 0.0)
    ensures CrossProduct(Point(10.0, 8.0, 0.0), Point(2.0, 5.0, 0.0)) == 34.0
    ensures CrossProduct(Point(2.0, 5.0, 0.0), Point(10.0, 8.0, 0.0)) == -34.0
    ensures CrossProduct(Point(10.0, 8.0, 0.0), Point(-100.0, 8.0, 0.0)) == 880.0
    ensures CrossProductNorm(Point(10.0, 8.0, 0.0), Point(2.0, 5.0, 0.0)) == 34.0
    ensures CrossProductNorm(Point(2.0, 5.0, 0.0), Point(10.0, 8.0, 0.0)) == 34.0
    ensures CrossProductNorm(Point(10.0, 8.0, 0.0), Point(-100.0, 8.0, 0.0)) == 880.0
  {
  }
}
