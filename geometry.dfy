/**
 * The JTS geometries the adapter works on, with integer tile coordinates, the
 * MVT geometry type they map to (JtsAdapter.toGeomType), and the signed ring
 * area that decides winding on both the encoding and the decoding side.
 */
module Geometry {
  import opened Wrappers
  import opened Codec
  import opened Objects

  /** A coordinate of a tile-local geometry, as the encoder sees it after its `(int)` casts. */
  datatype Coord = Coord(x: Int32, y: Int32)

  /** A JTS polygon: the exterior ring, then the interior rings. */
  datatype Polygon = Polygon(shell: seq<Coord>, holes: seq<seq<Coord>>)

  /** The JTS geometry classes the library tells apart. */
  datatype Shape =
    | Point(p: Coord)
    | MultiPoint(points: seq<Coord>)
    | LineString(coords: seq<Coord>)
    | MultiLineString(lines: seq<seq<Coord>>)
    | PolygonShape(poly: Polygon)
    | MultiPolygon(polys: seq<Polygon>)
    | GeometryCollection(parts: seq<Geom>)
    | OtherShape

  /** A JTS geometry: its shape and the user data object attached to it (possibly null). */
  datatype Geom = Geom(shape: Shape, userData: Option<Obj>)

  /** The MVT `GeomType` enum. */
  datatype GeomType = UNKNOWN | POINT | LINESTRING | POLYGON

  /** The protobuf number of each geometry type. */
  function GeomTypeNumber(t: GeomType): (n: int)
    ensures 0 <= n < 4
    ensures n == 0 <==> t == UNKNOWN
  {
    match t
    case UNKNOWN => 0
    case POINT => 1
    case LINESTRING => 2
    case POLYGON => 3
  }

  /** One of the six geometry classes a feature can carry. */
  predicate IsSimple(s: Shape) {
    s.Point? || s.MultiPoint? || s.LineString? || s.MultiLineString? || s.PolygonShape? || s.MultiPolygon?
  }

  /** The points of a point or multi-point, as `getGeometryN` hands them out. */
  function PointsOf(s: Shape): (r: seq<Coord>)
    requires s.Point? || s.MultiPoint?
    ensures s.Point? ==> r == [s.p]
    ensures s.MultiPoint? ==> r == s.points
  {
    if s.Point? then [s.p] else s.points
  }

  /** The lines of a line string or multi-line string. */
  function LinesOf(s: Shape): (r: seq<seq<Coord>>)
    requires s.LineString? || s.MultiLineString?
    ensures s.LineString? ==> r == [s.coords]
    ensures s.MultiLineString? ==> r == s.lines
  {
    if s.LineString? then [s.coords] else s.lines
  }

  /** The polygons of a polygon or multi-polygon. */
  function PolygonsOf(s: Shape): (r: seq<Polygon>)
    requires s.PolygonShape? || s.MultiPolygon?
    ensures s.PolygonShape? ==> r == [s.poly]
    ensures s.MultiPolygon? ==> r == s.polys
  {
    if s.PolygonShape? then [s.poly] else s.polys
  }

  /** No two neighbouring points are the same. */
  predicate NoRepeats(pts: seq<Coord>) {
    forall i :: 0 < i < |pts| ==> pts[i] != pts[i - 1]
  }

  /** `Math.abs`, on unbounded integers. */
  function Abs(x: int): nat {
    if x < 0 then -x else x
  }

  /** `JtsAdapter.toGeomType`. */
  function ToGeomType(g: Geom): (t: GeomType)
    ensures t == POINT <==> g.shape.Point? || g.shape.MultiPoint?
    ensures t == LINESTRING <==> g.shape.LineString? || g.shape.MultiLineString?
    ensures t == POLYGON <==> g.shape.PolygonShape? || g.shape.MultiPolygon?
    ensures t == UNKNOWN <==> !IsSimple(g.shape)
  {
    match g.shape
    case Point(_) => POINT
    case MultiPoint(_) => POINT
    case LineString(_) => LINESTRING
    case MultiLineString(_) => LINESTRING
    case PolygonShape(_) => POLYGON
    case MultiPolygon(_) => POLYGON
    case _ => UNKNOWN
  }

  // ------------------------------------------------------------ ring area

  function Last<T>(s: seq<T>): T
    requires |s| > 0
  {
    s[|s| - 1]
  }

  /** Twice the signed area of the triangle (origin, p, q), counted positive when the turn is clockwise with y up. */
  function Cross(p: Coord, q: Coord): int {
    q.x * p.y - p.x * q.y
  }

  /** The edge terms of consecutive coordinate pairs. */
  function Pairwise(r: seq<Coord>): int
    decreases |r|
  {
    if |r| < 2 then 0 else Pairwise(r[..|r| - 1]) + Cross(r[|r| - 2], r[|r| - 1])
  }

  /**
   * Twice `Area.ofRingSigned`: the shoelace sum over the ring, closing edge
   * included. It is positive for a clockwise ring and negative for a
   * counter-clockwise one, in y-up coordinates. On a closed ring (last
   * coordinate equal to the first, as every JTS LinearRing is) the closing
   * edge adds nothing and this is exactly twice the JTS value.
   */
  function DoubledArea(r: seq<Coord>): int {
    if |r| == 0 then 0 else Pairwise(r) + Cross(Last(r), r[0])
  }

  /** The coordinates in reverse order (`CoordinateArrays.reverse`). */
  function Reverse<T>(s: seq<T>): (r: seq<T>)
    ensures |r| == |s|
    ensures forall i :: 0 <= i < |s| ==> r[i] == s[|s| - 1 - i]
  {
    if s == [] then [] else Reverse(s[1..]) + [s[0]]
  }

  lemma CrossAntisymmetric(p: Coord, q: Coord)
    ensures Cross(q, p) == -Cross(p, q)
  {
  }

  /** Pairwise sum of a sequence with one coordinate put in front. */
  lemma {:induction false} PairwiseCons(a: Coord, r: seq<Coord>)
    requires |r| > 0
    ensures Pairwise([a] + r) == Cross(a, r[0]) + Pairwise(r)
    decreases |r|
  {
    if |r| == 1 {
      assert ([a] + r)[..1] == [a];
    } else {
      var r' := r[..|r| - 1];
      PairwiseCons(a, r');
      assert ([a] + r)[..|[a] + r| - 1] == [a] + r';
      assert r'[0] == r[0];
    }
  }

  /** Pairwise sum of a reversed sequence: every edge is walked the other way. */
  lemma {:induction false} PairwiseReverse(r: seq<Coord>)
    ensures Pairwise(Reverse(r)) == -Pairwise(r)
    decreases |r|
  {
    if |r| >= 2 {
      var r' := r[..|r| - 1];
      var a := Last(r);
      assert Reverse(r) == [a] + Reverse(r') by {
        assert |Reverse(r)| == |[a] + Reverse(r')|;
      }
      PairwiseReverse(r');
      PairwiseCons(a, Reverse(r'));
      CrossAntisymmetric(r[|r| - 2], a);
    }
  }

  /** Reversing a ring negates its signed area: clockwise and counter-clockwise swap. */
  lemma ReverseNegatesArea(r: seq<Coord>)
    ensures DoubledArea(Reverse(r)) == -DoubledArea(r)
  {
    if |r| > 0 {
      PairwiseReverse(r);
      CrossAntisymmetric(r[0], Last(r));
    }
  }

  /** Reversal is its own inverse. */
  lemma ReverseReverse<T>(s: seq<T>)
    ensures Reverse(Reverse(s)) == s
  {
  }

  /**
   * `Math.round(area)` for the doubled area `d`: rounding half up is
   * floor((d + 1) / 2), and `Math.round` clamps what lies outside the long
   * range to Long.MIN_VALUE or Long.MAX_VALUE.
   */
  function MathRound(d: int): Int64 {
    var y := (d + 1) / 2;
    if y < -0x8000_0000_0000_0000 then -0x8000_0000_0000_0000
    else if y > 0x7FFF_FFFF_FFFF_FFFF then 0x7FFF_FFFF_FFFF_FFFF
    else y
  }

  /**
   * `(int) Math.round(area) == 0` for the doubled area `d`. The cast to int
   * keeps the low 32 bits of the rounded long. Inside the long range they are
   * all zero exactly when d + 1 is 0 or 1 modulo 2^33; Long.MIN_VALUE casts to
   * 0 and Long.MAX_VALUE to -1 (see RoundsToZeroWrap).
   */
  predicate RoundsToZero(d: int) {
    var y := (d + 1) / 2;
    y < 0x8000_0000_0000_0000 && (y <= -0x8000_0000_0000_0000 || (d + 1) % 0x2_0000_0000 <= 1)
  }

  lemma Mod32Unique(n: int, q: int, r: int)
    requires n == 0x1_0000_0000 * q + r && 0 <= r < 0x1_0000_0000
    ensures n % 0x1_0000_0000 == r
  {
  }

  lemma Mod33Unique(n: int, q: int, r: int)
    requires n == 0x2_0000_0000 * q + r && 0 <= r < 0x2_0000_0000
    ensures n % 0x2_0000_0000 == r
  {
  }

  /** The low 32 bits of `y` are all zero exactly when `y` is a multiple of 2^32. */
  lemma WrapZero(y: int)
    ensures Wrap(y) == 0 <==> y % 0x1_0000_0000 == 0
  {
    var q, r := y / 0x1_0000_0000, y % 0x1_0000_0000;
    if r < 0x8000_0000 {
      Mod32Unique(y + 0x8000_0000, q, r + 0x8000_0000);
    } else {
      Mod32Unique(y + 0x8000_0000, q + 1, r - 0x8000_0000);
    }
  }

  /** The rounding test is the Java expression: the low 32 bits of `Math.round(d / 2)` are zero. */
  lemma RoundsToZeroWrap(d: int)
    ensures RoundsToZero(d) <==> Wrap(MathRound(d)) == 0
  {
    var y := (d + 1) / 2;
    if y < -0x8000_0000_0000_0000 {
      WrapZero(-0x8000_0000_0000_0000);
    } else if y > 0x7FFF_FFFF_FFFF_FFFF {
      WrapZero(0x7FFF_FFFF_FFFF_FFFF);
    } else {
      LowBitsZero(d);
    }
  }

  /** The low 32 bits of floor((d + 1) / 2) are zero exactly when d + 1 is 0 or 1 modulo 2^33. */
  lemma LowBitsZero(d: int)
    ensures (d + 1) % 0x2_0000_0000 <= 1 <==> Wrap((d + 1) / 2) == 0
  {
    var y := (d + 1) / 2;
    var b := (d + 1) % 2;
    var q, r := y / 0x1_0000_0000, y % 0x1_0000_0000;
    assert d + 1 == 2 * y + b;
    assert y == 0x1_0000_0000 * q + r;
    Mod33Unique(d + 1, q, 2 * r + b);
    WrapZero(y);
  }

  /**
   * Beyond the long range the clamp decides: an area that rounds below
   * -2^63 becomes Long.MIN_VALUE, which is 0 as an int, and one that rounds
   * above 2^63 - 1 becomes Long.MAX_VALUE, which is -1 as an int.
   */
  lemma RoundsToZeroClamped(d: int)
    ensures d + 1 < -0x1_0000_0000_0000_0000 ==> RoundsToZero(d) && Wrap(MathRound(d)) == 0
    ensures d + 1 >= 0x1_0000_0000_0000_0000 ==> !RoundsToZero(d) && Wrap(MathRound(d)) == -1
  {
    RoundsToZeroWrap(d);
  }

  /** Below 2^32 in magnitude, only the doubled areas 0 and -1 round to zero. */
  lemma RoundsToZeroSmall(d: int)
    requires -0x1_0000_0000 < d < 0x1_0000_0000
    ensures RoundsToZero(d) <==> d == 0 || d == -1
  {
  }
}
