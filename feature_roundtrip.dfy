/**
 * The round trip of one feature: the commands the encoder writes for a
 * geometry, read back by the feature step of the loader, through the
 * per-type round trips of module RoundTrip.
 */
module FeatureRoundTrip {
  import opened Wrappers
  import opened Geometry
  import opened Cursor
  import opened Objects
  import opened LayerProps
  import opened VectorTile
  import opened UserDataConverter
  import opened Adapter
  import opened Reader
  import opened Classifiers
  import opened RoundTrip
  import Loader
  import TC = TagConverter

  /** What the round trips need of a geometry: short enough, coordinates in the box and, for polygons, valid and ring-shaped. */
  predicate Encodable(g: Geom, isRing: seq<Coord> -> bool) {
    if g.shape.Point? || g.shape.MultiPoint? then
      |PointsOf(g.shape)| < SHORT && AllInBox(PointsOf(g.shape))
    else if g.shape.LineString? || g.shape.MultiLineString? then
      AllShort(LinesOf(g.shape)) && BoxedLines(LinesOf(g.shape))
    else if g.shape.PolygonShape? || g.shape.MultiPolygon? then
      var polys := PolygonsOf(g.shape);
      AllWritable(polys) && AllPolysInBox(polys) && AllRings(PolysRings(polys), isRing)
    else true
  }

  /** The geometry the reader makes of what the encoder writes for `g`: its components as written, or None for nothing written. */
  function DecodedShape(g: Geom): Option<Shape> {
    if g.shape.Point? || g.shape.MultiPoint? then
      var pts := PointsOf(g.shape);
      if pts == [] then None
      else Some(if |KeptPoints(pts)| == 1 then Point(pts[0]) else MultiPoint(KeptPoints(pts)))
    else if g.shape.LineString? || g.shape.MultiLineString? then
      var parts := EncodedLines(LinesOf(g.shape));
      if parts == [] then None
      else Some(if |parts| == 1 then LineString(parts[0]) else MultiLineString(parts))
    else if g.shape.PolygonShape? || g.shape.MultiPolygon? then
      var ds := DecodedPolys(PolygonsOf(g.shape));
      if ds == [] then None
      else Some(if |ds| == 1 then PolygonShape(ds[0]) else MultiPolygon(ds))
    else None
  }

  /**
   * One feature: the commands `toFeature` writes for a geometry, read back
   * with the feature's type from a cursor at (0, 0) as `loadMvt` does, give
   * the geometry's components as written, of the same type. Nothing is
   * written exactly when nothing would come back, and then no feature is made.
   */
  lemma GeometryRoundTrip(g: Geom, v: RingClassifier, isRing: seq<Coord> -> bool)
    requires Encodable(g, isRing)
    ensures GeomCmds(g) == [] <==> DecodedShape(g).None?
    ensures GeomCmds(g) != [] ==>
      ReadGeometrySpec(GeomCmds(g), ToGeomType(g), ORIGIN, v, isRing).shape == DecodedShape(g)
  {
    if g.shape.Point? || g.shape.MultiPoint? {
      var pts := PointsOf(g.shape);
      if pts != [] {
        PointsRoundTrip(pts, ORIGIN);
      }
    } else if g.shape.LineString? || g.shape.MultiLineString? {
      LinesRoundTrip(LinesOf(g.shape));
    } else if g.shape.PolygonShape? || g.shape.MultiPolygon? {
      PolysRoundTrip(PolygonsOf(g.shape), v, isRing);
    }
  }

  /**
   * The same through the feature messages: a feature `toFeature` makes of a
   * geometry, loaded by `loadMvt`'s feature step, gives back a geometry whose
   * shape is the one the round trips describe, whatever converters are used.
   */
  lemma FeatureRoundTrip(g: Geom, t: Tables, conv: Option<UserDataConverter>, keys: seq<string>, values: seq<Value>,
                         tagConverter: Option<TC.TagConverter>, v: RingClassifier, isRing: seq<Coord> -> bool)
    requires ValidTables(t) && Loader.UsableConverter(tagConverter) && Encodable(g, isRing)
    requires ToFeatureSpec(g, t, conv).feature.Ok? && ToFeatureSpec(g, t, conv).feature.value.Some?
    ensures var f := ToFeatureSpec(g, t, conv).feature.value.value;
      var r := Loader.LoadFeature(f, keys, values, tagConverter, v, isRing);
      r.Some? && DecodedShape(g) == Some(r.value.shape)
  {
    ToFeatureResult(g, t, conv);
    var f := ToFeatureSpec(g, t, conv).feature.value.value;
    GeometryRoundTrip(g, v, isRing);
    LoadedShape(f, keys, values, tagConverter, v, isRing);
  }

  /** The feature step of `loadMvt` keeps the shape `readGeometry` gives. */
  lemma LoadedShape(f: Feature, keys: seq<string>, values: seq<Value>, tagConverter: Option<TC.TagConverter>,
                    v: RingClassifier, isRing: seq<Coord> -> bool)
    requires Loader.UsableConverter(tagConverter) && f.geomType != UNKNOWN
    ensures var d := ReadGeometrySpec(f.geometry, f.geomType, ORIGIN, v, isRing);
      var r := Loader.LoadFeature(f, keys, values, tagConverter, v, isRing);
      (r.Some? <==> d.shape.Some?) && (r.Some? ==> r.value.shape == d.shape.value)
  {
  }
}
