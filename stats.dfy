/**
 * Feature statistics (JtsGeomStats.java): how many features of each MVT
 * geometry type a list of flat geometries holds, and per feature its number
 * of points and of repeated points.
 */
module Stats {
  import opened Wrappers
  import opened Geometry

  /** `JtsGeomStats.FeatureStats`: the two counters of one feature. */
  datatype FeatureStats = FeatureStats(totalPts: int, repeatedPts: int)

  /** `GeomType.values()`, in declaration order. */
  const GEOM_TYPES: seq<GeomType> := [UNKNOWN, POINT, LINESTRING, POLYGON]

  /** Every geometry type is one of `GEOM_TYPES`. */
  lemma AllGeomTypes(t: GeomType)
    ensures t in GEOM_TYPES
  {
  }

  // ------------------------------------------------------------ repeated points of a line

  /** The positions i >= 1 whose coordinate equals the one before, counted up to the end. */
  function RepeatedCount(coords: seq<Coord>): (n: nat)
    ensures n <= (if |coords| == 0 then 0 else |coords| - 1)
    decreases |coords|
  {
    if |coords| <= 1 then 0
    else
      RepeatedCount(coords[..|coords| - 1])
      + (if coords[|coords| - 1] == coords[|coords| - 2] then 1 else 0)
  }

  /** A line has no repeated points exactly when no two neighbouring coordinates are equal. */
  lemma {:induction false} RepeatedCountZero(coords: seq<Coord>)
    ensures RepeatedCount(coords) == 0 <==> NoRepeats(coords)
    decreases |coords|
  {
    if |coords| > 1 {
      var init := coords[..|coords| - 1];
      RepeatedCountZero(init);
      assert forall i :: 0 <= i < |init| ==> init[i] == coords[i];
    }
  }

  /**
   * `checkRepeatedPoints2d`: walks the coordinates remembering the previous
   * one (none before the first) and counts each coordinate equal to it.
   */
  method CheckRepeatedPoints2d(coords: seq<Coord>) returns (repeatedPoints: int)
    ensures repeatedPoints == RepeatedCount(coords)
  {
    repeatedPoints := 0;
    var nextCoord: Option<Coord> := None;
    for i := 0 to |coords|
      invariant repeatedPoints == RepeatedCount(coords[..i])
      invariant nextCoord == (if i == 0 then None else Some(coords[i - 1]))
    {
      var prevCoord := nextCoord;
      nextCoord := Some(coords[i]);
      assert coords[..i + 1][..i] == coords[..i];
      if nextCoord == prevCoord {
        repeatedPoints := repeatedPoints + 1;
      }
    }
    assert coords[..|coords|] == coords;
  }

  // ------------------------------------------------------------ point statistics

  /** The points that equal an earlier point of the list. */
  function PointRepeats(pts: seq<Coord>): (n: nat)
    ensures n <= |pts|
    decreases |pts|
  {
    if pts == [] then 0
    else PointRepeats(pts[..|pts| - 1]) + (if pts[|pts| - 1] in pts[..|pts| - 1] then 1 else 0)
  }

  /** The distinct points of a list. */
  function PointSet(pts: seq<Coord>): set<Coord> {
    set p | p in pts
  }

  /** The repeated points are the points minus the distinct ones. */
  lemma {:induction false} PointRepeatsDistinct(pts: seq<Coord>)
    ensures PointRepeats(pts) == |pts| - |PointSet(pts)|
    decreases |pts|
  {
    if pts != [] {
      var init := pts[..|pts| - 1];
      var last := pts[|pts| - 1];
      PointRepeatsDistinct(init);
      assert pts == init + [last];
      assert PointSet(pts) == PointSet(init) + {last};
      if last in init {
        assert PointSet(pts) == PointSet(init);
      } else {
        assert last !in PointSet(init);
      }
    }
  }

  /**
   * `pointStats`: the point count, and one repeated point for each point
   * the set already holds when it is added.
   */
  method PointStats(s: Shape) returns (r: FeatureStats)
    requires s.Point? || s.MultiPoint?
    ensures r == FeatureStats(|PointsOf(s)|, PointRepeats(PointsOf(s)))
  {
    var pts := PointsOf(s);
    var pointSet: set<Coord> := {};
    var repeatedPts := 0;
    for i := 0 to |pts|
      invariant pointSet == PointSet(pts[..i])
      invariant repeatedPts == PointRepeats(pts[..i])
    {
      var p := pts[i];
      assert pts[..i + 1][..i] == pts[..i] && pts[..i + 1][i] == p;
      assert p in pointSet <==> p in pts[..i];
      var added := p !in pointSet;
      pointSet := pointSet + {p};
      assert PointSet(pts[..i + 1]) == pointSet;
      repeatedPts := repeatedPts + (if added then 0 else 1);
    }
    assert pts[..|pts|] == pts;
    r := FeatureStats(|pts|, repeatedPts);
  }

  // ------------------------------------------------------------ line and polygon statistics

  /** Two statistics added counter by counter. */
  function Plus(a: FeatureStats, b: FeatureStats): FeatureStats {
    FeatureStats(a.totalPts + b.totalPts, a.repeatedPts + b.repeatedPts)
  }

  /** The statistics of a list of lines or rings: their points and their repeated points, summed. */
  function LinesSum(lines: seq<seq<Coord>>): (r: FeatureStats)
    decreases |lines|
  {
    if lines == [] then FeatureStats(0, 0)
    else Plus(LinesSum(lines[..|lines| - 1]), FeatureStats(|lines[|lines| - 1]|, RepeatedCount(lines[|lines| - 1])))
  }

  /** Summing over two lists of lines is summing over each. */
  lemma {:induction false} LinesSumAppend(a: seq<seq<Coord>>, b: seq<seq<Coord>>)
    ensures LinesSum(a + b) == Plus(LinesSum(a), LinesSum(b))
    decreases |b|
  {
    if b == [] {
      assert a + b == a;
      assert LinesSum(b) == FeatureStats(0, 0);
      assert LinesSum(a + b) == LinesSum(a);
    } else {
      var init := b[..|b| - 1];
      var last := b[|b| - 1];
      var ab := a + b;
      assert ab[..|ab| - 1] == a + init;
      assert ab[|ab| - 1] == last;
      var lastStats := FeatureStats(|last|, RepeatedCount(last));
      assert LinesSum(ab) == Plus(LinesSum(a + init), lastStats);
      assert LinesSum(b) == Plus(LinesSum(init), lastStats);
      LinesSumAppend(a, init);
      assert LinesSum(a + init) == Plus(LinesSum(a), LinesSum(init));
    }
  }

  /** Every line has at least as many points as repeated points, and at most one fewer repeat than points. */
  lemma {:induction false} LinesSumBounded(lines: seq<seq<Coord>>)
    ensures 0 <= LinesSum(lines).repeatedPts <= LinesSum(lines).totalPts
    ensures LinesSum(lines).repeatedPts <= LinesSum(lines).totalPts - |set i | 0 <= i < |lines| && lines[i] != []|
    decreases |lines|
  {
    if lines != [] {
      var init := lines[..|lines| - 1];
      var last := lines[|lines| - 1];
      LinesSumBounded(init);
      var nonEmpty := set i | 0 <= i < |lines| && lines[i] != [];
      var nonEmptyInit := set i | 0 <= i < |init| && init[i] != [];
      if last == [] {
        assert nonEmpty == nonEmptyInit;
      } else {
        assert nonEmpty == nonEmptyInit + {|lines| - 1};
        assert |lines| - 1 !in nonEmptyInit;
      }
    }
  }

  /** `lineStats` over a line string or multi-line string. */
  method LineStats(s: Shape) returns (r: FeatureStats)
    requires s.LineString? || s.MultiLineString?
    ensures r == LinesSum(LinesOf(s))
  {
    var lines := LinesOf(s);
    r := SumLines(lines, FeatureStats(0, 0));
    assert [] + lines == lines;
    LinesSumAppend([], lines);
  }

  /** The counters of `featureStats` after adding each of `lines`, starting from `acc`. */
  method SumLines(lines: seq<seq<Coord>>, acc: FeatureStats) returns (r: FeatureStats)
    ensures r == Plus(acc, LinesSum(lines))
  {
    r := acc;
    for i := 0 to |lines|
      invariant r == Plus(acc, LinesSum(lines[..i]))
    {
      var lineString := lines[i];
      var repeated := CheckRepeatedPoints2d(lineString);
      assert lines[..i + 1][..i] == lines[..i] && lines[..i + 1][i] == lineString;
      r := FeatureStats(r.totalPts + |lineString|, r.repeatedPts + repeated);
    }
    assert lines[..|lines|] == lines;
  }

  /** The rings of a polygon in the order `polyStats` visits them: the exterior, then the interiors. */
  function RingsOf(p: Polygon): (r: seq<seq<Coord>>)
    ensures |r| == 1 + |p.holes| && r[0] == p.shell && r[1..] == p.holes
  {
    [p.shell] + p.holes
  }

  /** The rings of a list of polygons, polygon by polygon. */
  function AllRings(polys: seq<Polygon>): seq<seq<Coord>>
    decreases |polys|
  {
    if polys == [] then [] else AllRings(polys[..|polys| - 1]) + RingsOf(polys[|polys| - 1])
  }

  /** The body of `polyStats`'s loop: the exterior ring of one polygon, then its interior rings. */
  method AddPolygonStats(nextPoly: Polygon, acc: FeatureStats) returns (r: FeatureStats)
    ensures r == Plus(acc, LinesSum(RingsOf(nextPoly)))
  {
    var repeated := CheckRepeatedPoints2d(nextPoly.shell);
    var shellStats := FeatureStats(|nextPoly.shell|, repeated);
    assert LinesSum([nextPoly.shell]) == Plus(LinesSum([]), shellStats) by {
      assert [nextPoly.shell][..0] == [];
    }
    LinesSumAppend([nextPoly.shell], nextPoly.holes);
    assert RingsOf(nextPoly) == [nextPoly.shell] + nextPoly.holes;
    r := FeatureStats(acc.totalPts + |nextPoly.shell|, acc.repeatedPts + repeated);
    assert r == Plus(acc, LinesSum([nextPoly.shell]));
    r := SumLines(nextPoly.holes, r);
  }

  /** `polyStats` over a polygon or multi-polygon: each exterior ring, then its interior rings. */
  method PolyStats(s: Shape) returns (r: FeatureStats)
    requires s.PolygonShape? || s.MultiPolygon?
    ensures r == LinesSum(AllRings(PolygonsOf(s)))
  {
    var polys := PolygonsOf(s);
    r := FeatureStats(0, 0);
    for i := 0 to |polys|
      invariant r == LinesSum(AllRings(polys[..i]))
    {
      var nextPoly := polys[i];
      assert polys[..i + 1][..i] == polys[..i] && polys[..i + 1][i] == nextPoly;
      LinesSumAppend(AllRings(polys[..i]), RingsOf(nextPoly));
      r := AddPolygonStats(nextPoly, r);
    }
    assert polys[..|polys|] == polys;
  }

  // ------------------------------------------------------------ getStats

  /** `getStats(geom, type)`: the statistics of one geometry by its type; an unsupported one gets zeros. */
  function StatsOf(g: Geom): (r: FeatureStats)
    ensures ToGeomType(g) == UNKNOWN ==> r == FeatureStats(0, 0)
  {
    match ToGeomType(g)
    case POINT => FeatureStats(|PointsOf(g.shape)|, PointRepeats(PointsOf(g.shape)))
    case LINESTRING => LinesSum(LinesOf(g.shape))
    case POLYGON => LinesSum(AllRings(PolygonsOf(g.shape)))
    case UNKNOWN => FeatureStats(0, 0)
  }

  /** No feature has more repeated points than points. */
  lemma StatsBounded(g: Geom)
    ensures 0 <= StatsOf(g).repeatedPts <= StatsOf(g).totalPts
  {
    match ToGeomType(g)
    case POINT =>
    case LINESTRING => LinesSumBounded(LinesOf(g.shape));
    case POLYGON => LinesSumBounded(AllRings(PolygonsOf(g.shape)));
    case UNKNOWN =>
  }

  /** The number of geometries of a given type. */
  function CountOf(gs: seq<Geom>, t: GeomType): (n: nat)
    ensures n <= |gs|
    decreases |gs|
  {
    if gs == [] then 0
    else CountOf(gs[..|gs| - 1], t) + (if ToGeomType(gs[|gs| - 1]) == t then 1 else 0)
  }

  /** Every geometry has exactly one type, so the four counts add up to the number of geometries. */
  lemma {:induction false} CountsSumToSize(gs: seq<Geom>)
    ensures CountOf(gs, UNKNOWN) + CountOf(gs, POINT) + CountOf(gs, LINESTRING) + CountOf(gs, POLYGON) == |gs|
    decreases |gs|
  {
    if gs != [] {
      CountsSumToSize(gs[..|gs| - 1]);
    }
  }

  /** A type counts every geometry exactly when all geometries have that type. */
  lemma {:induction false} CountAll(gs: seq<Geom>, t: GeomType)
    ensures CountOf(gs, t) == |gs| <==> forall i :: 0 <= i < |gs| ==> ToGeomType(gs[i]) == t
    decreases |gs|
  {
    if gs != [] {
      var init := gs[..|gs| - 1];
      CountAll(init, t);
      assert forall i :: 0 <= i < |init| ==> init[i] == gs[i];
    }
  }

  /** The `JtsGeomStats` object: the per-type counts and the per-feature statistics. */
  class JtsGeomStats {
    var featureCounts: map<GeomType, int>
    var featureStats: seq<FeatureStats>

    /** The private constructor: a zero count for every geometry type, no feature statistics. */
    constructor ()
      ensures forall t :: t in featureCounts && featureCounts[t] == 0
      ensures featureStats == []
    {
      featureCounts := map[];
      featureStats := [];
      new;
      for k := 0 to |GEOM_TYPES|
        invariant featureCounts == map t | t in GEOM_TYPES[..k] :: 0
        invariant featureStats == []
      {
        assert GEOM_TYPES[..k + 1] == GEOM_TYPES[..k] + [GEOM_TYPES[k]];
        featureCounts := featureCounts[GEOM_TYPES[k] := 0];
      }
      assert GEOM_TYPES[..|GEOM_TYPES|] == GEOM_TYPES;
      forall t
        ensures t in featureCounts
      {
        AllGeomTypes(t);
      }
    }
  }

  /** The statistics of one more geometry. */
  method FeatureStatsOf(g: Geom) returns (r: FeatureStats)
    ensures r == StatsOf(g)
  {
    var geomType := ToGeomType(g);
    match geomType
    case POINT => r := PointStats(g.shape);
    case LINESTRING => r := LineStats(g.shape);
    case POLYGON => r := PolyStats(g.shape);
    case UNKNOWN => r := FeatureStats(0, 0);
  }

  /**
   * `getStats(flatGeomList)`: a count per type of the geometries of each type,
   * and one statistics entry per geometry, in input order.
   */
  method GetStats(flatGeomList: seq<Geom>) returns (stats: JtsGeomStats)
    ensures fresh(stats)
    ensures forall t :: t in stats.featureCounts && stats.featureCounts[t] == CountOf(flatGeomList, t)
    ensures |stats.featureStats| == |flatGeomList|
    ensures forall i :: 0 <= i < |flatGeomList| ==> stats.featureStats[i] == StatsOf(flatGeomList[i])
  {
    stats := new JtsGeomStats();
    for i := 0 to |flatGeomList|
      invariant forall t :: t in stats.featureCounts && stats.featureCounts[t] == CountOf(flatGeomList[..i], t)
      invariant |stats.featureStats| == i
      invariant forall j :: 0 <= j < i ==> stats.featureStats[j] == StatsOf(flatGeomList[j])
    {
      var nextGeom := flatGeomList[i];
      var geomType := ToGeomType(nextGeom);
      forall t
        ensures CountOf(flatGeomList[..i + 1], t) == CountOf(flatGeomList[..i], t) + (if geomType == t then 1 else 0)
      {
        CountOfStep(flatGeomList, i, t);
      }
      var value := if geomType in stats.featureCounts then stats.featureCounts[geomType] + 1 else 1;
      stats.featureCounts := stats.featureCounts[geomType := value];
      var next := FeatureStatsOf(nextGeom);
      stats.featureStats := stats.featureStats + [next];
    }
    assert flatGeomList[..|flatGeomList|] == flatGeomList;
  }

  /** Counting one more geometry adds one to its type's count and leaves the others alone. */
  lemma CountOfStep(gs: seq<Geom>, i: nat, t: GeomType)
    requires i < |gs|
    ensures CountOf(gs[..i + 1], t) == CountOf(gs[..i], t) + (if ToGeomType(gs[i]) == t then 1 else 0)
  {
    assert gs[..i + 1][..i] == gs[..i] && gs[..i + 1][i] == gs[i];
  }
}
