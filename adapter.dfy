/**
 * The encoding half of JtsAdapter: JTS geometries (already in tile
 * coordinates) to MVT features. Geometry commands are produced relative to a
 * moving cursor; duplicate points are dropped, polygon rings are re-oriented
 * and degenerate rings and polygons are left out.
 */
module Adapter {
  import opened Wrappers
  import opened Codec
  import opened Objects
  import opened Geometry
  import opened Cursor
  import opened LayerProps
  import opened VectorTile
  import opened UserDataConverter

  /** Commands produced from some cursor position, and where the cursor ends up. */
  datatype Encoded = Encoded(cmds: seq<Int32>, cursor: Coord)

  // ------------------------------------------------------------ moveCursor

  /** The two zigzag parameters of a move from `c` to `p`, with Java's wrapping subtraction. */
  function Delta(c: Coord, p: Coord): (r: seq<Int32>)
    ensures |r| == 2
  {
    [Param(c.x, p.x), Param(c.y, p.y)]
  }

  /** One zigzag parameter: `encodeZigZag(to - from)` on Java ints. */
  function Param(from: Int32, to: Int32): Int32 {
    EncodeZigZag(Wrap(to - from))
  }

  /** Whether a (wrapped) delta survives MvtUtil.decodeZigZag, whose arithmetic shift misreads 2^30 and beyond. */
  predicate Decodable(d: Int32) {
    -0x4000_0000 <= d < 0x4000_0000
  }

  /** Whether both wrapped differences of a move from `c` to `p` are decodable. */
  predicate Near(c: Coord, p: Coord) {
    Decodable(Wrap(p.x - c.x)) && Decodable(Wrap(p.y - c.y))
  }

  /** The parameter decodes to the wrapped difference when that difference is decodable. */
  lemma ParamDecodes(from: Int32, to: Int32)
    requires Decodable(Wrap(to - from))
    ensures DecodeZigZagAsWritten(Param(from, to)) == Wrap(to - from)
  {
    ZigZagAsWrittenRoundTrip(Wrap(to - from));
  }

  /**
   * Decoding the two parameters of a move and moving the cursor by them
   * lands on the target, overflow or not, when both deltas are decodable.
   */
  lemma DeltaMoves(c: Coord, p: Coord)
    requires Near(c, p)
    ensures Moved(c, DecodeZigZagAsWritten(Delta(c, p)[0]), DecodeZigZagAsWritten(Delta(c, p)[1])) == p
  {
    ParamDecodes(c.x, p.x);
    ParamDecodes(c.y, p.y);
    MovedByDelta(c, p);
  }

  /** The move from the origin to (2^30, 0) is written as the parameters 0x8000_0000 and 0. */
  lemma WideDelta()
    ensures Delta(ORIGIN, Coord(0x4000_0000, 0)) == [MIN_INT, 0]
  {
    ZigZagAsWrittenCounterexample();
    assert Wrap(0x4000_0000 - 0) == 0x4000_0000;
    assert Wrap(0 - 0) == 0;
  }

  /** The coordinates whose pairwise differences are all decodable: both within [-2^29, 2^29). */
  predicate InBox(p: Coord) {
    -0x2000_0000 <= p.x < 0x2000_0000 && -0x2000_0000 <= p.y < 0x2000_0000
  }

  predicate AllInBox(pts: seq<Coord>) {
    forall p | p in pts :: InBox(p)
  }

  /** Two positions in the box are near: no difference wraps, and none reaches 2^30. */
  lemma BoxNear(c: Coord, p: Coord)
    requires InBox(c) && InBox(p)
    ensures Near(c, p)
  {
  }

  /** The parameters of a walk from `c` through `pts`, each point relative to the one before. */
  function Deltas(c: Coord, pts: seq<Coord>): (r: seq<Int32>)
    ensures |r| == 2 * |pts|
    decreases |pts|
  {
    if pts == [] then [] else Delta(c, pts[0]) + Deltas(pts[0], pts[1..])
  }

  /** Whether every move of a walk from `c` through `pts` is near. */
  predicate NearWalk(c: Coord, pts: seq<Coord>)
    decreases |pts|
  {
    pts == [] || (Near(c, pts[0]) && NearWalk(pts[0], pts[1..]))
  }

  /** A walk inside the box is near. */
  lemma {:induction false} BoxWalk(c: Coord, pts: seq<Coord>)
    requires InBox(c) && AllInBox(pts)
    ensures NearWalk(c, pts)
    decreases |pts|
  {
    if pts != [] {
      assert pts[0] in pts;
      BoxNear(c, pts[0]);
      assert forall p | p in pts[1..] :: p in pts;
      BoxWalk(pts[0], pts[1..]);
    }
  }

  lemma {:induction false} DeltasSnoc(c: Coord, pts: seq<Coord>, p: Coord)
    ensures Deltas(c, pts + [p]) == Deltas(c, pts) + Delta(EndOf(c, pts), p)
    decreases |pts|
  {
    if pts == [] {
      assert [p][1..] == [];
    } else {
      assert (pts + [p])[0] == pts[0] && (pts + [p])[1..] == pts[1..] + [p];
      DeltasSnoc(pts[0], pts[1..], p);
      assert EndOf(pts[0], pts[1..]) == EndOf(c, pts);
      var d, e, f := Delta(c, pts[0]), Deltas(pts[0], pts[1..]), Delta(EndOf(c, pts), p);
      assert d + (e + f) == (d + e) + f;
    }
  }

  /** The points a cursor at `c` actually moves to: a point equal to where the cursor is is skipped. */
  function Dedup(c: Coord, pts: seq<Coord>): (r: seq<Coord>)
    ensures |r| <= |pts|
    decreases |pts|
  {
    if pts == [] then []
    else if pts[0] == c then Dedup(c, pts[1..])
    else [pts[0]] + Dedup(pts[0], pts[1..])
  }

  /**
   * What deduplication keeps: no point twice in a row and never the starting
   * position first, only points from the input, and all of them when the
   * input already had no repeats.
   */
  lemma {:induction false} DedupKeeps(c: Coord, pts: seq<Coord>)
    ensures var r := Dedup(c, pts);
      NoRepeats(r) && (r != [] ==> r[0] != c)
      && (forall p :: p in r ==> p in pts)
      && (NoRepeats(pts) && (pts != [] ==> pts[0] != c) ==> r == pts)
    decreases |pts|
  {
    if pts != [] {
      if pts[0] == c {
        DedupKeeps(c, pts[1..]);
      } else {
        DedupKeeps(pts[0], pts[1..]);
        assert NoRepeats(pts) ==> NoRepeats(pts[1..]);
      }
    }
  }

  /** One more point either is skipped or becomes the next kept one. */
  lemma DedupStep(c: Coord, pts: seq<Coord>, i: nat)
    requires i < |pts|
    ensures pts[i] == c ==> Dedup(c, pts[i..]) == Dedup(c, pts[i + 1..])
    ensures pts[i] != c ==> Dedup(c, pts[i..]) == [pts[i]] + Dedup(pts[i], pts[i + 1..])
  {
    assert pts[i..][0] == pts[i] && pts[i..][1..] == pts[i + 1..];
  }

  /** The commands written so far, extended by one more move, are the commands of the longer walk. */
  lemma DeltasAppend(prefix: seq<Int32>, c: Coord, kept: seq<Coord>, p: Coord)
    ensures prefix + Deltas(c, kept) + Delta(EndOf(c, kept), p) == prefix + Deltas(c, kept + [p])
  {
    DeltasSnoc(c, kept, p);
    assert prefix + Deltas(c, kept) + Delta(EndOf(c, kept), p) == prefix + (Deltas(c, kept) + Delta(EndOf(c, kept), p));
  }

  /** The points kept so far and those still to come, after one more point is looked at. */
  lemma DedupAdvance(whole: seq<Coord>, kept: seq<Coord>, cur: Coord, pts: seq<Coord>, i: nat)
    requires i < |pts| && whole == kept + Dedup(cur, pts[i..])
    ensures pts[i] == cur ==> whole == kept + Dedup(cur, pts[i + 1..])
    ensures pts[i] != cur ==> whole == (kept + [pts[i]]) + Dedup(pts[i], pts[i + 1..])
  {
    DedupStep(cur, pts, i);
    if pts[i] != cur {
      assert kept + ([pts[i]] + Dedup(pts[i], pts[i + 1..])) == (kept + [pts[i]]) + Dedup(pts[i], pts[i + 1..]);
    }
  }

  // ------------------------------------------------------------ countCoordRepeatReverse

  /** How many elements at the end of `s` equal `x`. */
  function TrailingCount(s: seq<Coord>, x: Coord): (n: nat)
    ensures n <= |s|
    decreases |s|
  {
    if s == [] || Last(s) != x then 0 else 1 + TrailingCount(s[..|s| - 1], x)
  }

  /** The count is exact: the last `n` elements equal `x`, and the one before them, if any, does not. */
  lemma {:induction false} TrailingCountExact(s: seq<Coord>, x: Coord)
    ensures var n := TrailingCount(s, x);
      (forall i :: |s| - n <= i < |s| ==> s[i] == x) && (n < |s| ==> s[|s| - 1 - n] != x)
    decreases |s|
  {
    if s != [] && Last(s) == x {
      var p := s[..|s| - 1];
      TrailingCountExact(p, x);
      assert forall i :: |p| - TrailingCount(p, x) <= i < |p| ==> s[i] == p[i];
    }
  }

  /** `countCoordRepeatReverse`: the copies of the first coordinate at the end, the first itself not counted. */
  function RepeatCount(coords: seq<Coord>): (n: nat)
    requires |coords| > 0
    ensures n < |coords|
  {
    TrailingCount(coords[1..], coords[0])
  }

  /** The source's backward scan. */
  method CountCoordRepeatReverse(coords: seq<Coord>) returns (repeatCoords: int)
    requires |coords| > 0
    ensures repeatCoords == RepeatCount(coords)
  {
    repeatCoords := 0;
    var firstCoord := coords[0];
    var i := |coords| - 1;
    while i > 0
      invariant 0 <= i < |coords|
      invariant repeatCoords == |coords| - 1 - i
      invariant forall j :: i < j < |coords| ==> coords[j] == firstCoord
    {
      if coords[i] == firstCoord {
        repeatCoords := repeatCoords + 1;
      } else {
        break;
      }
      i := i - 1;
    }
    TrailingCountExact(coords[1..], firstCoord);
  }

  // ------------------------------------------------------------ ptsToGeomCmds

  /** The points a point geometry keeps: the first always, then every point that moves the cursor. */
  function KeptPoints(coords: seq<Coord>): (r: seq<Coord>)
    requires |coords| > 0
    ensures 0 < |r| <= |coords| && r[0] == coords[0]
  {
    [coords[0]] + Dedup(coords[0], coords[1..])
  }

  /**
   * `ptsToGeomCmds`: one MoveTo carrying every kept point. Nothing for no
   * points, and nothing when the count does not fit a header, although the
   * cursor has then already moved.
   */
  function PtsCmds(coords: seq<Coord>, c: Coord): (r: Encoded)
    ensures r.cmds == [] <==> coords == [] || |KeptPoints(coords)| > GEOM_CMD_HDR_LEN_MAX
    ensures r.cmds != [] ==>
      r.cmds[0] == GeomCmdHdr(MoveTo, |KeptPoints(coords)|) && |r.cmds| == 1 + 2 * |KeptPoints(coords)|
  {
    if coords == [] then Encoded([], c)
    else
      var kept := KeptPoints(coords);
      if |kept| <= GEOM_CMD_HDR_LEN_MAX then Encoded([GeomCmdHdr(MoveTo, |kept|)] + Deltas(c, kept), Last(kept))
      else Encoded([], Last(kept))
  }

  // ------------------------------------------------------------ linesToGeomCmds

  /** How many coordinates a line or ring contributes: a ring's repeated closing coordinates are dropped. */
  function ProcCount(coords: seq<Coord>, closeEnabled: bool): (n: nat)
    requires closeEnabled ==> |coords| > 0
    ensures n <= |coords|
    ensures closeEnabled ==> n > 0
  {
    if closeEnabled then |coords| - RepeatCount(coords) else |coords|
  }

  /**
   * `linesToGeomCmds`: a MoveTo to the first coordinate, a LineTo through the
   * following ones that move the cursor, and a ClosePath for a ring. With
   * fewer than two coordinates to process, or a LineTo shorter than
   * `minLineToLen` or too long for a header, nothing is written and the
   * cursor stays where it was.
   */
  function LinesCmds(coords: seq<Coord>, closeEnabled: bool, c: Coord, minLineToLen: int): (r: Encoded)
    requires closeEnabled ==> |coords| > 0
    ensures r.cmds == [] ==> r.cursor == c
    ensures r.cmds != [] ==> 4 + 2 * minLineToLen + (if closeEnabled then 1 else 0) <= |r.cmds|
  {
    var procCount := ProcCount(coords, closeEnabled);
    if procCount < 2 then Encoded([], c)
    else
      var kept := Dedup(coords[0], coords[1..procCount]);
      var lineToLength := |kept|;
      if minLineToLen <= lineToLength <= GEOM_CMD_HDR_LEN_MAX then
        Encoded([GeomCmdHdr(MoveTo, 1)] + Delta(c, coords[0]) + [GeomCmdHdr(LineTo, lineToLength)]
          + Deltas(coords[0], kept) + (if closeEnabled then [CLOSE_PATH_HDR] else []), EndOf(coords[0], kept))
      else Encoded([], c)
  }

  // ------------------------------------------------------------ toFeature: lines and polygons

  /** The line components of a (multi-)line string, in order, the cursor carried from one to the next. */
  function LinesListCmds(lines: seq<seq<Coord>>, c: Coord): (r: Encoded)
    ensures lines == [] ==> r == Encoded([], c)
    decreases |lines|
  {
    if lines == [] then Encoded([], c)
    else
      var first := LinesCmds(lines[0], false, c, 1);
      var rest := LinesListCmds(lines[1..], first.cursor);
      Encoded(first.cmds + rest.cmds, rest.cursor)
  }

  /** The interior rings after the exterior one: their commands, the cursor, and whether the polygon stays valid. */
  datatype HolesOutcome = HolesOutcome(cmds: seq<Int32>, cursor: Coord, valid: bool)

  /** What the interior-ring loop does with a ring. */
  datatype RingVerdict = Skip | Spoil | Keep

  /** A ring whose area rounds to zero is skipped; one at least as large as the exterior ring spoils the polygon. */
  function Verdict(ring: seq<Coord>, exteriorArea: int): (v: RingVerdict)
  {
    var interiorArea := DoubledArea(ring);
    if RoundsToZero(interiorArea) then Skip
    else if Abs(exteriorArea) <= Abs(interiorArea) then Spoil
    else Keep
  }

  /**
   * The interior-ring loop: a ring whose area rounds to zero is skipped, a
   * clockwise one (in y-up terms, a negative area) is reversed, and a ring at
   * least as large as the exterior one makes the whole polygon invalid.
   */
  function HolesCmds(holes: seq<seq<Coord>>, exteriorArea: int, c: Coord): (r: HolesOutcome)
    ensures !r.valid ==> r.cmds == []
    decreases |holes|
  {
    if holes == [] then HolesOutcome([], c, true)
    else
      match Verdict(holes[0], exteriorArea)
      case Skip => HolesCmds(holes[1..], exteriorArea, c)
      case Spoil => HolesOutcome([], c, false)
      case Keep =>
        var first := LinesCmds(HoleRing(holes[0]), true, c, 2);
        var rest := HolesCmds(holes[1..], exteriorArea, first.cursor);
        if rest.valid then HolesOutcome(first.cmds + rest.cmds, rest.cursor, true)
        else HolesOutcome([], rest.cursor, false)
  }

  /** An interior ring made clockwise in y-up terms (a positive doubled area). */
  function HoleRing(ring: seq<Coord>): (r: seq<Coord>)
    requires !RoundsToZero(DoubledArea(ring))
    ensures |r| == |ring| > 0
  {
    if DoubledArea(ring) < 0 then Reverse(ring) else ring
  }

  /** The polygon stays valid exactly when no interior ring spoils it. */
  lemma {:induction false} HolesValid(holes: seq<seq<Coord>>, exteriorArea: int, c: Coord)
    ensures HolesCmds(holes, exteriorArea, c).valid <==>
      forall i :: 0 <= i < |holes| ==> Verdict(holes[i], exteriorArea) != Spoil
    decreases |holes|
  {
    if holes != [] {
      var v := Verdict(holes[0], exteriorArea);
      var c1 := if v.Keep? then LinesCmds(HoleRing(holes[0]), true, c, 2).cursor else c;
      HolesValid(holes[1..], exteriorArea, c1);
      assert HolesCmds(holes, exteriorArea, c).valid <==>
        v != Spoil && HolesCmds(holes[1..], exteriorArea, c1).valid;
      AllButFirst(holes, exteriorArea);
    }
  }

  lemma AllButFirst(holes: seq<seq<Coord>>, exteriorArea: int)
    requires holes != []
    ensures (forall i :: 0 <= i < |holes| ==> Verdict(holes[i], exteriorArea) != Spoil) <==>
      Verdict(holes[0], exteriorArea) != Spoil
      && forall i :: 0 <= i < |holes[1..]| ==> Verdict(holes[1..][i], exteriorArea) != Spoil
  {
    assert forall i :: 1 <= i < |holes| ==> holes[i] == holes[1..][i - 1];
  }

  /**
   * One polygon: skipped when its exterior ring's area rounds to zero; the
   * exterior ring is made counter-clockwise in y-up terms (a negative doubled
   * area here), clockwise in the tile's y-down terms. An invalid polygon adds
   * nothing, but the cursor keeps the moves its rings made.
   */
  function PolyCmds(poly: Polygon, c: Coord): (r: Encoded)
    ensures RoundsToZero(DoubledArea(poly.shell)) ==> r == Encoded([], c)
  {
    var exteriorArea := DoubledArea(poly.shell);
    if RoundsToZero(exteriorArea) then Encoded([], c)
    else
      var ext := if exteriorArea > 0 then Reverse(poly.shell) else poly.shell;
      var e := LinesCmds(ext, true, c, 2);
      var h := HolesCmds(poly.holes, exteriorArea, e.cursor);
      if h.valid then Encoded(e.cmds + h.cmds, h.cursor) else Encoded([], h.cursor)
  }

  /** The polygon components of a (multi-)polygon, in order, the cursor carried from one to the next. */
  function PolysCmds(polys: seq<Polygon>, c: Coord): (r: Encoded)
    ensures polys == [] ==> r == Encoded([], c)
    decreases |polys|
  {
    if polys == [] then Encoded([], c)
    else
      var first := PolyCmds(polys[0], c);
      var rest := PolysCmds(polys[1..], first.cursor);
      Encoded(first.cmds + rest.cmds, rest.cursor)
  }

  /** The geometry commands of a feature, the cursor starting at the origin. */
  function GeomCmds(g: Geom): (cmds: seq<Int32>)
    ensures !IsSimple(g.shape) ==> cmds == []
  {
    if g.shape.Point? || g.shape.MultiPoint? then PtsCmds(PointsOf(g.shape), ORIGIN).cmds
    else if g.shape.LineString? || g.shape.MultiLineString? then LinesListCmds(LinesOf(g.shape), ORIGIN).cmds
    else if g.shape.PolygonShape? || g.shape.MultiPolygon? then PolysCmds(PolygonsOf(g.shape), ORIGIN).cmds
    else []
  }

  // ------------------------------------------------------------ toFeature, addFeatures

  /** The outcome of `toFeature`: the tables afterwards, and no feature, a feature, or the converter's exception. */
  datatype FeatureOutcome = FeatureOutcome(tables: Tables, feature: Result<Option<Feature>>)

  /**
   * `toFeature`: no feature for an unsupported geometry or one that encodes
   * to no commands; otherwise a feature of the geometry's type, tagged by the
   * converter when there is one and the geometry has user data.
   */
  function ToFeatureSpec(g: Geom, t: Tables, conv: Option<UserDataConverter>): (r: FeatureOutcome)
    requires ValidTables(t)
    ensures ValidTables(r.tables) && Extends(t, r.tables)
  {
    var geomType := ToGeomType(g);
    if geomType == UNKNOWN then FeatureOutcome(t, Ok(None))
    else
      var cmds := GeomCmds(g);
      if cmds == [] then FeatureOutcome(t, Ok(None))
      else
        var fb := Feature(None, geomType, [], cmds);
        if conv.None? || g.userData.None? then FeatureOutcome(t, Ok(Some(fb)))
        else
          var o := ConvertSpec(conv.value, g.userData.value, t, fb);
          FeatureOutcome(o.tables, if o.feature.Err? then Err(o.feature.error) else Ok(Some(o.feature.value)))
  }

  /**
   * What `toFeature` promises: no feature for an unsupported geometry or one
   * without commands; a feature carries the geometry's type and commands; and
   * without a converter or user data the tables stay as they are.
   */
  lemma ToFeatureResult(g: Geom, t: Tables, conv: Option<UserDataConverter>)
    requires ValidTables(t)
    ensures var r := ToFeatureSpec(g, t, conv);
      (ToGeomType(g) == UNKNOWN || GeomCmds(g) == [] ==> r == FeatureOutcome(t, Ok(None)))
      && (r.feature.Ok? && r.feature.value.Some? ==>
        r.feature.value.value.geomType == ToGeomType(g) != UNKNOWN
        && r.feature.value.value.geometry == GeomCmds(g) != [])
      && (conv.None? || g.userData.None? ==> r.tables == t && r.feature.Ok?)
  {
  }

  /** The outcome of `addFeatures`: the tables afterwards, and the features added or the exception. */
  datatype FeaturesOutcome = FeaturesOutcome(tables: Tables, features: Result<seq<Feature>>)

  /** The features a converted geometry contributes: none, or the one feature. */
  function Mine(f: Option<Feature>): (r: seq<Feature>)
    ensures |r| <= 1
  {
    if f.Some? then [f.value] else []
  }

  /** `addFeatures` over a list: each geometry's feature, when it has one, in order; an exception stops the loop. */
  function AddFeaturesSpec(gs: seq<Geom>, t: Tables, conv: Option<UserDataConverter>): (r: FeaturesOutcome)
    requires ValidTables(t)
    ensures ValidTables(r.tables) && Extends(t, r.tables)
    ensures r.features.Ok? ==> |r.features.value| <= |gs|
    decreases |gs|
  {
    if gs == [] then FeaturesOutcome(t, Ok([]))
    else
      var first := ToFeatureSpec(gs[0], t, conv);
      if first.feature.Err? then FeaturesOutcome(first.tables, Err(first.feature.error))
      else
        var rest := AddFeaturesSpec(gs[1..], first.tables, conv);
        if rest.features.Err? then rest
        else
          FeaturesOutcome(rest.tables, Ok(Mine(first.feature.value) + rest.features.value))
  }

  /** A JTS `GeometryCollection`, which the multi-geometries are subclasses of. */
  predicate IsCollection(s: Shape) {
    s.GeometryCollection? || s.MultiPoint? || s.MultiLineString? || s.MultiPolygon?
  }

  /** `collectFlatGeometries`: the six supported geometries, found by walking nested collections; others are dropped. */
  function CollectFlat(g: Geom): (r: seq<Geom>)
    ensures forall x :: x in r ==> IsSimple(x.shape)
    ensures IsSimple(g.shape) ==> r == [g]
    decreases g
  {
    if IsSimple(g.shape) then [g]
    else if g.shape.GeometryCollection? then CollectAll(g.shape.parts)
    else []
  }

  /** Flattening every member of a collection, in order. */
  function CollectAll(gs: seq<Geom>): (r: seq<Geom>)
    ensures forall x :: x in r ==> IsSimple(x.shape)
    decreases gs
  {
    if gs == [] then []
    else
      var first := CollectFlat(gs[0]);
      var rest := CollectAll(gs[1..]);
      assert forall x :: x in first + rest ==> x in first || x in rest;
      first + rest
  }

  /** `addFeatures` for one geometry: a collection is flattened first. */
  function AddGeometrySpec(g: Geom, t: Tables, conv: Option<UserDataConverter>): (r: FeaturesOutcome)
    requires ValidTables(t)
    ensures ValidTables(r.tables) && Extends(t, r.tables)
  {
    if !IsCollection(g.shape) then
      var f := ToFeatureSpec(g, t, conv);
      if f.feature.Err? then FeaturesOutcome(f.tables, Err(f.feature.error))
      else FeaturesOutcome(f.tables, Ok(if f.feature.value.Some? then [f.feature.value.value] else []))
    else AddFeaturesSpec(CollectFlat(g), t, conv)
  }

  // ------------------------------------------------------------ the encoding methods

  /** `moveCursor`: appends the zigzag delta from the cursor to `mvtPos`, then moves the cursor there. */
  method MoveCursor(cursor: Vec2d, geomCmds: seq<Int32>, mvtPos: Vec2d) returns (cmds: seq<Int32>)
    modifies cursor
    ensures cmds == geomCmds + Delta(old(cursor.Value()), old(mvtPos.Value()))
    ensures cursor.Value() == old(mvtPos.Value())
  {
    cmds := geomCmds + [Param(cursor.x, mvtPos.x), Param(cursor.y, mvtPos.y)];
    cursor.SetVec(mvtPos);
  }

  /** Patching the placeholder header word of a command list. */
  lemma PatchFirst(hdr: Int32, rest: seq<Int32>)
    ensures ([0] + rest)[0 := hdr] == [hdr] + rest
  {
  }

  /** `ptsToGeomCmds`, with the MoveTo header patched in after the loop. */
  method PtsToGeomCmds(coords: seq<Coord>, cursor: Vec2d) returns (geomCmds: seq<Int32>)
    modifies cursor
    ensures Encoded(geomCmds, cursor.Value()) == PtsCmds(coords, old(cursor.Value()))
  {
    if |coords| == 0 {
      return [];
    }
    ghost var c0 := cursor.Value();
    ghost var whole := KeptPoints(coords);
    ghost var kept: seq<Coord> := [];
    geomCmds := [0];
    var moveCmdLen := 0;
    var i := 0;
    while i < |coords|
      invariant 0 <= i <= |coords|
      invariant moveCmdLen == |kept|
      invariant geomCmds == [0] + Deltas(c0, kept)
      invariant cursor.Value() == EndOf(c0, kept)
      invariant i == 0 ==> kept == []
      invariant i > 0 ==> kept != [] && whole == kept + Dedup(Last(kept), coords[i..])
    {
      var nextCoord := coords[i];
      var mvtPos := new Vec2d(nextCoord.x, nextCoord.y);
      var keep := true;
      if i > 0 {
        var same := cursor.Equals(mvtPos);
        keep := !same;
        DedupAdvance(whole, kept, Last(kept), coords, i);
      } else {
        assert whole == [nextCoord] + Dedup(nextCoord, coords[1..]);
        assert kept + [nextCoord] == [nextCoord];
      }
      if keep {
        moveCmdLen := moveCmdLen + 1;
        DeltasAppend([0], c0, kept, nextCoord);
        geomCmds := MoveCursor(cursor, geomCmds, mvtPos);
        kept := kept + [nextCoord];
      }
      i := i + 1;
    }
    assert coords[i..] == [];
    assert whole == kept;
    if moveCmdLen <= GEOM_CMD_HDR_LEN_MAX {
      PatchFirst(GeomCmdHdr(MoveTo, moveCmdLen), Deltas(c0, kept));
      geomCmds := geomCmds[0 := GeomCmdHdr(MoveTo, moveCmdLen)];
    } else {
      geomCmds := [];
    }
  }

  /**
   * The LineTo loop of `linesToGeomCmds`: moves the cursor to each point in
   * turn, skipping a point equal to where the cursor already is, and counts
   * the moves.
   */
  method AppendLineTo(pts: seq<Coord>, cursor: Vec2d, geomCmds: seq<Int32>) returns (cmds: seq<Int32>, lineToLength: int)
    modifies cursor
    ensures cmds == geomCmds + Deltas(old(cursor.Value()), Dedup(old(cursor.Value()), pts))
    ensures lineToLength == |Dedup(old(cursor.Value()), pts)|
    ensures cursor.Value() == EndOf(old(cursor.Value()), Dedup(old(cursor.Value()), pts))
  {
    ghost var c0 := cursor.Value();
    ghost var whole := Dedup(c0, pts);
    ghost var kept: seq<Coord> := [];
    ghost var cur := c0;
    var mvtPos := new Vec2d.Origin();
    cmds := geomCmds;
    lineToLength := 0;
    var i := 0;
    assert pts[0..] == pts;
    while i < |pts|
      invariant 0 <= i <= |pts|
      invariant lineToLength == |kept|
      invariant cmds == geomCmds + Deltas(c0, kept)
      invariant cur == EndOf(c0, kept) && cursor.Value() == cur
      invariant whole == kept + Dedup(cur, pts[i..])
    {
      var nextCoord := pts[i];
      mvtPos.SetX(nextCoord.x);
      mvtPos.SetY(nextCoord.y);
      var same := cursor.Equals(mvtPos);
      DedupAdvance(whole, kept, cur, pts, i);
      if !same {
        lineToLength := lineToLength + 1;
        DeltasAppend(geomCmds, c0, kept, nextCoord);
        cmds := MoveCursor(cursor, cmds, mvtPos);
        kept := kept + [nextCoord];
        cur := nextCoord;
      }
      i := i + 1;
    }
    assert pts[i..] == [];
    assert whole == kept + [];
    assert whole == kept;
  }

  /** Writing the LineTo header over its placeholder, the fourth command. */
  lemma PatchHeader(moveTo: Int32, delta: seq<Int32>, lineTo: Int32, rest: seq<Int32>)
    requires |delta| == 2
    ensures ([moveTo] + delta + [0] + rest)[3 := lineTo] == [moveTo] + delta + [lineTo] + rest
  {
  }

  /** The two outcomes of a line component with at least two points to process, spelled out. */
  lemma LinesCmdsOutcome(coords: seq<Coord>, closeEnabled: bool, c: Coord, minLineToLen: int)
    requires (closeEnabled ==> |coords| > 0) && ProcCount(coords, closeEnabled) >= 2
    ensures var kept := Dedup(coords[0], coords[1..ProcCount(coords, closeEnabled)]);
      var r := LinesCmds(coords, closeEnabled, c, minLineToLen);
      if minLineToLen <= |kept| <= GEOM_CMD_HDR_LEN_MAX then
        r == Encoded([GeomCmdHdr(MoveTo, 1)] + Delta(c, coords[0]) + [GeomCmdHdr(LineTo, |kept|)]
          + Deltas(coords[0], kept) + (if closeEnabled then [CLOSE_PATH_HDR] else []), EndOf(coords[0], kept))
      else r == Encoded([], c)
  {
  }

  /** `linesToGeomCmds`, with the LineTo header patched in after the loop and the cursor restored on failure. */
  method LinesToGeomCmds(coords: seq<Coord>, closeEnabled: bool, cursor: Vec2d, minLineToLen: int)
    returns (geomCmds: seq<Int32>)
    requires closeEnabled ==> |coords| > 0
    modifies cursor
    ensures Encoded(geomCmds, cursor.Value()) == LinesCmds(coords, closeEnabled, old(cursor.Value()), minLineToLen)
  {
    var geomProcCoordCount;
    if closeEnabled {
      var repeatEndCoordCount := CountCoordRepeatReverse(coords);
      geomProcCoordCount := |coords| - repeatEndCoordCount;
    } else {
      geomProcCoordCount := |coords|;
    }
    assert ProcCount(coords, closeEnabled) == geomProcCoordCount;
    if geomProcCoordCount < 2 {
      return [];
    }
    geomCmds := LineToGeomCmds(coords, geomProcCoordCount, closeEnabled, cursor, minLineToLen);
  }

  /** The part of `linesToGeomCmds` after the count check: at least two coordinates are to be written. */
  method LineToGeomCmds(coords: seq<Coord>, geomProcCoordCount: nat, closeEnabled: bool, cursor: Vec2d, minLineToLen: int)
    returns (geomCmds: seq<Int32>)
    requires closeEnabled ==> |coords| > 0
    requires geomProcCoordCount == ProcCount(coords, closeEnabled) >= 2
    modifies cursor
    ensures Encoded(geomCmds, cursor.Value()) == LinesCmds(coords, closeEnabled, old(cursor.Value()), minLineToLen)
  {
    ghost var c0 := cursor.Value();
    LinesCmdsOutcome(coords, closeEnabled, c0, minLineToLen);
    var origCursorPos := new Vec2d.Copy(cursor);
    var nextCoord := coords[0];
    var mvtPos := new Vec2d(nextCoord.x, nextCoord.y);
    geomCmds := [GeomCmdHdr(MoveTo, 1)];
    geomCmds := MoveCursor(cursor, geomCmds, mvtPos);
    var lineToCmdHdrIndex := |geomCmds|;
    geomCmds := geomCmds + [0];
    var lineToLength;
    geomCmds, lineToLength := AppendLineTo(coords[1..geomProcCoordCount], cursor, geomCmds);
    ghost var kept := Dedup(nextCoord, coords[1..geomProcCoordCount]);
    if minLineToLen <= lineToLength && lineToLength <= GEOM_CMD_HDR_LEN_MAX {
      PatchHeader(GeomCmdHdr(MoveTo, 1), Delta(c0, nextCoord), GeomCmdHdr(LineTo, lineToLength), Deltas(nextCoord, kept));
      geomCmds := geomCmds[lineToCmdHdrIndex := GeomCmdHdr(LineTo, lineToLength)]
        + (if closeEnabled then [CLOSE_PATH_HDR] else []);
    } else {
      cursor.SetVec(origCursorPos);
      geomCmds := [];
    }
  }

  /** One more line component: the rest of the list is encoded from where this one leaves the cursor. */
  lemma LinesListStep(lines: seq<seq<Coord>>, i: nat, c: Coord, acc: seq<Int32>)
    requires i < |lines|
    ensures var first := LinesCmds(lines[i], false, c, 1);
      var rest := LinesListCmds(lines[i + 1..], first.cursor);
      LinesListCmds(lines[i..], c).cursor == rest.cursor
      && acc + LinesListCmds(lines[i..], c).cmds == (acc + first.cmds) + rest.cmds
  {
    assert lines[i..][0] == lines[i] && lines[i..][1..] == lines[i + 1..];
    var first := LinesCmds(lines[i], false, c, 1);
    var rest := LinesListCmds(lines[i + 1..], first.cursor);
    assert acc + (first.cmds + rest.cmds) == (acc + first.cmds) + rest.cmds;
  }

  /** The line loop of `toFeature`: every component in turn, the cursor carried along. */
  method LinesListToGeomCmds(lines: seq<seq<Coord>>, cursor: Vec2d) returns (mvtGeom: seq<Int32>)
    modifies cursor
    ensures Encoded(mvtGeom, cursor.Value()) == LinesListCmds(lines, old(cursor.Value()))
  {
    ghost var whole := LinesListCmds(lines, cursor.Value());
    mvtGeom := [];
    var i := 0;
    assert lines[0..] == lines;
    while i < |lines|
      invariant 0 <= i <= |lines|
      invariant whole.cmds == mvtGeom + LinesListCmds(lines[i..], cursor.Value()).cmds
      invariant whole.cursor == LinesListCmds(lines[i..], cursor.Value()).cursor
    {
      ghost var first := LinesCmds(lines[i], false, cursor.Value(), 1);
      ghost var rest := LinesListCmds(lines[i + 1..], first.cursor);
      LinesListStep(lines, i, cursor.Value(), mvtGeom);
      var cmds := LinesToGeomCmds(lines[i], false, cursor, 1);
      assert cmds == first.cmds && cursor.Value() == first.cursor;
      mvtGeom := mvtGeom + cmds;
      i := i + 1;
      assert whole.cmds == mvtGeom + rest.cmds && whole.cursor == rest.cursor;
    }
    assert lines[i..] == [];
    assert mvtGeom + [] == mvtGeom;
  }

  /** What the interior rings after `acc` come to, once the rest of them are encoded. */
  function AfterHoles(acc: seq<Int32>, h: HolesOutcome): HolesOutcome {
    if h.valid then HolesOutcome(acc + h.cmds, h.cursor, true) else HolesOutcome([], h.cursor, false)
  }

  /** One more interior ring that is kept. */
  lemma HolesStep(holes: seq<seq<Coord>>, i: nat, exteriorArea: int, c: Coord, acc: seq<Int32>)
    requires i < |holes| && Verdict(holes[i], exteriorArea) == Keep
    ensures var first := LinesCmds(HoleRing(holes[i]), true, c, 2);
      AfterHoles(acc, HolesCmds(holes[i..], exteriorArea, c))
      == AfterHoles(acc + first.cmds, HolesCmds(holes[i + 1..], exteriorArea, first.cursor))
  {
    assert holes[i..][0] == holes[i] && holes[i..][1..] == holes[i + 1..];
    var first := LinesCmds(HoleRing(holes[i]), true, c, 2);
    var rest := HolesCmds(holes[i + 1..], exteriorArea, first.cursor);
    assert acc + (first.cmds + rest.cmds) == (acc + first.cmds) + rest.cmds;
  }

  /** An interior ring that is skipped or spoils the polygon. */
  lemma HolesSkipOrSpoil(holes: seq<seq<Coord>>, i: nat, exteriorArea: int, c: Coord)
    requires i < |holes|
    ensures Verdict(holes[i], exteriorArea) == Skip ==>
      HolesCmds(holes[i..], exteriorArea, c) == HolesCmds(holes[i + 1..], exteriorArea, c)
    ensures Verdict(holes[i], exteriorArea) == Spoil ==>
      HolesCmds(holes[i..], exteriorArea, c) == HolesOutcome([], c, false)
  {
    assert holes[i..][0] == holes[i] && holes[i..][1..] == holes[i + 1..];
  }

  /**
   * A square over the whole int range has a doubled area below -2^64, so
   * `Math.round` clamps it to Long.MIN_VALUE, which is 0 as an int: the
   * polygon is skipped and writes nothing.
   */
  lemma HugeSquareSkipped(sq: seq<Coord>)
    requires sq == [Coord(MIN_INT, MIN_INT), Coord(MAX_INT, MIN_INT), Coord(MAX_INT, MAX_INT),
                    Coord(MIN_INT, MAX_INT), Coord(MIN_INT, MIN_INT)]
    ensures DoubledArea(sq) == -2 * (0x1_0000_0000 - 1) * (0x1_0000_0000 - 1)
    ensures RoundsToZero(DoubledArea(sq))
    ensures PolyCmds(Polygon(sq, []), ORIGIN) == Encoded([], ORIGIN)
  {
    var side := 0x1_0000_0000 - 1;
    assert Pairwise(sq[..2]) == MIN_INT * side by {
      assert sq[..2][..1] == [sq[0]];
    }
    assert Pairwise(sq[..3]) == MIN_INT * side - MAX_INT * side by {
      assert sq[..3][..2] == sq[..2];
    }
    assert Pairwise(sq[..4]) == MIN_INT * side - 2 * MAX_INT * side by {
      assert sq[..4][..3] == sq[..3];
    }
    assert Pairwise(sq) == 2 * MIN_INT * side - 2 * MAX_INT * side by {
      assert sq[..4] == sq[..|sq| - 1];
    }
    RoundsToZeroClamped(DoubledArea(sq));
  }

  /**
   * The interior-ring loop of `toFeature`: the commands of the kept rings, and
   * whether the polygon is still valid; an invalid polygon keeps no command.
   */
  method HolesToGeomCmds(holes: seq<seq<Coord>>, exteriorArea: int, cursor: Vec2d)
    returns (holesGeom: seq<Int32>, valid: bool)
    modifies cursor
    ensures HolesOutcome(holesGeom, cursor.Value(), valid) == HolesCmds(holes, exteriorArea, old(cursor.Value()))
  {
    ghost var whole := HolesCmds(holes, exteriorArea, cursor.Value());
    holesGeom := [];
    valid := true;
    var ringIndex := 0;
    assert holes[0..] == holes;
    assert AfterHoles([], whole) == whole;
    while ringIndex < |holes|
      invariant 0 <= ringIndex <= |holes|
      invariant whole == AfterHoles(holesGeom, HolesCmds(holes[ringIndex..], exteriorArea, cursor.Value()))
    {
      var nextInteriorRing := holes[ringIndex];
      var interiorArea := DoubledArea(nextInteriorRing);
      HolesSkipOrSpoil(holes, ringIndex, exteriorArea, cursor.Value());
      if RoundsToZero(interiorArea) {
        ringIndex := ringIndex + 1;
        continue;
      }
      if interiorArea < 0 {
        nextInteriorRing := Reverse(nextInteriorRing);
      }
      if Abs(exteriorArea) <= Abs(interiorArea) {
        holesGeom, valid := [], false;
        return;
      }
      assert nextInteriorRing == HoleRing(holes[ringIndex]);
      HolesStep(holes, ringIndex, exteriorArea, cursor.Value(), holesGeom);
      var cmds := LinesToGeomCmds(nextInteriorRing, true, cursor, 2);
      holesGeom := holesGeom + cmds;
      ringIndex := ringIndex + 1;
    }
    assert holes[ringIndex..] == [];
  }

  /**
   * One polygon of `toFeature`: its exterior ring and then its interior
   * rings; the commands are kept only while the polygon stays valid.
   */
  method PolyToGeomCmds(poly: Polygon, cursor: Vec2d) returns (polyGeom: seq<Int32>)
    modifies cursor
    ensures Encoded(polyGeom, cursor.Value()) == PolyCmds(poly, old(cursor.Value()))
  {
    var exteriorArea := DoubledArea(poly.shell);
    if RoundsToZero(exteriorArea) {
      return [];
    }
    var exteriorRing := poly.shell;
    if exteriorArea > 0 {
      exteriorRing := Reverse(exteriorRing);
    }
    var nextPolyGeom := LinesToGeomCmds(exteriorRing, true, cursor, 2);
    var holesGeom, valid := HolesToGeomCmds(poly.holes, exteriorArea, cursor);
    if valid {
      polyGeom := nextPolyGeom + holesGeom;
    } else {
      polyGeom := [];
    }
  }

  lemma ConcatAssoc(a: seq<Int32>, b: seq<Int32>, c: seq<Int32>)
    ensures a + (b + c) == (a + b) + c
  {
  }

  /** One more polygon component. */
  lemma PolysStep(polys: seq<Polygon>, i: nat, c: Coord, acc: seq<Int32>)
    requires i < |polys|
    ensures var first := PolyCmds(polys[i], c);
      var rest := PolysCmds(polys[i + 1..], first.cursor);
      PolysCmds(polys[i..], c).cursor == rest.cursor
      && acc + PolysCmds(polys[i..], c).cmds == (acc + first.cmds) + rest.cmds
  {
    assert polys[i..][0] == polys[i] && polys[i..][1..] == polys[i + 1..];
    var first := PolyCmds(polys[i], c);
    var rest := PolysCmds(polys[i + 1..], first.cursor);
    ConcatAssoc(acc, first.cmds, rest.cmds);
  }

  /** The polygon loop of `toFeature`: every component in turn, the cursor carried along. */
  method PolysToGeomCmds(polys: seq<Polygon>, cursor: Vec2d) returns (mvtGeom: seq<Int32>)
    modifies cursor
    ensures Encoded(mvtGeom, cursor.Value()) == PolysCmds(polys, old(cursor.Value()))
  {
    ghost var whole := PolysCmds(polys, cursor.Value());
    mvtGeom := [];
    var i := 0;
    assert polys[0..] == polys;
    while i < |polys|
      invariant 0 <= i <= |polys|
      invariant whole.cmds == mvtGeom + PolysCmds(polys[i..], cursor.Value()).cmds
      invariant whole.cursor == PolysCmds(polys[i..], cursor.Value()).cursor
    {
      ghost var first := PolyCmds(polys[i], cursor.Value());
      ghost var rest := PolysCmds(polys[i + 1..], first.cursor);
      PolysStep(polys, i, cursor.Value(), mvtGeom);
      var cmds := PolyToGeomCmds(polys[i], cursor);
      assert cmds == first.cmds && cursor.Value() == first.cursor;
      mvtGeom := mvtGeom + cmds;
      i := i + 1;
    }
    assert polys[i..] == [];
    assert mvtGeom + [] == mvtGeom;
  }

  /** The geometry commands of a supported geometry, from a fresh cursor at the origin. */
  method EncodeGeometry(g: Geom) returns (mvtGeom: seq<Int32>)
    ensures mvtGeom == GeomCmds(g)
  {
    var cursor := new Vec2d.Origin();
    if g.shape.Point? || g.shape.MultiPoint? {
      mvtGeom := PtsToGeomCmds(PointsOf(g.shape), cursor);
    } else if g.shape.LineString? || g.shape.MultiLineString? {
      mvtGeom := LinesListToGeomCmds(LinesOf(g.shape), cursor);
    } else if g.shape.PolygonShape? || g.shape.MultiPolygon? {
      mvtGeom := PolysToGeomCmds(PolygonsOf(g.shape), cursor);
    } else {
      mvtGeom := [];
    }
  }

  /** `toFeature`: null (here `None`) for an unsupported geometry or one with no commands. */
  method ToFeature(g: Geom, props: MvtLayerProps, conv: Option<UserDataConverter>) returns (r: Result<Option<Feature>>)
    requires props.Valid()
    modifies props
    ensures props.Valid()
    ensures ValidTables(old(props.Contents()))
    ensures FeatureOutcome(props.Contents(), r) == ToFeatureSpec(g, old(props.Contents()), conv)
  {
    props.ValidTablesHold();
    var mvtGeomType := ToGeomType(g);
    if mvtGeomType == UNKNOWN {
      return Ok(None);
    }
    var mvtGeom := EncodeGeometry(g);
    if mvtGeom == [] {
      return Ok(None);
    }
    var fb := Feature(None, mvtGeomType, [], mvtGeom);
    if conv.Some? && g.userData.Some? {
      var tagged := Convert(conv.value, g.userData.value, props, fb);
      if tagged.Err? {
        return Err(tagged.error);
      }
      return Ok(Some(tagged.value));
    }
    return Ok(Some(fb));
  }

  /** The features `acc` already added, followed by what the rest of the geometries come to. */
  function AfterFeatures(acc: seq<Feature>, o: FeaturesOutcome): FeaturesOutcome {
    if o.features.Err? then o else FeaturesOutcome(o.tables, Ok(acc + o.features.value))
  }

  /** One more geometry whose conversion did not throw. */
  lemma AddFeaturesStep(gs: seq<Geom>, i: nat, t: Tables, conv: Option<UserDataConverter>, acc: seq<Feature>,
                        first: FeatureOutcome)
    requires i < |gs| && ValidTables(t)
    requires first == ToFeatureSpec(gs[i], t, conv) && first.feature.Ok?
    ensures AfterFeatures(acc, AddFeaturesSpec(gs[i..], t, conv))
      == AfterFeatures(acc + Mine(first.feature.value), AddFeaturesSpec(gs[i + 1..], first.tables, conv))
  {
    assert gs[i..][0] == gs[i] && gs[i..][1..] == gs[i + 1..];
    var mine := Mine(first.feature.value);
    var rest := AddFeaturesSpec(gs[i + 1..], first.tables, conv);
    if rest.features.Ok? {
      assert acc + (mine + rest.features.value) == (acc + mine) + rest.features.value;
    }
  }

  /** A geometry whose conversion throws ends the loop with that exception. */
  lemma AddFeaturesThrow(gs: seq<Geom>, i: nat, t: Tables, conv: Option<UserDataConverter>, first: FeatureOutcome)
    requires i < |gs| && ValidTables(t)
    requires first == ToFeatureSpec(gs[i], t, conv) && first.feature.Err?
    ensures AddFeaturesSpec(gs[i..], t, conv) == FeaturesOutcome(first.tables, Err(first.feature.error))
  {
    assert gs[i..][0] == gs[i];
  }

  /** The body of the `addFeatures` loop: the `i`th geometry converted and, when it throws, the exception. */
  method AddFeature(gs: seq<Geom>, i: nat, props: MvtLayerProps, conv: Option<UserDataConverter>, ghost acc: seq<Feature>)
    returns (r: Result<Option<Feature>>)
    requires i < |gs| && props.Valid()
    modifies props
    ensures props.Valid() && ValidTables(props.Contents())
    ensures ValidTables(old(props.Contents()))
    ensures r.Err? ==> AddFeaturesSpec(gs[i..], old(props.Contents()), conv) == FeaturesOutcome(props.Contents(), Err(r.error))
    ensures r.Ok? ==>
              AfterFeatures(acc, AddFeaturesSpec(gs[i..], old(props.Contents()), conv))
              == AfterFeatures(acc + Mine(r.value), AddFeaturesSpec(gs[i + 1..], props.Contents(), conv))
  {
    ghost var t := props.Contents();
    r := ToFeature(gs[i], props, conv);
    ghost var first := FeatureOutcome(props.Contents(), r);
    props.ValidTablesHold();
    if r.Err? {
      AddFeaturesThrow(gs, i, t, conv, first);
    } else {
      AddFeaturesStep(gs, i, t, conv, acc, first);
    }
  }

  /**
   * `addFeatures` over a list of geometries: each feature there is is added to
   * the layer in order. The builder is a value here; an exception leaves no layer.
   */
  method AddFeatures(layer: Layer, geometries: seq<Geom>, props: MvtLayerProps, conv: Option<UserDataConverter>)
    returns (r: Result<Layer>)
    requires props.Valid()
    modifies props
    ensures props.Valid()
    ensures ValidTables(old(props.Contents()))
    ensures var o := AddFeaturesSpec(geometries, old(props.Contents()), conv);
      props.Contents() == o.tables
      && r == (if o.features.Err? then Err(o.features.error) else Ok(layer.(features := layer.features + o.features.value)))
  {
    props.ValidTablesHold();
    ghost var whole := AddFeaturesSpec(geometries, props.Contents(), conv);
    var added: seq<Feature> := [];
    var i := 0;
    assert geometries[0..] == geometries;
    assert whole.features.Ok? ==> [] + whole.features.value == whole.features.value;
    assert AfterFeatures([], whole) == whole;
    while i < |geometries|
      invariant 0 <= i <= |geometries|
      invariant props.Valid() && ValidTables(props.Contents())
      invariant whole == AfterFeatures(added, AddFeaturesSpec(geometries[i..], props.Contents(), conv))
    {
      var nextFeature := AddFeature(geometries, i, props, conv, added);
      if nextFeature.Err? {
        return Err(nextFeature.error);
      }
      added := added + Mine(nextFeature.value);
      i := i + 1;
    }
    assert geometries[i..] == [];
    assert added + [] == added;
    r := Ok(layer.(features := layer.features + added));
  }

  /** The flattening of the members of a collection, from the `i`th on. */
  lemma CollectAllStep(gs: seq<Geom>, i: nat, acc: seq<Geom>)
    requires i < |gs|
    ensures acc + CollectAll(gs[i..]) == (acc + CollectFlat(gs[i])) + CollectAll(gs[i + 1..])
  {
    assert gs[i..][0] == gs[i] && gs[i..][1..] == gs[i + 1..];
  }

  /** `collectFlatGeometries(geom, singleGeoms)`: appends the supported geometries found in `g`. */
  method CollectFlatInto(g: Geom, singleGeoms: seq<Geom>) returns (r: seq<Geom>)
    ensures r == singleGeoms + CollectFlat(g)
    decreases g
  {
    if IsSimple(g.shape) {
      r := singleGeoms + [g];
    } else if g.shape.GeometryCollection? {
      var parts := g.shape.parts;
      r := singleGeoms;
      var i := 0;
      assert parts[0..] == parts;
      while i < |parts|
        invariant 0 <= i <= |parts|
        invariant r + CollectAll(parts[i..]) == singleGeoms + CollectAll(parts)
      {
        CollectAllStep(parts, i, r);
        r := CollectFlatInto(parts[i], r);
        i := i + 1;
      }
      assert parts[i..] == [];
    } else {
      r := singleGeoms;
    }
  }

  /** `collectFlatGeometries(geom)`: a supported geometry alone, else what its members flatten to. */
  method CollectFlatGeometries(g: Geom) returns (r: seq<Geom>)
    ensures r == CollectFlat(g)
  {
    if IsSimple(g.shape) {
      return [g];
    }
    r := CollectFlatInto(g, []);
  }

  /** `addFeatures` for one geometry: a non-collection directly, a collection flattened first. */
  method AddGeometry(layer: Layer, g: Geom, props: MvtLayerProps, conv: Option<UserDataConverter>)
    returns (r: Result<Layer>)
    requires props.Valid()
    modifies props
    ensures props.Valid()
    ensures ValidTables(old(props.Contents()))
    ensures var o := AddGeometrySpec(g, old(props.Contents()), conv);
      props.Contents() == o.tables
      && r == (if o.features.Err? then Err(o.features.error) else Ok(layer.(features := layer.features + o.features.value)))
  {
    props.ValidTablesHold();
    if !IsCollection(g.shape) {
      var nextFeature := ToFeature(g, props, conv);
      if nextFeature.Err? {
        return Err(nextFeature.error);
      }
      if nextFeature.value.Some? {
        return Ok(layer.(features := layer.features + [nextFeature.value.value]));
      }
      assert layer.features + [] == layer.features;
      return Ok(layer);
    }
    var geometries := CollectFlatGeometries(g);
    r := AddFeatures(layer, geometries, props, conv);
  }

  /** Flattening a list of supported geometries changes nothing. */
  lemma {:induction false} CollectAllSimple(gs: seq<Geom>)
    requires forall x :: x in gs ==> IsSimple(x.shape)
    ensures CollectAll(gs) == gs
    decreases |gs|
  {
    if gs != [] {
      assert gs[0] in gs;
      CollectAllSimple(gs[1..]);
      assert gs == [gs[0]] + gs[1..];
    }
  }

  /** The short cut for non-collections is only a short cut: every geometry is added as its flattening is. */
  lemma ShortCutAgrees(g: Geom, t: Tables, conv: Option<UserDataConverter>)
    requires ValidTables(t)
    ensures AddGeometrySpec(g, t, conv) == AddFeaturesSpec(CollectFlat(g), t, conv)
  {
    if !IsCollection(g.shape) {
      var f := ToFeatureSpec(g, t, conv);
      if IsSimple(g.shape) {
        assert CollectFlat(g) == [g];
        assert [g][1..] == [];
        if f.feature.Ok? && f.feature.value.Some? {
          assert [f.feature.value.value] + [] == [f.feature.value.value];
        }
      }
    }
  }

}
