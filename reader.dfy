/**
 * The decoding half of MvtReader: MVT geometry commands back to point, line
 * and polygon geometries. The parser is tolerant: a point list that does not
 * parse gives no geometry, and line and ring groups are read only while
 * enough commands remain and stop silently at the first unexpected header.
 * Zigzag parameters are decoded as MvtUtil.decodeZigZag does, with the
 * arithmetic shift, so a parameter word with the sign bit set (a delta of
 * magnitude 2^30 or more) reads back as a different move.
 */
module Reader {
  import opened Wrappers
  import opened Codec
  import opened Geometry
  import opened Cursor
  import opened Classifiers

  /** `MIN_LINE_STRING_LEN`: MoveTo header, 2 parameters, LineTo header, 2 parameters. */
  const MIN_LINE_STRING_LEN: int := 6

  /** `MIN_POLYGON_LEN`: MoveTo(1), LineTo(2) and ClosePath. */
  const MIN_POLYGON_LEN: int := 9

  /** A decoded shape (or null), and where the cursor ends up. */
  datatype Decoded = Decoded(shape: Option<Shape>, cursor: Coord)

  /** The groups read so far, and where the cursor ends up. */
  datatype Groups = Groups(parts: seq<seq<Coord>>, cursor: Coord)

  // ------------------------------------------------------------ parameter pairs

  /** The points reached by `n` pairs of zigzag parameters from `cmds[i]` on, starting from `c`. */
  function DecodeDeltas(cmds: seq<Int32>, i: nat, n: nat, c: Coord): (pts: seq<Coord>)
    requires i + 2 * n <= |cmds|
    ensures |pts| == n
    decreases n
  {
    if n == 0 then []
    else
      var p := Moved(c, DecodeZigZagAsWritten(cmds[i]), DecodeZigZagAsWritten(cmds[i + 1]));
      [p] + DecodeDeltas(cmds, i + 2, n - 1, p)
  }

  /** Only the ints read matter. */
  lemma {:induction false} DecodeDeltasPrefix(cmds: seq<Int32>, more: seq<Int32>, i: nat, n: nat, c: Coord)
    requires i + 2 * n <= |cmds| <= |more| && cmds == more[..|cmds|]
    ensures DecodeDeltas(cmds, i, n, c) == DecodeDeltas(more, i, n, c)
    decreases n
  {
    if n > 0 {
      assert cmds[i] == more[i] && cmds[i + 1] == more[i + 1];
      DecodeDeltasPrefix(cmds, more, i + 2, n - 1, Moved(c, DecodeZigZagAsWritten(cmds[i]), DecodeZigZagAsWritten(cmds[i + 1])));
    }
  }

  /** The k-th point decoded is the move from the point before it (the start, for the first one). */
  lemma {:induction false} DecodeDeltasAt(cmds: seq<Int32>, i: nat, n: nat, c: Coord, k: nat)
    requires k < n && i + 2 * n <= |cmds|
    ensures DecodeDeltas(cmds, i, n, c)[k]
      == Moved(EndOf(c, DecodeDeltas(cmds, i, n, c)[..k]), DecodeZigZagAsWritten(cmds[i + 2 * k]), DecodeZigZagAsWritten(cmds[i + 2 * k + 1]))
    decreases k
  {
    var whole := DecodeDeltas(cmds, i, n, c);
    var p := Moved(c, DecodeZigZagAsWritten(cmds[i]), DecodeZigZagAsWritten(cmds[i + 1]));
    var rest := DecodeDeltas(cmds, i + 2, n - 1, p);
    assert whole == [p] + rest;
    if k == 0 {
      assert whole[..k] == [] && whole[k] == p;
    } else {
      DecodeDeltasAt(cmds, i + 2, n - 1, p, k - 1);
      assert whole[k] == rest[k - 1];
      assert whole[..k] == [p] + rest[..k - 1];
      assert EndOf(c, whole[..k]) == EndOf(p, rest[..k - 1]);
      assert i + 2 + 2 * (k - 1) == i + 2 * k;
    }
  }

  /** The LineTo loop shared by `readLines` and `readPolys`: `n` relative moves, each point recorded. */
  method ReadDeltas(cmds: seq<Int32>, i: nat, n: nat, cursor: Vec2d) returns (pts: seq<Coord>)
    requires i + 2 * n <= |cmds|
    modifies cursor
    ensures pts == DecodeDeltas(cmds, i, n, old(cursor.Value()))
    ensures cursor.Value() == EndOf(old(cursor.Value()), pts)
  {
    ghost var c0 := cursor.Value();
    ghost var whole := DecodeDeltas(cmds, i, n, c0);
    pts := [];
    var j := i;
    var lineToIndex := 0;
    while lineToIndex < n
      invariant 0 <= lineToIndex <= n && j == i + 2 * lineToIndex
      invariant pts == whole[..lineToIndex]
      invariant cursor.Value() == EndOf(c0, pts)
    {
      DecodeDeltasAt(cmds, i, n, c0, lineToIndex);
      cursor.Add(DecodeZigZagAsWritten(cmds[j]), DecodeZigZagAsWritten(cmds[j + 1]));
      assert cursor.Value() == whole[lineToIndex];
      j := j + 2;
      pts := pts + [cursor.Value()];
      lineToIndex := lineToIndex + 1;
      assert pts == whole[..lineToIndex];
    }
    assert whole[..n] == whole;
  }

  // ------------------------------------------------------------ readPoints

  /** Whether a header is `cmd` with exactly the given length. */
  predicate IsHeader(hdr: Int32, cmd: GeomCmd, length: int) {
    GetGeomCmd(hdr) == Some(cmd) && GetGeomCmdLength(hdr) == length
  }

  /**
   * `readPoints`: one MoveTo header with count n >= 1 and 2n parameters
   * after it; surplus commands are ignored. One point gives a Point, more a
   * MultiPoint.
   */
  function ReadPointsSpec(cmds: seq<Int32>, c: Coord): (r: Decoded)
    ensures r.shape.Some? ==> r.shape.value.Point? || r.shape.value.MultiPoint?
  {
    if cmds == [] then Decoded(None, c)
    else
      var cmdLength := GetGeomCmdLength(cmds[0]);
      if GetGeomCmd(cmds[0]) != Some(MoveTo) || cmdLength < 1 || 2 * cmdLength + 1 > |cmds| then Decoded(None, c)
      else
        var pts := DecodeDeltas(cmds, 1, cmdLength, c);
        Decoded(Some(if cmdLength == 1 then Point(pts[0]) else MultiPoint(pts)), EndOf(c, pts))
  }

  /**
   * `readPoints` gives null exactly when the header is missing, is not a
   * MoveTo, counts no point or counts more points than there are
   * parameters; otherwise exactly the counted points, decoded.
   */
  lemma ReadPointsResult(cmds: seq<Int32>, c: Coord)
    ensures var r := ReadPointsSpec(cmds, c);
      && (r.shape.None? <==>
            cmds == [] || GetGeomCmd(cmds[0]) != Some(MoveTo) || GetGeomCmdLength(cmds[0]) < 1
            || 2 * GetGeomCmdLength(cmds[0]) + 1 > |cmds|)
      && (r.shape.Some? ==>
            PointsOf(r.shape.value) == DecodeDeltas(cmds, 1, GetGeomCmdLength(cmds[0]), c)
            && (r.shape.value.Point? <==> GetGeomCmdLength(cmds[0]) == 1))
  {
  }

  /** The coordinate loop of `readPoints`, over the header and exactly `cmdLength` parameter pairs. */
  method ReadCoords(cmds: seq<Int32>, cmdLength: nat, cursor: Vec2d) returns (coordSeq: seq<Coord>)
    requires |cmds| == 2 * cmdLength + 1
    modifies cursor
    ensures coordSeq == DecodeDeltas(cmds, 1, cmdLength, old(cursor.Value()))
    ensures cursor.Value() == EndOf(old(cursor.Value()), coordSeq)
  {
    ghost var c0 := cursor.Value();
    ghost var whole := DecodeDeltas(cmds, 1, cmdLength, c0);
    coordSeq := [];
    var i := 1;
    var coordIndex := 0;
    while i < |cmds| - 1
      invariant i == 1 + 2 * coordIndex && coordIndex <= cmdLength
      invariant coordSeq == whole[..coordIndex]
      invariant cursor.Value() == EndOf(c0, coordSeq)
      decreases |cmds| - i
    {
      DecodeDeltasAt(cmds, 1, cmdLength, c0, coordIndex);
      cursor.Add(DecodeZigZagAsWritten(cmds[i]), DecodeZigZagAsWritten(cmds[i + 1]));
      assert cursor.Value() == whole[coordIndex];
      i := i + 2;
      coordSeq := coordSeq + [cursor.Value()];
      coordIndex := coordIndex + 1;
      assert coordSeq == whole[..coordIndex];
    }
    assert whole[..cmdLength] == whole;
  }

  /** `readPoints`: the header checks, the truncation of surplus commands, then the coordinate loop. */
  method ReadPoints(geomCmds: seq<Int32>, cursor: Vec2d) returns (r: Option<Shape>)
    modifies cursor
    ensures Decoded(r, cursor.Value()) == ReadPointsSpec(geomCmds, old(cursor.Value()))
  {
    if |geomCmds| == 0 {
      return None;
    }
    var cmdHdr := geomCmds[0];
    var cmdLength := GetGeomCmdLength(cmdHdr);
    var cmd := GetGeomCmd(cmdHdr);
    if cmd != Some(MoveTo) || cmdLength < 1 {
      return None;
    }
    var requiredGeomCmdsLength := cmdLength * ParamCount(MoveTo) + 1;
    if requiredGeomCmdsLength > |geomCmds| {
      return None;
    }
    var cmds := geomCmds;
    if requiredGeomCmdsLength < |geomCmds| {
      cmds := geomCmds[..requiredGeomCmdsLength];
    }
    assert |cmds| == 2 * cmdLength + 1 && cmds == geomCmds[..|cmds|];
    DecodeDeltasPrefix(cmds, geomCmds, 1, cmdLength, cursor.Value());
    var coordSeq := ReadCoords(cmds, cmdLength, cursor);
    if |coordSeq| == 1 {
      r := Some(Point(coordSeq[0]));
    } else {
      r := Some(MultiPoint(coordSeq));
    }
  }

  // ------------------------------------------------------------ readLines

  /**
   * One group as the loops of `readLines` and `readPolys` see it: the
   * coordinates read (None when a header or a length check fails, which ends
   * the loop), where the next group starts, and where the cursor stands.
   */
  datatype Group = Group(coords: Option<seq<Coord>>, next: nat, cursor: Coord)

  /**
   * The line group at `cmds[i]`: a MoveTo(1) and its parameters, then a
   * LineTo(k >= 1) whose 2k parameters are all there; the line is the MoveTo
   * point and the k LineTo points. When the LineTo check fails, the cursor
   * keeps the move already made.
   */
  function LineGroup(cmds: seq<Int32>, i: nat, c: Coord): (g: Group)
    requires i + MIN_LINE_STRING_LEN <= |cmds|
    ensures g.coords.Some? ==> i < g.next <= |cmds|
  {
    if !IsHeader(cmds[i], MoveTo, 1) then Group(None, i, c)
    else
      var start := Moved(c, DecodeZigZagAsWritten(cmds[i + 1]), DecodeZigZagAsWritten(cmds[i + 2]));
      var cmdLength := GetGeomCmdLength(cmds[i + 3]);
      if GetGeomCmd(cmds[i + 3]) != Some(LineTo) || cmdLength < 1 || 2 * cmdLength + i + 4 > |cmds| then
        Group(None, i, start)
      else
        var pts := DecodeDeltas(cmds, i + 4, cmdLength, start);
        Group(Some([start] + pts), i + 4 + 2 * cmdLength, EndOf(start, pts))
  }

  /** The line groups from `cmds[i]` on, read while at least 6 ints remain and up to the first group that fails. */
  function LineGroups(cmds: seq<Int32>, i: nat, c: Coord): Groups
    decreases |cmds| - i
  {
    if i + MIN_LINE_STRING_LEN > |cmds| then Groups([], c)
    else
      var g := LineGroup(cmds, i, c);
      if g.coords.None? then Groups([], g.cursor)
      else
        var rest := LineGroups(cmds, g.next, g.cursor);
        Groups([g.coords.value] + rest.parts, rest.cursor)
  }

  /** Every line read has at least two points, the MoveTo point first. */
  lemma {:induction false} LineGroupsLong(cmds: seq<Int32>, i: nat, c: Coord)
    ensures forall k :: 0 <= k < |LineGroups(cmds, i, c).parts| ==> |LineGroups(cmds, i, c).parts[k]| >= 2
    decreases |cmds| - i
  {
    if i + MIN_LINE_STRING_LEN <= |cmds| {
      var g := LineGroup(cmds, i, c);
      if g.coords.Some? {
        LineGroupsLong(cmds, g.next, g.cursor);
      }
    }
  }

  /** `readLines`: null only for no commands; one line gives a LineString, any other number a MultiLineString. */
  function ReadLinesSpec(cmds: seq<Int32>, c: Coord): (r: Decoded)
    ensures r.shape.None? <==> cmds == []
    ensures r.shape.Some? ==>
      (r.shape.value.LineString? || r.shape.value.MultiLineString?)
      && LinesOf(r.shape.value) == LineGroups(cmds, 0, c).parts
      && (r.shape.value.LineString? <==> |LineGroups(cmds, 0, c).parts| == 1)
  {
    if cmds == [] then Decoded(None, c)
    else
      var g := LineGroups(cmds, 0, c);
      Decoded(Some(if |g.parts| == 1 then LineString(g.parts[0]) else MultiLineString(g.parts)), g.cursor)
  }

  /** One body of the `readLines` loop. */
  method ReadLineGroup(geomCmds: seq<Int32>, i: nat, cursor: Vec2d) returns (coords: Option<seq<Coord>>, next: nat)
    requires i + MIN_LINE_STRING_LEN <= |geomCmds|
    modifies cursor
    ensures Group(coords, next, cursor.Value()) == LineGroup(geomCmds, i, old(cursor.Value()))
  {
    var cmdHdr := geomCmds[i];
    if !(GetGeomCmd(cmdHdr) == Some(MoveTo) && GetGeomCmdLength(cmdHdr) == 1) {
      return None, i;
    }
    cursor.Add(DecodeZigZagAsWritten(geomCmds[i + 1]), DecodeZigZagAsWritten(geomCmds[i + 2]));
    var start := cursor.Value();
    cmdHdr := geomCmds[i + 3];
    var cmdLength := GetGeomCmdLength(cmdHdr);
    if GetGeomCmd(cmdHdr) != Some(LineTo) || cmdLength < 1 || cmdLength * ParamCount(LineTo) + i + 4 > |geomCmds| {
      return None, i;
    }
    var pts := ReadDeltas(geomCmds, i + 4, cmdLength, cursor);
    coords := Some([start] + pts);
    next := i + 4 + 2 * cmdLength;
  }

  /** One more line group read. */
  lemma LineGroupsStep(cmds: seq<Int32>, i: nat, c: Coord, acc: seq<seq<Coord>>)
    requires i + MIN_LINE_STRING_LEN <= |cmds| && LineGroup(cmds, i, c).coords.Some?
    ensures var g := LineGroup(cmds, i, c);
      var rest := LineGroups(cmds, g.next, g.cursor);
      acc + LineGroups(cmds, i, c).parts == (acc + [g.coords.value]) + rest.parts
      && LineGroups(cmds, i, c).cursor == rest.cursor
  {
    var g := LineGroup(cmds, i, c);
    var rest := LineGroups(cmds, g.next, g.cursor);
    assert acc + ([g.coords.value] + rest.parts) == (acc + [g.coords.value]) + rest.parts;
  }

  /** `readLines`. */
  method ReadLines(geomCmds: seq<Int32>, cursor: Vec2d) returns (r: Option<Shape>)
    modifies cursor
    ensures Decoded(r, cursor.Value()) == ReadLinesSpec(geomCmds, old(cursor.Value()))
  {
    if |geomCmds| == 0 {
      return None;
    }
    ghost var whole := LineGroups(geomCmds, 0, cursor.Value());
    var i := 0;
    var geoms: seq<seq<Coord>> := [];
    while i <= |geomCmds| - MIN_LINE_STRING_LEN
      invariant 0 <= i
      invariant whole.parts == geoms + LineGroups(geomCmds, i, cursor.Value()).parts
      invariant whole.cursor == LineGroups(geomCmds, i, cursor.Value()).cursor
      decreases |geomCmds| - i
    {
      ghost var c := cursor.Value();
      var coords, next := ReadLineGroup(geomCmds, i, cursor);
      if coords.None? {
        break;
      }
      LineGroupsStep(geomCmds, i, c, geoms);
      geoms := geoms + [coords.value];
      i := next;
    }
    assert geoms + [] == geoms;
    assert whole == Groups(geoms, cursor.Value());
    if |geoms| == 1 {
      r := Some(LineString(geoms[0]));
    } else {
      r := Some(MultiLineString(geoms));
    }
  }

  // ------------------------------------------------------------ readPolys

  /**
   * The ring group at `cmds[i]`: a MoveTo(1), a LineTo(k >= 2) whose
   * parameters and one more int are all there, then a ClosePath(1); the ring
   * is the MoveTo point, the k LineTo points and the MoveTo point again.
   */
  function RingGroup(cmds: seq<Int32>, i: nat, c: Coord): (g: Group)
    requires i + MIN_POLYGON_LEN <= |cmds|
    ensures g.coords.Some? ==> i < g.next <= |cmds|
  {
    if !IsHeader(cmds[i], MoveTo, 1) then Group(None, i, c)
    else
      var start := Moved(c, DecodeZigZagAsWritten(cmds[i + 1]), DecodeZigZagAsWritten(cmds[i + 2]));
      var cmdLength := GetGeomCmdLength(cmds[i + 3]);
      if GetGeomCmd(cmds[i + 3]) != Some(LineTo) || cmdLength < 2 || 2 * cmdLength + i + 4 + 1 > |cmds| then
        Group(None, i, start)
      else
        var pts := DecodeDeltas(cmds, i + 4, cmdLength, start);
        var j := i + 4 + 2 * cmdLength;
        if !IsHeader(cmds[j], ClosePath, 1) then Group(None, i, EndOf(start, pts))
        else Group(Some([start] + pts + [start]), j + 1, EndOf(start, pts))
  }

  /** The ring groups from `cmds[i]` on, read while at least 9 ints remain and up to the first group that fails. */
  function RingGroups(cmds: seq<Int32>, i: nat, c: Coord): Groups
    decreases |cmds| - i
  {
    if i + MIN_POLYGON_LEN > |cmds| then Groups([], c)
    else
      var g := RingGroup(cmds, i, c);
      if g.coords.None? then Groups([], g.cursor)
      else
        var rest := RingGroups(cmds, g.next, g.cursor);
        Groups([g.coords.value] + rest.parts, rest.cursor)
  }

  /** Every ring read has at least four points and ends where it starts. */
  lemma {:induction false} RingGroupsClosed(cmds: seq<Int32>, i: nat, c: Coord)
    ensures forall k :: 0 <= k < |RingGroups(cmds, i, c).parts| ==>
      var ring := RingGroups(cmds, i, c).parts[k]; |ring| >= 4 && ring[0] == Last(ring)
    decreases |cmds| - i
  {
    if i + MIN_POLYGON_LEN <= |cmds| {
      var g := RingGroup(cmds, i, c);
      if g.coords.Some? {
        RingGroupsClosed(cmds, g.next, g.cursor);
      }
    }
  }

  /** `readPolys`: null for no commands or no polygon; one polygon gives a Polygon, more a MultiPolygon. */
  function ReadPolysSpec(cmds: seq<Int32>, c: Coord, v: RingClassifier, isRing: seq<Coord> -> bool): (r: Decoded)
    ensures r.shape.Some? ==>
      (r.shape.value.PolygonShape? || r.shape.value.MultiPolygon?)
      && PolygonsOf(r.shape.value) == Classify(v, RingGroups(cmds, 0, c).parts, isRing) != []
    ensures r.shape.None? <==> cmds == [] || Classify(v, RingGroups(cmds, 0, c).parts, isRing) == []
  {
    if cmds == [] then Decoded(None, c)
    else
      var g := RingGroups(cmds, 0, c);
      var polygons := Classify(v, g.parts, isRing);
      if polygons == [] then Decoded(None, g.cursor)
      else if |polygons| == 1 then Decoded(Some(PolygonShape(polygons[0])), g.cursor)
      else Decoded(Some(MultiPolygon(polygons)), g.cursor)
  }

  /** One body of the ring loop of `readPolys`. */
  method ReadRingGroup(geomCmds: seq<Int32>, i: nat, cursor: Vec2d) returns (coords: Option<seq<Coord>>, next: nat)
    requires i + MIN_POLYGON_LEN <= |geomCmds|
    modifies cursor
    ensures Group(coords, next, cursor.Value()) == RingGroup(geomCmds, i, old(cursor.Value()))
  {
    var cmdHdr := geomCmds[i];
    if !(GetGeomCmd(cmdHdr) == Some(MoveTo) && GetGeomCmdLength(cmdHdr) == 1) {
      return None, i;
    }
    cursor.Add(DecodeZigZagAsWritten(geomCmds[i + 1]), DecodeZigZagAsWritten(geomCmds[i + 2]));
    var start := cursor.Value();
    cmdHdr := geomCmds[i + 3];
    var cmdLength := GetGeomCmdLength(cmdHdr);
    if GetGeomCmd(cmdHdr) != Some(LineTo) || cmdLength < 2 || cmdLength * ParamCount(LineTo) + i + 4 + 1 > |geomCmds| {
      return None, i;
    }
    var pts := ReadDeltas(geomCmds, i + 4, cmdLength, cursor);
    var j := i + 4 + 2 * cmdLength;
    cmdHdr := geomCmds[j];
    if !(GetGeomCmd(cmdHdr) == Some(ClosePath) && GetGeomCmdLength(cmdHdr) == 1) {
      return None, i;
    }
    coords := Some([start] + pts + [start]);
    next := j + 1;
  }

  /** One more ring group read. */
  lemma RingGroupsStep(cmds: seq<Int32>, i: nat, c: Coord, acc: seq<seq<Coord>>)
    requires i + MIN_POLYGON_LEN <= |cmds| && RingGroup(cmds, i, c).coords.Some?
    ensures var g := RingGroup(cmds, i, c);
      var rest := RingGroups(cmds, g.next, g.cursor);
      acc + RingGroups(cmds, i, c).parts == (acc + [g.coords.value]) + rest.parts
      && RingGroups(cmds, i, c).cursor == rest.cursor
  {
    var g := RingGroup(cmds, i, c);
    var rest := RingGroups(cmds, g.next, g.cursor);
    assert acc + ([g.coords.value] + rest.parts) == (acc + [g.coords.value]) + rest.parts;
  }

  /** The ring loop of `readPolys`. */
  method ReadRings(geomCmds: seq<Int32>, cursor: Vec2d) returns (rings: seq<seq<Coord>>)
    modifies cursor
    ensures Groups(rings, cursor.Value()) == RingGroups(geomCmds, 0, old(cursor.Value()))
  {
    ghost var whole := RingGroups(geomCmds, 0, cursor.Value());
    var i := 0;
    rings := [];
    while i <= |geomCmds| - MIN_POLYGON_LEN
      invariant 0 <= i
      invariant whole.parts == rings + RingGroups(geomCmds, i, cursor.Value()).parts
      invariant whole.cursor == RingGroups(geomCmds, i, cursor.Value()).cursor
      decreases |geomCmds| - i
    {
      ghost var c := cursor.Value();
      var coords, next := ReadRingGroup(geomCmds, i, cursor);
      if coords.None? {
        break;
      }
      RingGroupsStep(geomCmds, i, c, rings);
      rings := rings + [coords.value];
      i := next;
    }
    assert rings + [] == rings;
  }

  /** `readPolys`. */
  method ReadPolys(geomCmds: seq<Int32>, cursor: Vec2d, v: RingClassifier, isRing: seq<Coord> -> bool)
    returns (r: Option<Shape>)
    modifies cursor
    ensures Decoded(r, cursor.Value()) == ReadPolysSpec(geomCmds, old(cursor.Value()), v, isRing)
  {
    if |geomCmds| == 0 {
      return None;
    }
    var rings := ReadRings(geomCmds, cursor);
    var polygons := ClassifyRings(v, rings, isRing);
    if |polygons| == 0 {
      r := None;
    } else if |polygons| == 1 {
      r := Some(PolygonShape(polygons[0]));
    } else {
      r := Some(MultiPolygon(polygons));
    }
  }

  // ------------------------------------------------------------ readGeometry

  /** `readGeometry`: the reader for the feature's type; UNKNOWN gives null. */
  function ReadGeometrySpec(cmds: seq<Int32>, t: GeomType, c: Coord, v: RingClassifier, isRing: seq<Coord> -> bool)
    : (r: Decoded)
    ensures r.shape.Some? ==> ToGeomType(Geom(r.shape.value, None)) == t
    ensures t == UNKNOWN ==> r == Decoded(None, c)
  {
    match t
    case POINT => ReadPointsSpec(cmds, c)
    case LINESTRING => ReadLinesSpec(cmds, c)
    case POLYGON => ReadPolysSpec(cmds, c, v, isRing)
    case UNKNOWN => Decoded(None, c)
  }

  /** `readGeometry`. */
  method ReadGeometry(geomCmds: seq<Int32>, geomType: GeomType, cursor: Vec2d, v: RingClassifier,
                      isRing: seq<Coord> -> bool) returns (r: Option<Shape>)
    modifies cursor
    ensures Decoded(r, cursor.Value()) == ReadGeometrySpec(geomCmds, geomType, old(cursor.Value()), v, isRing)
  {
    match geomType {
      case POINT => r := ReadPoints(geomCmds, cursor);
      case LINESTRING => r := ReadLines(geomCmds, cursor);
      case POLYGON => r := ReadPolys(geomCmds, cursor, v, isRing);
      case UNKNOWN => r := None;
    }
  }

  // ------------------------------------------------------------ the arithmetic shift

  /** A parameter word with the sign bit set reads back as a move by -2^30 or more. */
  lemma WideMove()
    ensures Moved(ORIGIN, DecodeZigZagAsWritten(MIN_INT), DecodeZigZagAsWritten(0)) == Coord(-0x4000_0000, 0)
  {
    DecodeMin();
    DecodeZero();
  }

  lemma DecodeMin()
    ensures DecodeZigZagAsWritten(MIN_INT) == -0x4000_0000
  {
  }

  lemma DecodeZero()
    ensures DecodeZigZagAsWritten(0) == 0
  {
  }

  /** One MoveTo(1) and its two parameters read as one point. */
  lemma ReadOnePoint(hdr: Int32, a: Int32, b: Int32, c: Coord)
    requires IsHeader(hdr, MoveTo, 1)
    ensures var q := Moved(c, DecodeZigZagAsWritten(a), DecodeZigZagAsWritten(b));
      ReadPointsSpec([hdr, a, b], c) == Decoded(Some(Point(q)), q)
  {
    var q := Moved(c, DecodeZigZagAsWritten(a), DecodeZigZagAsWritten(b));
    assert DecodeDeltas([hdr, a, b], 1, 1, c) == [q] + DecodeDeltas([hdr, a, b], 3, 0, q);
  }
}
