/**
 * Encoding a geometry into commands (JtsAdapter) and reading the commands
 * back (MvtReader) give back what the encoder kept: the points that move the
 * cursor, and for rings their closing point. Header lengths are read back
 * faithfully only below 2^28, so every part here is shorter than that.
 */
module RoundTrip {
  import opened Wrappers
  import opened Codec
  import opened Geometry
  import opened Cursor
  import opened Adapter
  import opened Reader
  import opened Classifiers

  /** Header lengths the arithmetic shift reads back. */
  const SHORT: int := 0x1000_0000

  /** A header the encoder writes with a short length is read as that command and length. */
  lemma HeaderReads(cmd: GeomCmd, length: Int32)
    requires 0 <= length < SHORT
    ensures IsHeader(GeomCmdHdr(cmd, length), cmd, length)
  {
    HeaderIdRoundTrip(cmd, length);
    HeaderLengthRoundTrip(cmd, length);
  }

  /** A slice of a slice. */
  lemma SliceSplit(cmds: seq<Int32>, i: nat, j: nat, k: nat, a: seq<Int32>, b: seq<Int32>)
    requires j == i + |a| && k == j + |b| <= |cmds| && cmds[i..k] == a + b
    ensures cmds[i..j] == a && cmds[j..k] == b
  {
    assert cmds[i..j] == cmds[i..k][..|a|];
    assert cmds[j..k] == cmds[i..k][|a|..];
  }

  lemma WholeSlice(cmds: seq<Int32>)
    ensures cmds[0..|cmds|] == cmds
  {
  }

  /** The first pair of parameters of a move from `c` moves the reader's cursor to `p`. */
  lemma FirstMove(cmds: seq<Int32>, i: nat, c: Coord, p: Coord)
    requires i + 2 <= |cmds| && cmds[i..i + 2] == Delta(c, p) && Near(c, p)
    ensures Moved(c, DecodeZigZagAsWritten(cmds[i]), DecodeZigZagAsWritten(cmds[i + 1])) == p
  {
    assert cmds[i] == Delta(c, p)[0] && cmds[i + 1] == Delta(c, p)[1];
    DeltaMoves(c, p);
  }

  /** Decoding one more pair of parameters that moves the cursor to `p`. */
  lemma DecodeDeltasCons(cmds: seq<Int32>, i: nat, n: nat, c: Coord, p: Coord)
    requires i + 2 * (n + 1) <= |cmds| && Moved(c, DecodeZigZagAsWritten(cmds[i]), DecodeZigZagAsWritten(cmds[i + 1])) == p
    ensures DecodeDeltas(cmds, i, n + 1, c) == [p] + DecodeDeltas(cmds, i + 2, n, p)
  {
  }

  /** The parameters of a walk whose every move is near decode to the walk. */
  lemma {:induction false} DeltasDecode(cmds: seq<Int32>, i: nat, c: Coord, pts: seq<Coord>)
    requires i + 2 * |pts| <= |cmds| && cmds[i..i + 2 * |pts|] == Deltas(c, pts)
    requires NearWalk(c, pts)
    ensures DecodeDeltas(cmds, i, |pts|, c) == pts
    decreases |pts|
  {
    if pts != [] {
      var p, ps := pts[0], pts[1..];
      var n := |ps|;
      var k := i + 2 + 2 * n;
      assert k == i + 2 * |pts|;
      assert Deltas(c, pts) == Delta(c, p) + Deltas(p, ps);
      SliceSplit(cmds, i, i + 2, k, Delta(c, p), Deltas(p, ps));
      FirstMove(cmds, i, c, p);
      DeltasDecode(cmds, i + 2, p, ps);
      DecodeDeltasCons(cmds, i, n, c, p);
      assert [p] + ps == pts;
    }
  }

  // ------------------------------------------------------------ points

  /** Points without neighbouring repeats are all kept. */
  lemma KeptAll(pts: seq<Coord>)
    requires pts != [] && NoRepeats(pts)
    ensures KeptPoints(pts) == pts
  {
    DedupKeeps(pts[0], pts[1..]);
    assert NoRepeats(pts[1..]) by {
      forall i | 0 < i < |pts[1..]|
        ensures pts[1..][i] != pts[1..][i - 1]
      {
        assert pts[1..][i] == pts[i + 1] && pts[1..][i - 1] == pts[i];
      }
    }
  }

  /** The one MoveTo group of a point geometry reads back the points it was written from. */
  lemma PointsRead(cmds: seq<Int32>, hdr: Int32, c: Coord, kept: seq<Coord>)
    requires 1 <= |kept| && IsHeader(hdr, MoveTo, |kept|)
    requires cmds == [hdr] + Deltas(c, kept) && NearWalk(c, kept)
    ensures ReadPointsSpec(cmds, c) == Decoded(Some(if |kept| == 1 then Point(kept[0]) else MultiPoint(kept)), Last(kept))
  {
    PointsWords(cmds, hdr, c, kept);
    DeltasDecode(cmds, 1, c, kept);
    MoveToGroupReads(cmds, c, kept);
  }

  /** The layout of a MoveTo group: the header, then the parameters of the walk. */
  lemma PointsWords(cmds: seq<Int32>, hdr: Int32, c: Coord, kept: seq<Coord>)
    requires cmds == [hdr] + Deltas(c, kept)
    ensures |cmds| == 1 + 2 * |kept| && cmds[0] == hdr && cmds[1..1 + 2 * |kept|] == Deltas(c, kept)
  {
  }

  /** A MoveTo header counting the parameter pairs that follow, which decode to `pts`, reads as those points. */
  lemma MoveToGroupReads(cmds: seq<Int32>, c: Coord, pts: seq<Coord>)
    requires 1 <= |pts| && |cmds| == 1 + 2 * |pts| && IsHeader(cmds[0], MoveTo, |pts|)
    requires DecodeDeltas(cmds, 1, |pts|, c) == pts
    ensures ReadPointsSpec(cmds, c) == Decoded(Some(if |pts| == 1 then Point(pts[0]) else MultiPoint(pts)), Last(pts))
  {
  }

  /**
   * Reading back the commands of a point or multi-point gives its kept
   * points, as a Point exactly when one point is kept, and leaves the cursor
   * where the encoder left it; points without neighbouring repeats all come
   * back. The cursor and the points lie in the box, so that every delta
   * survives the decoder's arithmetic shift.
   */
  lemma PointsRoundTrip(pts: seq<Coord>, c: Coord)
    requires pts != [] && |pts| < SHORT
    requires InBox(c) && AllInBox(pts)
    ensures var e := PtsCmds(pts, c);
      ReadPointsSpec(e.cmds, c) ==
        Decoded(Some(if |KeptPoints(pts)| == 1 then Point(pts[0]) else MultiPoint(KeptPoints(pts))), e.cursor)
    ensures NoRepeats(pts) ==> KeptPoints(pts) == pts
  {
    var kept := KeptPoints(pts);
    KeptInBox(pts, |pts|);
    assert pts[1..|pts|] == pts[1..];
    BoxWalk(c, kept);
    assert PtsCmds(pts, c) == Encoded([GeomCmdHdr(MoveTo, |kept|)] + Deltas(c, kept), Last(kept));
    HeaderReads(MoveTo, |kept|);
    PointsRead(PtsCmds(pts, c).cmds, GeomCmdHdr(MoveTo, |kept|), c, kept);
    if NoRepeats(pts) {
      KeptAll(pts);
    }
  }

  /**
   * The source's reader misreads a move of 2^30: the point (2^30, 0),
   * written from the origin, is read back as (-2^30, 0).
   */
  lemma PointMisread(p: Coord)
    requires p == Coord(0x4000_0000, 0)
    ensures var e := PtsCmds([p], ORIGIN);
      e.cursor == p && ReadPointsSpec(e.cmds, ORIGIN) == Decoded(Some(Point(Coord(-0x4000_0000, 0))), Coord(-0x4000_0000, 0))
  {
    var hdr, d := GeomCmdHdr(MoveTo, 1), Delta(ORIGIN, p);
    assert KeptPoints([p]) == [p];
    assert PtsCmds([p], ORIGIN) == Encoded([hdr] + d, p);
    assert [hdr] + d == [hdr, d[0], d[1]];
    HeaderReads(MoveTo, 1);
    ReadOnePoint(hdr, d[0], d[1], ORIGIN);
    WideDelta();
    WideMove();
  }

  // ------------------------------------------------------------ lines

  /** The groups after `ps` are read, following the groups `ps`. */
  function Then(ps: seq<seq<Coord>>, g: Groups): Groups {
    Groups(ps + g.parts, g.cursor)
  }

  lemma ThenNothing(ps: seq<seq<Coord>>, c: Coord)
    ensures Then(ps, Groups([], c)) == Groups(ps, c)
  {
    assert ps + [] == ps;
  }

  lemma ThenThen(a: seq<seq<Coord>>, b: seq<seq<Coord>>, g: Groups)
    ensures Then(a, Then(b, g)) == Then(a + b, g)
  {
    assert a + (b + g.parts) == (a + b) + g.parts;
  }

  /** The commands of one line component, the cursor at `c`. */
  function LineEnc(line: seq<Coord>, c: Coord): Encoded {
    LinesCmds(line, false, c, 1)
  }

  /** Whether the encoder writes a line component at all: two coordinates, and a second kept point. */
  predicate LineKept(line: seq<Coord>) {
    |line| >= 2 && |KeptPoints(line)| >= 2
  }

  /** The three headers and first move of a line group: MoveTo(1) to `start`, then LineTo(k). */
  function LineHead(c: Coord, start: Coord, k: Int32): (r: seq<Int32>)
    ensures |r| == 4
  {
    [GeomCmdHdr(MoveTo, 1)] + Delta(c, start) + [GeomCmdHdr(LineTo, k)]
  }

  /** The commands of one line group, written from `c`: a MoveTo to `start`, then a LineTo through `pts`. */
  function LineWords(c: Coord, start: Coord, pts: seq<Coord>): (r: seq<Int32>)
    requires |pts| < SHORT
    ensures |r| == 4 + 2 * |pts|
  {
    LineHead(c, start, |pts|) + Deltas(start, pts)
  }

  /** The head of a line group reads as a MoveTo(1) to `start` and a LineTo(k). */
  lemma LineHeadReads(cmds: seq<Int32>, i: nat, c: Coord, start: Coord, k: Int32)
    requires 0 <= k < SHORT && i + 4 <= |cmds| && cmds[i..i + 4] == LineHead(c, start, k) && Near(c, start)
    ensures IsHeader(cmds[i], MoveTo, 1) && IsHeader(cmds[i + 3], LineTo, k)
    ensures Moved(c, DecodeZigZagAsWritten(cmds[i + 1]), DecodeZigZagAsWritten(cmds[i + 2])) == start
  {
    var h := LineHead(c, start, k);
    HeaderReads(MoveTo, 1);
    HeaderReads(LineTo, k);
    assert cmds[i] == h[0] && cmds[i + 1] == h[1] && cmds[i + 2] == h[2] && cmds[i + 3] == h[3];
    assert h[1] == Delta(c, start)[0] && h[2] == Delta(c, start)[1];
    assert cmds[i + 1..i + 3] == Delta(c, start);
    FirstMove(cmds, i + 1, c, start);
  }

  /** The words of a line group read as its headers, its first move and its LineTo points. */
  lemma LineWordsRead(cmds: seq<Int32>, i: nat, c: Coord, start: Coord, pts: seq<Coord>, j: nat)
    requires |pts| < SHORT
    requires j == i + |LineWords(c, start, pts)| <= |cmds| && cmds[i..j] == LineWords(c, start, pts)
    requires Near(c, start) && NearWalk(start, pts)
    ensures IsHeader(cmds[i], MoveTo, 1) && IsHeader(cmds[i + 3], LineTo, |pts|)
    ensures Moved(c, DecodeZigZagAsWritten(cmds[i + 1]), DecodeZigZagAsWritten(cmds[i + 2])) == start
    ensures DecodeDeltas(cmds, i + 4, |pts|, start) == pts
  {
    SliceSplit(cmds, i, i + 4, j, LineHead(c, start, |pts|), Deltas(start, pts));
    LineHeadReads(cmds, i, c, start, |pts|);
    DeltasDecode(cmds, i + 4, start, pts);
  }

  /** A line group found in the commands: its head, then `pts` as LineTo points. */
  lemma LineGroupAt(cmds: seq<Int32>, i: nat, c: Coord, start: Coord, pts: seq<Coord>, next: nat)
    requires 1 <= |pts| < SHORT
    requires next == i + |LineWords(c, start, pts)| <= |cmds| && cmds[i..next] == LineWords(c, start, pts)
    requires Near(c, start) && NearWalk(start, pts)
    ensures i + MIN_LINE_STRING_LEN <= |cmds|
    ensures LineGroup(cmds, i, c) == Group(Some([start] + pts), next, EndOf(start, pts))
  {
    LineWordsRead(cmds, i, c, start, pts, next);
  }

  /**
   * A line group read is followed by the groups after it. Here and below the
   * position and cursor after a group are parameters, so that callers name
   * them in their own terms.
   */
  lemma LineGroupsUnfold(cmds: seq<Int32>, i: nat, c: Coord, p: seq<Coord>, next: nat, cur: Coord)
    requires i + MIN_LINE_STRING_LEN <= |cmds| && LineGroup(cmds, i, c) == Group(Some(p), next, cur)
    ensures LineGroups(cmds, i, c) == Then([p], LineGroups(cmds, next, cur))
  {
  }

  /** A line group found in the commands reads back the points it was written from. */
  lemma LineGroupReads(cmds: seq<Int32>, i: nat, c: Coord, start: Coord, pts: seq<Coord>, next: nat, cur: Coord)
    requires 1 <= |pts| < SHORT
    requires next == i + |LineWords(c, start, pts)| <= |cmds| && cmds[i..next] == LineWords(c, start, pts)
    requires Near(c, start) && NearWalk(start, pts)
    requires cur == EndOf(start, pts)
    ensures LineGroups(cmds, i, c) == Then([[start] + pts], LineGroups(cmds, next, cur))
  {
    LineGroupAt(cmds, i, c, start, pts, next);
    LineGroupsUnfold(cmds, i, c, [start] + pts, next, cur);
  }

  /** What the encoder writes for one line component: nothing, or the line group of its kept points. */
  lemma LineEncShape(line: seq<Coord>, c: Coord)
    requires |line| < SHORT
    ensures LineKept(line) ==> LineEnc(line, c) == Encoded(LineWords(c, line[0], Dedup(line[0], line[1..])), EndOf(line[0], Dedup(line[0], line[1..])))
    ensures !LineKept(line) ==> LineEnc(line, c) == Encoded([], c)
  {
    if |line| >= 2 {
      assert line[1..|line|] == line[1..];
      var kept := Dedup(line[0], line[1..]);
      assert |KeptPoints(line)| == 1 + |kept|;
      assert LineWords(c, line[0], kept) + [] == LineWords(c, line[0], kept);
    }
  }

  /**
   * A line component written at `cmds[i]` is read back as its kept points,
   * and the reader's cursor ends where the encoder left it; a component the
   * encoder drops is not written at all.
   */
  lemma LineThen(cmds: seq<Int32>, i: nat, line: seq<Coord>, c: Coord, next: nat, cur: Coord)
    requires |line| < SHORT && InBox(c) && AllInBox(line)
    requires next == i + |LineEnc(line, c).cmds| <= |cmds| && cmds[i..next] == LineEnc(line, c).cmds
    requires cur == LineEnc(line, c).cursor
    ensures LineEnc(line, c).cmds != [] <==> LineKept(line)
    ensures LineGroups(cmds, i, c) == Then(if LineKept(line) then [KeptPoints(line)] else [], LineGroups(cmds, next, cur))
    ensures InBox(cur)
  {
    LineEncShape(line, c);
    if LineKept(line) {
      var kept := Dedup(line[0], line[1..]);
      KeptInBox(line, |line|);
      assert line[1..|line|] == line[1..];
      BoxNear(c, line[0]);
      BoxWalk(line[0], kept);
      EndInBox(line[0], kept);
      LineGroupReads(cmds, i, c, line[0], kept, next, cur);
      assert KeptPoints(line) == [line[0]] + kept;
    } else {
      assert LineGroups(cmds, i, c) == Then([], LineGroups(cmds, next, cur));
    }
  }

  /** Every component shorter than the longest header length the reader takes back. */
  predicate AllShort(lines: seq<seq<Coord>>) {
    forall k :: 0 <= k < |lines| ==> |lines[k]| < SHORT
  }

  lemma AllShortTail(lines: seq<seq<Coord>>)
    requires lines != [] && AllShort(lines)
    ensures AllShort(lines[1..]) && |lines[0]| < SHORT
  {
    assert forall k :: 0 <= k < |lines[1..]| ==> lines[1..][k] == lines[k + 1];
  }

  /** Every coordinate of every component lies in the box. */
  predicate BoxedLines(lines: seq<seq<Coord>>) {
    forall l | l in lines :: AllInBox(l)
  }

  lemma BoxedTail(lines: seq<seq<Coord>>)
    requires lines != [] && BoxedLines(lines)
    ensures BoxedLines(lines[1..]) && AllInBox(lines[0])
  {
    assert lines[0] in lines;
    assert forall l | l in lines[1..] :: l in lines;
  }

  /** The points the encoder keeps from a component in the box lie in the box. */
  lemma KeptInBox(line: seq<Coord>, n: nat)
    requires 1 <= n <= |line| && AllInBox(line)
    ensures InBox(line[0]) && AllInBox(Dedup(line[0], line[1..n]))
  {
    assert line[0] in line;
    DedupKeeps(line[0], line[1..n]);
    assert forall p | p in line[1..n] :: p in line;
  }

  /** A walk in the box ends in the box. */
  lemma EndInBox(c: Coord, pts: seq<Coord>)
    requires InBox(c) && AllInBox(pts)
    ensures InBox(EndOf(c, pts))
  {
    if pts != [] {
      assert Last(pts) == pts[|pts| - 1] && pts[|pts| - 1] in pts;
    }
  }

  /** Reversal keeps the coordinates, hence the box. */
  lemma ReverseInBox(ring: seq<Coord>)
    requires AllInBox(ring)
    ensures AllInBox(Reverse(ring))
  {
    var r := Reverse(ring);
    forall p | p in r
      ensures InBox(p)
    {
      var k :| 0 <= k < |r| && r[k] == p;
      assert ring[|ring| - 1 - k] in ring;
    }
  }

  /** The line components the encoder writes, as their kept points. */
  function EncodedLines(lines: seq<seq<Coord>>): (r: seq<seq<Coord>>)
    ensures |r| <= |lines|
    decreases |lines|
  {
    if lines == [] then []
    else (if LineKept(lines[0]) then [KeptPoints(lines[0])] else []) + EncodedLines(lines[1..])
  }

  /**
   * The commands of a list of line components, found at `cmds[i]`, are read
   * back as the components the encoder wrote, and the reader's cursor ends
   * where the encoder's did.
   */
  lemma {:induction false} LinesListThen(cmds: seq<Int32>, i: nat, lines: seq<seq<Coord>>, c: Coord, next: nat, cur: Coord)
    requires AllShort(lines) && InBox(c) && BoxedLines(lines)
    requires next == i + |LinesListCmds(lines, c).cmds| <= |cmds| && cmds[i..next] == LinesListCmds(lines, c).cmds
    requires cur == LinesListCmds(lines, c).cursor
    ensures LineGroups(cmds, i, c) == Then(EncodedLines(lines), LineGroups(cmds, next, cur))
    decreases |lines|
  {
    if lines == [] {
      assert LineGroups(cmds, i, c) == Then([], LineGroups(cmds, next, cur));
    } else {
      var first := LineEnc(lines[0], c);
      var rest := LinesListCmds(lines[1..], first.cursor);
      assert LinesListCmds(lines, c) == Encoded(first.cmds + rest.cmds, rest.cursor);
      var mid := i + |first.cmds|;
      SliceSplit(cmds, i, mid, next, first.cmds, rest.cmds);
      AllShortTail(lines);
      BoxedTail(lines);
      LineThen(cmds, i, lines[0], c, mid, first.cursor);
      LinesListThen(cmds, mid, lines[1..], first.cursor, next, cur);
      var p := if LineKept(lines[0]) then [KeptPoints(lines[0])] else [];
      ThenThen(p, EncodedLines(lines[1..]), LineGroups(cmds, next, cur));
      assert EncodedLines(lines) == p + EncodedLines(lines[1..]);
    }
  }

  /** The encoder writes nothing for a list of line components exactly when it drops every one of them. */
  lemma {:induction false} LinesListEmpty(lines: seq<seq<Coord>>, c: Coord)
    requires AllShort(lines)
    ensures LinesListCmds(lines, c).cmds == [] <==> EncodedLines(lines) == []
    decreases |lines|
  {
    if lines != [] {
      LineEncShape(lines[0], c);
      AllShortTail(lines);
      LinesListEmpty(lines[1..], LineEnc(lines[0], c).cursor);
    }
  }

  /** No line group starts at the end of the commands. */
  lemma LineGroupsAtEnd(cmds: seq<Int32>, n: nat, c: Coord)
    requires n == |cmds|
    ensures LineGroups(cmds, n, c) == Groups([], c)
  {
  }

  /** All the line groups of a line geometry's commands are the components the encoder wrote. */
  lemma LinesGroupsWhole(lines: seq<seq<Coord>>)
    requires AllShort(lines) && BoxedLines(lines)
    ensures var e := LinesListCmds(lines, ORIGIN);
      LineGroups(e.cmds, 0, ORIGIN) == Groups(EncodedLines(lines), e.cursor)
  {
    var e := LinesListCmds(lines, ORIGIN);
    var cmds, n := e.cmds, |e.cmds|;
    WholeSlice(cmds);
    LinesListThen(cmds, 0, lines, ORIGIN, n, e.cursor);
    LineGroupsAtEnd(cmds, n, e.cursor);
    ThenNothing(EncodedLines(lines), e.cursor);
  }

  /**
   * Reading back the commands of a (multi-)line string gives the components
   * the encoder wrote, each as its kept points: a LineString when one was
   * written, a MultiLineString when several were, and nothing when none was.
   * Every coordinate lies in the box, so that every delta survives the
   * decoder's arithmetic shift.
   */
  lemma LinesRoundTrip(lines: seq<seq<Coord>>)
    requires AllShort(lines) && BoxedLines(lines)
    ensures var e := LinesListCmds(lines, ORIGIN);
      var parts := EncodedLines(lines);
      && (e.cmds == [] <==> parts == [])
      && (e.cmds != [] ==>
            ReadLinesSpec(e.cmds, ORIGIN) ==
              Decoded(Some(if |parts| == 1 then LineString(parts[0]) else MultiLineString(parts)), e.cursor))
  {
    LinesListEmpty(lines, ORIGIN);
    LinesGroupsWhole(lines);
  }

  // ------------------------------------------------------------ rings and polygons

  /** The commands of one ring group: a line group, then ClosePath(1). */
  function RingWords(c: Coord, start: Coord, pts: seq<Coord>): (r: seq<Int32>)
    requires |pts| < SHORT
    ensures |r| == 5 + 2 * |pts|
  {
    LineWords(c, start, pts) + [CLOSE_PATH_HDR]
  }

  /** The commands of one ring, the cursor at `c`. */
  function RingEnc(ring: seq<Coord>, c: Coord): Encoded
    requires ring != []
  {
    LinesCmds(ring, true, c, 2)
  }

  /** The points of a ring that follow the MoveTo: the closing repeats dropped, then deduplicated. */
  function RingDedup(ring: seq<Coord>): (r: seq<Coord>)
    requires ring != []
    ensures |r| < |ring|
  {
    Dedup(ring[0], ring[1..ProcCount(ring, true)])
  }

  /** Whether the encoder writes a ring at all: a LineTo of at least two points. */
  predicate RingKept(ring: seq<Coord>)
    requires ring != []
  {
    ProcCount(ring, true) >= 2 && |RingDedup(ring)| >= 2
  }

  /** The ring the reader makes of a written ring: the MoveTo point, the LineTo points, the MoveTo point again. */
  function ClosedKept(ring: seq<Coord>): (r: seq<Coord>)
    requires ring != []
    ensures |r| >= 2 && r[0] == Last(r) == ring[0]
  {
    [ring[0]] + RingDedup(ring) + [ring[0]]
  }

  /** The rings a ring contributes to the commands: itself when written, else none. */
  function EncodedRing(ring: seq<Coord>): (r: seq<seq<Coord>>)
    requires ring != []
  {
    if RingKept(ring) then [ClosedKept(ring)] else []
  }

  /** What the encoder writes for one ring: nothing, or the ring group of its kept points. */
  lemma RingEncShape(ring: seq<Coord>, c: Coord)
    requires ring != [] && |ring| < SHORT
    ensures RingKept(ring) ==> RingEnc(ring, c) == Encoded(RingWords(c, ring[0], RingDedup(ring)), EndOf(ring[0], RingDedup(ring)))
    ensures !RingKept(ring) ==> RingEnc(ring, c) == Encoded([], c)
  {
    if RingKept(ring) {
      var kept := RingDedup(ring);
      assert LineWords(c, ring[0], kept) == [GeomCmdHdr(MoveTo, 1)] + Delta(c, ring[0]) + [GeomCmdHdr(LineTo, |kept|)] + Deltas(ring[0], kept);
    }
  }

  /** A ring group found in the commands: a line group and a ClosePath. */
  lemma RingGroupAt(cmds: seq<Int32>, i: nat, c: Coord, start: Coord, pts: seq<Coord>, next: nat)
    requires 2 <= |pts| < SHORT
    requires next == i + |RingWords(c, start, pts)| <= |cmds| && cmds[i..next] == RingWords(c, start, pts)
    requires Near(c, start) && NearWalk(start, pts)
    ensures i + MIN_POLYGON_LEN <= |cmds|
    ensures RingGroup(cmds, i, c) == Group(Some([start] + pts + [start]), next, EndOf(start, pts))
  {
    var j := i + 4 + 2 * |pts|;
    SliceSplit(cmds, i, j, next, LineWords(c, start, pts), [CLOSE_PATH_HDR]);
    LineWordsRead(cmds, i, c, start, pts, j);
    HeaderReads(ClosePath, 1);
    assert cmds[j] == cmds[j..next][0] == CLOSE_PATH_HDR;
    RingGroupOf(cmds, i, c, start, pts);
  }

  /** A ring group whose headers, first move, LineTo points and ClosePath have been read. */
  lemma RingGroupOf(cmds: seq<Int32>, i: nat, c: Coord, start: Coord, pts: seq<Coord>)
    requires 2 <= |pts| < SHORT && i + 5 + 2 * |pts| <= |cmds|
    requires IsHeader(cmds[i], MoveTo, 1) && IsHeader(cmds[i + 3], LineTo, |pts|)
    requires Moved(c, DecodeZigZagAsWritten(cmds[i + 1]), DecodeZigZagAsWritten(cmds[i + 2])) == start
    requires DecodeDeltas(cmds, i + 4, |pts|, start) == pts
    requires IsHeader(cmds[i + 4 + 2 * |pts|], ClosePath, 1)
    ensures RingGroup(cmds, i, c) == Group(Some([start] + pts + [start]), i + 5 + 2 * |pts|, EndOf(start, pts))
  {
  }

  /** No ring group starts at the end of the commands. */
  lemma RingGroupsAtEnd(cmds: seq<Int32>, n: nat, c: Coord)
    requires n == |cmds|
    ensures RingGroups(cmds, n, c) == Groups([], c)
  {
  }

  /** A ring group read is followed by the groups after it. */
  lemma RingGroupsUnfold(cmds: seq<Int32>, i: nat, c: Coord, p: seq<Coord>, next: nat, cur: Coord)
    requires i + MIN_POLYGON_LEN <= |cmds| && RingGroup(cmds, i, c) == Group(Some(p), next, cur)
    ensures RingGroups(cmds, i, c) == Then([p], RingGroups(cmds, next, cur))
  {
  }

  /**
   * A ring written at `cmds[i]` is read back as its kept points, closed, and
   * the reader's cursor ends where the encoder left it; a ring the encoder
   * drops is not written at all.
   */
  lemma RingThen(cmds: seq<Int32>, i: nat, ring: seq<Coord>, c: Coord, next: nat, cur: Coord)
    requires ring != [] && |ring| < SHORT && InBox(c) && AllInBox(ring)
    requires next == i + |RingEnc(ring, c).cmds| <= |cmds| && cmds[i..next] == RingEnc(ring, c).cmds
    requires cur == RingEnc(ring, c).cursor
    ensures RingGroups(cmds, i, c) == Then(EncodedRing(ring), RingGroups(cmds, next, cur))
    ensures InBox(cur)
  {
    RingEncShape(ring, c);
    if RingKept(ring) {
      var kept := RingDedup(ring);
      KeptInBox(ring, ProcCount(ring, true));
      BoxNear(c, ring[0]);
      BoxWalk(ring[0], kept);
      EndInBox(ring[0], kept);
      RingGroupAt(cmds, i, c, ring[0], kept, next);
      RingGroupsUnfold(cmds, i, c, [ring[0]] + kept + [ring[0]], next, cur);
    } else {
      assert RingGroups(cmds, i, c) == Then([], RingGroups(cmds, next, cur));
    }
  }

  /** The interior rings the encoder writes, in order: each kept ring, made clockwise in y-up terms. */
  function HolesRings(holes: seq<seq<Coord>>, exteriorArea: int): seq<seq<Coord>>
    decreases |holes|
  {
    if holes == [] then []
    else
      var first := if Verdict(holes[0], exteriorArea) == Keep then EncodedRing(HoleRing(holes[0])) else [];
      first + HolesRings(holes[1..], exteriorArea)
  }

  /** No interior ring of the polygon spoils it. */
  predicate NoSpoil(holes: seq<seq<Coord>>, exteriorArea: int) {
    forall j :: 0 <= j < |holes| ==> Verdict(holes[j], exteriorArea) != Spoil
  }

  lemma NoSpoilTail(holes: seq<seq<Coord>>, exteriorArea: int)
    requires holes != [] && NoSpoil(holes, exteriorArea)
    ensures NoSpoil(holes[1..], exteriorArea) && Verdict(holes[0], exteriorArea) != Spoil
  {
    assert forall j :: 0 <= j < |holes[1..]| ==> holes[1..][j] == holes[j + 1];
  }

  /** A kept interior ring is written before the rest, which stay valid. */
  lemma HolesKeepCmds(holes: seq<seq<Coord>>, exteriorArea: int, c: Coord)
    requires holes != [] && Verdict(holes[0], exteriorArea) == Keep && NoSpoil(holes[1..], exteriorArea)
    ensures var first := RingEnc(HoleRing(holes[0]), c);
      var rest := HolesCmds(holes[1..], exteriorArea, first.cursor);
      HolesCmds(holes, exteriorArea, c) == HolesOutcome(first.cmds + rest.cmds, rest.cursor, true)
  {
    HolesValid(holes[1..], exteriorArea, RingEnc(HoleRing(holes[0]), c).cursor);
  }

  /** The interior rings of an unspoiled polygon are read back as the rings the encoder wrote. */
  lemma {:induction false} HolesThen(cmds: seq<Int32>, i: nat, holes: seq<seq<Coord>>, exteriorArea: int, c: Coord,
                                     next: nat, cur: Coord)
    requires AllShort(holes) && NoSpoil(holes, exteriorArea) && InBox(c) && BoxedLines(holes)
    requires next == i + |HolesCmds(holes, exteriorArea, c).cmds| <= |cmds|
    requires cmds[i..next] == HolesCmds(holes, exteriorArea, c).cmds
    requires cur == HolesCmds(holes, exteriorArea, c).cursor
    ensures RingGroups(cmds, i, c) == Then(HolesRings(holes, exteriorArea), RingGroups(cmds, next, cur))
    ensures InBox(cur)
    decreases |holes|
  {
    if holes == [] {
      assert RingGroups(cmds, i, c) == Then([], RingGroups(cmds, next, cur));
    } else {
      NoSpoilTail(holes, exteriorArea);
      AllShortTail(holes);
      BoxedTail(holes);
      var v := Verdict(holes[0], exteriorArea);
      if v == Skip {
        assert HolesCmds(holes, exteriorArea, c) == HolesCmds(holes[1..], exteriorArea, c);
        HolesThen(cmds, i, holes[1..], exteriorArea, c, next, cur);
        assert HolesRings(holes, exteriorArea) == HolesRings(holes[1..], exteriorArea) by {
          assert [] + HolesRings(holes[1..], exteriorArea) == HolesRings(holes[1..], exteriorArea);
        }
      } else {
        var ring := HoleRing(holes[0]);
        ReverseInBox(holes[0]);
        var first := RingEnc(ring, c);
        var rest := HolesCmds(holes[1..], exteriorArea, first.cursor);
        HolesKeepCmds(holes, exteriorArea, c);
        var mid := i + |first.cmds|;
        SliceSplit(cmds, i, mid, next, first.cmds, rest.cmds);
        RingThen(cmds, i, ring, c, mid, first.cursor);
        HolesThen(cmds, mid, holes[1..], exteriorArea, first.cursor, next, cur);
        var tail := RingGroups(cmds, next, cur);
        assert RingGroups(cmds, mid, first.cursor) == Then(HolesRings(holes[1..], exteriorArea), tail);
        ThenThen(EncodedRing(ring), HolesRings(holes[1..], exteriorArea), tail);
        assert HolesRings(holes, exteriorArea) == EncodedRing(ring) + HolesRings(holes[1..], exteriorArea);
        assert RingGroups(cmds, i, c) == Then(EncodedRing(ring) + HolesRings(holes[1..], exteriorArea), tail);
      }
    }
  }

  /** The exterior ring as the encoder writes it: counter-clockwise in y-up terms (a negative doubled area). */
  function Exterior(poly: Polygon): (r: seq<Coord>)
    requires !RoundsToZero(DoubledArea(poly.shell))
    ensures |r| == |poly.shell| > 0
  {
    if DoubledArea(poly.shell) > 0 then Reverse(poly.shell) else poly.shell
  }

  /** Every ring of the polygon is short enough for its header length to be read back. */
  predicate PolyShort(poly: Polygon) {
    |poly.shell| < SHORT && AllShort(poly.holes)
  }

  /** Every coordinate of the polygon lies in the box. */
  predicate PolyInBox(poly: Polygon) {
    AllInBox(poly.shell) && BoxedLines(poly.holes)
  }

  /**
   * Whether the encoder writes the polygon whole, or not at all: it is
   * dropped for an exterior area that rounds to zero; otherwise its exterior
   * ring is written and no interior ring spoils it.
   */
  predicate Unspoiled(poly: Polygon) {
    var area := DoubledArea(poly.shell);
    RoundsToZero(area) || (RingKept(Exterior(poly)) && NoSpoil(poly.holes, area))
  }

  /** The rings the encoder writes for one polygon, in order. */
  function PolyRings(poly: Polygon): seq<seq<Coord>> {
    var area := DoubledArea(poly.shell);
    if RoundsToZero(area) then [] else EncodedRing(Exterior(poly)) + HolesRings(poly.holes, area)
  }

  /** An unspoiled polygon that is not dropped: its exterior ring, then its interior rings. */
  lemma PolyCmdsShape(poly: Polygon, c: Coord)
    requires !RoundsToZero(DoubledArea(poly.shell)) && NoSpoil(poly.holes, DoubledArea(poly.shell))
    ensures var e := RingEnc(Exterior(poly), c);
      var h := HolesCmds(poly.holes, DoubledArea(poly.shell), e.cursor);
      PolyCmds(poly, c) == Encoded(e.cmds + h.cmds, h.cursor)
  {
    HolesValid(poly.holes, DoubledArea(poly.shell), RingEnc(Exterior(poly), c).cursor);
  }

  /** The rings of an unspoiled polygon are read back as the rings the encoder wrote. */
  lemma PolyThen(cmds: seq<Int32>, i: nat, poly: Polygon, c: Coord, next: nat, cur: Coord)
    requires PolyShort(poly) && Unspoiled(poly) && InBox(c) && PolyInBox(poly)
    requires next == i + |PolyCmds(poly, c).cmds| <= |cmds| && cmds[i..next] == PolyCmds(poly, c).cmds
    requires cur == PolyCmds(poly, c).cursor
    ensures RingGroups(cmds, i, c) == Then(PolyRings(poly), RingGroups(cmds, next, cur))
    ensures InBox(cur)
  {
    var area := DoubledArea(poly.shell);
    if RoundsToZero(area) {
      assert RingGroups(cmds, i, c) == Then([], RingGroups(cmds, next, cur));
    } else {
      var ext := Exterior(poly);
      ReverseInBox(poly.shell);
      var e := RingEnc(ext, c);
      var h := HolesCmds(poly.holes, area, e.cursor);
      PolyCmdsShape(poly, c);
      var mid := i + |e.cmds|;
      SliceSplit(cmds, i, mid, next, e.cmds, h.cmds);
      RingThen(cmds, i, ext, c, mid, e.cursor);
      HolesThen(cmds, mid, poly.holes, area, e.cursor, next, cur);
      var tail := RingGroups(cmds, next, cur);
      ThenThen(EncodedRing(ext), HolesRings(poly.holes, area), tail);
      assert RingGroups(cmds, i, c) == Then(EncodedRing(ext) + HolesRings(poly.holes, area), tail);
    }
  }

  /** The rings the encoder writes for a list of polygon components, in order. */
  function PolysRings(polys: seq<Polygon>): seq<seq<Coord>>
    decreases |polys|
  {
    if polys == [] then [] else PolyRings(polys[0]) + PolysRings(polys[1..])
  }

  /** Every polygon component is short and unspoiled. */
  predicate AllWritable(polys: seq<Polygon>) {
    forall k :: 0 <= k < |polys| ==> PolyShort(polys[k]) && Unspoiled(polys[k])
  }

  /** Every coordinate of every polygon component lies in the box. */
  predicate AllPolysInBox(polys: seq<Polygon>) {
    forall p | p in polys :: PolyInBox(p)
  }

  lemma AllWritableTail(polys: seq<Polygon>)
    requires polys != [] && AllWritable(polys)
    ensures AllWritable(polys[1..]) && PolyShort(polys[0]) && Unspoiled(polys[0])
  {
    assert forall k :: 0 <= k < |polys[1..]| ==> polys[1..][k] == polys[k + 1];
  }

  /** The rings of a list of unspoiled polygon components are read back as the rings the encoder wrote. */
  lemma {:induction false} PolysThen(cmds: seq<Int32>, i: nat, polys: seq<Polygon>, c: Coord, next: nat, cur: Coord)
    requires AllWritable(polys) && InBox(c) && AllPolysInBox(polys)
    requires next == i + |PolysCmds(polys, c).cmds| <= |cmds| && cmds[i..next] == PolysCmds(polys, c).cmds
    requires cur == PolysCmds(polys, c).cursor
    ensures RingGroups(cmds, i, c) == Then(PolysRings(polys), RingGroups(cmds, next, cur))
    decreases |polys|
  {
    if polys == [] {
      assert RingGroups(cmds, i, c) == Then([], RingGroups(cmds, next, cur));
    } else {
      AllWritableTail(polys);
      assert polys[0] in polys && forall p | p in polys[1..] :: p in polys;
      var first := PolyCmds(polys[0], c);
      var rest := PolysCmds(polys[1..], first.cursor);
      assert PolysCmds(polys, c) == Encoded(first.cmds + rest.cmds, rest.cursor);
      var mid := i + |first.cmds|;
      SliceSplit(cmds, i, mid, next, first.cmds, rest.cmds);
      PolyThen(cmds, i, polys[0], c, mid, first.cursor);
      PolysThen(cmds, mid, polys[1..], first.cursor, next, cur);
      var tail := RingGroups(cmds, next, cur);
      ThenThen(PolyRings(polys[0]), PolysRings(polys[1..]), tail);
      assert RingGroups(cmds, i, c) == Then(PolyRings(polys[0]) + PolysRings(polys[1..]), tail);
    }
  }

  /** All the ring groups of a polygon geometry's commands are the rings the encoder wrote. */
  lemma PolysGroupsWhole(polys: seq<Polygon>)
    requires AllWritable(polys) && AllPolysInBox(polys)
    ensures var e := PolysCmds(polys, ORIGIN);
      RingGroups(e.cmds, 0, ORIGIN) == Groups(PolysRings(polys), e.cursor)
  {
    var e := PolysCmds(polys, ORIGIN);
    var cmds, n := e.cmds, |e.cmds|;
    WholeSlice(cmds);
    PolysThen(cmds, 0, polys, ORIGIN, n, e.cursor);
    RingGroupsAtEnd(cmds, n, e.cursor);
    ThenNothing(PolysRings(polys), e.cursor);
  }

  // ------------------------------------------------------------ areas survive the round trip

  /** Dropping a repeated point leaves the edge sum and the end point of a walk unchanged. */
  lemma {:induction false} PairwiseDedup(c: Coord, pts: seq<Coord>)
    ensures Pairwise([c] + Dedup(c, pts)) == Pairwise([c] + pts)
    ensures EndOf(c, Dedup(c, pts)) == EndOf(c, pts)
    decreases |pts|
  {
    if pts != [] {
      var p, ps := pts[0], pts[1..];
      assert pts == [p] + ps;
      PairwiseCons(c, pts);
      if p == c {
        PairwiseDedup(c, ps);
        assert [c] + ps == pts;
      } else {
        var d := Dedup(p, ps);
        assert Dedup(c, pts) == [p] + d;
        PairwiseCons(c, [p] + d);
        assert [c] + ([p] + d) == [c] + Dedup(c, pts);
        PairwiseDedup(p, ps);
      }
    }
  }

  /** Repeating the first point at the end adds a zero-length closing edge. */
  lemma AreaAppendFirst(r: seq<Coord>)
    requires r != []
    ensures DoubledArea(r + [r[0]]) == DoubledArea(r)
  {
    var r' := r + [r[0]];
    assert r'[..|r'| - 1] == r;
    assert Pairwise(r') == Pairwise(r) + Cross(Last(r), r[0]);
  }

  /** Trailing copies of the first point do not change a ring's area. */
  lemma {:induction false} AreaDropClosing(ring: seq<Coord>, n: nat)
    requires 1 <= n <= |ring| && forall k :: n <= k < |ring| ==> ring[k] == ring[0]
    ensures DoubledArea(ring[..n]) == DoubledArea(ring)
    decreases |ring| - n
  {
    if n == |ring| {
      assert ring[..n] == ring;
    } else {
      assert ring[..n + 1] == ring[..n] + [ring[..n][0]];
      AreaAppendFirst(ring[..n]);
      AreaDropClosing(ring, n + 1);
    }
  }

  /** The coordinates after the processed ones are all copies of the first. */
  lemma ProcCountTail(ring: seq<Coord>)
    requires ring != []
    ensures forall k :: ProcCount(ring, true) <= k < |ring| ==> ring[k] == ring[0]
  {
    TrailingCountExact(ring[1..], ring[0]);
    assert forall k :: ProcCount(ring, true) <= k < |ring| ==> ring[k] == ring[1..][k - 1];
  }

  /** The ring the reader gets back has the area of the ring the encoder was given. */
  lemma ClosedKeptArea(ring: seq<Coord>)
    requires ring != []
    ensures DoubledArea(ClosedKept(ring)) == DoubledArea(ring)
  {
    var n := ProcCount(ring, true);
    var s, xs := ring[0], ring[1..n];
    var d := RingDedup(ring);
    AreaAppendFirst([s] + d);
    assert ClosedKept(ring) == ([s] + d) + [([s] + d)[0]];
    PairwiseDedup(s, xs);
    assert ring[..n] == [s] + xs;
    assert Last([s] + d) == EndOf(s, d) && Last([s] + xs) == EndOf(s, xs);
    assert DoubledArea([s] + d) == DoubledArea(ring[..n]);
    ProcCountTail(ring);
    AreaDropClosing(ring, n);
  }

  // ------------------------------------------------------------ the classifiers regroup the rings

  /** The polygon the reader gets back for a polygon the encoder writes. */
  function DecodedPoly(poly: Polygon): Polygon
    requires !RoundsToZero(DoubledArea(poly.shell))
  {
    Polygon(ClosedKept(Exterior(poly)), HolesRings(poly.holes, DoubledArea(poly.shell)))
  }

  /** The polygons the reader gets back: one per polygon component the encoder does not drop. */
  function DecodedPolys(polys: seq<Polygon>): (r: seq<Polygon>)
    ensures |r| <= |polys|
    decreases |polys|
  {
    if polys == [] then []
    else
      var first := if RoundsToZero(DoubledArea(polys[0].shell)) then [] else [DecodedPoly(polys[0])];
      first + DecodedPolys(polys[1..])
  }

  /** The rings of a list of polygons, each exterior ring followed by its interior rings. */
  function RingList(ps: seq<Polygon>): seq<seq<Coord>>
    decreases |ps|
  {
    if ps == [] then [] else [ps[0].shell] + ps[0].holes + RingList(ps[1..])
  }

  /**
   * How the encoder winds a polygon: the exterior ring counter-clockwise in
   * y-up terms (a negative doubled area), each interior ring clockwise and
   * smaller than the exterior one.
   */
  predicate Wound(p: Polygon) {
    DoubledArea(p.shell) < 0 && InBand(p.holes, -DoubledArea(p.shell))
  }

  /** Every ring of the list is clockwise in y-up terms and smaller than the bound. */
  predicate InBand(rings: seq<seq<Coord>>, bound: int) {
    forall k :: 0 <= k < |rings| ==> 0 < DoubledArea(rings[k]) < bound
  }

  /** A kept interior ring is written clockwise and smaller than the exterior ring. */
  lemma HoleWound(hole: seq<Coord>, exteriorArea: int)
    requires Verdict(hole, exteriorArea) == Keep
    ensures InBand(EncodedRing(HoleRing(hole)), Abs(exteriorArea))
  {
    var h := HoleRing(hole);
    ReverseNegatesArea(hole);
    assert DoubledArea(h) == Abs(DoubledArea(hole));
    ClosedKeptArea(h);
  }

  lemma InBandJoin(a: seq<seq<Coord>>, b: seq<seq<Coord>>, bound: int)
    requires InBand(a, bound) && InBand(b, bound)
    ensures InBand(a + b, bound)
  {
    assert forall k :: 0 <= k < |a + b| ==> (a + b)[k] == if k < |a| then a[k] else b[k - |a|];
  }

  /** The interior rings written are clockwise and smaller than the exterior ring. */
  lemma {:induction false} HolesRingsWound(holes: seq<seq<Coord>>, exteriorArea: int)
    ensures InBand(HolesRings(holes, exteriorArea), Abs(exteriorArea))
    decreases |holes|
  {
    if holes != [] {
      HolesRingsWound(holes[1..], exteriorArea);
      if Verdict(holes[0], exteriorArea) == Keep {
        HoleWound(holes[0], exteriorArea);
        InBandJoin(EncodedRing(HoleRing(holes[0])), HolesRings(holes[1..], exteriorArea), Abs(exteriorArea));
      } else {
        assert HolesRings(holes, exteriorArea) == [] + HolesRings(holes[1..], exteriorArea);
      }
    }
  }

  /** The exterior ring written is counter-clockwise, with the magnitude of the original area. */
  lemma ExteriorArea(poly: Polygon)
    requires !RoundsToZero(DoubledArea(poly.shell))
    ensures DoubledArea(ClosedKept(Exterior(poly))) + Abs(DoubledArea(poly.shell)) == 0
  {
    assert DoubledArea(poly.shell) != 0;
    ReverseNegatesArea(poly.shell);
    ClosedKeptArea(Exterior(poly));
  }

  /** Every polygon the reader gets back is wound as the encoder winds it. */
  lemma DecodedWound(poly: Polygon)
    requires !RoundsToZero(DoubledArea(poly.shell))
    ensures Wound(DecodedPoly(poly))
  {
    ExteriorArea(poly);
    HolesRingsWound(poly.holes, DoubledArea(poly.shell));
  }

  /** Every ring of the list is simple. */
  predicate AllRings(rings: seq<seq<Coord>>, isRing: seq<Coord> -> bool) {
    forall k :: 0 <= k < |rings| ==> isRing(rings[k])
  }

  lemma AllRingsSplit(a: seq<seq<Coord>>, b: seq<seq<Coord>>, isRing: seq<Coord> -> bool)
    requires AllRings(a + b, isRing)
    ensures AllRings(a, isRing) && AllRings(b, isRing)
  {
    assert forall k :: 0 <= k < |a| ==> (a + b)[k] == a[k];
    assert forall k :: 0 <= k < |b| ==> (a + b)[|a| + k] == b[k];
  }

  /** A clockwise ring smaller than the exterior ring becomes one of its holes, for either classifier. */
  lemma {:induction false} ClassifyHoles(v: RingClassifier, hs: seq<seq<Coord>>, rest: seq<seq<Coord>>, s: ScanState,
                                         isRing: seq<Coord> -> bool)
    requires s.outer.Some? && s.outerArea < 0
    requires AllRings(hs, isRing) && InBand(hs, -s.outerArea)
    ensures ClassifyFrom(v, hs + rest, s, isRing) == ClassifyFrom(v, rest, s.(holes := s.holes + hs), isRing)
    decreases |hs|
  {
    if hs == [] {
      assert [] + rest == rest && s.holes + [] == s.holes;
    } else {
      var s' := s.(holes := s.holes + [hs[0]]);
      assert isRing(hs[0]) && 0 < DoubledArea(hs[0]) < -s.outerArea;
      assert Step(v, s, hs[0], isRing) == s';
      assert forall k :: 0 <= k < |hs[1..]| ==> hs[1..][k] == hs[k + 1];
      assert (hs + rest)[0] == hs[0] && (hs + rest)[1..] == hs[1..] + rest;
      ClassifyHoles(v, hs[1..], rest, s', isRing);
      assert s'.holes + hs[1..] == s.holes + hs;
    }
  }

  /** A counter-clockwise exterior ring starts a new polygon, for either classifier. */
  lemma ShellStarts(v: RingClassifier, s: ScanState, d: Polygon, isRing: seq<Coord> -> bool)
    requires Wound(d) && isRing(d.shell)
    requires s.outer.Some? ==> s.outerArea < 0
    ensures Step(v, s, d.shell, isRing) == ScanState(Flushed(s), Some(d.shell), DoubledArea(d.shell), [])
  {
    assert StartsOuter(v, s, DoubledArea(d.shell));
  }

  /** The rings of the first polygon, then those of the others. */
  lemma RingListCons(ds: seq<Polygon>, isRing: seq<Coord> -> bool)
    requires ds != [] && AllRings(RingList(ds), isRing)
    ensures RingList(ds) == [ds[0].shell] + (ds[0].holes + RingList(ds[1..]))
    ensures isRing(ds[0].shell) && AllRings(ds[0].holes, isRing) && AllRings(RingList(ds[1..]), isRing)
  {
    var d := ds[0];
    var rest := RingList(ds[1..]);
    assert RingList(ds) == ([d.shell] + d.holes) + rest;
    AllRingsSplit([d.shell] + d.holes, rest, isRing);
    AllRingsSplit([d.shell], d.holes, isRing);
    assert ([d.shell] + d.holes)[0] == d.shell;
  }

  /** The holes of a wound polygon become holes of its exterior ring. */
  lemma HolesJoin(v: RingClassifier, d: Polygon, rest: seq<seq<Coord>>, s: ScanState, isRing: seq<Coord> -> bool)
    requires Wound(d) && AllRings(d.holes, isRing)
    requires s == ScanState(s.polygons, Some(d.shell), DoubledArea(d.shell), [])
    ensures ClassifyFrom(v, d.holes + rest, s, isRing) == ClassifyFrom(v, rest, s.(holes := d.holes), isRing)
  {
    ClassifyHoles(v, d.holes, rest, s, isRing);
    assert [] + d.holes == d.holes;
  }

  lemma AppendHead(a: seq<Polygon>, ds: seq<Polygon>)
    requires ds != []
    ensures a + [ds[0]] + ds[1..] == a + ds
  {
    assert [ds[0]] + ds[1..] == ds;
    assert a + [ds[0]] + ds[1..] == a + ([ds[0]] + ds[1..]);
  }

  /** Every polygon of the list is wound as the encoder winds it. */
  predicate AllWound(ds: seq<Polygon>) {
    forall k :: 0 <= k < |ds| ==> Wound(ds[k])
  }

  lemma AllWoundJoin(a: seq<Polygon>, b: seq<Polygon>)
    requires AllWound(a) && AllWound(b)
    ensures AllWound(a + b)
  {
    assert forall k :: 0 <= k < |a + b| ==> (a + b)[k] == if k < |a| then a[k] else b[k - |a|];
  }

  /** Wound polygons, their rings listed in order, are classified back into the same polygons. */
  lemma {:induction false} ClassifyWound(v: RingClassifier, ds: seq<Polygon>, s: ScanState, isRing: seq<Coord> -> bool)
    requires AllWound(ds) && AllRings(RingList(ds), isRing)
    requires s.outer.Some? ==> s.outerArea < 0
    ensures ClassifyFrom(v, RingList(ds), s, isRing) == Flushed(s) + ds
    decreases |ds|
  {
    if ds == [] {
      assert Flushed(s) + [] == Flushed(s);
    } else {
      var d := ds[0];
      var rest := RingList(ds[1..]);
      RingListCons(ds, isRing);
      assert Wound(d);
      ShellStarts(v, s, d, isRing);
      var s1 := ScanState(Flushed(s), Some(d.shell), DoubledArea(d.shell), []);
      assert ClassifyFrom(v, RingList(ds), s, isRing) == ClassifyFrom(v, d.holes + rest, s1, isRing);
      HolesJoin(v, d, rest, s1, isRing);
      var s2 := s1.(holes := d.holes);
      assert forall k :: 0 <= k < |ds[1..]| ==> Wound(ds[1..][k]);
      ClassifyWound(v, ds[1..], s2, isRing);
      assert Flushed(s2) == Flushed(s) + [d];
      AppendHead(Flushed(s), ds);
    }
  }

  // ------------------------------------------------------------ polygons

  lemma RingListHead(d: Polygon, tail: seq<Polygon>)
    ensures RingList([d] + tail) == [d.shell] + d.holes + RingList(tail)
  {
    assert ([d] + tail)[0] == d && ([d] + tail)[1..] == tail;
  }

  /** One polygon component's rings as written are those of the polygon read back. */
  lemma PolyRingsDecoded(p: Polygon)
    requires Unspoiled(p) && !RoundsToZero(DoubledArea(p.shell))
    ensures PolyRings(p) == [DecodedPoly(p).shell] + DecodedPoly(p).holes
  {
  }

  /** The rings the encoder writes are the rings of the polygons the reader gets back, in order. */
  lemma {:induction false} PolysRingsDecoded(polys: seq<Polygon>)
    requires AllWritable(polys)
    ensures PolysRings(polys) == RingList(DecodedPolys(polys))
    decreases |polys|
  {
    if polys != [] {
      AllWritableTail(polys);
      PolysRingsDecoded(polys[1..]);
      var p := polys[0];
      var tail := DecodedPolys(polys[1..]);
      var rest := PolysRings(polys[1..]);
      assert rest == RingList(tail);
      assert PolysRings(polys) == PolyRings(p) + rest;
      if !RoundsToZero(DoubledArea(p.shell)) {
        var d := DecodedPoly(p);
        PolyRingsDecoded(p);
        assert DecodedPolys(polys) == [d] + tail;
        RingListHead(d, tail);
        assert PolysRings(polys) == [d.shell] + d.holes + rest;
      } else {
        assert PolyRings(p) == [] && rest == [] + rest;
        assert DecodedPolys(polys) == [] + tail == tail;
      }
    }
  }

  /** Every polygon read back is wound as the encoder winds it. */
  lemma {:induction false} DecodedPolysWound(polys: seq<Polygon>)
    ensures AllWound(DecodedPolys(polys))
    decreases |polys|
  {
    if polys != [] {
      DecodedPolysWound(polys[1..]);
      var p := polys[0];
      var tail := DecodedPolys(polys[1..]);
      if !RoundsToZero(DoubledArea(p.shell)) {
        var d := DecodedPoly(p);
        DecodedWound(p);
        assert DecodedPolys(polys) == [d] + tail;
        AllWoundJoin([d], tail);
      } else {
        assert DecodedPolys(polys) == [] + tail == tail;
      }
    }
  }

  /**
   * The encoder writes no commands exactly when every polygon component is
   * dropped, and then the cursor stays where it was.
   */
  lemma {:induction false} PolysCmdsEmpty(polys: seq<Polygon>, c: Coord)
    requires AllWritable(polys)
    ensures PolysCmds(polys, c).cmds == [] <==> DecodedPolys(polys) == []
    ensures DecodedPolys(polys) == [] ==> PolysCmds(polys, c) == Encoded([], c)
    decreases |polys|
  {
    if polys != [] {
      AllWritableTail(polys);
      var p := polys[0];
      var first := PolyCmds(p, c);
      PolysCmdsEmpty(polys[1..], first.cursor);
      var rest := PolysCmds(polys[1..], first.cursor);
      assert PolysCmds(polys, c) == Encoded(first.cmds + rest.cmds, rest.cursor);
      if !RoundsToZero(DoubledArea(p.shell)) {
        PolyCmdsShape(p, c);
        var ext := Exterior(p);
        RingEncShape(ext, c);
        var e := RingEnc(ext, c);
        assert |e.cmds| >= 5;
        assert first.cmds[..|e.cmds|] == e.cmds;
        assert first.cmds != [];
        assert DecodedPolys(polys) == [DecodedPoly(p)] + DecodedPolys(polys[1..]);
      } else {
        assert first == Encoded([], c);
        assert DecodedPolys(polys) == [] + DecodedPolys(polys[1..]) == DecodedPolys(polys[1..]);
        assert first.cmds + rest.cmds == rest.cmds;
      }
    }
  }

  /**
   * The polygon round trip: the commands the encoder writes for a list of
   * polygon components read back, with either ring classifier, as the
   * components it did not drop, each with its exterior ring made
   * counter-clockwise and its kept interior rings made clockwise (in y-up
   * terms), closed, and with repeated points removed. Every coordinate lies
   * in the box, so that every delta survives the decoder's arithmetic shift.
   */
  lemma PolysRoundTrip(polys: seq<Polygon>, v: RingClassifier, isRing: seq<Coord> -> bool)
    requires AllWritable(polys) && AllPolysInBox(polys)
    requires AllRings(PolysRings(polys), isRing)
    ensures var e := PolysCmds(polys, ORIGIN);
      var ds := DecodedPolys(polys);
      && (e.cmds == [] <==> ds == [])
      && ReadPolysSpec(e.cmds, ORIGIN, v, isRing)
         == Decoded(if ds == [] then None else if |ds| == 1 then Some(PolygonShape(ds[0])) else Some(MultiPolygon(ds)),
                    e.cursor)
  {
    var e := PolysCmds(polys, ORIGIN);
    var ds := DecodedPolys(polys);
    PolysCmdsEmpty(polys, ORIGIN);
    PolysRingsDecoded(polys);
    DecodedPolysWound(polys);
    if e.cmds != [] {
      PolysGroupsWhole(polys);
      ClassifyWound(v, ds, START, isRing);
      assert Flushed(START) + ds == ds;
      assert Classify(v, RingGroups(e.cmds, 0, ORIGIN).parts, isRing) == ds;
    }
  }
}
