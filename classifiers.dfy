/**
 * The two ring classifiers of MvtReader: they group the closed rings a
 * polygon feature decodes to into polygons, by the sign and size of each
 * ring's area. Whether a ring is simple (JTS `LinearRing.isRing`) is a
 * topological test outside this model and is passed in as `isRing`.
 */
module Classifiers {
  import opened Wrappers
  import opened Geometry

  /** `PolyRingClassifierV1` (the default one) and `PolyRingClassifierV2_1`. */
  datatype RingClassifier = V1 | V2_1

  /** The classifier used when none is given. */
  const RING_CLASSIFIER_DEFAULT: RingClassifier := V1

  /** The scan state: the polygons finished so far, the current exterior ring with its area, and its holes so far. */
  datatype ScanState = ScanState(polygons: seq<Polygon>, outer: Option<seq<Coord>>, outerArea: int, holes: seq<seq<Coord>>)

  /** Before the first ring: no polygon, no exterior ring, `outerArea` 0. */
  const START: ScanState := ScanState([], None, 0, [])

  /** The finished polygons, with the current exterior ring and its holes added when there is one. */
  function Flushed(s: ScanState): (r: seq<Polygon>)
    ensures |r| == |s.polygons| + (if s.outer.Some? then 1 else 0)
  {
    if s.outer.Some? then s.polygons + [Polygon(s.outer.value, s.holes)] else s.polygons
  }

  /**
   * Whether an accepted ring starts a new polygon: for V1, the first ring and
   * every ring wound like the current exterior ring; for V2.1, every ring
   * with a negative area.
   */
  predicate StartsOuter(v: RingClassifier, s: ScanState, area: int) {
    match v
    case V1 => s.outer.None? || ((s.outerArea < 0) == (area < 0))
    case V2_1 => area < 0
  }

  /**
   * One ring of the scan: a ring that is not simple or has area 0 is skipped;
   * a new exterior ring flushes the current polygon; any other ring becomes a
   * hole unless its area is larger than the exterior ring's.
   */
  function Step(v: RingClassifier, s: ScanState, r: seq<Coord>, isRing: seq<Coord> -> bool): ScanState {
    var area := DoubledArea(r);
    if !isRing(r) || area == 0 then s
    else if StartsOuter(v, s, area) then ScanState(Flushed(s), Some(r), area, [])
    else if Abs(s.outerArea) < Abs(area) then s
    else s.(holes := s.holes + [r])
  }

  /** The scan over the remaining rings, and the final flush. */
  function ClassifyFrom(v: RingClassifier, rings: seq<seq<Coord>>, s: ScanState, isRing: seq<Coord> -> bool): seq<Polygon>
    decreases |rings|
  {
    if rings == [] then Flushed(s) else ClassifyFrom(v, rings[1..], Step(v, s, rings[0], isRing), isRing)
  }

  /** `classifyRings`. */
  function Classify(v: RingClassifier, rings: seq<seq<Coord>>, isRing: seq<Coord> -> bool): seq<Polygon> {
    ClassifyFrom(v, rings, START, isRing)
  }

  /** One more ring of the scan. */
  lemma ClassifyStep(v: RingClassifier, rings: seq<seq<Coord>>, i: nat, s: ScanState, isRing: seq<Coord> -> bool)
    requires i < |rings|
    ensures ClassifyFrom(v, rings[i..], s, isRing) == ClassifyFrom(v, rings[i + 1..], Step(v, s, rings[i], isRing), isRing)
  {
    assert rings[i..][0] == rings[i] && rings[i..][1..] == rings[i + 1..];
  }

  /** `PolyRingClassifierV1.classifyRings`. */
  method ClassifyRingsV1(rings: seq<seq<Coord>>, isRing: seq<Coord> -> bool) returns (polygons: seq<Polygon>)
    ensures polygons == Classify(V1, rings, isRing)
  {
    polygons := [];
    var holes: seq<seq<Coord>> := [];
    var outerArea := 0;
    var outerPoly: Option<seq<Coord>> := None;
    var i := 0;
    assert rings[0..] == rings;
    while i < |rings|
      invariant 0 <= i <= |rings|
      invariant ClassifyFrom(V1, rings[i..], ScanState(polygons, outerPoly, outerArea, holes), isRing)
        == Classify(V1, rings, isRing)
      invariant outerPoly.None? ==> holes == [] && outerArea == 0
    {
      ClassifyStep(V1, rings, i, ScanState(polygons, outerPoly, outerArea, holes), isRing);
      var r := rings[i];
      var area := DoubledArea(r);
      i := i + 1;
      if !isRing(r) || area == 0 {
        continue;
      }
      if outerPoly.None? || ((outerArea < 0) == (area < 0)) {
        if outerPoly.Some? {
          polygons := polygons + [Polygon(outerPoly.value, holes)];
          holes := [];
        }
        outerPoly := Some(r);
        outerArea := area;
      } else {
        if Abs(outerArea) < Abs(area) {
          continue;
        }
        holes := holes + [r];
      }
    }
    assert rings[i..] == [];
    if outerPoly.Some? {
      polygons := polygons + [Polygon(outerPoly.value, holes)];
    }
  }

  /** `PolyRingClassifierV2_1.classifyRings`. */
  method ClassifyRingsV2_1(rings: seq<seq<Coord>>, isRing: seq<Coord> -> bool) returns (polygons: seq<Polygon>)
    ensures polygons == Classify(V2_1, rings, isRing)
  {
    polygons := [];
    var holes: seq<seq<Coord>> := [];
    var outerArea := 0;
    var outerPoly: Option<seq<Coord>> := None;
    var i := 0;
    assert rings[0..] == rings;
    while i < |rings|
      invariant 0 <= i <= |rings|
      invariant ClassifyFrom(V2_1, rings[i..], ScanState(polygons, outerPoly, outerArea, holes), isRing)
        == Classify(V2_1, rings, isRing)
      invariant outerPoly.None? ==> holes == [] && outerArea == 0
    {
      ClassifyStep(V2_1, rings, i, ScanState(polygons, outerPoly, outerArea, holes), isRing);
      var r := rings[i];
      var area := DoubledArea(r);
      i := i + 1;
      if !isRing(r) || area == 0 {
        continue;
      }
      if area < 0 {
        if outerPoly.Some? {
          polygons := polygons + [Polygon(outerPoly.value, holes)];
          holes := [];
        }
        outerPoly := Some(r);
        outerArea := area;
      } else {
        if Abs(outerArea) < Abs(area) {
          continue;
        }
        holes := holes + [r];
      }
    }
    assert rings[i..] == [];
    if outerPoly.Some? {
      polygons := polygons + [Polygon(outerPoly.value, holes)];
    }
  }

  /** `ringClassifier.classifyRings(rings, geomFactory)` for either classifier. */
  method ClassifyRings(v: RingClassifier, rings: seq<seq<Coord>>, isRing: seq<Coord> -> bool) returns (polygons: seq<Polygon>)
    ensures polygons == Classify(v, rings, isRing)
  {
    match v {
      case V1 => polygons := ClassifyRingsV1(rings, isRing);
      case V2_1 => polygons := ClassifyRingsV2_1(rings, isRing);
    }
  }

  // ------------------------------------------------------------ what the classifiers guarantee

  /** A ring the scan accepts: one of the input rings, simple, with a non-zero area. */
  predicate Accepted(r: seq<Coord>, isRing: seq<Coord> -> bool, all: seq<seq<Coord>>) {
    r in all && isRing(r) && DoubledArea(r) != 0
  }

  /**
   * A hole fits its exterior ring: it is no larger, and it is wound the other
   * way (for V2.1: an exterior ring is negative, a hole positive).
   */
  predicate HoleFits(v: RingClassifier, h: seq<Coord>, shellArea: int) {
    var a := DoubledArea(h);
    Abs(a) <= Abs(shellArea) && (a < 0) != (shellArea < 0)
    && (v == V2_1 ==> shellArea < 0 < a)
  }

  /** A polygon the classifier may produce. */
  predicate WellFormed(v: RingClassifier, p: Polygon, isRing: seq<Coord> -> bool, all: seq<seq<Coord>>) {
    Accepted(p.shell, isRing, all) && (v == V2_1 ==> DoubledArea(p.shell) < 0)
    && forall h :: h in p.holes ==> Accepted(h, isRing, all) && HoleFits(v, h, DoubledArea(p.shell))
  }

  /** What holds of the scan state at every step. */
  predicate Good(v: RingClassifier, s: ScanState, isRing: seq<Coord> -> bool, all: seq<seq<Coord>>) {
    (forall p :: p in s.polygons ==> WellFormed(v, p, isRing, all))
    && (s.outer.None? ==> s.holes == [] && s.outerArea == 0)
    && (s.outer.Some? ==>
          s.outerArea == DoubledArea(s.outer.value) && WellFormed(v, Polygon(s.outer.value, s.holes), isRing, all))
  }

  lemma FlushedGood(v: RingClassifier, s: ScanState, isRing: seq<Coord> -> bool, all: seq<seq<Coord>>)
    requires Good(v, s, isRing, all)
    ensures forall p :: p in Flushed(s) ==> WellFormed(v, p, isRing, all)
  {
  }

  lemma StepGood(v: RingClassifier, s: ScanState, r: seq<Coord>, isRing: seq<Coord> -> bool, all: seq<seq<Coord>>)
    requires Good(v, s, isRing, all) && r in all
    ensures Good(v, Step(v, s, r, isRing), isRing, all)
  {
    var area := DoubledArea(r);
    if isRing(r) && area != 0 {
      if StartsOuter(v, s, area) {
        FlushedGood(v, s, isRing, all);
      } else if Abs(s.outerArea) >= Abs(area) {
        var p := Polygon(s.outer.value, s.holes + [r]);
        assert forall h :: h in p.holes ==> h in s.holes || h == r;
      }
    }
  }

  lemma {:induction false} ClassifyFromGood(v: RingClassifier, rings: seq<seq<Coord>>, s: ScanState,
                                            isRing: seq<Coord> -> bool, all: seq<seq<Coord>>)
    requires Good(v, s, isRing, all) && forall r :: r in rings ==> r in all
    ensures forall p :: p in ClassifyFrom(v, rings, s, isRing) ==> WellFormed(v, p, isRing, all)
    decreases |rings|
  {
    if rings == [] {
      FlushedGood(v, s, isRing, all);
    } else {
      StepGood(v, s, rings[0], isRing, all);
      assert forall r :: r in rings[1..] ==> r in rings;
      ClassifyFromGood(v, rings[1..], Step(v, s, rings[0], isRing), isRing, all);
    }
  }

  /**
   * Every polygon either classifier produces is made of input rings that are
   * simple and have a non-zero area, and each hole is no larger than its
   * exterior ring and wound the other way; with V2.1 the exterior rings are
   * exactly the negative ones.
   */
  lemma ClassifyWellFormed(v: RingClassifier, rings: seq<seq<Coord>>, isRing: seq<Coord> -> bool)
    ensures forall p :: p in Classify(v, rings, isRing) ==> WellFormed(v, p, isRing, rings)
  {
    ClassifyFromGood(v, rings, START, isRing, rings);
  }

  // ------------------------------------------------------------ V1: one winding for all exterior rings

  /** The sign of the first accepted ring, which V1 takes as the exterior winding. */
  function FirstSign(rings: seq<seq<Coord>>, isRing: seq<Coord> -> bool): Option<bool>
    decreases |rings|
  {
    if rings == [] then None
    else if isRing(rings[0]) && DoubledArea(rings[0]) != 0 then Some(DoubledArea(rings[0]) < 0)
    else FirstSign(rings[1..], isRing)
  }

  /** In a V1 scan every exterior ring so far is wound like the current one. */
  predicate SameWinding(s: ScanState) {
    forall p :: p in s.polygons ==> s.outer.Some? && (DoubledArea(p.shell) < 0) == (s.outerArea < 0)
  }

  lemma {:induction false} ClassifyFromSameWinding(rings: seq<seq<Coord>>, s: ScanState, isRing: seq<Coord> -> bool)
    requires SameWinding(s) && (s.outer.Some? ==> s.outerArea == DoubledArea(s.outer.value))
    requires s.outer.Some? ==> s.outerArea != 0
    ensures var ps := ClassifyFrom(V1, rings, s, isRing);
      s.outer.Some? ==> forall p :: p in ps ==> (DoubledArea(p.shell) < 0) == (s.outerArea < 0)
    ensures var ps := ClassifyFrom(V1, rings, s, isRing);
      s.outer.None? && FirstSign(rings, isRing).Some? ==>
        forall p :: p in ps ==> (DoubledArea(p.shell) < 0) == FirstSign(rings, isRing).value
    decreases |rings|
  {
    if rings != [] {
      var s' := Step(V1, s, rings[0], isRing);
      assert SameWinding(s') && (s'.outer.Some? ==> s'.outerArea == DoubledArea(s'.outer.value) != 0);
      assert s.outer.Some? ==> s'.outer.Some? && (s'.outerArea < 0) == (s.outerArea < 0);
      ClassifyFromSameWinding(rings[1..], s', isRing);
    }
  }

  /**
   * V1 takes the winding of the first simple ring with a non-zero area as the
   * exterior winding: every polygon's exterior ring is wound that way.
   */
  lemma ClassifyV1Winding(rings: seq<seq<Coord>>, isRing: seq<Coord> -> bool)
    ensures var ps := Classify(V1, rings, isRing);
      (ps == [] <==> FirstSign(rings, isRing).None?)
      && forall p :: p in ps ==> (DoubledArea(p.shell) < 0) == FirstSign(rings, isRing).value
  {
    ClassifyFromSameWinding(rings, START, isRing);
    ClassifyV1Empty(rings, START, isRing);
  }

  lemma {:induction false} ClassifyV1Empty(rings: seq<seq<Coord>>, s: ScanState, isRing: seq<Coord> -> bool)
    requires s.outer.None? ==> s.polygons == []
    ensures ClassifyFrom(V1, rings, s, isRing) == [] <==> s.outer.None? && FirstSign(rings, isRing).None?
    decreases |rings|
  {
    if rings != [] {
      ClassifyV1Empty(rings[1..], Step(V1, s, rings[0], isRing), isRing);
      if s.outer.Some? {
        ClassifyGrows(V1, rings[1..], Step(V1, s, rings[0], isRing), isRing);
      }
    }
  }

  /** The scan never drops a polygon it has finished or started. */
  lemma {:induction false} ClassifyGrows(v: RingClassifier, rings: seq<seq<Coord>>, s: ScanState, isRing: seq<Coord> -> bool)
    ensures |ClassifyFrom(v, rings, s, isRing)| >= |Flushed(s)|
    decreases |rings|
  {
    if rings != [] {
      ClassifyGrows(v, rings[1..], Step(v, s, rings[0], isRing), isRing);
    }
  }

  // ------------------------------------------------------------ V2.1: one polygon per negative ring

  /** How many input rings are simple and negative. */
  function NegativeRings(rings: seq<seq<Coord>>, isRing: seq<Coord> -> bool): nat
    decreases |rings|
  {
    if rings == [] then 0
    else (if isRing(rings[0]) && DoubledArea(rings[0]) < 0 then 1 else 0) + NegativeRings(rings[1..], isRing)
  }

  lemma {:induction false} ClassifyFromCount(rings: seq<seq<Coord>>, s: ScanState, isRing: seq<Coord> -> bool)
    ensures |ClassifyFrom(V2_1, rings, s, isRing)| == |Flushed(s)| + NegativeRings(rings, isRing)
    decreases |rings|
  {
    if rings != [] {
      ClassifyFromCount(rings[1..], Step(V2_1, s, rings[0], isRing), isRing);
    }
  }

  /** V2.1 makes exactly one polygon per simple ring with a negative area; a positive ring before any of them is dropped. */
  lemma ClassifyV2_1Count(rings: seq<seq<Coord>>, isRing: seq<Coord> -> bool)
    ensures |Classify(V2_1, rings, isRing)| == NegativeRings(rings, isRing)
  {
    ClassifyFromCount(rings, START, isRing);
  }
}
