/**
 * The per-feature loop of MvtReader.loadMvt, once the protobuf tile is
 * parsed: each layer's features are decoded with the reader from a cursor
 * reset to (0, 0), optionally given user data by a tag converter, and
 * gathered into JtsLayers and a JtsMvt.
 */
module Loader {
  import opened Wrappers
  import opened Codec
  import opened Geometry
  import opened Cursor
  import opened Classifiers
  import opened Objects
  import opened VectorTile
  import opened Model
  import opened Reader
  import TC = TagConverter

  /** A tag converter, when there is one, that `ToUserData` accepts. */
  predicate UsableConverter(tagConverter: Option<TC.TagConverter>) {
    tagConverter.Some? ==> TC.ValidConverter(tagConverter.value)
  }

  /**
   * One feature as the loop of `loadMvt` treats it: an UNKNOWN type is
   * skipped, the geometry is read from a cursor reset to (0, 0), a null
   * geometry is skipped, and with a tag converter the geometry carries what
   * the converter makes of the feature's id and tags.
   */
  function LoadFeature(f: Feature, keys: seq<string>, values: seq<Value>, tagConverter: Option<TC.TagConverter>,
                       v: RingClassifier, isRing: seq<Coord> -> bool): (r: Option<Geom>)
    requires UsableConverter(tagConverter)
    ensures f.geomType == UNKNOWN ==> r.None?
    ensures r.Some? ==> ToGeomType(r.value) == f.geomType
    ensures r.Some? ==>
      r.value.userData == (if tagConverter.Some? then TC.ToUserDataSpec(tagConverter.value, f.id, f.tags, keys, values) else None)
  {
    if f.geomType == UNKNOWN then None
    else
      var d := ReadGeometrySpec(f.geometry, f.geomType, ORIGIN, v, isRing);
      if d.shape.None? then None
      else
        var userData := if tagConverter.Some? then TC.ToUserDataSpec(tagConverter.value, f.id, f.tags, keys, values) else None;
        Some(Geom(d.shape.value, userData))
  }

  /** The geometries of a layer's features, in feature order, skipped features left out. */
  function LoadFeatures(fs: seq<Feature>, keys: seq<string>, values: seq<Value>, tagConverter: Option<TC.TagConverter>,
                        v: RingClassifier, isRing: seq<Coord> -> bool): (r: seq<Geom>)
    requires UsableConverter(tagConverter)
    ensures |r| <= |fs|
  {
    if fs == [] then []
    else
      var first := LoadFeature(fs[0], keys, values, tagConverter, v, isRing);
      (if first.Some? then [first.value] else []) + LoadFeatures(fs[1..], keys, values, tagConverter, v, isRing)
  }

  lemma GeomsAssoc(a: seq<Geom>, b: seq<Geom>, c: seq<Geom>)
    ensures a + (b + c) == (a + b) + c
  {
  }

  /** Features are loaded independently and in order. */
  lemma {:induction false} LoadFeaturesAppend(a: seq<Feature>, b: seq<Feature>, keys: seq<string>, values: seq<Value>,
                                              tagConverter: Option<TC.TagConverter>, v: RingClassifier, isRing: seq<Coord> -> bool)
    requires UsableConverter(tagConverter)
    ensures LoadFeatures(a + b, keys, values, tagConverter, v, isRing)
      == LoadFeatures(a, keys, values, tagConverter, v, isRing) + LoadFeatures(b, keys, values, tagConverter, v, isRing)
    decreases |a|
  {
    if a == [] {
      assert a + b == b;
    } else {
      assert (a + b)[0] == a[0] && (a + b)[1..] == a[1..] + b;
      LoadFeaturesAppend(a[1..], b, keys, values, tagConverter, v, isRing);
      var first := LoadFeature(a[0], keys, values, tagConverter, v, isRing);
      var head: seq<Geom> := if first.Some? then [first.value] else [];
      var x, y := LoadFeatures(a[1..], keys, values, tagConverter, v, isRing), LoadFeatures(b, keys, values, tagConverter, v, isRing);
      assert LoadFeatures(a + b, keys, values, tagConverter, v, isRing) == head + (x + y);
      GeomsAssoc(head, x, y);
    }
  }

  /**
   * A LINESTRING feature with some commands but too few for one group is
   * kept, as an empty MultiLineString rather than as no geometry.
   */
  lemma EmptyLineKept(f: Feature, keys: seq<string>, values: seq<Value>, v: RingClassifier, isRing: seq<Coord> -> bool)
    requires f.geomType == LINESTRING && 0 < |f.geometry| < MIN_LINE_STRING_LEN
    ensures LoadFeature(f, keys, values, None, v, isRing) == Some(Geom(MultiLineString([]), None))
  {
  }

  /** The layer `loadMvt` builds from a tile layer: its name and extent, and its loaded geometries. */
  function LoadLayerSpec(l: Layer, tagConverter: Option<TC.TagConverter>, v: RingClassifier, isRing: seq<Coord> -> bool)
    : Result<JtsLayer>
    requires UsableConverter(tagConverter)
  {
    NewJtsLayer(l.name, LoadFeatures(l.features, l.keys, l.values, tagConverter, v, isRing), l.extent)
  }

  /** Every layer in order; the first layer with a non-positive extent throws. */
  function LoadLayersSpec(ls: seq<Layer>, tagConverter: Option<TC.TagConverter>, v: RingClassifier, isRing: seq<Coord> -> bool)
    : Result<seq<JtsLayer>>
    requires UsableConverter(tagConverter)
  {
    if ls == [] then Ok([])
    else
      match LoadLayerSpec(ls[0], tagConverter, v, isRing)
      case Err(e) => Err(e)
      case Ok(first) => Prepended([first], LoadLayersSpec(ls[1..], tagConverter, v, isRing))
  }

  /** `loadMvt`: the tile of the loaded layers. */
  function LoadMvtSpec(tile: Tile, tagConverter: Option<TC.TagConverter>, v: RingClassifier, isRing: seq<Coord> -> bool)
    : Result<JtsMvt>
    requires UsableConverter(tagConverter)
  {
    var layers := LoadLayersSpec(tile.layers, tagConverter, v, isRing);
    if layers.Err? then Err(layers.error) else Ok(MvtOf(layers.value))
  }

  /**
   * Loading throws exactly when some layer has a non-positive extent;
   * otherwise there is one layer per tile layer, with its name and extent and
   * the loaded geometries of its features.
   */
  lemma {:induction false} LoadLayersResult(ls: seq<Layer>, tagConverter: Option<TC.TagConverter>, v: RingClassifier,
                                            isRing: seq<Coord> -> bool)
    requires UsableConverter(tagConverter)
    ensures var r := LoadLayersSpec(ls, tagConverter, v, isRing);
      && (r.Err? <==> exists i :: 0 <= i < |ls| && ls[i].extent <= 0)
      && (r.Ok? ==> |r.value| == |ls|)
      && (r.Ok? ==>
            forall i :: 0 <= i < |ls| ==>
              r.value[i] == JtsLayer(ls[i].name, LoadFeatures(ls[i].features, ls[i].keys, ls[i].values, tagConverter, v, isRing), ls[i].extent))
    decreases |ls|
  {
    if ls != [] {
      LoadLayersResult(ls[1..], tagConverter, v, isRing);
      assert forall i :: 1 <= i < |ls| ==> ls[1..][i - 1] == ls[i];
    }
  }

  /** The body of the feature loop of `loadMvt`: one feature, read from the shared cursor reset to (0, 0). */
  method LoadOne(f: Feature, keys: seq<string>, values: seq<Value>, cursor: Vec2d,
                 tagConverter: Option<TC.TagConverter>, v: RingClassifier, isRing: seq<Coord> -> bool)
    returns (g: Option<Geom>)
    requires UsableConverter(tagConverter)
    modifies cursor
    ensures g == LoadFeature(f, keys, values, tagConverter, v, isRing)
  {
    if f.geomType == UNKNOWN {
      return None;
    }
    cursor.Set(0, 0);
    var nextGeom := ReadGeometry(f.geometry, f.geomType, cursor, v, isRing);
    if nextGeom.None? {
      return None;
    }
    var userData: Option<Obj> := None;
    if tagConverter.Some? {
      userData := TC.ToUserData(tagConverter.value, f.id, f.tags, keys, values);
    }
    g := Some(Geom(nextGeom.value, userData));
  }

  /** The feature loop of `loadMvt` for one layer, sharing the caller's cursor. */
  method LoadLayerGeoms(l: Layer, cursor: Vec2d, tagConverter: Option<TC.TagConverter>, v: RingClassifier,
                        isRing: seq<Coord> -> bool) returns (layerGeoms: seq<Geom>)
    requires UsableConverter(tagConverter)
    modifies cursor
    ensures layerGeoms == LoadFeatures(l.features, l.keys, l.values, tagConverter, v, isRing)
  {
    ghost var whole := LoadFeatures(l.features, l.keys, l.values, tagConverter, v, isRing);
    layerGeoms := [];
    for i := 0 to |l.features|
      invariant whole == layerGeoms + LoadFeatures(l.features[i..], l.keys, l.values, tagConverter, v, isRing)
    {
      LoadFeaturesStep(l.features, i, l.keys, l.values, tagConverter, v, isRing, layerGeoms);
      var nextGeom := LoadOne(l.features[i], l.keys, l.values, cursor, tagConverter, v, isRing);
      if nextGeom.Some? {
        layerGeoms := layerGeoms + [nextGeom.value];
      } else {
        assert layerGeoms + [] == layerGeoms;
      }
    }
    assert l.features[|l.features|..] == [];
    assert layerGeoms + [] == layerGeoms;
  }

  /** The body of the layer loop of `loadMvt`: the layer's geometries, then the validating JtsLayer constructor. */
  method LoadLayer(l: Layer, cursor: Vec2d, tagConverter: Option<TC.TagConverter>, v: RingClassifier,
                   isRing: seq<Coord> -> bool) returns (r: Result<JtsLayer>)
    requires UsableConverter(tagConverter)
    modifies cursor
    ensures r == LoadLayerSpec(l, tagConverter, v, isRing)
  {
    var layerGeoms := LoadLayerGeoms(l, cursor, tagConverter, v, isRing);
    r := NewJtsLayer(l.name, layerGeoms, l.extent);
  }

  /** One more feature of the loop. */
  lemma LoadFeaturesStep(fs: seq<Feature>, i: nat, keys: seq<string>, values: seq<Value>,
                         tagConverter: Option<TC.TagConverter>, v: RingClassifier, isRing: seq<Coord> -> bool, acc: seq<Geom>)
    requires i < |fs| && UsableConverter(tagConverter)
    ensures var first := LoadFeature(fs[i], keys, values, tagConverter, v, isRing);
      acc + LoadFeatures(fs[i..], keys, values, tagConverter, v, isRing)
      == (acc + if first.Some? then [first.value] else []) + LoadFeatures(fs[i + 1..], keys, values, tagConverter, v, isRing)
  {
    assert fs[i..][1..] == fs[i + 1..];
    var first := LoadFeature(fs[i], keys, values, tagConverter, v, isRing);
    var head: seq<Geom> := if first.Some? then [first.value] else [];
    var rest := LoadFeatures(fs[i + 1..], keys, values, tagConverter, v, isRing);
    GeomsAssoc(acc, head, rest);
  }

  /** One more layer of the loop. */
  lemma LoadLayersStep(ls: seq<Layer>, i: nat, tagConverter: Option<TC.TagConverter>, v: RingClassifier,
                       isRing: seq<Coord> -> bool, acc: seq<JtsLayer>, layer: JtsLayer)
    requires i < |ls| && UsableConverter(tagConverter)
    requires LoadLayerSpec(ls[i], tagConverter, v, isRing) == Ok(layer)
    ensures Prepended(acc, LoadLayersSpec(ls[i..], tagConverter, v, isRing))
      == Prepended(acc + [layer], LoadLayersSpec(ls[i + 1..], tagConverter, v, isRing))
  {
    assert ls[i..][1..] == ls[i + 1..];
    var rest := LoadLayersSpec(ls[i + 1..], tagConverter, v, isRing);
    if rest.Ok? {
      assert acc + ([layer] + rest.value) == (acc + [layer]) + rest.value;
    }
  }

  /** The layers loaded so far in front of the loading of the rest. */
  function Prepended(acc: seq<JtsLayer>, rest: Result<seq<JtsLayer>>): Result<seq<JtsLayer>> {
    if rest.Err? then rest else Ok(acc + rest.value)
  }

  /** One turn of the layer loop of `loadMvt`: the `i`th layer loaded, or the exception that ends the loop. */
  method LoadLayerAt(ls: seq<Layer>, i: nat, cursor: Vec2d, tagConverter: Option<TC.TagConverter>, v: RingClassifier,
                     isRing: seq<Coord> -> bool, ghost acc: seq<JtsLayer>) returns (r: Result<JtsLayer>)
    requires i < |ls| && UsableConverter(tagConverter)
    modifies cursor
    ensures r.Err? ==> LoadLayersSpec(ls[i..], tagConverter, v, isRing) == Err(r.error)
    ensures r.Ok? ==>
              Prepended(acc, LoadLayersSpec(ls[i..], tagConverter, v, isRing))
              == Prepended(acc + [r.value], LoadLayersSpec(ls[i + 1..], tagConverter, v, isRing))
  {
    r := LoadLayer(ls[i], cursor, tagConverter, v, isRing);
    if r.Err? {
      assert ls[i..][0] == ls[i];
    } else {
      LoadLayersStep(ls, i, tagConverter, v, isRing, acc, r.value);
    }
  }

  /** `loadMvt(is, geomFactory, tagConverter, ringClassifier)`, once the tile is parsed: one cursor for the whole tile. */
  method LoadMvt(tile: Tile, tagConverter: Option<TC.TagConverter>, v: RingClassifier, isRing: seq<Coord> -> bool)
    returns (r: Result<JtsMvt>)
    requires UsableConverter(tagConverter)
    ensures r == LoadMvtSpec(tile, tagConverter, v, isRing)
  {
    var cursor := new Vec2d.Origin();
    ghost var whole := LoadLayersSpec(tile.layers, tagConverter, v, isRing);
    var jtsLayers: seq<JtsLayer> := [];
    assert tile.layers[0..] == tile.layers;
    assert whole.Ok? ==> [] + whole.value == whole.value;
    for i := 0 to |tile.layers|
      invariant whole == Prepended(jtsLayers, LoadLayersSpec(tile.layers[i..], tagConverter, v, isRing))
    {
      var jtsLayer := LoadLayerAt(tile.layers, i, cursor, tagConverter, v, isRing, jtsLayers);
      if jtsLayer.Err? {
        return Err(jtsLayer.error);
      }
      jtsLayers := jtsLayers + [jtsLayer.value];
    }
    assert tile.layers[|tile.layers|..] == [];
    assert jtsLayers + [] == jtsLayers;
    var mvt := NewJtsMvt(jtsLayers);
    r := Ok(mvt);
  }

  /** `loadMvt(is, geomFactory, tagConverter)`: the default ring classifier, V1. */
  method LoadMvtDefault(tile: Tile, tagConverter: Option<TC.TagConverter>, isRing: seq<Coord> -> bool)
    returns (r: Result<JtsMvt>)
    requires UsableConverter(tagConverter)
    ensures r == LoadMvtSpec(tile, tagConverter, V1, isRing)
  {
    r := LoadMvt(tile, tagConverter, RING_CLASSIFIER_DEFAULT, isRing);
  }
}
