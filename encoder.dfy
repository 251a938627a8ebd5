/**
 * Whole-tile encoding (MvtEncoder.java): one protobuf layer per `JtsLayer`,
 * each with fresh key and value tables, stamped with the caller's layer
 * parameters.
 */
module Encoder {
  import opened Wrappers
  import opened Objects
  import opened Geometry
  import opened LayerProps
  import opened VectorTile
  import opened MvtUtil
  import opened UserDataConverter
  import opened Adapter
  import opened Model

  // ------------------------------------------------------------ tags of encoded features

  /**
   * A feature from `toFeature` indexes only entries of the tables it leaves
   * behind; without a converter or user data it has no tags, and with a map
   * converter its pairs name exactly the usable entries of the user data map.
   */
  lemma ToFeatureTags(g: Geom, t: Tables, conv: Option<UserDataConverter>)
    requires ValidTables(t)
    ensures var r := ToFeatureSpec(g, t, conv);
      r.feature.Ok? && r.feature.value.Some? ==>
        var f := r.feature.value.value;
        TagsWithin(f.tags, |r.tables.keys|, |r.tables.values|)
        && (conv.None? || conv.value.IgnoreConverter? || g.userData.None? ==> f.tags == [])
        && (conv.Some? && conv.value.KeyValueMapConverter? && g.userData.Some? && g.userData.value.JMap? ==>
              PairsOf(f.tags, r.tables) == UsableEntries(g.userData.value.entries))
  {
    var r := ToFeatureSpec(g, t, conv);
    if r.feature.Ok? && r.feature.value.Some? && conv.Some? && g.userData.Some? {
      var fb := Feature(None, ToGeomType(g), [], GeomCmds(g));
      if conv.value.KeyValueMapConverter? && g.userData.value.JMap? {
        var entries := g.userData.value.entries;
        AddEntriesPairs(entries, t);
        var tags := AddEntries(entries, t).1;
        assert fb.tags + tags.value == tags.value;
      }
    }
  }

  /** Every feature's tags point into tables of these sizes. */
  predicate AllTagsWithin(fs: seq<Feature>, keyCount: int, valueCount: int) {
    forall i :: 0 <= i < |fs| ==> TagsWithin(fs[i].tags, keyCount, valueCount)
  }

  /** A feature within smaller tables in front of features within the grown ones. */
  lemma AllTagsWithinCons(mine: seq<Feature>, rest: seq<Feature>, keyCount: int, valueCount: int,
                          keyCount': int, valueCount': int)
    requires |mine| <= 1 && keyCount <= keyCount' && valueCount <= valueCount'
    requires AllTagsWithin(mine, keyCount, valueCount) && AllTagsWithin(rest, keyCount', valueCount')
    ensures AllTagsWithin(mine + rest, keyCount', valueCount')
  {
    if mine != [] {
      TagsWithinGrow(mine[0].tags, keyCount, valueCount, keyCount', valueCount');
    }
    assert forall i :: |mine| <= i < |mine + rest| ==> (mine + rest)[i] == rest[i - |mine|];
  }

  /** The tags of the first feature and of the features after it, put together. */
  lemma AddFeaturesTagsStep(gs: seq<Geom>, t: Tables, conv: Option<UserDataConverter>)
    requires ValidTables(t) && gs != []
    requires var first := ToFeatureSpec(gs[0], t, conv);
      first.feature.Ok? ==>
        var rest := AddFeaturesSpec(gs[1..], first.tables, conv);
        rest.features.Ok? ==> AllTagsWithin(rest.features.value, |rest.tables.keys|, |rest.tables.values|)
    ensures var o := AddFeaturesSpec(gs, t, conv);
      o.features.Ok? ==> AllTagsWithin(o.features.value, |o.tables.keys|, |o.tables.values|)
  {
    var first := ToFeatureSpec(gs[0], t, conv);
    if first.feature.Ok? {
      ToFeatureTags(gs[0], t, conv);
      var rest := AddFeaturesSpec(gs[1..], first.tables, conv);
      if rest.features.Ok? {
        var mine := Mine(first.feature.value);
        AllTagsWithinCons(mine, rest.features.value, |first.tables.keys|, |first.tables.values|,
                          |rest.tables.keys|, |rest.tables.values|);
      }
    }
  }

  /** Every feature `addFeatures` adds indexes only entries of the tables it leaves behind. */
  lemma {:induction false} AddFeaturesTags(gs: seq<Geom>, t: Tables, conv: Option<UserDataConverter>)
    requires ValidTables(t)
    ensures var o := AddFeaturesSpec(gs, t, conv);
      o.features.Ok? ==> AllTagsWithin(o.features.value, |o.tables.keys|, |o.tables.values|)
    decreases |gs|
  {
    if gs != [] {
      var first := ToFeatureSpec(gs[0], t, conv);
      if first.feature.Ok? {
        AddFeaturesTags(gs[1..], first.tables, conv);
      }
      AddFeaturesTagsStep(gs, t, conv);
    }
  }

  // ------------------------------------------------------------ encodeToTile

  /**
   * One loop turn of `encodeToTile`: a layer builder from the parameters,
   * fresh tables, the features of the layer's geometries, then the tables.
   */
  function EncodeLayerSpec(layer: JtsLayer, params: LayerParams, conv: UserDataConverter): Result<Layer>
  {
    var o := AddFeaturesSpec(layer.geometries, EmptyTables, Some(conv));
    if o.features.Err? then Err(o.features.error)
    else
      Ok(NewLayerBuilder(layer.name, params).(
        keys := o.tables.keys, values := MvtValues(o.tables.values), features := o.features.value))
  }

  /**
   * What an encoded layer is: version 2, the JtsLayer's name, the extent of
   * the parameters whatever the JtsLayer's own extent, the features of its
   * geometries in order, and tag indices that count from 0 in the layer's own
   * key and value lists.
   */
  lemma EncodedLayer(layer: JtsLayer, params: LayerParams, conv: UserDataConverter)
    ensures var r := EncodeLayerSpec(layer, params, conv);
      r.Ok? ==>
        r.value.version == 2 && r.value.name == layer.name && r.value.extent == params.extent
        && r.value.features == AddFeaturesSpec(layer.geometries, EmptyTables, Some(conv)).features.value
        && |r.value.features| <= |layer.geometries|
        && AllTagsWithin(r.value.features, |r.value.keys|, |r.value.values|)
  {
    AddFeaturesTags(layer.geometries, EmptyTables, Some(conv));
  }

  /** The layers encoded so far in front of the encoding of the rest. */
  function Prepended(acc: seq<Layer>, rest: Result<seq<Layer>>): Result<seq<Layer>> {
    if rest.Err? then rest else Ok(acc + rest.value)
  }

  /** The layer loop of `encodeToTile`: each layer in turn; the first exception ends the encoding. */
  function EncodeLayersSpec(layers: seq<JtsLayer>, params: LayerParams, conv: UserDataConverter): Result<seq<Layer>>
  {
    if layers == [] then Ok([])
    else
      match EncodeLayerSpec(layers[0], params, conv)
      case Err(e) => Err(e)
      case Ok(first) => Prepended([first], EncodeLayersSpec(layers[1..], params, conv))
  }

  /** `encodeToTile`: the tile of the encoded layers, in the order `getLayers` returns them. */
  function EncodeToTileSpec(mvt: JtsMvt, params: LayerParams, conv: UserDataConverter): Result<Tile>
    requires ValidMvt(mvt)
  {
    var layers := EncodeLayersSpec(GetLayers(mvt), params, conv);
    if layers.Err? then Err(layers.error) else Ok(Tile(layers.value))
  }

  /**
   * The tile has one layer per JtsLayer, position by position, each encoded
   * on its own; it fails exactly when some layer's encoding fails.
   */
  lemma {:induction false} EncodeLayersResult(layers: seq<JtsLayer>, params: LayerParams, conv: UserDataConverter)
    ensures var r := EncodeLayersSpec(layers, params, conv);
      && (r.Err? <==> exists i :: 0 <= i < |layers| && EncodeLayerSpec(layers[i], params, conv).Err?)
      && (r.Ok? ==> |r.value| == |layers|)
      && (r.Ok? ==> forall i :: 0 <= i < |layers| ==> EncodeLayerSpec(layers[i], params, conv) == Ok(r.value[i]))
    decreases |layers|
  {
    if layers != [] {
      var tail := layers[1..];
      EncodeLayersResult(tail, params, conv);
      forall i | 1 <= i < |layers| ensures tail[i - 1] == layers[i] { }
      var head := EncodeLayerSpec(layers[0], params, conv);
      var rest := EncodeLayersSpec(tail, params, conv);
      var r := EncodeLayersSpec(layers, params, conv);
      if head.Err? {
        assert r.Err?;
      } else if rest.Err? {
        assert r == rest;
        var j :| 0 <= j < |tail| && EncodeLayerSpec(tail[j], params, conv).Err?;
        assert EncodeLayerSpec(layers[j + 1], params, conv).Err?;
      } else {
        assert r == Ok([head.value] + rest.value);
        forall i | 0 <= i < |layers| ensures EncodeLayerSpec(layers[i], params, conv) == Ok(r.value[i]) {
          if i > 0 {
            assert r.value[i] == rest.value[i - 1];
          }
        }
      }
    }
  }

  /** One turn of the layer loop, for a layer that encodes. */
  lemma EncodeLayersStep(layers: seq<JtsLayer>, i: nat, params: LayerParams, conv: UserDataConverter,
                         acc: seq<Layer>, layer: Layer)
    requires i < |layers| && EncodeLayerSpec(layers[i], params, conv) == Ok(layer)
    ensures Prepended(acc, EncodeLayersSpec(layers[i..], params, conv))
      == Prepended(acc + [layer], EncodeLayersSpec(layers[i + 1..], params, conv))
  {
    assert layers[i..][1..] == layers[i + 1..];
    var rest := EncodeLayersSpec(layers[i + 1..], params, conv);
    if rest.Ok? {
      assert acc + ([layer] + rest.value) == (acc + [layer]) + rest.value;
    }
  }

  /** The body of the layer loop: the builder, fresh props, `addFeatures`, `writeProps`. */
  method EncodeLayer(layer: JtsLayer, params: LayerParams, conv: UserDataConverter) returns (r: Result<Layer>)
    ensures r == EncodeLayerSpec(layer, params, conv)
  {
    var layerBuilder := NewLayerBuilder(layer.name, params);
    var layerProps := new MvtLayerProps();
    ghost var o := AddFeaturesSpec(layer.geometries, EmptyTables, Some(conv));
    var withFeatures := AddFeatures(layerBuilder, layer.geometries, layerProps, Some(conv));
    if withFeatures.Err? {
      assert o.features.Err?;
      return Err(withFeatures.error);
    }
    assert [] + o.features.value == o.features.value;
    var built := WriteProps(withFeatures.value, layerProps);
    assert [] + o.tables.keys == o.tables.keys;
    assert [] + MvtValues(o.tables.values) == MvtValues(o.tables.values);
    assert built == layerBuilder.(keys := o.tables.keys, values := MvtValues(o.tables.values), features := o.features.value);
    r := Ok(built);
  }

  /** `encodeToTile(mvt, mvtLayerParams, userDataConverter)`. */
  method EncodeToTile(mvt: JtsMvt, params: LayerParams, conv: UserDataConverter) returns (r: Result<Tile>)
    requires ValidMvt(mvt)
    ensures r == EncodeToTileSpec(mvt, params, conv)
  {
    var layers := GetLayers(mvt);
    ghost var whole := EncodeLayersSpec(layers, params, conv);
    var tileLayers: seq<Layer> := [];
    assert layers[0..] == layers;
    assert whole.Ok? ==> [] + whole.value == whole.value;
    for i := 0 to |layers|
      invariant whole == Prepended(tileLayers, EncodeLayersSpec(layers[i..], params, conv))
    {
      var built := EncodeLayer(layers[i], params, conv);
      if built.Err? {
        assert layers[i..][0] == layers[i];
        return Err(built.error);
      }
      EncodeLayersStep(layers, i, params, conv, tileLayers, built.value);
      tileLayers := tileLayers + [built.value];
    }
    assert layers[|layers|..] == [];
    assert tileLayers + [] == tileLayers;
    r := Ok(Tile(tileLayers));
  }

  /** `encode(mvt)`, before serialisation: the default parameters and a map converter without an id key. */
  method Encode(mvt: JtsMvt) returns (r: Result<Tile>)
    requires ValidMvt(mvt)
    ensures r == EncodeToTileSpec(mvt, DEFAULT_PARAMS, KeyValueMapConverter(None))
  {
    r := EncodeToTile(mvt, DEFAULT_PARAMS, KeyValueMapConverter(None));
  }

  /**
   * With the defaults every layer has version 2 and extent 4096, and is named
   * after the JtsLayer at the same position of `getLayers`.
   */
  lemma EncodeDefaults(mvt: JtsMvt)
    requires ValidMvt(mvt)
    ensures var r := EncodeToTileSpec(mvt, DEFAULT_PARAMS, KeyValueMapConverter(None));
      r.Ok? ==>
        |r.value.layers| == |mvt.names|
        && forall i :: 0 <= i < |r.value.layers| ==>
             r.value.layers[i].extent == 4096 && r.value.layers[i].version == 2
             && r.value.layers[i].name == GetLayers(mvt)[i].name
  {
    var layers := GetLayers(mvt);
    EncodeLayersResult(layers, DEFAULT_PARAMS, KeyValueMapConverter(None));
    var r := EncodeLayersSpec(layers, DEFAULT_PARAMS, KeyValueMapConverter(None));
    if r.Ok? {
      forall i | 0 <= i < |layers|
        ensures r.value[i].extent == 4096 && r.value[i].version == 2 && r.value[i].name == layers[i].name
      {
        EncodedLayer(layers[i], DEFAULT_PARAMS, KeyValueMapConverter(None));
      }
    }
  }
}
