/**
 * The protobuf messages of a vector tile (Tile, Layer, Feature) as values,
 * and the layer parameters (MvtLayerParams.java) the encoder stamps on them.
 */
module VectorTile {
  import opened Wrappers
  import opened Codec
  import opened Objects
  import opened Geometry

  /** A `Tile.Feature`: optional id, type, tag index pairs, geometry command ints. */
  datatype Feature = Feature(id: Option<Int64>, geomType: GeomType, tags: seq<int>, geometry: seq<Int32>)

  /** A `Tile.Layer`. */
  datatype Layer = Layer(
    version: int, name: string, extent: Int32,
    keys: seq<string>, values: seq<Value>, features: seq<Feature>)

  /** A `Tile`. */
  datatype Tile = Tile(layers: seq<Layer>)

  /** `MvtLayerParams`: the tile size and the extent of the tile coordinate space. */
  datatype LayerParams = LayerParams(tileSize: Int32, extent: Int32)

  /** `new MvtLayerParams(tileSize, extent)`: the tile size is checked first, then the extent. */
  function NewLayerParams(tileSize: Int32, extent: Int32): (r: Result<LayerParams>)
    ensures r.Ok? <==> tileSize > 0 && extent > 0
    ensures r.Ok? ==> r.value.tileSize == tileSize && r.value.extent == extent
  {
    if tileSize <= 0 then Err(IllegalArgument)
    else if extent <= 0 then Err(IllegalArgument)
    else Ok(LayerParams(tileSize, extent))
  }

  /** `MvtLayerParams.DEFAULT`, from the no-argument constructor. */
  const DEFAULT_PARAMS: LayerParams := LayerParams(256, 4096)

  /** The default parameters are what the two-argument constructor builds from (256, 4096). */
  lemma DefaultParams()
    ensures NewLayerParams(256, 4096) == Ok(DEFAULT_PARAMS)
    ensures DEFAULT_PARAMS.extent == 4096
  {
  }

  /** Parameters that a constructor call could have produced. */
  predicate ValidParams(p: LayerParams) {
    p.tileSize > 0 && p.extent > 0
  }
}
