/**
 * The decoded tile model: JtsLayer (a name, geometries in order, an extent)
 * and JtsMvt (layers keyed by name, in first-insertion order).
 */
module Model {
  import opened Wrappers
  import opened Codec
  import opened Geometry
  import opened VectorTile
  import opened MvtUtil

  // ------------------------------------------------------------ JtsLayer

  /** A `JtsLayer`. */
  datatype JtsLayer = JtsLayer(name: string, geometries: seq<Geom>, extent: Int32)

  /** `new JtsLayer(name, geometries, extent)`: a non-positive extent is an IllegalArgumentException; otherwise all three are kept. */
  function NewJtsLayer(name: string, geometries: seq<Geom>, extent: Int32): (r: Result<JtsLayer>)
    ensures r.Err? <==> extent <= 0
    ensures r.Ok? ==> r.value.name == name && r.value.geometries == geometries && r.value.extent == extent
  {
    if extent <= 0 then Err(IllegalArgument) else Ok(JtsLayer(name, geometries, extent))
  }

  /** `new JtsLayer(name, geometries)`: the validating constructor with the default extent, which never fails. */
  function JtsLayerOf(name: string, geometries: seq<Geom>): (r: JtsLayer)
    ensures NewJtsLayer(name, geometries, DEFAULT_PARAMS.extent) == Ok(r)
    ensures r.extent == 4096
  {
    JtsLayer(name, geometries, DEFAULT_PARAMS.extent)
  }

  /** `new JtsLayer(name)`: no geometries, the default extent. */
  function EmptyJtsLayer(name: string): (r: JtsLayer)
    ensures NewJtsLayer(name, [], DEFAULT_PARAMS.extent) == Ok(r)
    ensures r.geometries == []
  {
    JtsLayerOf(name, [])
  }

  /** `new JtsLayer(name, geom)`: exactly that one geometry, the default extent. */
  function SingleJtsLayer(name: string, geom: Geom): (r: JtsLayer)
    ensures NewJtsLayer(name, [geom], DEFAULT_PARAMS.extent) == Ok(r)
    ensures r.geometries == [geom]
  {
    JtsLayerOf(name, [geom])
  }

  /** JTS `Geometry.equals(Object)`, that is `equalsExact`: same kind and same coordinates; user data plays no part. */
  predicate GeomEquals(a: Geom, b: Geom) {
    a.shape == b.shape
  }

  /** `JtsLayer.equals`: same extent, same name, and pairwise equal geometries in the same order. */
  predicate LayerEquals(a: JtsLayer, b: JtsLayer) {
    a.extent == b.extent && a.name == b.name
    && SameElements(Some(a.geometries), Some(b.geometries), (x, y) => GeomEquals(x, y))
  }

  /** `JtsLayer.equals`, comparing the geometries with `equalsIterable`. */
  method Equals(a: JtsLayer, b: JtsLayer) returns (r: bool)
    ensures r <==> a.extent == b.extent && a.name == b.name && |a.geometries| == |b.geometries|
                   && forall i :: 0 <= i < |a.geometries| ==> a.geometries[i].shape == b.geometries[i].shape
    ensures r <==> LayerEquals(a, b)
  {
    if a.extent != b.extent || a.name != b.name {
      return false;
    }
    r := EqualsIterable(Some(a.geometries), Some(b.geometries), (x, y) => GeomEquals(x, y));
  }

  /** The geometries with their user data dropped. */
  function WithoutUserData(gs: seq<Geom>): (r: seq<Geom>)
    ensures |r| == |gs|
  {
    if gs == [] then [] else [Geom(gs[0].shape, None)] + WithoutUserData(gs[1..])
  }

  /** Layer equality is an equivalence that does not look at user data. */
  lemma {:induction false} LayerEqualsIgnoresUserData(a: JtsLayer)
    ensures LayerEquals(a, a)
    ensures LayerEquals(a, a.(geometries := WithoutUserData(a.geometries)))
  {
    WithoutUserDataShapes(a.geometries);
  }

  lemma {:induction false} WithoutUserDataShapes(gs: seq<Geom>)
    ensures forall i :: 0 <= i < |gs| ==> WithoutUserData(gs)[i] == Geom(gs[i].shape, None)
  {
    if gs != [] {
      var rest := WithoutUserData(gs[1..]);
      WithoutUserDataShapes(gs[1..]);
      assert WithoutUserData(gs) == [Geom(gs[0].shape, None)] + rest;
      forall i | 1 <= i < |gs|
        ensures WithoutUserData(gs)[i] == Geom(gs[i].shape, None)
      {
        assert gs[1..][i - 1] == gs[i];
      }
    }
  }

  /** Layers with a different order of the same geometries are not equal. */
  lemma SwappedGeometriesDiffer(name: string, g1: Geom, g2: Geom, extent: Int32)
    requires g1.shape != g2.shape
    ensures !LayerEquals(JtsLayer(name, [g1, g2], extent), JtsLayer(name, [g2, g1], extent))
  {
    var a := JtsLayer(name, [g1, g2], extent);
    assert a.geometries[0] == g1;
  }

  // ------------------------------------------------------------ JtsMvt

  /** A `JtsMvt`: its `LinkedHashMap` from layer name to layer, as the names in iteration order and the map. */
  datatype JtsMvt = JtsMvt(names: seq<string>, layersByName: map<string, JtsLayer>)

  /** What a `LinkedHashMap` guarantees: each key once in the order, and exactly the keys of the map. */
  ghost predicate ValidMvt(m: JtsMvt) {
    (forall i, j :: 0 <= i < j < |m.names| ==> m.names[i] != m.names[j])
    && (forall n :: n in m.layersByName <==> n in m.names)
  }

  /** `new JtsMvt()`: no layers. */
  const EMPTY_MVT: JtsMvt := JtsMvt([], map[])

  /** `layersByName.put(layer.getName(), layer)`: a new name goes last; a known name keeps its place and gets the new layer. */
  function PutLayer(m: JtsMvt, layer: JtsLayer): (r: JtsMvt)
    ensures r.layersByName == m.layersByName[layer.name := layer]
    ensures m.names <= r.names
  {
    if layer.name in m.layersByName then m.(layersByName := m.layersByName[layer.name := layer])
    else JtsMvt(m.names + [layer.name], m.layersByName[layer.name := layer])
  }

  /** Putting a layer keeps the tile a valid `LinkedHashMap`. */
  lemma PutLayerValid(m: JtsMvt, layer: JtsLayer)
    requires ValidMvt(m)
    ensures ValidMvt(PutLayer(m, layer))
  {
    if layer.name !in m.layersByName {
      var names := m.names + [layer.name];
      assert forall i :: 0 <= i < |m.names| ==> names[i] == m.names[i];
    }
  }

  /** The tile the collection constructor builds: every layer put in order. */
  function MvtOf(layers: seq<JtsLayer>): JtsMvt
    decreases |layers|
  {
    if layers == [] then EMPTY_MVT else PutLayer(MvtOf(layers[..|layers| - 1]), layers[|layers| - 1])
  }

  /** The tile built from any layers is a valid `LinkedHashMap`. */
  lemma {:induction false} MvtOfValid(layers: seq<JtsLayer>)
    ensures ValidMvt(MvtOf(layers))
    decreases |layers|
  {
    if layers != [] {
      MvtOfValid(layers[..|layers| - 1]);
      PutLayerValid(MvtOf(layers[..|layers| - 1]), layers[|layers| - 1]);
    }
  }

  /** `new JtsMvt(layers)`. */
  method NewJtsMvt(layers: seq<JtsLayer>) returns (m: JtsMvt)
    ensures m == MvtOf(layers)
  {
    m := EMPTY_MVT;
    for i := 0 to |layers|
      invariant m == MvtOf(layers[..i])
    {
      assert layers[..i + 1][..i] == layers[..i];
      m := PutLayer(m, layers[i]);
    }
    assert layers[..|layers|] == layers;
  }

  /** `new JtsMvt(layer)`: that one layer. */
  function SingleMvt(layer: JtsLayer): (r: JtsMvt)
    ensures r == MvtOf([layer])
    ensures r.names == [layer.name] && r.layersByName == map[layer.name := layer]
  {
    PutLayer(EMPTY_MVT, layer)
  }

  /** `getLayer(name)`: the layer under that name, or null. */
  function GetLayer(m: JtsMvt, name: string): (r: Option<JtsLayer>)
    ensures ValidMvt(m) ==> (r.None? <==> name !in m.names)
  {
    if name in m.layersByName then Some(m.layersByName[name]) else None
  }

  /** `getLayers()`: the layers in iteration order. */
  function GetLayers(m: JtsMvt): (r: seq<JtsLayer>)
    requires ValidMvt(m)
    ensures |r| == |m.names|
    ensures forall i :: 0 <= i < |r| ==> Some(r[i]) == GetLayer(m, m.names[i])
  {
    seq(|m.names|, i requires 0 <= i < |m.names| => m.layersByName[m.names[i]])
  }

  /** `getLayer` on a constructed tile finds nothing exactly when no layer has that name. */
  lemma {:induction false} GetLayerMissing(layers: seq<JtsLayer>, name: string)
    ensures GetLayer(MvtOf(layers), name).None? <==> forall i :: 0 <= i < |layers| ==> layers[i].name != name
    decreases |layers|
  {
    if layers != [] {
      var n := |layers| - 1;
      var init := layers[..n];
      GetLayerMissing(init, name);
      assert forall i :: 0 <= i < n ==> init[i] == layers[i];
    }
  }

  /** With duplicate names, `getLayer` finds the last layer put under that name. */
  lemma {:induction false} GetLayerFindsLast(layers: seq<JtsLayer>, i: nat)
    requires i < |layers|
    requires forall j :: i < j < |layers| ==> layers[j].name != layers[i].name
    ensures GetLayer(MvtOf(layers), layers[i].name) == Some(layers[i])
    decreases |layers|
  {
    var n := |layers| - 1;
    if i < n {
      var init := layers[..n];
      assert init[i] == layers[i];
      assert forall j :: i < j < n ==> init[j] == layers[j];
      GetLayerFindsLast(init, i);
    }
  }

  /** The names of some layers. */
  function NamesOf(layers: seq<JtsLayer>): set<string> {
    set i | 0 <= i < |layers| :: layers[i].name
  }

  /** The elements of a sequence, as a set. */
  function Elements(s: seq<string>): set<string> {
    set x | x in s
  }

  lemma ElementsSnoc(s: seq<string>, x: string)
    ensures Elements(s + [x]) == Elements(s) + {x}
  {
    assert forall y :: y in s + [x] <==> y in s || y == x;
  }

  /** The names of the layers, the last one separately. */
  lemma NamesOfSnoc(layers: seq<JtsLayer>)
    requires layers != []
    ensures NamesOf(layers) == NamesOf(layers[..|layers| - 1]) + {layers[|layers| - 1].name}
  {
    var n := |layers| - 1;
    var init := layers[..n];
    forall x | x in NamesOf(layers) ensures x in NamesOf(init) + {layers[n].name} {
      var i :| 0 <= i < |layers| && layers[i].name == x;
      if i < n {
        assert init[i] == layers[i];
      }
    }
    forall x | x in NamesOf(init) ensures x in NamesOf(layers) {
      var i :| 0 <= i < |init| && init[i].name == x;
      assert layers[i] == init[i];
    }
  }

  /** Putting a layer adds its name to the iteration order, if it is not there already. */
  lemma PutLayerNames(m: JtsMvt, layer: JtsLayer)
    requires ValidMvt(m)
    ensures Elements(PutLayer(m, layer).names) == Elements(m.names) + {layer.name}
  {
    if layer.name in m.layersByName {
      assert layer.name in m.names;
    } else {
      ElementsSnoc(m.names, layer.name);
    }
  }

  /** The iteration order lists exactly the layers' names, each once (by `ValidMvt`). */
  lemma {:induction false} LayerNames(layers: seq<JtsLayer>)
    ensures Elements(MvtOf(layers).names) == NamesOf(layers)
    decreases |layers|
  {
    if layers != [] {
      var n := |layers| - 1;
      var init := layers[..n];
      LayerNames(init);
      MvtOfValid(init);
      PutLayerNames(MvtOf(init), layers[n]);
      NamesOfSnoc(layers);
    }
  }

  /**
   * Putting more layers never moves a name already listed, so the iteration
   * order is the order in which names first appear.
   */
  lemma {:induction false} LayerOrderStable(layers: seq<JtsLayer>, k: nat)
    requires k <= |layers|
    ensures MvtOf(layers[..k]).names <= MvtOf(layers).names
    decreases |layers|
  {
    if k < |layers| {
      var n := |layers| - 1;
      var init := layers[..n];
      assert layers[..k] == init[..k];
      LayerOrderStable(init, k);
      var before, after := MvtOf(init).names, MvtOf(layers).names;
      assert before <= after by {
        assert MvtOf(layers) == PutLayer(MvtOf(init), layers[n]);
      }
      var first := MvtOf(layers[..k]).names;
      assert first == before[..|first|];
      assert before == after[..|before|];
      assert first == after[..|first|];
    } else {
      assert layers[..k] == layers;
    }
  }

  /** `getLayers()` of the empty tile is empty. */
  lemma EmptyHasNoLayers()
    ensures ValidMvt(MvtOf([])) && GetLayers(MvtOf([])) == []
  {
  }

  /** `JtsMvt.equals`: `Map.equals` on the name-to-layer maps, which ignores the iteration order. */
  predicate MvtEquals(a: JtsMvt, b: JtsMvt) {
    a.layersByName.Keys == b.layersByName.Keys
    && forall n :: n in a.layersByName ==> LayerEquals(a.layersByName[n], b.layersByName[n])
  }

  /** Two differently named layers, put in order. */
  lemma TwoLayers(l1: JtsLayer, l2: JtsLayer)
    requires l1.name != l2.name
    ensures MvtOf([l1, l2]) == JtsMvt([l1.name, l2.name], map[l1.name := l1, l2.name := l2])
  {
    var m1 := SingleMvt(l1);
    assert l2.name !in m1.layersByName;
    assert PutLayer(m1, l2) == JtsMvt([l1.name] + [l2.name], map[l1.name := l1, l2.name := l2]);
    assert [l1, l2][..1] == [l1];
    assert MvtOf([l1, l2]) == PutLayer(m1, l2);
    assert [l1.name] + [l2.name] == [l1.name, l2.name];
  }

  /** Two differently named layers give equal tiles in either order, although they iterate differently. */
  lemma OrderInsensitive(l1: JtsLayer, l2: JtsLayer)
    requires l1.name != l2.name
    ensures MvtEquals(MvtOf([l1, l2]), MvtOf([l2, l1]))
    ensures MvtOf([l1, l2]).names != MvtOf([l2, l1]).names
  {
    TwoLayers(l1, l2);
    TwoLayers(l2, l1);
    var m := MvtOf([l1, l2]).layersByName;
    assert m == MvtOf([l2, l1]).layersByName;
    forall n | n in m
      ensures LayerEquals(m[n], m[n])
    {
      LayerEqualsIgnoresUserData(m[n]);
    }
    assert MvtOf([l1, l2]).names[0] != MvtOf([l2, l1]).names[0];
  }

  /** A tile with one more, newly named layer is not equal to the tile without it. */
  lemma ExtraLayerUnequal(layers: seq<JtsLayer>, x: JtsLayer)
    requires forall i :: 0 <= i < |layers| ==> layers[i].name != x.name
    ensures !MvtEquals(MvtOf(layers), MvtOf(layers + [x]))
  {
    assert (layers + [x])[..|layers|] == layers;
    GetLayerMissing(layers, x.name);
  }
}
