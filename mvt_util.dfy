/** The layer-building and comparison helpers of MvtUtil.java. */
module MvtUtil {
  import opened Wrappers
  import opened Objects
  import opened LayerProps
  import opened VectorTile

  /** `newLayerBuilder`: a layer of version 2 with the given name and the parameters' extent, and nothing else yet. */
  function NewLayerBuilder(layerName: string, params: LayerParams): (l: Layer)
    ensures l.version == 2 && l.name == layerName && l.extent == params.extent
    ensures l.keys == [] && l.values == [] && l.features == []
  {
    Layer(2, layerName, params.extent, [], [], [])
  }

  /** The values `toMvtValue` builds, one per element, in order. */
  function MvtValues(vs: seq<Obj>): (r: seq<Value>)
    ensures |r| == |vs|
  {
    if vs == [] then [] else [ToMvtValue(vs[0])] + MvtValues(vs[1..])
  }

  /** Element by element, `MvtValues` is `toMvtValue`. */
  lemma {:induction false} MvtValuesElements(vs: seq<Obj>)
    ensures forall i :: 0 <= i < |vs| ==> MvtValues(vs)[i] == ToMvtValue(vs[i])
  {
    if vs != [] {
      MvtValuesElements(vs[1..]);
    }
  }

  /** The value loop of `writeProps`: `toMvtValue` of each table value, in order. */
  method ToMvtValues(values: seq<Obj>) returns (mvtValues: seq<Value>)
    ensures mvtValues == MvtValues(values)
  {
    mvtValues := [];
    var i := 0;
    while i < |values|
      invariant 0 <= i <= |values|
      invariant mvtValues == MvtValues(values[..i])
    {
      assert values[..i + 1] == values[..i] + [values[i]];
      MvtValuesAppend(values[..i], values[i]);
      mvtValues := mvtValues + [ToMvtValue(values[i])];
      i := i + 1;
    }
    assert values[..i] == values;
  }

  /** `writeProps`: appends all keys, then one value per table entry, in index order. */
  method WriteProps(layer: Layer, props: MvtLayerProps) returns (r: Layer)
    requires props.Valid()
    ensures r == layer.(keys := layer.keys + props.Contents().keys,
                        values := layer.values + MvtValues(props.Contents().values))
  {
    var keys := props.GetKeys();
    var values := props.GetValues();
    var mvtValues := ToMvtValues(values);
    r := layer.(keys := layer.keys + keys, values := layer.values + mvtValues);
  }

  lemma {:induction false} MvtValuesAppend(vs: seq<Obj>, v: Obj)
    ensures MvtValues(vs + [v]) == MvtValues(vs) + [ToMvtValue(v)]
    decreases |vs|
  {
    if vs == [] {
      assert [v][1..] == [];
    } else {
      assert (vs + [v])[1..] == vs[1..] + [v];
      MvtValuesAppend(vs[1..], v);
    }
  }

  /** Both absent, or both present with equal length and pairwise `eq` elements. */
  predicate SameElements<T>(la: Option<seq<T>>, lb: Option<seq<T>>, eq: (T, T) -> bool) {
    (la.None? && lb.None?)
    || (la.Some? && lb.Some? && |la.value| == |lb.value|
        && forall i :: 0 <= i < |la.value| ==> eq(la.value[i], lb.value[i]))
  }

  /** A sequence compared with itself is equal under a reflexive `eq`, as `Objects.equals` is. */
  lemma SameElementsReflexive<T>(l: Option<seq<T>>, eq: (T, T) -> bool)
    requires forall x :: eq(x, x)
    ensures SameElements(l, l, eq)
  {
  }

  /**
   * `equalsIterable`: walks both sequences together, stops at the first
   * unequal pair, and at the end requires both to be exhausted. Iterables
   * are values here, so the `la == lb` instance check is not modelled; for
   * one instance passed twice the walk gives the same answer, true, since
   * `Objects.equals` is reflexive (SameElementsReflexive).
   */
  method EqualsIterable<T>(la: Option<seq<T>>, lb: Option<seq<T>>, eq: (T, T) -> bool) returns (r: bool)
    ensures r <==> SameElements(la, lb, eq)
    ensures la.Some? != lb.Some? ==> !r
  {
    if la.None? && lb.None? {
      return true;
    }
    if la.None? || lb.None? {
      return false;
    }
    var a, b := la.value, lb.value;
    var i := 0;
    while i < |a| && i < |b|
      invariant 0 <= i <= |a| && i <= |b|
      invariant forall j :: 0 <= j < i ==> eq(a[j], b[j])
    {
      if !eq(a[i], b[i]) {
        return false;
      }
      i := i + 1;
    }
    r := i == |a| && i == |b|;
  }
}
