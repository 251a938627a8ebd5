/**
 * Layer tags back to a user data map (TagKeyValueMapConverter.java): each
 * in-range (key index, value index) pair becomes a map entry, and the feature
 * id can be added under a configured key.
 */
module TagConverter {
  import opened Wrappers
  import opened Codec
  import opened Objects

  /** The converter's three final fields; `addId` is set exactly when an id key is. */
  datatype TagConverter = TagConverter(nullIfEmpty: bool, addId: bool, idKey: Option<string>)

  predicate ValidConverter(c: TagConverter) {
    c.addId <==> c.idKey.Some?
  }

  /** `new TagKeyValueMapConverter()`: never null, no id. */
  function NewTagConverter(): (c: TagConverter)
    ensures ValidConverter(c) && !c.nullIfEmpty && !c.addId
  {
    NewTagConverterNullIfEmpty(false)
  }

  /** `new TagKeyValueMapConverter(nullIfEmpty)`: no id. */
  function NewTagConverterNullIfEmpty(nullIfEmpty: bool): (c: TagConverter)
    ensures ValidConverter(c) && c.nullIfEmpty == nullIfEmpty && !c.addId
  {
    TagConverter(nullIfEmpty, false, None)
  }

  /** `new TagKeyValueMapConverter(nullIfEmpty, idKey)`: adds the id under `idKey`. */
  function NewTagConverterWithId(nullIfEmpty: bool, idKey: string): (c: TagConverter)
    ensures ValidConverter(c) && c.nullIfEmpty == nullIfEmpty && c.addId && c.idKey == Some(idKey)
  {
    TagConverter(nullIfEmpty, true, Some(idKey))
  }

  /** A tag pair that points into both tables. */
  predicate PairInRange(keyIndex: int, valueIndex: int, keys: seq<string>, values: seq<Value>) {
    0 <= keyIndex < |keys| && 0 <= valueIndex < |values|
  }

  /**
   * The pair loop from index `i` on, with `acc` the map built so far: it runs
   * while `i < tags.size() - 1`, so an odd trailing index is never read, and a
   * pair out of range is skipped.
   */
  function PutTags(tags: seq<int>, keys: seq<string>, values: seq<Value>, i: nat, acc: JavaMap): (m: JavaMap)
    requires DistinctKeys(acc)
    ensures DistinctKeys(m)
    decreases |tags| - i
  {
    if i + 1 >= |tags| then acc
    else if PairInRange(tags[i], tags[i + 1], keys, values) then
      PutTags(tags, keys, values, i + 2,
        Put(acc, Some(JString(keys[tags[i]])), ToObject(values[tags[i + 1]])))
    else PutTags(tags, keys, values, i + 2, acc)
  }

  /** `toUserData`: null only when asked to be, for no tags and no id to add; otherwise the map, id last. */
  function ToUserDataSpec(c: TagConverter, id: Option<Int64>, tags: seq<int>, keys: seq<string>, values: seq<Value>): (r: Option<Obj>)
    requires ValidConverter(c)
    ensures r.None? <==> c.nullIfEmpty && tags == [] && (!c.addId || id.None?)
    ensures r.Some? ==> r.value.JMap? && DistinctKeys(r.value.entries)
    ensures r.Some? && c.addId ==>
      Lookup(r.value.entries, Some(JString(c.idKey.value))) == Some(if id.Some? then Some(JLong(id.value)) else None)
  {
    if c.nullIfEmpty && tags == [] && (!c.addId || id.None?) then None
    else
      var m := PutTags(tags, keys, values, 0, []);
      if c.addId then
        Some(JMap(Put(m, Some(JString(c.idKey.value)), if id.Some? then Some(JLong(id.value)) else None)))
      else Some(JMap(m))
  }

  /** `toUserData`, the loop as the source writes it. */
  method ToUserData(c: TagConverter, id: Option<Int64>, tags: seq<int>, keys: seq<string>, values: seq<Value>)
    returns (r: Option<Obj>)
    requires ValidConverter(c)
    ensures r == ToUserDataSpec(c, id, tags, keys, values)
  {
    if c.nullIfEmpty && tags == [] && (!c.addId || id.None?) {
      return None;
    }
    var userData: JavaMap := [];
    var i := 0;
    while i < |tags| - 1
      invariant i % 2 == 0 && 0 <= i <= |tags| + 1
      invariant DistinctKeys(userData)
      invariant PutTags(tags, keys, values, i, userData) == PutTags(tags, keys, values, 0, [])
      decreases |tags| - i
    {
      var keyIndex := tags[i];
      var valIndex := tags[i + 1];
      var valid := keyIndex >= 0 && keyIndex < |keys| && valIndex >= 0 && valIndex < |values|;
      if valid {
        userData := Put(userData, Some(JString(keys[keyIndex])), ToObject(values[valIndex]));
      }
      i := i + 2;
    }
    if c.addId {
      userData := Put(userData, Some(JString(c.idKey.value)), if id.Some? then Some(JLong(id.value)) else None);
    }
    r := Some(JMap(userData));
  }

  /** An odd index after the last full pair changes nothing. */
  lemma {:induction false} TrailingIndexIgnored(tags: seq<int>, x: int, keys: seq<string>, values: seq<Value>, i: nat, acc: JavaMap)
    requires DistinctKeys(acc) && |tags| % 2 == 0 && i % 2 == 0
    ensures PutTags(tags + [x], keys, values, i, acc) == PutTags(tags, keys, values, i, acc)
    decreases |tags| - i
  {
    if i + 1 < |tags| {
      var t := tags + [x];
      assert t[i] == tags[i] && t[i + 1] == tags[i + 1];
      if PairInRange(tags[i], tags[i + 1], keys, values) {
        TrailingIndexIgnored(tags, x, keys, values, i + 2,
          Put(acc, Some(JString(keys[tags[i]])), ToObject(values[tags[i + 1]])));
      } else {
        TrailingIndexIgnored(tags, x, keys, values, i + 2, acc);
      }
    }
  }

  /** So the whole conversion ignores a trailing odd index. */
  lemma TrailingTagIgnored(c: TagConverter, id: Option<Int64>, tags: seq<int>, x: int, keys: seq<string>, values: seq<Value>)
    requires ValidConverter(c) && |tags| % 2 == 0 && |tags| > 0
    ensures ToUserDataSpec(c, id, tags + [x], keys, values) == ToUserDataSpec(c, id, tags, keys, values)
  {
    TrailingIndexIgnored(tags, x, keys, values, 0, []);
  }

  /** When a key comes twice, the later pair's value is the one the map keeps. */
  lemma LaterPairWins(keys: seq<string>, values: seq<Value>, k: nat, v1: nat, v2: nat)
    requires k < |keys| && v1 < |values| && v2 < |values|
    ensures Lookup(PutTags([k, v1, k, v2], keys, values, 0, []), Some(JString(keys[k])))
         == Some(ToObject(values[v2]))
  {
    var m1 := Put([], Some(JString(keys[k])), ToObject(values[v1]));
    var m2 := Put(m1, Some(JString(keys[k])), ToObject(values[v2]));
    assert PutTags([k, v1, k, v2], keys, values, 0, []) == PutTags([k, v1, k, v2], keys, values, 2, m1);
    assert PutTags([k, v1, k, v2], keys, values, 2, m1) == PutTags([k, v1, k, v2], keys, values, 4, m2);
  }

  /** A pair that points outside either table contributes nothing. */
  lemma OutOfRangePairSkipped(tags: seq<int>, keys: seq<string>, values: seq<Value>, i: nat, acc: JavaMap)
    requires DistinctKeys(acc) && i + 1 < |tags| && !PairInRange(tags[i], tags[i + 1], keys, values)
    ensures PutTags(tags, keys, values, i, acc) == PutTags(tags, keys, values, i + 2, acc)
  {
  }

  /** With an id key, the id is written after the tags and so overrides a tag of the same name. */
  lemma IdOverridesTag(idKey: string, id: Int64, keys: seq<string>, values: seq<Value>, tags: seq<int>)
    ensures var c := NewTagConverterWithId(false, idKey);
      var r := ToUserDataSpec(c, Some(id), tags, keys, values);
      r.Some? && Lookup(r.value.entries, Some(JString(idKey))) == Some(Some(JLong(id)))
  {
  }
}
