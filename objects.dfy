/**
 * The Java objects that travel as feature user data and layer property values,
 * the protobuf `Tile.Value` union, and Java map semantics (MvtUtil.java).
 */
module Objects {
  import opened Wrappers
  import opened Codec

  /**
   * A Java object as far as the codec can tell types apart. Float and Double
   * payloads are kept as their canonical bit patterns: the codec only copies
   * them, and `Float.equals`/`Double.equals` compare `floatToIntBits` and
   * `doubleToLongBits`, which map every NaN to one pattern.
   */
  datatype Obj =
    | JBoolean(b: bool)
    | JInteger(i: Int32)
    | JLong(l: Int64)
    | JFloat(floatBits: int)
    | JDouble(doubleBits: int)
    | JString(s: string)
    | JByte(byteValue: int)
    | JShort(shortValue: int)
    | JMap(entries: seq<(Option<Obj>, Option<Obj>)>)
    | JOther(tag: int)

  /** A Java `Map` as its entries in iteration order; a key may be null, and so may a value. */
  type JavaMap = seq<(Option<Obj>, Option<Obj>)>

  /** A map never holds the same key twice. */
  predicate DistinctKeys(m: JavaMap) {
    forall i, j :: 0 <= i < j < |m| ==> m[i].0 != m[j].0
  }

  /** `map.get(key)`: the value stored under `key`, None when the key is absent. */
  function Lookup(m: JavaMap, key: Option<Obj>): Option<Option<Obj>>
  {
    if m == [] then None
    else if m[0].0 == key then Some(m[0].1)
    else Lookup(m[1..], key)
  }

  /** A key is found exactly when some entry carries it, and then with that entry's value. */
  lemma {:induction false} LookupFinds(m: JavaMap, key: Option<Obj>)
    requires DistinctKeys(m)
    ensures Lookup(m, key).None? <==> forall i :: 0 <= i < |m| ==> m[i].0 != key
    ensures forall i :: 0 <= i < |m| && m[i].0 == key ==> Lookup(m, key) == Some(m[i].1)
  {
    if m != [] {
      LookupFinds(m[1..], key);
      assert forall i :: 1 <= i < |m| ==> m[i] == m[1..][i - 1];
    }
  }

  /**
   * `LinkedHashMap.put`: a present key keeps its position and gets the new
   * value; an absent key is appended.
   */
  function Put(m: JavaMap, key: Option<Obj>, value: Option<Obj>): (r: JavaMap)
    requires DistinctKeys(m)
    ensures DistinctKeys(r)
    ensures Lookup(r, key) == Some(value)
    ensures forall k :: k != key ==> Lookup(r, k) == Lookup(m, k)
    ensures |r| == |m| + (if Lookup(m, key).Some? then 0 else 1)
  {
    if m == [] then [(key, value)]
    else if m[0].0 == key then
      var r := [(key, value)] + m[1..];
      assert r[1..] == m[1..];
      assert forall k :: k != key ==> Lookup(r, k) == Lookup(m, k);
      r
    else
      var t := Put(m[1..], key, value);
      LookupFinds(m[1..], m[0].0);
      LookupFinds(t, m[0].0);
      var r := [m[0]] + t;
      assert r[1..] == t;
      r
  }

  /** `MvtUtil.isValidPropValue`: the Java types a layer value can hold. */
  predicate IsValidPropValue(o: Obj): (b: bool)
    ensures b <==> !(o.JByte? || o.JShort? || o.JMap? || o.JOther?)
  {
    o.JBoolean? || o.JInteger? || o.JLong? || o.JFloat? || o.JDouble? || o.JString?
  }

  /** The protobuf `Tile.Value` message as a union; `NoValue` is a message with no field set. */
  datatype Value =
    | StringValue(s: string)
    | FloatValue(floatBits: int)
    | DoubleValue(doubleBits: int)
    | IntValue(i: Int64)
    | UintValue(u: Int64)
    | SintValue(si: Int64)
    | BoolValue(b: bool)
    | NoValue

  /** `MvtUtil.toMvtValue`: Integer and Long both go to the sint slot; other types leave the message empty. */
  function ToMvtValue(o: Obj): (v: Value)
    ensures v.NoValue? <==> !IsValidPropValue(o)
    ensures (o.JInteger? || o.JLong?) <==> v.SintValue?
  {
    match o
    case JBoolean(b) => BoolValue(b)
    case JInteger(i) => SintValue(i)
    case JLong(l) => SintValue(l)
    case JFloat(f) => FloatValue(f)
    case JDouble(d) => DoubleValue(d)
    case JString(s) => StringValue(s)
    case _ => NoValue
  }

  /** `MvtUtil.toObject`: every integer slot comes back as a Long; an empty message gives null. */
  function ToObject(v: Value): (r: Option<Obj>)
    ensures r.None? <==> v.NoValue?
    ensures r.Some? ==> IsValidPropValue(r.value) && !r.value.JInteger?
  {
    match v
    case DoubleValue(d) => Some(JDouble(d))
    case FloatValue(f) => Some(JFloat(f))
    case IntValue(i) => Some(JLong(i))
    case BoolValue(b) => Some(JBoolean(b))
    case StringValue(s) => Some(JString(s))
    case SintValue(si) => Some(JLong(si))
    case UintValue(u) => Some(JLong(u))
    case NoValue => None
  }

  /** How a value reads back after a trip through a layer: an Integer widens to a Long. */
  function Widened(o: Obj): Obj {
    if o.JInteger? then JLong(o.i) else o
  }

  /** Writing a valid value and reading it back gives it again, up to Integer widening to Long. */
  lemma ValueRoundTrip(o: Obj)
    requires IsValidPropValue(o)
    ensures ToObject(ToMvtValue(o)) == Some(Widened(o))
    ensures !o.JInteger? ==> ToObject(ToMvtValue(o)) == Some(o)
  {
  }
}
