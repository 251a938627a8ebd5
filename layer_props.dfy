/**
 * The per-layer key and value tables (MvtLayerProps.java): two insertion-ordered
 * deduplicating maps that hand out dense indices in first-seen order.
 */
module LayerProps {
  import opened Objects

  predicate Distinct<T(==)>(s: seq<T>) {
    forall i, j :: 0 <= i < j < |s| ==> s[i] != s[j]
  }

  /** Position of `x` in a sequence that holds it. */
  function IndexOf<T(==)>(s: seq<T>, x: T): (i: nat)
    requires x in s
    ensures i < |s| && s[i] == x
    ensures forall j :: 0 <= j < i ==> s[j] != x
  {
    if s[0] == x then 0 else 1 + IndexOf(s[1..], x)
  }

  /** The two tables as the lists `getKeys` and `getValues` iterate, index i at position i. */
  datatype Tables = Tables(keys: seq<string>, values: seq<Obj>)

  predicate ValidTables(t: Tables) {
    Distinct(t.keys) && Distinct(t.values) && forall v :: v in t.values ==> IsValidPropValue(v)
  }

  /** A fresh `MvtLayerProps`. */
  const EmptyTables: Tables := Tables([], [])

  /** `addKey`: the table after the call and the index returned. */
  function AddKeyTo(t: Tables, key: string): (r: (Tables, int))
    requires ValidTables(t)
    ensures ValidTables(r.0) && r.0.values == t.values
    ensures 0 <= r.1 < |r.0.keys| && r.0.keys[r.1] == key
    ensures key in t.keys ==> r.0 == t
    ensures key !in t.keys ==> r.0.keys == t.keys + [key] && r.1 == |t.keys|
  {
    if key in t.keys then (t, IndexOf(t.keys, key))
    else (t.(keys := t.keys + [key]), |t.keys|)
  }

  /** `addValue`: -1 and no change for an unsupported type, otherwise like `addKey`. */
  function AddValueTo(t: Tables, value: Obj): (r: (Tables, int))
    requires ValidTables(t)
    ensures ValidTables(r.0) && r.0.keys == t.keys
    ensures !IsValidPropValue(value) ==> r == (t, -1)
    ensures IsValidPropValue(value) ==> 0 <= r.1 < |r.0.values| && r.0.values[r.1] == value
    ensures value in t.values ==> r.0 == t
    ensures IsValidPropValue(value) && value !in t.values ==> r.0.values == t.values + [value] && r.1 == |t.values|
  {
    if !IsValidPropValue(value) then (t, -1)
    else if value in t.values then (t, IndexOf(t.values, value))
    else (t.(values := t.values + [value]), |t.values|)
  }

  /** `t'` extends `t`: every index handed out so far still names the same entry. */
  predicate Extends(t: Tables, t': Tables) {
    t.keys <= t'.keys && t.values <= t'.values
  }

  /** Both additions only ever append, so earlier indices stay valid. */
  lemma AddsExtend(t: Tables, key: string, value: Obj)
    requires ValidTables(t)
    ensures Extends(t, AddKeyTo(t, key).0) && Extends(t, AddValueTo(t, value).0)
  {
  }

  /** Adding a key twice is adding it once. */
  lemma AddKeyIdempotent(t: Tables, key: string)
    requires ValidTables(t)
    ensures AddKeyTo(AddKeyTo(t, key).0, key) == (AddKeyTo(t, key).0, AddKeyTo(t, key).1)
  {
  }

  /** A Java Integer and a Java Long with the same number are different values and get different indices. */
  lemma IntegerAndLongApart(t: Tables, n: int)
    requires ValidTables(t) && -0x8000_0000 <= n < 0x8000_0000
    ensures var (t1, i) := AddValueTo(t, JInteger(n)); AddValueTo(t1, JLong(n)).1 != i
  {
  }

  /**
   * The `MvtLayerProps` object: each LinkedHashMap is an index map plus the
   * insertion order it iterates in.
   */
  class MvtLayerProps {
    var keyIndex: map<string, int>
    var keyOrder: seq<string>
    var valueIndex: map<Obj, int>
    var valueOrder: seq<Obj>

    /** Each map sends every entry to its position in iteration order, and nothing else. */
    ghost predicate Valid()
      reads this
    {
      (forall v :: v in valueOrder ==> IsValidPropValue(v))
      && (forall k :: k in keyIndex ==> 0 <= keyIndex[k] < |keyOrder| && keyOrder[keyIndex[k]] == k)
      && (forall i :: 0 <= i < |keyOrder| ==> keyOrder[i] in keyIndex && keyIndex[keyOrder[i]] == i)
      && (forall v :: v in valueIndex ==> 0 <= valueIndex[v] < |valueOrder| && valueOrder[valueIndex[v]] == v)
      && (forall i :: 0 <= i < |valueOrder| ==> valueOrder[i] in valueIndex && valueIndex[valueOrder[i]] == i)
    }

    /** The index maps make both orders duplicate-free. */
    lemma ValidTablesHold()
      requires Valid()
      ensures ValidTables(Contents())
    {
    }

    /** What `getKeys` and `getValues` iterate. */
    function Contents(): Tables
      reads this
    {
      Tables(keyOrder, valueOrder)
    }

    constructor ()
      ensures Valid() && Contents() == EmptyTables
    {
      keyIndex, keyOrder, valueIndex, valueOrder := map[], [], map[], [];
    }

    /** `addKey` */
    method AddKey(key: string) returns (index: int)
      requires Valid()
      modifies this
      ensures Valid()
      ensures ValidTables(old(Contents())) && (Contents(), index) == AddKeyTo(old(Contents()), key)
    {
      ValidTablesHold();
      var nextIndex := |keyOrder|;
      if key in keyIndex {
        index := keyIndex[key];
        assert key in keyOrder;
        var j := IndexOf(keyOrder, key);
        assert keyIndex[keyOrder[j]] == j;
      } else {
        assert key !in keyOrder;
        keyIndex := keyIndex[key := nextIndex];
        keyOrder := keyOrder + [key];
        index := nextIndex;
      }
    }

    /** `addValue` */
    method AddValue(value: Obj) returns (index: int)
      requires Valid()
      modifies this
      ensures Valid()
      ensures ValidTables(old(Contents())) && (Contents(), index) == AddValueTo(old(Contents()), value)
    {
      ValidTablesHold();
      if !IsValidPropValue(value) {
        return -1;
      }
      var nextIndex := |valueOrder|;
      if value in valueIndex {
        index := valueIndex[value];
        assert value in valueOrder;
        var j := IndexOf(valueOrder, value);
        assert valueIndex[valueOrder[j]] == j;
      } else {
        assert value !in valueOrder;
        valueIndex := valueIndex[value := nextIndex];
        valueOrder := valueOrder + [value];
        index := nextIndex;
      }
    }

    /** `getKeys`: the keys in index order. */
    method GetKeys() returns (keys: seq<string>)
      requires Valid()
      ensures keys == Contents().keys
      ensures forall k :: k in keys ==> k in keyIndex && keyIndex[k] == IndexOf(keys, k)
    {
      keys := keyOrder;
    }

    /** `getValues`: the values in index order. */
    method GetValues() returns (values: seq<Obj>)
      requires Valid()
      ensures values == Contents().values
      ensures forall v :: v in values ==> v in valueIndex && valueIndex[v] == IndexOf(values, v)
    {
      values := valueOrder;
    }
  }
}
