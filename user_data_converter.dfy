/**
 * Feature user data to layer tags (UserDataKeyValueMapConverter.java, and the
 * no-op UserDataIgnoreConverter): each usable map entry becomes a pair of
 * indices into the layer's key and value tables, and an optional entry
 * becomes the feature id.
 */
module UserDataConverter {
  import opened Wrappers
  import opened Codec
  import opened Objects
  import opened LayerProps
  import opened VectorTile

  /** The converters a caller can hand to the encoder. */
  datatype UserDataConverter =
    | KeyValueMapConverter(idKey: Option<string>)
    | IgnoreConverter

  // ------------------------------------------------------------ Long.parseLong

  predicate IsDigit(ch: char) {
    '0' <= ch <= '9'
  }

  predicate AllDigits(ds: string) {
    forall i :: 0 <= i < |ds| ==> IsDigit(ds[i])
  }

  /** The number an ASCII decimal digit string spells. */
  function DigitsValue(ds: string): (v: nat)
    requires AllDigits(ds)
    decreases |ds|
  {
    if ds == [] then 0
    else
      assert IsDigit(ds[|ds| - 1]);
      10 * DigitsValue(ds[..|ds| - 1]) + (ds[|ds| - 1] as int - '0' as int)
  }

  /** What follows an optional leading sign. */
  function DigitsPart(s: string): (ds: string)
    ensures |ds| <= |s|
  {
    if |s| > 0 && (s[0] == '-' || s[0] == '+') then s[1..] else s
  }

  /** `Long.parseLong(s)`: an optional sign, at least one digit, a value in range; None stands for NumberFormatException. */
  function ParseLong(s: string): (r: Option<Int64>)
    ensures r.Some? <==>
      var ds := DigitsPart(s);
      ds != [] && AllDigits(ds)
      && (if s[0] == '-' then DigitsValue(ds) <= 0x8000_0000_0000_0000 else DigitsValue(ds) <= 0x7FFF_FFFF_FFFF_FFFF)
    ensures r.Some? ==> r.value == if s[0] == '-' then -(DigitsValue(DigitsPart(s)) as int) else DigitsValue(DigitsPart(s))
  {
    var neg := |s| > 0 && s[0] == '-';
    var digits := DigitsPart(s);
    if digits == [] || !AllDigits(digits) then None
    else
      var v: int := DigitsValue(digits);
      var n := if neg then -v else v;
      if -0x8000_0000_0000_0000 <= n <= 0x7FFF_FFFF_FFFF_FFFF then Some(n) else None
  }

  /** The character of a decimal digit. */
  function Digit(k: nat): (ch: char)
    requires k < 10
    ensures IsDigit(ch) && ch as int - '0' as int == k
  {
    ('0' as int + k) as char
  }

  /** The decimal digits of a number, as `Long.toString` writes them: no leading zero. */
  function Decimal(v: nat): (ds: string)
    ensures ds != [] && AllDigits(ds) && DigitsValue(ds) == v
    ensures |ds| > 1 ==> ds[0] != '0'
    decreases v
  {
    if v < 10 then [Digit(v)]
    else
      var init := Decimal(v / 10);
      var ds := init + [Digit(v % 10)];
      assert ds[..|ds| - 1] == init;
      ds
  }

  /** `Long.toString(n)`: a minus sign for a negative number, then the decimal digits of its magnitude. */
  function LongToString(n: Int64): string {
    if n < 0 then ['-'] + Decimal(-(n as int)) else Decimal(n)
  }

  /** Parsing what `Long.toString` writes gives the number back, for every long. */
  lemma ParseLongRoundTrip(n: Int64)
    ensures ParseLong(LongToString(n)) == Some(n)
  {
    var s := LongToString(n);
    if n < 0 {
      assert s[0] == '-' && DigitsPart(s) == Decimal(-(n as int));
    } else {
      assert IsDigit(s[0]) && DigitsPart(s) == s;
    }
  }

  /** How parsing treats signs, empty strings and stray characters. */
  lemma ParseLongExamples()
    ensures ParseLong("42") == Some(42)
    ensures ParseLong("-7") == Some(-7)
    ensures ParseLong("+7") == Some(7)
    ensures ParseLong("") == None && ParseLong("-") == None && ParseLong("4x") == None
  {
    assert DigitsValue("42") == 42 by {
      assert "42"[..1] == "4";
      assert "4"[..0] == "";
    }
    assert DigitsValue("7") == 7 by {
      assert "7"[..0] == "";
    }
    assert "-7"[1..] == "7";
    assert "+7"[1..] == "7";
    assert !IsDigit("4x"[1]);
  }

  // ------------------------------------------------------------ addTags

  /** The outcome of `addTags`: the tables afterwards (changed even when it throws) and the feature or the exception. */
  datatype TagsOutcome = TagsOutcome(tables: Tables, feature: Result<Feature>)

  /**
   * The entry loop of `addTags`, from some entry on: a key that is not a
   * String throws (the cast to String); a null key or value is skipped; the
   * value is added first, and only a supported one adds the key and the pair.
   */
  function AddEntries(entries: JavaMap, t: Tables): (r: (Tables, Result<seq<int>>))
    requires ValidTables(t)
    ensures ValidTables(r.0) && Extends(t, r.0)
    ensures r.1.Ok? ==> |r.1.value| % 2 == 0
    decreases |entries|
  {
    if entries == [] then (t, Ok([]))
    else
      var (k, v) := entries[0];
      if k.Some? && !k.value.JString? then (t, Err(IllegalArgument))
      else if k.None? || v.None? then AddEntries(entries[1..], t)
      else
        var (t1, valueIndex) := AddValueTo(t, v.value);
        if valueIndex < 0 then AddEntries(entries[1..], t1)
        else
          var (t2, keyIndex) := AddKeyTo(t1, k.value.s);
          var (t3, rest) := AddEntries(entries[1..], t2);
          if rest.Err? then (t3, rest) else (t3, Ok([keyIndex, valueIndex] + rest.value))
  }

  /**
   * The id step of `addTags`: no id key leaves the id unset; a Long is used;
   * the other boxed numbers fail the `(long)` cast and throw; a String is
   * parsed and ignored when it is not a number; anything else is ignored.
   */
  function IdFrom(idKey: Option<string>, m: JavaMap): (r: Result<Option<Int64>>)
    ensures idKey.None? ==> r == Ok(None)
    ensures idKey.Some? ==>
      var found := Lookup(m, Some(JString(idKey.value)));
      (found.None? || found.value.None? ==> r == Ok(None))
      && (found.Some? && found.value.Some? ==>
        var v := found.value.value;
        (v.JLong? ==> r == Ok(Some(v.l)))
        && (v.JInteger? || v.JFloat? || v.JDouble? || v.JByte? || v.JShort? <==> r.Err?)
        && (v.JString? ==> r == Ok(ParseLong(v.s)))
        && (v.JBoolean? || v.JMap? || v.JOther? ==> r == Ok(None)))
    ensures r.Err? ==> r == Err(IllegalArgument)
  {
    if idKey.None? then Ok(None)
    else
      var found := Lookup(m, Some(JString(idKey.value)));
      if found.None? || found.value.None? then Ok(None)
      else
        var v := found.value.value;
        if v.JLong? then Ok(Some(v.l))
        else if v.JInteger? || v.JFloat? || v.JDouble? || v.JByte? || v.JShort? then Err(IllegalArgument)
        else if v.JString? then Ok(ParseLong(v.s))
        else Ok(None)
  }

  /** `addTags` on a feature builder: user data that is not a Map throws before anything happens. */
  function AddTagsSpec(idKey: Option<string>, userData: Obj, t: Tables, fb: Feature): (r: TagsOutcome)
    requires ValidTables(t)
    ensures ValidTables(r.tables) && Extends(t, r.tables)
    ensures !userData.JMap? ==> r == TagsOutcome(t, Err(IllegalArgument))
    ensures r.feature.Ok? ==> r.feature.value.geomType == fb.geomType && r.feature.value.geometry == fb.geometry
    ensures r.feature.Ok? && idKey.None? ==> r.feature.value.id == fb.id
    ensures userData.JMap? ==>
      var (t1, tags) := AddEntries(userData.entries, t);
      var id := IdFrom(idKey, userData.entries);
      r.tables == t1
      && (r.feature.Ok? <==> tags.Ok? && id.Ok?)
      && (r.feature.Ok? ==>
        r.feature.value.tags == fb.tags + tags.value
        && r.feature.value.id == (if id.value.Some? then id.value else fb.id))
    ensures r.feature.Err? ==> r.feature == Err(IllegalArgument)
  {
    if !userData.JMap? then TagsOutcome(t, Err(IllegalArgument))
    else
      var (t1, tags) := AddEntries(userData.entries, t);
      if tags.Err? then TagsOutcome(t1, Err(IllegalArgument))
      else
        var id := IdFrom(idKey, userData.entries);
        if id.Err? then TagsOutcome(t1, Err(IllegalArgument))
        else TagsOutcome(t1, Ok(fb.(tags := fb.tags + tags.value, id := if id.value.Some? then id.value else fb.id)))
  }

  /** An entry whose value the tables cannot hold adds neither a tag nor a key. */
  lemma UnsupportedValueAddsNothing(key: string, value: Obj, rest: JavaMap, t: Tables)
    requires ValidTables(t) && !IsValidPropValue(value)
    ensures AddEntries([(Some(JString(key)), Some(value))] + rest, t) == AddEntries(rest, t)
  {
    assert ([(Some(JString(key)), Some(value))] + rest)[1..] == rest;
  }

  /** A String id is parsed; one that is not a number leaves the id unset. */
  lemma StringIdParsed(idKey: string, m: JavaMap, s: string)
    requires Lookup(m, Some(JString(idKey))) == Some(Some(JString(s)))
    ensures IdFrom(Some(idKey), m) == Ok(ParseLong(s))
    ensures ParseLong(s).None? ==> IdFrom(Some(idKey), m) == Ok(None)
  {
  }

  /** A Long under the id key becomes the feature id, once the entries convert. */
  lemma LongIdUsed(idKey: string, m: JavaMap, l: Int64, t: Tables, fb: Feature)
    requires ValidTables(t) && AddEntries(m, t).1.Ok?
    requires Lookup(m, Some(JString(idKey))) == Some(Some(JLong(l)))
    ensures AddTagsSpec(Some(idKey), JMap(m), t, fb).feature.Ok?
    ensures AddTagsSpec(Some(idKey), JMap(m), t, fb).feature.value.id == Some(l)
  {
  }

  /** Any other boxed number under the id key fails the `(long)` cast, so `addTags` throws. */
  lemma NumericIdThrows(idKey: string, m: JavaMap, v: Obj, t: Tables, fb: Feature)
    requires ValidTables(t)
    requires v.JInteger? || v.JFloat? || v.JDouble? || v.JByte? || v.JShort?
    requires Lookup(m, Some(JString(idKey))) == Some(Some(v))
    ensures AddTagsSpec(Some(idKey), JMap(m), t, fb).feature == Err(IllegalArgument)
  {
  }

  /** The tags produced so far in front of what the rest of the loop produces. */
  function Prepend(tags: seq<int>, rest: Result<seq<int>>): Result<seq<int>> {
    if rest.Err? then rest else Ok(tags + rest.value)
  }

  /** One turn of the entry loop: a supported entry adds its pair, other entries add nothing. */
  lemma AddEntriesStep(m: JavaMap, i: nat, t: Tables, tags: seq<int>)
    requires i < |m| && ValidTables(t)
    requires m[i].0.Some? ==> m[i].0.value.JString?
    ensures var (k, v) := m[i];
      var r := AddEntries(m[i..], t);
      if k.None? || v.None? || AddValueTo(t, v.value).1 < 0 then
        r == AddEntries(m[i + 1..], if k.None? || v.None? then t else AddValueTo(t, v.value).0)
      else
        var (t1, vi) := AddValueTo(t, v.value);
        var (t2, ki) := AddKeyTo(t1, k.value.s);
        r.0 == AddEntries(m[i + 1..], t2).0
        && Prepend(tags, r.1) == Prepend(tags + [ki, vi], AddEntries(m[i + 1..], t2).1)
  {
    assert m[i..][1..] == m[i + 1..] && m[i..][0] == m[i];
    var (k, v) := m[i];
    if k.Some? && v.Some? && AddValueTo(t, v.value).1 >= 0 {
      var (t1, vi) := AddValueTo(t, v.value);
      var (t2, ki) := AddKeyTo(t1, k.value.s);
      var rest := AddEntries(m[i + 1..], t2).1;
      if rest.Ok? {
        assert tags + ([ki, vi] + rest.value) == (tags + [ki, vi]) + rest.value;
      }
    }
  }

  /** The entry loop of `addTags` on `props`: the tags it collects, or Err where a key is not a String. */
  method AddEntriesTo(m: JavaMap, props: MvtLayerProps) returns (r: Result<seq<int>>)
    requires props.Valid()
    modifies props
    ensures props.Valid()
    ensures ValidTables(old(props.Contents()))
    ensures (props.Contents(), r) == AddEntries(m, old(props.Contents()))
  {
    props.ValidTablesHold();
    var tags: seq<int> := [];
    var i := 0;
    assert m[i..] == m;
    ghost var whole := AddEntries(m, props.Contents());
    assert Prepend(tags, whole.1) == whole.1 by {
      if whole.1.Ok? {
        assert tags + whole.1.value == whole.1.value;
      }
    }
    while i < |m|
      invariant 0 <= i <= |m|
      invariant props.Valid() && ValidTables(props.Contents())
      invariant whole.0 == AddEntries(m[i..], props.Contents()).0
      invariant whole.1 == Prepend(tags, AddEntries(m[i..], props.Contents()).1)
    {
      var (key, value) := m[i];
      if key.Some? && !key.value.JString? {
        assert m[i..][0] == m[i];
        return Err(IllegalArgument);
      }
      AddEntriesStep(m, i, props.Contents(), tags);
      if key.Some? && value.Some? {
        var valueIndex := props.AddValue(value.value);
        if valueIndex >= 0 {
          var keyIndex := props.AddKey(key.value.s);
          tags := tags + [keyIndex, valueIndex];
        }
      }
      i := i + 1;
    }
    assert m[i..] == [];
    assert tags + [] == tags;
    r := Ok(tags);
  }

  /** `UserDataKeyValueMapConverter.addTags`, the object version: `props` is updated in place. */
  method AddTags(idKey: Option<string>, userData: Obj, props: MvtLayerProps, fb: Feature) returns (r: Result<Feature>)
    requires props.Valid()
    modifies props
    ensures props.Valid()
    ensures ValidTables(old(props.Contents()))
    ensures TagsOutcome(props.Contents(), r) == AddTagsSpec(idKey, userData, old(props.Contents()), fb)
  {
    props.ValidTablesHold();
    if !userData.JMap? {
      return Err(IllegalArgument);
    }
    var tags := AddEntriesTo(userData.entries, props);
    if tags.Err? {
      return Err(IllegalArgument);
    }
    var id := IdFrom(idKey, userData.entries);
    if id.Err? {
      return Err(IllegalArgument);
    }
    r := Ok(fb.(tags := fb.tags + tags.value, id := if id.value.Some? then id.value else fb.id));
  }

  /** `IUserDataConverter.addTags` for either converter; the ignoring one leaves everything as it is. */
  function ConvertSpec(conv: UserDataConverter, userData: Obj, t: Tables, fb: Feature): (r: TagsOutcome)
    requires ValidTables(t)
    ensures ValidTables(r.tables) && Extends(t, r.tables)
    ensures conv.IgnoreConverter? ==> r == TagsOutcome(t, Ok(fb))
  {
    match conv
    case KeyValueMapConverter(idKey) => AddTagsSpec(idKey, userData, t, fb)
    case IgnoreConverter => TagsOutcome(t, Ok(fb))
  }

  /** `IUserDataConverter.addTags` on `props`, for either converter. */
  method Convert(conv: UserDataConverter, userData: Obj, props: MvtLayerProps, fb: Feature) returns (r: Result<Feature>)
    requires props.Valid()
    modifies props
    ensures props.Valid()
    ensures ValidTables(old(props.Contents()))
    ensures TagsOutcome(props.Contents(), r) == ConvertSpec(conv, userData, old(props.Contents()), fb)
  {
    props.ValidTablesHold();
    match conv
    case KeyValueMapConverter(idKey) =>
      r := AddTags(idKey, userData, props, fb);
    case IgnoreConverter =>
      r := Ok(fb);
  }

  // ------------------------------------------------------------ what the tags mean

  /** An even-length tag list whose key indices and value indices all point into tables of these sizes. */
  predicate TagsWithin(tags: seq<int>, keyCount: int, valueCount: int) {
    |tags| % 2 == 0
    && forall j :: 0 <= j < |tags| ==> 0 <= tags[j] && (if j % 2 == 0 then tags[j] < keyCount else tags[j] < valueCount)
  }

  /** Tables that grow keep every tag list within bounds. */
  lemma TagsWithinGrow(tags: seq<int>, keyCount: int, valueCount: int, keyCount': int, valueCount': int)
    requires TagsWithin(tags, keyCount, valueCount) && keyCount <= keyCount' && valueCount <= valueCount'
    ensures TagsWithin(tags, keyCount', valueCount')
  {
  }

  /** The (key, value) pairs a tag list names in the tables. */
  function PairsOf(tags: seq<int>, t: Tables): (r: seq<(string, Obj)>)
    requires TagsWithin(tags, |t.keys|, |t.values|)
    ensures |r| == |tags| / 2
    decreases |tags|
  {
    if tags == [] then []
    else
      assert TagsWithin(tags[2..], |t.keys|, |t.values|) by {
        forall j | 0 <= j < |tags[2..]|
          ensures tags[2..][j] == tags[j + 2] && (j + 2) % 2 == j % 2
        {
        }
      }
      [(t.keys[tags[0]], t.values[tags[1]])] + PairsOf(tags[2..], t)
  }

  /** The entries `addTags` turns into tags: a String key and a value the tables can hold. */
  function UsableEntries(entries: JavaMap): (r: seq<(string, Obj)>)
    ensures |r| <= |entries|
  {
    if entries == [] then []
    else
      var (k, v) := entries[0];
      if k.Some? && k.value.JString? && v.Some? && IsValidPropValue(v.value) then
        [(k.value.s, v.value)] + UsableEntries(entries[1..])
      else UsableEntries(entries[1..])
  }

  /** One more pair in front of a tag list within bounds. */
  lemma PairsCons(keyIndex: int, valueIndex: int, rest: seq<int>, t: Tables)
    requires 0 <= keyIndex < |t.keys| && 0 <= valueIndex < |t.values|
    requires TagsWithin(rest, |t.keys|, |t.values|)
    ensures TagsWithin([keyIndex, valueIndex] + rest, |t.keys|, |t.values|)
    ensures PairsOf([keyIndex, valueIndex] + rest, t) == [(t.keys[keyIndex], t.values[valueIndex])] + PairsOf(rest, t)
  {
    var tags := [keyIndex, valueIndex] + rest;
    assert tags[2..] == rest;
    forall j | 2 <= j < |tags|
      ensures tags[j] == rest[j - 2] && (j - 2) % 2 == j % 2
    {
    }
  }

  /**
   * Every pair `addTags` appends indexes, in the tables afterwards, exactly
   * the key and value of a usable map entry, one pair per such entry, in map
   * order.
   */
  lemma {:induction false} AddEntriesPairs(entries: JavaMap, t: Tables)
    requires ValidTables(t)
    ensures var r := AddEntries(entries, t);
      r.1.Ok? ==> TagsWithin(r.1.value, |r.0.keys|, |r.0.values|) && PairsOf(r.1.value, r.0) == UsableEntries(entries)
    decreases |entries|
  {
    if entries != [] {
      var (k, v) := entries[0];
      if k.Some? && !k.value.JString? {
      } else if k.None? || v.None? {
        AddEntriesPairs(entries[1..], t);
      } else {
        var (t1, valueIndex) := AddValueTo(t, v.value);
        if valueIndex < 0 {
          AddEntriesPairs(entries[1..], t1);
        } else {
          var (t2, keyIndex) := AddKeyTo(t1, k.value.s);
          var (t3, rest) := AddEntries(entries[1..], t2);
          AddEntriesPairs(entries[1..], t2);
          if rest.Ok? {
            assert t2.keys <= t3.keys && t2.values <= t3.values;
            PairsCons(keyIndex, valueIndex, rest.value, t3);
          }
        }
      }
    }
  }
}
