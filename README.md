# mapbox-vector-tile-java: a verified model of the geometry codec

This project models, in Dafny, the core of `mapbox-vector-tile-java`, the
Java library that converts JTS geometries to and from Mapbox Vector Tiles
(version 2.1 of the Mapbox Vector Tile Specification). It covers:

- the command codec (`MvtUtil`, `GeomCmd`): command headers that pack a
  3-bit command id and a run length, and zigzag parameter integers;
- the integer cursor `Vec2d`, a class whose fields change in place;
- the layer property tables `MvtLayerProps`, a class holding two
  insertion-ordered, deduplicating index tables;
- the feature encoder `JtsAdapter`: `toGeomType`, `collectFlatGeometries`,
  `addFeatures`, `toFeature`, `ptsToGeomCmds`, `linesToGeomCmds`,
  `moveCursor` and `countCoordRepeatReverse`;
- the feature decoder `MvtReader`: `readPoints`, `readLines`, `readPolys`,
  `readGeometry`, the two ring classifiers and the layer and feature loops
  of `loadMvt`;
- the tag converters `TagKeyValueMapConverter` and
  `UserDataKeyValueMapConverter`;
- the tile model `JtsMvt` and `JtsLayer`, `MvtLayerParams`, and
  `MvtEncoder.encodeToTile`;
- the geometry statistics `JtsGeomStats`.

Java `int` arithmetic is modelled exactly (`Codec.Int32`, `Codec.Wrap`).
Coordinates are the Java ints that the encoder's `(int)` casts produce.
Ring areas are exact doubled shoelace sums over those ints. Their sign is
chosen so that a clockwise ring in y-up terms is positive.

Loops of the source are methods with loop invariants. Each is proved equal
to a specification function, and the properties of the source are lemmas
about those functions:

- the encoder writes `Adapter.PtsCmds`, `Adapter.LinesCmds`,
  `Adapter.PolysCmds` and `Adapter.ToFeatureSpec`;
- the reader computes `Reader.ReadPointsSpec`, `Reader.ReadLinesSpec` and
  `Reader.ReadPolysSpec`;
- the classifiers compute `Classifiers.Classify`.

The reader decodes parameters with `MvtUtil.decodeZigZag` as written, whose
arithmetic shift misreads a parameter word with the sign bit set, that is a
move of 2^30 or more in either direction (see "## Findings"). The module
`RoundTrip` proves the headline property of the codec within that bound:
what the encoder writes for a point, line or polygon geometry whose
coordinates, and the cursor it starts from, lie in [-2^29, 2^29), the
reader reads back. Every move between two such points lies in
[-2^30, 2^30). The result is the deduplicated, re-wound geometry the
encoder meant to write, and the reader's cursor ends where the encoder's
did. `RoundTrip.PointMisread` shows a point outside the bound that comes
back elsewhere.

Files, one module each:

| file | contents |
|---|---|
| wrappers.dfy | `Option`, `Result` and the one exception kind modelled |
| codec.dfy | Java int arithmetic, `GeomCmd`, headers, zigzag |
| cursor.dfy | `Vec2d` |
| objects.dfy | the Java values held in user data and tag tables, `toMvtValue`/`toObject` |
| geometry.dfy | coordinates, shapes, `toGeomType`, ring area and reversal |
| layer_props.dfy | `MvtLayerProps` |
| vector_tile.dfy | tile, layer and feature messages, `MvtLayerParams` |
| mvt_util.dfy | `newLayerBuilder`, `writeProps`, `equalsIterable` |
| user_data_converter.dfy | `UserDataKeyValueMapConverter.addTags` and the ignoring converter |
| tag_converter.dfy | `TagKeyValueMapConverter` |
| adapter.dfy | the `JtsAdapter` encoder |
| reader.dfy | the `MvtReader` decoders |
| classifiers.dfy | `PolyRingClassifierV1` and `PolyRingClassifierV2_1` |
| model.dfy | `JtsLayer` and `JtsMvt` |
| loader.dfy | the loops of `loadMvt` |
| encoder.dfy | `MvtEncoder.encodeToTile` and `encode` |
| stats.dfy | `JtsGeomStats` |
| roundtrip.dfy | the encode/decode round trips |
| feature_roundtrip.dfy | the round trip of one feature's geometry, from `toFeature` to `loadMvt`'s feature loop |

## Model

| member | source | states |
|---|---|---|
| Codec.Wrap | src/main/java/io/github/sebasbaumh/mapbox/vectortile/util/Vec2d.java:53-57 | Java int arithmetic: a result that fits in 32 bits is kept exactly |
| Codec.WrapCongruent | src/main/java/io/github/sebasbaumh/mapbox/vectortile/util/Vec2d.java:53-57 | the wrapped result differs from the exact one by a multiple of 2^32 |
| Codec.Unsigned | src/main/java/io/github/sebasbaumh/mapbox/vectortile/util/MvtUtil.java:43-46 | an int's bit pattern read unsigned lies in [0, 2^32) and is congruent to the int |
| Codec.CmdId | src/main/java/io/github/sebasbaumh/mapbox/vectortile/util/GeomCmd.java:17-25 | command ids lie below 8; the id is 1, 2 or 7 exactly for MoveTo, LineTo and ClosePath respectively |
| Codec.ParamCount | src/main/java/io/github/sebasbaumh/mapbox/vectortile/util/GeomCmd.java:17-25 | MoveTo and LineTo take two parameters per repetition; ClosePath takes none |
| Codec.FromId | src/main/java/io/github/sebasbaumh/mapbox/vectortile/util/GeomCmd.java:50-68 | `fromId` finds a command exactly for ids 1, 2 and 7, and then the command with that id; every other id gives null |
| Codec.CmdIdInjective | src/main/java/io/github/sebasbaumh/mapbox/vectortile/util/GeomCmd.java:17-25 | distinct commands have distinct ids, and `fromId(getCmdId(c))` is `c` |
| Codec.ShiftLeft3 | src/main/java/io/github/sebasbaumh/mapbox/vectortile/util/MvtUtil.java:102-105 | `x << 3` is a multiple of 8 and equals 8x with Java wrap-around |
| Codec.GetGeomCmdId | src/main/java/io/github/sebasbaumh/mapbox/vectortile/util/MvtUtil.java:124-127 | the extracted id lies in [0, 8) |
| Codec.GetGeomCmdLength | src/main/java/io/github/sebasbaumh/mapbox/vectortile/util/MvtUtil.java:134-137 | a non-negative header gives a length below 2^28; a negative header gives a negative length, because the shift copies the sign bit |
| Codec.GetGeomCmd | src/main/java/io/github/sebasbaumh/mapbox/vectortile/util/MvtUtil.java:113-117 | null exactly when the low 3 bits are not 1, 2 or 7; otherwise the command with that id |
| Codec.HeaderIdRoundTrip | src/main/java/io/github/sebasbaumh/mapbox/vectortile/util/MvtUtil.java:102-127 | for every command and every length, the id and the command read back from a header are the ones written |
| Codec.HeaderLengthRoundTrip | src/main/java/io/github/sebasbaumh/mapbox/vectortile/util/MvtUtil.java:102-137 | the length reads back unchanged below 2^28; from 2^28 to GEOM_CMD_HDR_LEN_MAX it reads back as length - 2^29, a negative number |
| Codec.HeaderConstants | src/test/java/io/github/sebasbaumh/mapbox/vectortile/encoding/MvtUtilTest.java:19-23 | CLOSE_PATH_HDR is 15; the MoveTo(1) header is 9 and reads back with length 1 |
| Codec.GeomCmdHdr | src/main/java/io/github/sebasbaumh/mapbox/vectortile/util/MvtUtil.java:102-105 | the command id sits in the low 3 bits of the header (the length reading back is `Codec.HeaderLengthRoundTrip`) |
| Codec.EncodeZigZag | src/main/java/io/github/sebasbaumh/mapbox/vectortile/util/MvtUtil.java:54-57 | read unsigned, the encoding of n is 2n for n >= 0 and -2n - 1 for n < 0 |
| Codec.DecodeZigZag | src/main/java/io/github/sebasbaumh/mapbox/vectortile/util/MvtUtil.java:43-46 | the corrected decoding (logical shift): an even word u decodes to u/2 and an odd one to -(u/2) - 1, with u read unsigned |
| Codec.ZigZagRoundTrip | src/main/java/io/github/sebasbaumh/mapbox/vectortile/util/MvtUtil.java:43-57 | decoding inverts encoding on every Java int |
| Codec.ZigZagDecodeRoundTrip | src/main/java/io/github/sebasbaumh/mapbox/vectortile/util/MvtUtil.java:43-57 | encoding inverts decoding on every Java int, so the two are inverse bijections |
| Codec.DecodeZigZagAsWrittenAgrees | src/main/java/io/github/sebasbaumh/mapbox/vectortile/util/MvtUtil.java:43-46 | the as-written decoder (arithmetic shift) agrees with the corrected one on every non-negative word |
| Codec.DecodeZigZagAsWrittenValue | src/main/java/io/github/sebasbaumh/mapbox/vectortile/util/MvtUtil.java:43-46 | the arithmetic shift halves with the sign copied: an even word n gives n / 2, an odd one -(n / 2) - 1, so an even negative word decodes to a negative value |
| Codec.ZigZagAsWrittenRoundTrip | src/main/java/io/github/sebasbaumh/mapbox/vectortile/util/MvtUtil.java:43-57 | the as-written round trip holds for -2^30 <= n < 2^30 |
| Codec.ZigZagAsWrittenCounterexample | src/main/java/io/github/sebasbaumh/mapbox/vectortile/util/MvtUtil.java:43-46 | 2^30 encodes to 0x8000_0000, which the as-written decoder reads as -2^30 |
| Codec.ZigZagSpotValue | src/test/java/io/github/sebasbaumh/mapbox/vectortile/util/ZigZagTest.java:15-16 | the value pair of that test (which exercises the separate `encoding.ZigZag` class), checked on `MvtUtil`'s functions: 10018754 encodes to 20037508, and both the corrected and the as-written decoder give it back |
| Cursor.Vec2d.Origin | src/main/java/io/github/sebasbaumh/mapbox/vectortile/util/Vec2d.java:23-25 | a new cursor is at (0, 0) |
| Cursor.Vec2d.constructor | src/main/java/io/github/sebasbaumh/mapbox/vectortile/util/Vec2d.java:32-36 | the cursor holds the given x and y |
| Cursor.Vec2d.Copy | src/main/java/io/github/sebasbaumh/mapbox/vectortile/util/Vec2d.java:42-46 | a fresh object with the other's values, so later changes to either leave the other alone |
| Cursor.Vec2d.Add | src/main/java/io/github/sebasbaumh/mapbox/vectortile/util/Vec2d.java:53-57 | the cursor moves by (dx, dy) with 32-bit wrap-around, and nothing else changes |
| Cursor.Vec2d.Set | src/main/java/io/github/sebasbaumh/mapbox/vectortile/util/Vec2d.java:103-107 | the cursor holds exactly the given x and y |
| Cursor.Vec2d.SetVec | src/main/java/io/github/sebasbaumh/mapbox/vectortile/util/Vec2d.java:113-117 | the other cursor's values are copied, not its identity |
| Cursor.Vec2d.SetX | src/main/java/io/github/sebasbaumh/mapbox/vectortile/util/Vec2d.java:123-126 | only x changes |
| Cursor.Vec2d.SetY | src/main/java/io/github/sebasbaumh/mapbox/vectortile/util/Vec2d.java:132-135 | only y changes |
| Cursor.Vec2d.Equals | src/main/java/io/github/sebasbaumh/mapbox/vectortile/util/Vec2d.java:60-72 | true exactly when both coordinates agree |
| Cursor.MovedByDelta | src/main/java/io/github/sebasbaumh/mapbox/vectortile/util/Vec2d.java:53-57 | moving by the wrapped difference of two positions lands exactly on the target, whatever the overflow |
| Geometry.ToGeomType | src/main/java/io/github/sebasbaumh/mapbox/vectortile/adapt/jts/JtsAdapter.java:730-746 | POINT exactly for points and multi-points, LINESTRING for (multi-)line strings, POLYGON for (multi-)polygons, UNKNOWN exactly for everything else |
| Geometry.Reverse | src/main/java/io/github/sebasbaumh/mapbox/vectortile/adapt/jts/JtsAdapter.java:562-565 | the same coordinates in the opposite order |
| Geometry.ReverseNegatesArea | src/main/java/io/github/sebasbaumh/mapbox/vectortile/adapt/jts/JtsAdapter.java:562-565 | reversing a ring negates its signed area, so the winding flips |
| Geometry.ReverseReverse | src/main/java/io/github/sebasbaumh/mapbox/vectortile/adapt/jts/JtsAdapter.java:562-565 | reversing twice gives the ring back |
| Geometry.RoundsToZeroWrap | src/main/java/io/github/sebasbaumh/mapbox/vectortile/adapt/jts/JtsAdapter.java:553-557 | the model's rounding test on a doubled area d is the Java test `(int) Math.round(d / 2) == 0`, with `Math.round` rounding half up to floor((d + 1) / 2) and clamping to the long range: the low 32 bits of the clamped long are zero |
| Geometry.RoundsToZeroClamped | src/main/java/io/github/sebasbaumh/mapbox/vectortile/adapt/jts/JtsAdapter.java:553-557 | beyond the long range the clamp decides: an area rounding below -2^63 casts to 0 and rounds to zero, one rounding above 2^63 - 1 casts to -1 and does not |
| Geometry.RoundsToZeroSmall | src/main/java/io/github/sebasbaumh/mapbox/vectortile/adapt/jts/JtsAdapter.java:553-557 | below 2^32 in magnitude, only the doubled areas 0 and -1 round to zero |
| LayerProps.AddKeyTo | src/main/java/io/github/sebasbaumh/mapbox/vectortile/build/MvtLayerProps.java:33-39 | the values are untouched; the index returned holds the key; a present key leaves the tables as they are; an absent key is appended and gets the old size as its index |
| LayerProps.AddValueTo | src/main/java/io/github/sebasbaumh/mapbox/vectortile/build/MvtLayerProps.java:49-60 | an unsupported value gives -1 and no change; otherwise like adding a key, on the value table, with the keys untouched |
| LayerProps.AddsExtend | src/main/java/io/github/sebasbaumh/mapbox/vectortile/build/MvtLayerProps.java:33-60 | both additions only append, so every earlier index stays valid |
| LayerProps.AddKeyIdempotent | src/main/java/io/github/sebasbaumh/mapbox/vectortile/build/MvtLayerProps.java:33-39 | adding a key twice gives the tables and the index that adding it once gives |
| LayerProps.IntegerAndLongApart | src/main/java/io/github/sebasbaumh/mapbox/vectortile/build/MvtLayerProps.java:49-60 | an Integer and a Long with the same number get different value indices |
| LayerProps.MvtLayerProps.ValidTablesHold | src/main/java/io/github/sebasbaumh/mapbox/vectortile/build/MvtLayerProps.java:17-18 | the index maps keep both tables free of duplicates |
| LayerProps.MvtLayerProps.constructor | src/main/java/io/github/sebasbaumh/mapbox/vectortile/build/MvtLayerProps.java:23-25 | a new object has empty tables |
| LayerProps.MvtLayerProps.AddKey | src/main/java/io/github/sebasbaumh/mapbox/vectortile/build/MvtLayerProps.java:33-39 | the new tables and the index are those of `AddKeyTo`, and the index maps stay consistent with the lists |
| LayerProps.MvtLayerProps.AddValue | src/main/java/io/github/sebasbaumh/mapbox/vectortile/build/MvtLayerProps.java:49-60 | the new tables and the index are those of `AddValueTo`, and the index maps stay consistent with the lists |
| LayerProps.MvtLayerProps.GetKeys | src/main/java/io/github/sebasbaumh/mapbox/vectortile/build/MvtLayerProps.java:66-69 | the keys in index order: each key's index is its position |
| LayerProps.MvtLayerProps.GetValues | src/main/java/io/github/sebasbaumh/mapbox/vectortile/build/MvtLayerProps.java:75-78 | the values in index order: each value's index is its position |
| VectorTile.NewLayerParams | src/main/java/io/github/sebasbaumh/mapbox/vectortile/build/MvtLayerParams.java:53-68 | construction fails exactly when the tile size or the extent is not positive; valid arguments are stored unchanged |
| VectorTile.DefaultParams | src/main/java/io/github/sebasbaumh/mapbox/vectortile/build/MvtLayerParams.java:43-46 | the defaults are what the validating constructor builds from 256 and 4096 |
| MvtUtil.NewLayerBuilder | src/main/java/io/github/sebasbaumh/mapbox/vectortile/util/MvtUtil.java:157-164 | a layer of version 2 with the given name and the parameters' extent, and no keys, values or features yet |
| MvtUtil.MvtValuesElements | src/main/java/io/github/sebasbaumh/mapbox/vectortile/util/MvtUtil.java:252-255 | element by element, the values written are `toMvtValue` of the table values |
| MvtUtil.ToMvtValues | src/main/java/io/github/sebasbaumh/mapbox/vectortile/util/MvtUtil.java:252-255 | the value loop writes one converted value per table value, in order |
| MvtUtil.WriteProps | src/main/java/io/github/sebasbaumh/mapbox/vectortile/util/MvtUtil.java:247-256 | the layer gets all keys, then one value per table value, in index order, and is otherwise unchanged |
| MvtUtil.EqualsIterable | src/main/java/io/github/sebasbaumh/mapbox/vectortile/util/MvtUtil.java:66-91 | true exactly when both are null, or neither is and they have equal length and pairwise equal elements; exactly one null gives false |
| MvtUtil.SameElementsReflexive | src/main/java/io/github/sebasbaumh/mapbox/vectortile/util/MvtUtil.java:68-72 | the instance check `la == lb` is not modelled, and it is not needed: one sequence compared with itself is equal under a reflexive element equality such as `Objects.equals` |
| Objects.Put | src/main/java/io/github/sebasbaumh/mapbox/vectortile/adapt/jts/TagKeyValueMapConverter.java:99 | `LinkedHashMap.put`: the key then maps to the new value, other keys keep theirs, and the map grows only for a new key |
| Objects.ToMvtValue | src/main/java/io/github/sebasbaumh/mapbox/vectortile/util/MvtUtil.java:171-200 | the message is empty exactly for an unsupported type; Integer and Long, and only they, go to the sint slot |
| Objects.IsValidPropValue | src/main/java/io/github/sebasbaumh/mapbox/vectortile/util/MvtUtil.java:144-148 | true exactly for Boolean, Integer, Long, Float, Double and String; false for Byte, Short, maps and any other object |
| Objects.ToObject | src/main/java/io/github/sebasbaumh/mapbox/vectortile/util/MvtUtil.java:208-240 | null exactly for an empty message; otherwise a supported value that is never an Integer |
| Objects.ValueRoundTrip | src/main/java/io/github/sebasbaumh/mapbox/vectortile/util/MvtUtil.java:171-240 | a supported value reads back as itself, except that an Integer comes back as a Long |
| Adapter.DeltaMoves | src/main/java/io/github/sebasbaumh/mapbox/vectortile/adapt/jts/JtsAdapter.java:439-446 | for a move whose two coordinate differences, wrapped to 32 bits, lie in [-2^30, 2^30), decoding its two parameters as `decodeZigZag` does and adding them to the cursor lands on the target, overflow or not |
| Adapter.ParamDecodes | src/main/java/io/github/sebasbaumh/mapbox/vectortile/adapt/jts/JtsAdapter.java:439-446 | one parameter of a move in [-2^30, 2^30) decodes, with the arithmetic shift, to the wrapped difference it encodes |
| Adapter.WideDelta | src/main/java/io/github/sebasbaumh/mapbox/vectortile/adapt/jts/JtsAdapter.java:439-446 | a move of 2^30 along x is written as the parameter words Integer.MIN_VALUE and 0 |
| Adapter.Deltas | src/main/java/io/github/sebasbaumh/mapbox/vectortile/adapt/jts/JtsAdapter.java:439-446 | two parameters per point; that the reader decodes them back to the points is `RoundTrip.DeltasDecode` |
| Adapter.BoxWalk | src/main/java/io/github/sebasbaumh/mapbox/vectortile/adapt/jts/JtsAdapter.java:460-502 | from a cursor in [-2^29, 2^29), every move of a walk through points in that range has both differences in [-2^30, 2^30) |
| Adapter.DedupKeeps | src/main/java/io/github/sebasbaumh/mapbox/vectortile/adapt/jts/JtsAdapter.java:393-405 | the points kept never repeat in a row, never start at the cursor, and all come from the input; input without such repeats is kept whole |
| Adapter.Dedup | src/main/java/io/github/sebasbaumh/mapbox/vectortile/adapt/jts/JtsAdapter.java:393-405 | dropping repeated points never lengthens a line (which points stay is `Adapter.DedupKeeps`) |
| Adapter.TrailingCountExact | src/main/java/io/github/sebasbaumh/mapbox/vectortile/adapt/jts/JtsAdapter.java:163-181 | the count covers exactly the trailing copies: those elements are equal to the one sought, and the element before them is not |
| Adapter.TrailingCount | src/main/java/io/github/sebasbaumh/mapbox/vectortile/adapt/jts/JtsAdapter.java:163-181 | the trailing repeats of the first coordinate never exceed the length (exactness is `Adapter.TrailingCountExact`) |
| Adapter.RepeatCount | src/main/java/io/github/sebasbaumh/mapbox/vectortile/adapt/jts/JtsAdapter.java:163-181 | the first coordinate is never counted, so the count is below the length |
| Adapter.CountCoordRepeatReverse | src/main/java/io/github/sebasbaumh/mapbox/vectortile/adapt/jts/JtsAdapter.java:163-181 | the backward scan counts the copies of the first coordinate at the end |
| Adapter.KeptPoints | src/main/java/io/github/sebasbaumh/mapbox/vectortile/adapt/jts/JtsAdapter.java:460-502 | at least one point is kept, and the first point always is |
| Adapter.PtsCmds | src/main/java/io/github/sebasbaumh/mapbox/vectortile/adapt/jts/JtsAdapter.java:460-502 | nothing exactly for no points or too many kept points; otherwise a MoveTo header counting the kept points, followed by two parameters per point |
| Adapter.ProcCount | src/main/java/io/github/sebasbaumh/mapbox/vectortile/adapt/jts/JtsAdapter.java:347-366 | no more coordinates are processed than there are; a ring always processes its first one |
| Adapter.LinesCmds | src/main/java/io/github/sebasbaumh/mapbox/vectortile/adapt/jts/JtsAdapter.java:344-425 | when nothing is written the cursor is back where it was; otherwise at least the MoveTo, the LineTo with its minimum points and, for a ring, the ClosePath |
| Adapter.LinesCmdsOutcome | src/main/java/io/github/sebasbaumh/mapbox/vectortile/adapt/jts/JtsAdapter.java:344-425 | with two or more coordinates to process: when the LineTo length is in range, MoveTo(1), the move, LineTo(k), the k kept moves and, for a ring, ClosePath, with the cursor on the last kept point; otherwise nothing, with the cursor restored |
| Adapter.LinesListCmds | src/main/java/io/github/sebasbaumh/mapbox/vectortile/adapt/jts/JtsAdapter.java:535-542 | no line components write nothing and leave the cursor alone |
| Adapter.HolesCmds | src/main/java/io/github/sebasbaumh/mapbox/vectortile/adapt/jts/JtsAdapter.java:572-600 | a polygon made invalid by an interior ring keeps no interior-ring commands |
| Adapter.HoleRing | src/main/java/io/github/sebasbaumh/mapbox/vectortile/adapt/jts/JtsAdapter.java:587-590 | a kept interior ring is written with all of its coordinates |
| Adapter.HolesValid | src/main/java/io/github/sebasbaumh/mapbox/vectortile/adapt/jts/JtsAdapter.java:572-600 | the polygon stays valid exactly when no interior ring is at least as large as the exterior ring |
| Adapter.PolyCmds | src/main/java/io/github/sebasbaumh/mapbox/vectortile/adapt/jts/JtsAdapter.java:546-605 | a polygon whose exterior area rounds to zero writes nothing and leaves the cursor alone |
| Adapter.PolysCmds | src/main/java/io/github/sebasbaumh/mapbox/vectortile/adapt/jts/JtsAdapter.java:543-607 | no polygon components write nothing and leave the cursor alone |
| Adapter.GeomCmds | src/main/java/io/github/sebasbaumh/mapbox/vectortile/adapt/jts/JtsAdapter.java:522-612 | an unsupported geometry has no commands |
| Adapter.ToFeatureSpec | src/main/java/io/github/sebasbaumh/mapbox/vectortile/adapt/jts/JtsAdapter.java:512-626 | converting a geometry only ever appends to the tables |
| Adapter.ToFeatureResult | src/main/java/io/github/sebasbaumh/mapbox/vectortile/adapt/jts/JtsAdapter.java:512-626 | null for an UNKNOWN type or no commands; a feature carries the geometry's type and its non-empty commands; without a converter or user data the tables stay as they are and nothing throws |
| Adapter.AddFeaturesSpec | src/main/java/io/github/sebasbaumh/mapbox/vectortile/adapt/jts/JtsAdapter.java:80-91 | the tables only grow, and each geometry adds at most one feature |
| Adapter.HugeSquareSkipped | src/main/java/io/github/sebasbaumh/mapbox/vectortile/adapt/jts/JtsAdapter.java:553-557 | the square over the whole int range, counter-clockwise, has doubled area -2(2^32 - 1)^2; it rounds to zero through the clamp, so the polygon writes nothing |
| Adapter.HolesSkipOrSpoil | src/main/java/io/github/sebasbaumh/mapbox/vectortile/adapt/jts/JtsAdapter.java:577-597 | an interior ring whose area rounds to zero is skipped with nothing written; one at least as large as the exterior ring ends the loop with the polygon invalid and no commands |
| Adapter.AddFeaturesThrow | src/main/java/io/github/sebasbaumh/mapbox/vectortile/adapt/jts/JtsAdapter.java:83-90 | a conversion that throws ends the whole loop with that exception, the tables as the conversion left them |
| Adapter.CollectFlat | src/main/java/io/github/sebasbaumh/mapbox/vectortile/adapt/jts/JtsAdapter.java:115-127 | only the six supported geometry kinds come out; a supported geometry comes out alone |
| Adapter.CollectAll | src/main/java/io/github/sebasbaumh/mapbox/vectortile/adapt/jts/JtsAdapter.java:134-150 | flattening the members of a collection yields only supported geometries |
| Adapter.AddGeometrySpec | src/main/java/io/github/sebasbaumh/mapbox/vectortile/adapt/jts/JtsAdapter.java:52-70 | adding one geometry only ever appends to the tables |
| Adapter.MoveCursor | src/main/java/io/github/sebasbaumh/mapbox/vectortile/adapt/jts/JtsAdapter.java:439-446 | appends the two zigzag parameters of the move from the cursor to the target, then puts the cursor on the target |
| Adapter.PtsToGeomCmds | src/main/java/io/github/sebasbaumh/mapbox/vectortile/adapt/jts/JtsAdapter.java:460-502 | the commands written and the cursor afterwards are those of `PtsCmds` |
| Adapter.AppendLineTo | src/main/java/io/github/sebasbaumh/mapbox/vectortile/adapt/jts/JtsAdapter.java:393-405 | the loop appends one move per point that moves the cursor, counts them, and leaves the cursor on the last point |
| Adapter.LinesToGeomCmds | src/main/java/io/github/sebasbaumh/mapbox/vectortile/adapt/jts/JtsAdapter.java:344-425 | the commands written and the cursor afterwards are those of `LinesCmds` |
| Adapter.LineToGeomCmds | src/main/java/io/github/sebasbaumh/mapbox/vectortile/adapt/jts/JtsAdapter.java:369-424 | with at least two coordinates to process, the commands and the cursor are those of `LinesCmds` |
| Adapter.LinesListToGeomCmds | src/main/java/io/github/sebasbaumh/mapbox/vectortile/adapt/jts/JtsAdapter.java:538-541 | the commands and the cursor are those of `LinesListCmds` |
| Adapter.HolesToGeomCmds | src/main/java/io/github/sebasbaumh/mapbox/vectortile/adapt/jts/JtsAdapter.java:570-600 | the commands, the cursor and the validity flag are those of `HolesCmds` |
| Adapter.PolyToGeomCmds | src/main/java/io/github/sebasbaumh/mapbox/vectortile/adapt/jts/JtsAdapter.java:548-605 | the commands and the cursor are those of `PolyCmds` |
| Adapter.PolysToGeomCmds | src/main/java/io/github/sebasbaumh/mapbox/vectortile/adapt/jts/JtsAdapter.java:546-606 | the commands and the cursor are those of `PolysCmds` |
| Adapter.EncodeGeometry | src/main/java/io/github/sebasbaumh/mapbox/vectortile/adapt/jts/JtsAdapter.java:524-607 | the commands are those of `GeomCmds`, from a fresh cursor at the origin |
| Adapter.ToFeature | src/main/java/io/github/sebasbaumh/mapbox/vectortile/adapt/jts/JtsAdapter.java:512-626 | the feature or exception, and the tables afterwards, are those of `ToFeatureSpec` |
| Adapter.AddFeature | src/main/java/io/github/sebasbaumh/mapbox/vectortile/adapt/jts/JtsAdapter.java:85-89 | one turn of the loop: when the conversion throws, the whole loop throws; otherwise the rest of the loop continues from the feature added |
| Adapter.AddFeatures | src/main/java/io/github/sebasbaumh/mapbox/vectortile/adapt/jts/JtsAdapter.java:80-91 | the layer gets the features of `AddFeaturesSpec` in order, the tables end as it says, and an exception leaves no layer |
| Adapter.CollectFlatInto | src/main/java/io/github/sebasbaumh/mapbox/vectortile/adapt/jts/JtsAdapter.java:134-150 | appends the flattening of the geometry to the list |
| Adapter.CollectFlatGeometries | src/main/java/io/github/sebasbaumh/mapbox/vectortile/adapt/jts/JtsAdapter.java:115-127 | the flattening of the geometry |
| Adapter.AddGeometry | src/main/java/io/github/sebasbaumh/mapbox/vectortile/adapt/jts/JtsAdapter.java:52-70 | the layer gets the features of `AddGeometrySpec` in order, and the tables end as it says |
| Adapter.CollectAllSimple | src/main/java/io/github/sebasbaumh/mapbox/vectortile/adapt/jts/JtsAdapter.java:134-150 | flattening a list of supported geometries changes nothing |
| Adapter.ShortCutAgrees | src/main/java/io/github/sebasbaumh/mapbox/vectortile/adapt/jts/JtsAdapter.java:52-70 | the short cut for a non-collection is only a short cut: every geometry is added exactly as its flattening is |
| Reader.DecodeDeltas | src/main/java/io/github/sebasbaumh/mapbox/vectortile/adapt/jts/MvtReader.java:287-295 | n parameter pairs decode to n points, each pair decoded as `decodeZigZag` does |
| Reader.DecodeDeltasPrefix | src/main/java/io/github/sebasbaumh/mapbox/vectortile/adapt/jts/MvtReader.java:287-295 | only the ints read affect the points decoded |
| Reader.DecodeDeltasAt | src/main/java/io/github/sebasbaumh/mapbox/vectortile/adapt/jts/MvtReader.java:287-295 | the k-th point decoded is the move of the point before it (the start, for the first) by the k-th pair, decoded with the arithmetic shift of `decodeZigZag` |
| Reader.ReadDeltas | src/main/java/io/github/sebasbaumh/mapbox/vectortile/adapt/jts/MvtReader.java:287-295 | the loop records the points of `DecodeDeltas` and leaves the cursor on the last one |
| Reader.ReadPointsSpec | src/main/java/io/github/sebasbaumh/mapbox/vectortile/adapt/jts/MvtReader.java:312-362 | a result is always a point or a multi-point |
| Reader.ReadPointsResult | src/main/java/io/github/sebasbaumh/mapbox/vectortile/adapt/jts/MvtReader.java:312-362 | null exactly for no commands, a first header that is not MoveTo, a count below 1 or too few parameters; otherwise exactly the counted points, and a Point exactly when the count is 1 |
| Reader.ReadCoords | src/main/java/io/github/sebasbaumh/mapbox/vectortile/adapt/jts/MvtReader.java:352-359 | the coordinate loop decodes the counted points and leaves the cursor on the last |
| Reader.ReadPoints | src/main/java/io/github/sebasbaumh/mapbox/vectortile/adapt/jts/MvtReader.java:312-362 | the result and the cursor afterwards are those of `ReadPointsSpec` |
| Reader.ReadOnePoint | src/main/java/io/github/sebasbaumh/mapbox/vectortile/adapt/jts/MvtReader.java:312-362 | a MoveTo(1) header and two parameter words read as one Point, the cursor moved by the two words decoded with the arithmetic shift |
| Reader.WideMove | src/main/java/io/github/sebasbaumh/mapbox/vectortile/adapt/jts/MvtReader.java:352-359 | the parameter words Integer.MIN_VALUE and 0 move the cursor from (0, 0) to (-2^30, 0) |
| Reader.LineGroup | src/main/java/io/github/sebasbaumh/mapbox/vectortile/adapt/jts/MvtReader.java:249-297 | a line group that parses ends after where it starts and within the commands |
| Reader.LineGroupsLong | src/main/java/io/github/sebasbaumh/mapbox/vectortile/adapt/jts/MvtReader.java:280-297 | every line read has at least two points |
| Reader.ReadLinesSpec | src/main/java/io/github/sebasbaumh/mapbox/vectortile/adapt/jts/MvtReader.java:223-302 | null exactly for no commands; otherwise the parsed groups in order, as a LineString exactly when there is one group, else a (possibly empty) MultiLineString |
| Reader.ReadLineGroup | src/main/java/io/github/sebasbaumh/mapbox/vectortile/adapt/jts/MvtReader.java:249-297 | one loop body: the line, the next index and the cursor are those of `LineGroup` |
| Reader.ReadLines | src/main/java/io/github/sebasbaumh/mapbox/vectortile/adapt/jts/MvtReader.java:223-302 | the result and the cursor afterwards are those of `ReadLinesSpec` |
| Reader.RingGroup | src/main/java/io/github/sebasbaumh/mapbox/vectortile/adapt/jts/MvtReader.java:400-466 | a ring group that parses ends after where it starts and within the commands |
| Reader.RingGroupsClosed | src/main/java/io/github/sebasbaumh/mapbox/vectortile/adapt/jts/MvtReader.java:431-466 | every ring read has at least four points and ends where it starts |
| Reader.ReadPolysSpec | src/main/java/io/github/sebasbaumh/mapbox/vectortile/adapt/jts/MvtReader.java:373-485 | null exactly for no commands or no classified polygon; otherwise the classified polygons, as a Polygon exactly when there is one |
| Reader.ReadRingGroup | src/main/java/io/github/sebasbaumh/mapbox/vectortile/adapt/jts/MvtReader.java:400-466 | one loop body: the ring, the next index and the cursor are those of `RingGroup` |
| Reader.ReadRings | src/main/java/io/github/sebasbaumh/mapbox/vectortile/adapt/jts/MvtReader.java:389-467 | the rings and the cursor afterwards are those of the ring groups |
| Reader.ReadPolys | src/main/java/io/github/sebasbaumh/mapbox/vectortile/adapt/jts/MvtReader.java:373-485 | the result and the cursor afterwards are those of `ReadPolysSpec` |
| Reader.ReadGeometrySpec | src/main/java/io/github/sebasbaumh/mapbox/vectortile/adapt/jts/MvtReader.java:191-213 | a geometry read has the feature's type; UNKNOWN gives null and leaves the cursor alone |
| Reader.ReadGeometry | src/main/java/io/github/sebasbaumh/mapbox/vectortile/adapt/jts/MvtReader.java:191-213 | the result and the cursor afterwards are those of `ReadGeometrySpec` |
| Classifiers.Flushed | src/main/java/io/github/sebasbaumh/mapbox/vectortile/adapt/jts/MvtReader.java:544-547 | flushing adds the current polygon, if there is one, to those finished |
| Classifiers.ClassifyRingsV1 | src/main/java/io/github/sebasbaumh/mapbox/vectortile/adapt/jts/MvtReader.java:496-551 | the scan of the V1 classifier computes `Classify(V1, ...)` |
| Classifiers.ClassifyRingsV2_1 | src/main/java/io/github/sebasbaumh/mapbox/vectortile/adapt/jts/MvtReader.java:563-615 | the scan of the V2.1 classifier computes `Classify(V2_1, ...)` |
| Classifiers.ClassifyRings | src/main/java/io/github/sebasbaumh/mapbox/vectortile/adapt/jts/MvtReader.java:470 | either classifier, as chosen |
| Classifiers.ClassifyWellFormed | src/main/java/io/github/sebasbaumh/mapbox/vectortile/adapt/jts/MvtReader.java:496-615 | every polygon produced is made of input rings that are simple and have non-zero area; each hole is no larger than its exterior ring and wound the other way; with V2.1 the exterior rings are the negative ones |
| Classifiers.ClassifyV1Winding | src/main/java/io/github/sebasbaumh/mapbox/vectortile/adapt/jts/MvtReader.java:511-548 | V1 produces no polygon exactly when no usable ring exists, and every exterior ring is wound like the first usable ring |
| Classifiers.ClassifyV2_1Count | src/main/java/io/github/sebasbaumh/mapbox/vectortile/adapt/jts/MvtReader.java:568-612 | V2.1 produces exactly one polygon per usable ring with a negative area |
| Classifiers.ClassifyGrows | src/main/java/io/github/sebasbaumh/mapbox/vectortile/adapt/jts/MvtReader.java:496-615 | the scan never loses a polygon it has finished or started |
| Loader.LoadFeature | src/main/java/io/github/sebasbaumh/mapbox/vectortile/adapt/jts/MvtReader.java:158-182 | an UNKNOWN feature gives nothing; a geometry read has the feature's type and, with a tag converter, the user data the converter makes of the id and tags |
| Loader.LoadFeatures | src/main/java/io/github/sebasbaumh/mapbox/vectortile/adapt/jts/MvtReader.java:158-182 | no more geometries than features |
| Loader.LoadFeaturesAppend | src/main/java/io/github/sebasbaumh/mapbox/vectortile/adapt/jts/MvtReader.java:158-182 | features are loaded independently and in order |
| Loader.EmptyLineKept | src/main/java/io/github/sebasbaumh/mapbox/vectortile/adapt/jts/MvtReader.java:173-181 | a LINESTRING feature with some commands but fewer than one group needs is kept, as an empty MultiLineString |
| Loader.LoadLayersResult | src/main/java/io/github/sebasbaumh/mapbox/vectortile/adapt/jts/MvtReader.java:151-187 | loading throws exactly when some layer's extent is not positive; otherwise one layer per tile layer, with its name, extent and loaded geometries |
| Loader.LoadOne | src/main/java/io/github/sebasbaumh/mapbox/vectortile/adapt/jts/MvtReader.java:161-181 | one feature, read from the shared cursor reset to (0, 0), gives `LoadFeature` |
| Loader.LoadLayerGeoms | src/main/java/io/github/sebasbaumh/mapbox/vectortile/adapt/jts/MvtReader.java:158-182 | the feature loop gives `LoadFeatures` |
| Loader.LoadLayer | src/main/java/io/github/sebasbaumh/mapbox/vectortile/adapt/jts/MvtReader.java:154-184 | one layer's geometries, then the validating JtsLayer constructor |
| Loader.LoadLayerAt | src/main/java/io/github/sebasbaumh/mapbox/vectortile/adapt/jts/MvtReader.java:151-185 | one turn of the layer loop: an exception ends the whole loop; otherwise the loop continues with the layer added |
| Loader.LoadMvt | src/main/java/io/github/sebasbaumh/mapbox/vectortile/adapt/jts/MvtReader.java:143-188 | the tile of the loaded layers, or the exception |
| Loader.LoadMvtDefault | src/main/java/io/github/sebasbaumh/mapbox/vectortile/adapt/jts/MvtReader.java:124-127 | without a classifier argument, the V1 classifier is used |
| Model.NewJtsLayer | src/main/java/io/github/sebasbaumh/mapbox/vectortile/adapt/jts/model/JtsLayer.java:61-70 | construction fails exactly for a non-positive extent; otherwise name, geometries and extent are kept |
| Model.JtsLayerOf | src/main/java/io/github/sebasbaumh/mapbox/vectortile/adapt/jts/model/JtsLayer.java:48-51 | the validating constructor with the default extent 4096, which never fails |
| Model.EmptyJtsLayer | src/main/java/io/github/sebasbaumh/mapbox/vectortile/adapt/jts/model/JtsLayer.java:37-40 | no geometries, the default extent |
| Model.SingleJtsLayer | src/main/java/io/github/sebasbaumh/mapbox/vectortile/adapt/jts/model/JtsLayer.java:78-81 | exactly the one geometry, the default extent |
| Model.Equals | src/main/java/io/github/sebasbaumh/mapbox/vectortile/adapt/jts/model/JtsLayer.java:84-91 | equal exactly when extent, name and the geometries in order are equal |
| Model.LayerEqualsIgnoresUserData | src/main/java/io/github/sebasbaumh/mapbox/vectortile/adapt/jts/model/JtsLayer.java:84-91 | every layer equals itself, and also itself with all user data dropped |
| Model.SwappedGeometriesDiffer | src/main/java/io/github/sebasbaumh/mapbox/vectortile/adapt/jts/model/JtsLayer.java:84-91 | the same geometries in another order make the layers unequal |
| Model.PutLayer | src/main/java/io/github/sebasbaumh/mapbox/vectortile/adapt/jts/model/JtsMvt.java:42-47 | the name then maps to the layer; a name already listed keeps its place |
| Model.PutLayerValid | src/main/java/io/github/sebasbaumh/mapbox/vectortile/adapt/jts/model/JtsMvt.java:42-47 | putting a layer keeps the names duplicate-free and in step with the map |
| Model.MvtOfValid | src/main/java/io/github/sebasbaumh/mapbox/vectortile/adapt/jts/model/JtsMvt.java:38-48 | a tile built from any list of layers is well formed |
| Model.NewJtsMvt | src/main/java/io/github/sebasbaumh/mapbox/vectortile/adapt/jts/model/JtsMvt.java:38-48 | the constructor's loop puts every layer in order |
| Model.SingleMvt | src/main/java/io/github/sebasbaumh/mapbox/vectortile/adapt/jts/model/JtsMvt.java:54-57 | the tile of one layer holds exactly that layer under its name |
| Model.GetLayers | src/main/java/io/github/sebasbaumh/mapbox/vectortile/adapt/jts/model/JtsMvt.java:92-95 | the layers in iteration order, each the one `getLayer` finds under its name |
| Model.GetLayer | src/main/java/io/github/sebasbaumh/mapbox/vectortile/adapt/jts/model/JtsMvt.java:83-86 | in a well-formed tile, null exactly when the name is not among the layer names |
| Model.GetLayerMissing | src/main/java/io/github/sebasbaumh/mapbox/vectortile/adapt/jts/model/JtsMvt.java:83-86 | `getLayer` gives null exactly when no layer has that name |
| Model.GetLayerFindsLast | src/main/java/io/github/sebasbaumh/mapbox/vectortile/adapt/jts/model/JtsMvt.java:42-47 | with duplicate names, `getLayer` finds the last layer put under the name |
| Model.LayerNames | src/main/java/io/github/sebasbaumh/mapbox/vectortile/adapt/jts/model/JtsMvt.java:38-48 | the iteration order lists exactly the layers' names |
| Model.LayerOrderStable | src/main/java/io/github/sebasbaumh/mapbox/vectortile/adapt/jts/model/JtsMvt.java:38-48 | putting more layers never moves a name, so names iterate in order of first appearance |
| Model.EmptyHasNoLayers | src/main/java/io/github/sebasbaumh/mapbox/vectortile/adapt/jts/model/JtsMvt.java:29-32 | the empty tile has no layers |
| Model.TwoLayers | src/main/java/io/github/sebasbaumh/mapbox/vectortile/adapt/jts/model/JtsMvt.java:63-66 | two differently named layers are listed in the order given |
| Model.OrderInsensitive | src/main/java/io/github/sebasbaumh/mapbox/vectortile/adapt/jts/model/JtsMvt.java:69-76 | tiles with the same layers in another order are equal, although they iterate differently |
| Model.ExtraLayerUnequal | src/main/java/io/github/sebasbaumh/mapbox/vectortile/adapt/jts/model/JtsMvt.java:69-76 | one more, newly named layer makes the tiles unequal |
| Encoder.ToFeatureTags | src/main/java/io/github/sebasbaumh/mapbox/vectortile/adapt/jts/JtsAdapter.java:617-624 | a feature's tags index only entries of the tables left behind; without a converter or user data there are no tags; with the map converter the pairs name exactly the usable entries of the user data |
| Encoder.AddFeaturesTags | src/main/java/io/github/sebasbaumh/mapbox/vectortile/adapt/jts/JtsAdapter.java:80-91 | every feature added indexes only entries of the tables left behind |
| Encoder.EncodedLayer | src/main/java/io/github/sebasbaumh/mapbox/vectortile/adapt/jts/MvtEncoder.java:78-84 | an encoded layer has version 2, the JtsLayer's name and the parameters' extent (not the JtsLayer's), the features of its geometries in order, and tags that index its own fresh key and value lists |
| Encoder.EncodeLayersResult | src/main/java/io/github/sebasbaumh/mapbox/vectortile/adapt/jts/MvtEncoder.java:75-85 | one layer per JtsLayer, position by position, each encoded on its own; encoding fails exactly when some layer's encoding fails |
| Encoder.EncodeLayer | src/main/java/io/github/sebasbaumh/mapbox/vectortile/adapt/jts/MvtEncoder.java:78-84 | the loop body computes the encoded layer |
| Encoder.EncodeToTile | src/main/java/io/github/sebasbaumh/mapbox/vectortile/adapt/jts/MvtEncoder.java:70-88 | the tile of the encoded layers, in `getLayers` order, or the exception |
| Encoder.Encode | src/main/java/io/github/sebasbaumh/mapbox/vectortile/adapt/jts/MvtEncoder.java:32-35 | `encode` uses the default parameters and a map converter without an id key |
| Encoder.EncodeDefaults | src/main/java/io/github/sebasbaumh/mapbox/vectortile/adapt/jts/MvtEncoder.java:32-35 | with the defaults, every layer has version 2 and extent 4096 and is named after the JtsLayer at the same position |
| Stats.AllGeomTypes | src/main/java/io/github/sebasbaumh/mapbox/vectortile/util/JtsGeomStats.java:40-46 | the constructor's list covers every geometry type |
| Stats.RepeatedCount | src/main/java/io/github/sebasbaumh/mapbox/vectortile/util/JtsGeomStats.java:48-65 | the count is at most the length minus one (zero for no coordinates) |
| Stats.RepeatedCountZero | src/main/java/io/github/sebasbaumh/mapbox/vectortile/util/JtsGeomStats.java:48-65 | no repeated points exactly when no two neighbouring coordinates are equal |
| Stats.CheckRepeatedPoints2d | src/main/java/io/github/sebasbaumh/mapbox/vectortile/util/JtsGeomStats.java:48-65 | the scan counts the coordinates equal to the one before |
| Stats.PointRepeats | src/main/java/io/github/sebasbaumh/mapbox/vectortile/util/JtsGeomStats.java:117-129 | no more repeats than points |
| Stats.PointRepeatsDistinct | src/main/java/io/github/sebasbaumh/mapbox/vectortile/util/JtsGeomStats.java:117-129 | the repeated points are the points minus the distinct ones |
| Stats.PointStats | src/main/java/io/github/sebasbaumh/mapbox/vectortile/util/JtsGeomStats.java:117-129 | the point count and the number of points already seen |
| Stats.LinesSumBounded | src/main/java/io/github/sebasbaumh/mapbox/vectortile/util/JtsGeomStats.java:105-115 | never more repeats than points, and at least one fewer per non-empty line |
| Stats.LineStats | src/main/java/io/github/sebasbaumh/mapbox/vectortile/util/JtsGeomStats.java:105-115 | the sums over all components |
| Stats.SumLines | src/main/java/io/github/sebasbaumh/mapbox/vectortile/util/JtsGeomStats.java:105-115 | the counters after adding each line |
| Stats.AddPolygonStats | src/main/java/io/github/sebasbaumh/mapbox/vectortile/util/JtsGeomStats.java:135-151 | one polygon adds its exterior ring, then its interior rings |
| Stats.PolyStats | src/main/java/io/github/sebasbaumh/mapbox/vectortile/util/JtsGeomStats.java:131-153 | the sums over every ring of every polygon, exterior first |
| Stats.StatsOf | src/main/java/io/github/sebasbaumh/mapbox/vectortile/util/JtsGeomStats.java:67-80 | an unsupported geometry gets zero counts |
| Stats.StatsBounded | src/main/java/io/github/sebasbaumh/mapbox/vectortile/util/JtsGeomStats.java:67-80 | no geometry has more repeated points than points |
| Stats.CountOf | src/main/java/io/github/sebasbaumh/mapbox/vectortile/util/JtsGeomStats.java:87-103 | a type counts no more geometries than there are |
| Stats.CountsSumToSize | src/main/java/io/github/sebasbaumh/mapbox/vectortile/util/JtsGeomStats.java:87-103 | the four counts add up to the number of geometries |
| Stats.CountAll | src/main/java/io/github/sebasbaumh/mapbox/vectortile/util/JtsGeomStats.java:87-103 | a type counts every geometry exactly when every geometry has that type |
| Stats.JtsGeomStats.constructor | src/main/java/io/github/sebasbaumh/mapbox/vectortile/util/JtsGeomStats.java:40-46 | a zero count for every type and no feature statistics |
| Stats.FeatureStatsOf | src/main/java/io/github/sebasbaumh/mapbox/vectortile/util/JtsGeomStats.java:67-80 | the statistics of one geometry by its type |
| Stats.GetStats | src/main/java/io/github/sebasbaumh/mapbox/vectortile/util/JtsGeomStats.java:87-103 | a fresh object whose count per type is the number of geometries of that type, with one statistics entry per geometry, in input order |
| TagConverter.NewTagConverter | src/main/java/io/github/sebasbaumh/mapbox/vectortile/adapt/jts/TagKeyValueMapConverter.java:43-46 | never null, no id |
| TagConverter.NewTagConverterNullIfEmpty | src/main/java/io/github/sebasbaumh/mapbox/vectortile/adapt/jts/TagKeyValueMapConverter.java:52-57 | the flag as given, no id |
| TagConverter.NewTagConverterWithId | src/main/java/io/github/sebasbaumh/mapbox/vectortile/adapt/jts/TagKeyValueMapConverter.java:64-71 | the flag as given, and the id added under the key |
| TagConverter.PutTags | src/main/java/io/github/sebasbaumh/mapbox/vectortile/adapt/jts/TagKeyValueMapConverter.java:90-101 | the pair loop keeps the keys of the map distinct |
| TagConverter.ToUserDataSpec | src/main/java/io/github/sebasbaumh/mapbox/vectortile/adapt/jts/TagKeyValueMapConverter.java:75-109 | null exactly when asked for on no tags and no id to add; otherwise a map, holding the id under the id key when one is added |
| TagConverter.ToUserData | src/main/java/io/github/sebasbaumh/mapbox/vectortile/adapt/jts/TagKeyValueMapConverter.java:75-109 | the loop computes `ToUserDataSpec` |
| TagConverter.TrailingIndexIgnored | src/main/java/io/github/sebasbaumh/mapbox/vectortile/adapt/jts/TagKeyValueMapConverter.java:90 | an odd index after the last full pair is never read |
| TagConverter.TrailingTagIgnored | src/main/java/io/github/sebasbaumh/mapbox/vectortile/adapt/jts/TagKeyValueMapConverter.java:90 | so the whole conversion ignores it |
| TagConverter.LaterPairWins | src/main/java/io/github/sebasbaumh/mapbox/vectortile/adapt/jts/TagKeyValueMapConverter.java:99 | for a key that comes twice, the later pair's value is kept |
| TagConverter.OutOfRangePairSkipped | src/main/java/io/github/sebasbaumh/mapbox/vectortile/adapt/jts/TagKeyValueMapConverter.java:95-100 | a pair that points outside either table contributes nothing |
| TagConverter.IdOverridesTag | src/main/java/io/github/sebasbaumh/mapbox/vectortile/adapt/jts/TagKeyValueMapConverter.java:104-107 | the id is written after the tags, so it overrides a tag of the same name |
| UserDataConverter.ParseLong | src/main/java/io/github/sebasbaumh/mapbox/vectortile/adapt/jts/UserDataKeyValueMapConverter.java:85 | `Long.parseLong` succeeds exactly for a non-empty string of decimal digits after an optional sign whose value fits a long, and then gives that value, negated after a minus sign |
| UserDataConverter.Decimal | src/main/java/io/github/sebasbaumh/mapbox/vectortile/adapt/jts/UserDataKeyValueMapConverter.java:85 | a non-empty digit string without a leading zero that spells the number |
| UserDataConverter.ParseLongRoundTrip | src/main/java/io/github/sebasbaumh/mapbox/vectortile/adapt/jts/UserDataKeyValueMapConverter.java:85 | every long written out in decimal parses back to itself |
| UserDataConverter.ParseLongExamples | src/main/java/io/github/sebasbaumh/mapbox/vectortile/adapt/jts/UserDataKeyValueMapConverter.java:85 | signs are accepted; empty strings, a lone sign and stray characters are not |
| UserDataConverter.AddEntries | src/main/java/io/github/sebasbaumh/mapbox/vectortile/adapt/jts/UserDataKeyValueMapConverter.java:53-68 | the tables only grow, and the tags come in pairs |
| UserDataConverter.IdFrom | src/main/java/io/github/sebasbaumh/mapbox/vectortile/adapt/jts/UserDataKeyValueMapConverter.java:71-93 | without an id key, or with no entry or a null under it, no id; a Long is the id; a String is parsed with `Long.parseLong`; an Integer, Float, Double, Byte or Short throws IllegalArgumentException, and nothing else throws; a Boolean, map or other object gives no id |
| UserDataConverter.AddTagsSpec | src/main/java/io/github/sebasbaumh/mapbox/vectortile/adapt/jts/UserDataKeyValueMapConverter.java:46-99 | user data that is not a map throws and changes nothing; for a map the tables are those the entry loop leaves, the feature fails exactly when the entry loop or the id lookup throws, and otherwise gets the tags appended and the id found, or keeps its own id; the type and geometry are kept |
| UserDataConverter.UnsupportedValueAddsNothing | src/main/java/io/github/sebasbaumh/mapbox/vectortile/adapt/jts/UserDataKeyValueMapConverter.java:58-66 | an entry whose value cannot be stored adds neither a tag nor a key |
| UserDataConverter.StringIdParsed | src/main/java/io/github/sebasbaumh/mapbox/vectortile/adapt/jts/UserDataKeyValueMapConverter.java:81-91 | a String id is parsed, and one that is not a number leaves the id unset |
| UserDataConverter.LongIdUsed | src/main/java/io/github/sebasbaumh/mapbox/vectortile/adapt/jts/UserDataKeyValueMapConverter.java:71-93 | a Long under the id key becomes the feature's id |
| UserDataConverter.NumericIdThrows | src/main/java/io/github/sebasbaumh/mapbox/vectortile/adapt/jts/UserDataKeyValueMapConverter.java:71-93 | an Integer, Float, Double, Byte or Short under the id key makes the conversion throw IllegalArgumentException |
| UserDataConverter.AddEntriesTo | src/main/java/io/github/sebasbaumh/mapbox/vectortile/adapt/jts/UserDataKeyValueMapConverter.java:53-68 | the loop on the props object computes `AddEntries` |
| UserDataConverter.AddTags | src/main/java/io/github/sebasbaumh/mapbox/vectortile/adapt/jts/UserDataKeyValueMapConverter.java:46-99 | the props object and the feature end as `AddTagsSpec` says |
| UserDataConverter.ConvertSpec | src/main/java/io/github/sebasbaumh/mapbox/vectortile/adapt/jts/UserDataIgnoreConverter.java:13-15 | the ignoring converter leaves tables and feature as they are |
| UserDataConverter.Convert | src/main/java/io/github/sebasbaumh/mapbox/vectortile/adapt/jts/UserDataKeyValueMapConverter.java:46-99 | either converter on the props object computes `ConvertSpec` |
| UserDataConverter.PairsOf | src/main/java/io/github/sebasbaumh/mapbox/vectortile/adapt/jts/UserDataKeyValueMapConverter.java:64-65 | one named pair per two tags |
| UserDataConverter.UsableEntries | src/main/java/io/github/sebasbaumh/mapbox/vectortile/adapt/jts/UserDataKeyValueMapConverter.java:58-62 | no more usable entries than entries |
| UserDataConverter.AddEntriesPairs | src/main/java/io/github/sebasbaumh/mapbox/vectortile/adapt/jts/UserDataKeyValueMapConverter.java:53-68 | every pair appended indexes, in the tables afterwards, exactly the key and value of a usable entry, one pair per such entry, in map order |
| RoundTrip.HeaderReads | src/main/java/io/github/sebasbaumh/mapbox/vectortile/util/MvtUtil.java:102-137 | a header written with a length below 2^28 reads back as that command and length |
| RoundTrip.DeltasDecode | src/main/java/io/github/sebasbaumh/mapbox/vectortile/adapt/jts/MvtReader.java:287-295 | the parameters the encoder writes for a walk whose every move has both differences in [-2^30, 2^30) decode, with `decodeZigZag` as written, to the walk |
| RoundTrip.PointsRead | src/main/java/io/github/sebasbaumh/mapbox/vectortile/adapt/jts/MvtReader.java:312-362 | a MoveTo group, under any header that reads back as MoveTo with the point count, written for points whose moves lie in [-2^30, 2^30) reads back the points it was written from |
| RoundTrip.PointsRoundTrip | src/main/java/io/github/sebasbaumh/mapbox/vectortile/adapt/jts/JtsAdapter.java:460-502 | from a cursor and with coordinates in [-2^29, 2^29), a point geometry reads back as its kept points, a Point exactly when one is kept, with the cursor where the encoder left it; points without neighbouring repeats all come back |
| RoundTrip.PointMisread | src/main/java/io/github/sebasbaumh/mapbox/vectortile/adapt/jts/MvtReader.java:312-362 | the point (2^30, 0), written from (0, 0), is read back as (-2^30, 0), the cursors of writer and reader ending apart |
| RoundTrip.LineGroupReads | src/main/java/io/github/sebasbaumh/mapbox/vectortile/adapt/jts/MvtReader.java:249-297 | a line group written at some position, for moves in [-2^30, 2^30), reads back as the points it was written from |
| RoundTrip.LineThen | src/main/java/io/github/sebasbaumh/mapbox/vectortile/adapt/jts/JtsAdapter.java:344-425 | from a cursor and with coordinates in [-2^29, 2^29), a line component reads back as its kept points when written, and the cursor stays in that range; a dropped one writes nothing |
| RoundTrip.EncodedLines | src/main/java/io/github/sebasbaumh/mapbox/vectortile/adapt/jts/JtsAdapter.java:535-542 | no more components are written than given |
| RoundTrip.LinesListThen | src/main/java/io/github/sebasbaumh/mapbox/vectortile/adapt/jts/JtsAdapter.java:535-542 | from a cursor and with coordinates in [-2^29, 2^29), the written line components read back in order, with the cursor where the encoder left it |
| RoundTrip.LinesListEmpty | src/main/java/io/github/sebasbaumh/mapbox/vectortile/adapt/jts/JtsAdapter.java:535-542 | nothing is written exactly when every component is dropped |
| RoundTrip.LinesRoundTrip | src/main/java/io/github/sebasbaumh/mapbox/vectortile/adapt/jts/MvtReader.java:223-302 | with coordinates in [-2^29, 2^29), a (multi-)line string reads back as the components written, a LineString exactly when one was written; nothing is written exactly when none is |
| RoundTrip.ClosedKept | src/main/java/io/github/sebasbaumh/mapbox/vectortile/adapt/jts/MvtReader.java:463-466 | a ring read back starts and ends on the first coordinate |
| RoundTrip.RingGroupAt | src/main/java/io/github/sebasbaumh/mapbox/vectortile/adapt/jts/MvtReader.java:400-466 | a ring group written at some position, for moves in [-2^30, 2^30), reads back as its points, closed |
| RoundTrip.RingThen | src/main/java/io/github/sebasbaumh/mapbox/vectortile/adapt/jts/JtsAdapter.java:344-425 | from a cursor and with coordinates in [-2^29, 2^29), a ring reads back as its kept points, closed, when written, and the cursor stays in that range; a dropped one writes nothing |
| RoundTrip.HolesThen | src/main/java/io/github/sebasbaumh/mapbox/vectortile/adapt/jts/JtsAdapter.java:572-600 | from a cursor and with coordinates in [-2^29, 2^29), the interior rings of a valid polygon read back as the rings written |
| RoundTrip.Exterior | src/main/java/io/github/sebasbaumh/mapbox/vectortile/adapt/jts/JtsAdapter.java:562-565 | the exterior ring as written keeps all its coordinates |
| RoundTrip.PolyThen | src/main/java/io/github/sebasbaumh/mapbox/vectortile/adapt/jts/JtsAdapter.java:546-605 | from a cursor and with coordinates in [-2^29, 2^29), the rings of a valid polygon read back as the rings written |
| RoundTrip.PolysThen | src/main/java/io/github/sebasbaumh/mapbox/vectortile/adapt/jts/JtsAdapter.java:543-607 | from a cursor and with coordinates in [-2^29, 2^29), the rings of a list of valid polygons read back as the rings written |
| RoundTrip.PairwiseDedup | src/main/java/io/github/sebasbaumh/mapbox/vectortile/adapt/jts/JtsAdapter.java:393-405 | dropping repeated points leaves the area sum and the end point unchanged |
| RoundTrip.AreaDropClosing | src/main/java/io/github/sebasbaumh/mapbox/vectortile/adapt/jts/JtsAdapter.java:350-355 | dropping trailing copies of the first point leaves the area unchanged |
| RoundTrip.ClosedKeptArea | src/main/java/io/github/sebasbaumh/mapbox/vectortile/adapt/jts/MvtReader.java:431-466 | the ring the reader gets back has the area of the ring the encoder was given |
| RoundTrip.DecodedPolys | src/main/java/io/github/sebasbaumh/mapbox/vectortile/adapt/jts/JtsAdapter.java:543-607 | at most one polygon comes back per polygon component |
| RoundTrip.HoleWound | src/main/java/io/github/sebasbaumh/mapbox/vectortile/adapt/jts/JtsAdapter.java:587-597 | a kept interior ring is written clockwise and smaller than the exterior ring |
| RoundTrip.HolesRingsWound | src/main/java/io/github/sebasbaumh/mapbox/vectortile/adapt/jts/JtsAdapter.java:572-600 | every interior ring written is clockwise and smaller than the exterior ring |
| RoundTrip.ExteriorArea | src/main/java/io/github/sebasbaumh/mapbox/vectortile/adapt/jts/JtsAdapter.java:553-568 | the exterior ring written is counter-clockwise, with the magnitude of the original area |
| RoundTrip.DecodedWound | src/main/java/io/github/sebasbaumh/mapbox/vectortile/adapt/jts/JtsAdapter.java:543-607 | every polygon read back is wound as the encoder winds it |
| RoundTrip.ClassifyHoles | src/main/java/io/github/sebasbaumh/mapbox/vectortile/adapt/jts/MvtReader.java:496-615 | clockwise rings smaller than the exterior ring become its holes, for either classifier |
| RoundTrip.ShellStarts | src/main/java/io/github/sebasbaumh/mapbox/vectortile/adapt/jts/MvtReader.java:496-615 | a counter-clockwise exterior ring starts a new polygon, for either classifier |
| RoundTrip.ClassifyWound | src/main/java/io/github/sebasbaumh/mapbox/vectortile/adapt/jts/MvtReader.java:496-615 | wound polygons, their rings listed in order, are classified back into the same polygons |
| RoundTrip.PolyRingsDecoded | src/main/java/io/github/sebasbaumh/mapbox/vectortile/adapt/jts/JtsAdapter.java:546-605 | one polygon's rings as written are those of the polygon read back |
| RoundTrip.PolysRingsDecoded | src/main/java/io/github/sebasbaumh/mapbox/vectortile/adapt/jts/JtsAdapter.java:543-607 | the rings written are the rings of the polygons read back, in order |
| RoundTrip.DecodedPolysWound | src/main/java/io/github/sebasbaumh/mapbox/vectortile/adapt/jts/JtsAdapter.java:543-607 | every polygon read back is wound as the encoder winds it |
| RoundTrip.PolysCmdsEmpty | src/main/java/io/github/sebasbaumh/mapbox/vectortile/adapt/jts/JtsAdapter.java:609-612 | nothing is written exactly when every component is dropped, and then the cursor stays put |
| RoundTrip.PolysRoundTrip | src/main/java/io/github/sebasbaumh/mapbox/vectortile/adapt/jts/MvtReader.java:373-485 | with coordinates in [-2^29, 2^29), a (multi-)polygon reads back, with either classifier, as the components not dropped: exterior counter-clockwise and interior rings clockwise (y-up), closed, repeated points removed; a Polygon exactly when one comes back, null when none does |
| FeatureRoundTrip.GeometryRoundTrip | src/main/java/io/github/sebasbaumh/mapbox/vectortile/adapt/jts/MvtReader.java:191-213 | for every geometry in the coordinate box (and, for polygons, every component valid), nothing is written exactly when nothing would be decoded, and otherwise `readGeometry` on the commands and type `toFeature` writes gives back the kept points, the written lines or the wound polygons |
| FeatureRoundTrip.LoadedShape | src/main/java/io/github/sebasbaumh/mapbox/vectortile/adapt/jts/MvtReader.java:158-182 | the feature loop keeps a feature's geometry exactly when `readGeometry` gives one, and then keeps that shape |
| FeatureRoundTrip.FeatureRoundTrip | src/main/java/io/github/sebasbaumh/mapbox/vectortile/adapt/jts/JtsAdapter.java:512-626 | a feature written by `toFeature` from a geometry in the box is loaded back by the feature loop with the decoded shape of that geometry |

## Left out

- `JtsAdapter.createTileGeom`, `RoundingFilter` and `GeomMinSizeFilter`: floating-point clipping, simplification and rounding inside JTS.
- File, stream and protobuf I/O: the `loadMvt` overloads taking a file or a stream, `parseFrom`, and `toByteArray`/`encodeTo`. Tiles, layers and features are datatypes, and `Loader.LoadMvt` starts from a parsed tile.
- `hashCode`, `toString`, SLF4J logging and `MvtLayerParams.ratio` (a float).
- The deprecated `JtsAdapter.toFeatures`: it yields the same features as `addFeatures`, which `Adapter.AddFeaturesSpec` and `Adapter.AddGeometrySpec` model.
- The buffer-size helpers `geomCmdBuffLen*`: they set only the initial capacity of lists.
- `JtsAdapter.equalAsInts2d`: coordinates are already the ints after the `(int)` cast, so it is equality of `Coord`s.
- Doubles: coordinates are the ints after the `(int)` cast, and `Area.ofRingSigned` is replaced by an exact doubled integer shoelace sum. The comparisons of areas are those of the doubled sums. `Math.round` and its clamp to the long range are modelled on the exact area (`Geometry.MathRound`); the rounding of a huge area to a double is not.
- `LinearRing.isRing()` and the geometry factory: `isRing` is a function parameter of the reader and the classifiers.
- The null converter and the ignoring converters: a null converter is `None`. The ignoring tag converter's null user data is the same as none being set. `UserDataIgnoreConverter` is `UserDataConverter.IgnoreConverter`.
- Feature ids in the decoder are taken as given; `hasId` is `Option`.
- Float, Double and other payloads of protobuf `Value`s are kept abstract; only the slot each Java type goes to is modelled.
- Map equality in `JtsMvt.equals` is modelled on the name-to-layer map without its order, as `Map.equals` does.
- The layer builder is a value: `Adapter.AddFeatures` and `Adapter.AddGeometry` return the new layer instead of appending to a shared builder.
- In-place ring reversal (`CoordinateArrays.reverse`): modelled on values as `Geometry.Reverse`.
- Adapter.AddFeatures: an exception from the converter ends with `Err` and no layer, while the source leaves the builder partly filled.
- Stats.PointStats, Stats.LineStats, Stats.PolyStats: the counters are unbounded integers, so int overflow beyond 2^31 points is not modelled.
- Adapter.AppendLineTo: `lineToLength` is unbounded; it could overflow only past 2^31 coordinates.
- RoundTrip.PolysRoundTrip, FeatureRoundTrip.GeometryRoundTrip, FeatureRoundTrip.FeatureRoundTrip: hold only for inputs where no polygon component is made invalid by an interior ring. For an invalid component the source does not restore the cursor, so later components are encoded from a position the reader never reaches.
- RoundTrip.PointsRoundTrip, RoundTrip.LinesRoundTrip, RoundTrip.PolysRoundTrip, FeatureRoundTrip.GeometryRoundTrip, FeatureRoundTrip.FeatureRoundTrip: only for a starting cursor and coordinates in [-2^29, 2^29). The bound is sufficient, not necessary: the reader needs every move, wrapped to 32 bits, to lie in [-2^30, 2^30) (`Adapter.NearWalk`, the premise of `RoundTrip.DeltasDecode`). A longer move reads back as a different one (`RoundTrip.PointMisread`).
- UserDataConverter.ParseLong: digits are the ASCII `0` to `9` only; `Long.parseLong` also accepts the other Unicode decimal digits that `Character.digit` recognises.
- RoundTrip.PointsRoundTrip, RoundTrip.LinesRoundTrip, FeatureRoundTrip.GeometryRoundTrip, FeatureRoundTrip.FeatureRoundTrip: only for counts below 2^28, where the header length reads back (see `Codec.HeaderLengthRoundTrip`).
- The round trip of a whole layer or tile, from `encodeToTile` through `loadMvt`, is stated per feature only (`FeatureRoundTrip.FeatureRoundTrip`). A whole layer does not come back equal in the source: the encoded layer takes the extent of the parameters rather than the JtsLayer's, the id key's entry becomes the feature id, an Integer in the user data is read back as a Long (`Objects.ValueRoundTrip`), and unsupported entries are dropped; so no layer-level equality is promised.
- Objects.ToObject: a protobuf `Value` is a union here, so a message with several fields set (which `toObject` reads in the fixed order double, float, int, bool, string, sint, uint) cannot be expressed.
- Loop bodies of `loadMvt`, `addFeatures`, `linesToGeomCmds` and `readPolys` are separate methods (`Loader.LoadLayerAt`, `Adapter.AddFeature`, `Adapter.LineToGeomCmds`, `Reader.ReadRingGroup`, and so on), so each proof stays small.

## Findings

| source | as written | input that shows it | evidently intended | confidence | as-written member | corrected member |
|---|---|---|---|---|---|---|
| src/main/java/io/github/sebasbaumh/mapbox/vectortile/util/MvtUtil.java:43-46 | `decodeZigZag` shifts with the arithmetic `>>`, which copies the sign bit into the result | `encodeZigZag(2^30)` is 0x8000_0000 (Integer.MIN_VALUE), and `decodeZigZag` of that is -2^30, not 2^30; the reader uses it, so the point (2^30, 0) written from (0, 0) reads back as (-2^30, 0) | the logical shift `>>>` of the Protocol Buffers ZigZag scheme, which inverts `encodeZigZag` on every int; the reader is kept as written, so the round trips carry the bound on moves | not executed | Codec.ZigZagAsWrittenCounterexample | Codec.ZigZagRoundTrip |
