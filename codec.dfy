/**
 * Java `int` arithmetic and the MVT geometry command codec: the command enum
 * (GeomCmd.java) and the header and zigzag helpers of MvtUtil.java.
 *
 * A Java `int` is an `int` in [-2^31, 2^31). The bit operations the source
 * uses are written as their exact two's-complement arithmetic meaning:
 *   x << k   is  Wrap(x * 2^k)
 *   x >> k   is  floor(x / 2^k), which is Dafny's `/` for a positive divisor
 *   x >>> 1  is  (x mod 2^32) / 2
 *   x & 7    is  x mod 8, Dafny's `%` (never negative)
 *   x ^ m    for a mask m that is 0 or -1: x, or the complement -x-1
 */
module Codec {
  import opened Wrappers

  const MIN_INT: int := -0x8000_0000
  const MAX_INT: int := 0x7FFF_FFFF

  /** A Java `int`. */
  type Int32 = x: int | MIN_INT <= x <= MAX_INT

  /** A Java `long`. */
  type Int64 = x: int | -0x8000_0000_0000_0000 <= x <= 0x7FFF_FFFF_FFFF_FFFF

  /** Java's 32-bit wrap-around of an exact result. */
  function Wrap(x: int): (r: Int32)
    ensures MIN_INT <= x <= MAX_INT ==> r == x
  {
    (x + 0x8000_0000) % 0x1_0000_0000 - 0x8000_0000
  }

  /** The wrapped value differs from the exact one by a multiple of 2^32. */
  lemma WrapCongruent(x: int)
    ensures (Wrap(x) - x) % 0x1_0000_0000 == 0
  {
    var q := (x + 0x8000_0000) / 0x1_0000_0000;
    assert x + 0x8000_0000 == 0x1_0000_0000 * q + (x + 0x8000_0000) % 0x1_0000_0000;
    assert Wrap(x) - x == -0x1_0000_0000 * q;
  }

  /** The bit pattern of `x` read as an unsigned number. */
  function Unsigned(x: Int32): (u: nat)
    ensures u < 0x1_0000_0000 && (u - x) % 0x1_0000_0000 == 0
  {
    if x < 0 then x + 0x1_0000_0000 else x
  }

  /** `x ^ m` for a mask `m` whose bits are all 0 or all 1. */
  function XorMask(x: Int32, m: int): Int32
    requires m == 0 || m == -1
  {
    if m == 0 then x else -1 - x
  }

  // ---------------------------------------------------------------- GeomCmd

  /** The three MVT drawing commands. */
  datatype GeomCmd = MoveTo | LineTo | ClosePath

  /** The command id sent in the low 3 bits of a header. */
  function CmdId(c: GeomCmd): (id: int)
    ensures 0 <= id < 8
    ensures id == 1 <==> c == MoveTo
    ensures id == 2 <==> c == LineTo
    ensures id == 7 <==> c == ClosePath
  {
    match c
    case MoveTo => 1
    case LineTo => 2
    case ClosePath => 7
  }

  /** How many parameter ints follow each repetition of the command. */
  function ParamCount(c: GeomCmd): (n: int)
    ensures n == (if c == ClosePath then 0 else 2)
  {
    match c
    case MoveTo => 2
    case LineTo => 2
    case ClosePath => 0
  }

  /** The command with the given id, or null. */
  function FromId(cmdId: int): (r: Option<GeomCmd>)
    ensures r.Some? <==> cmdId == 1 || cmdId == 2 || cmdId == 7
    ensures forall c :: r == Some(c) <==> CmdId(c) == cmdId
  {
    if cmdId == 1 then Some(MoveTo)
    else if cmdId == 2 then Some(LineTo)
    else if cmdId == 7 then Some(ClosePath)
    else None
  }

  /** Distinct commands have distinct ids, so an id names its command. */
  lemma CmdIdInjective(a: GeomCmd, b: GeomCmd)
    ensures CmdId(a) == CmdId(b) <==> a == b
    ensures FromId(CmdId(a)) == Some(a)
  {
  }

  // ---------------------------------------------------------------- Headers

  /** Largest header length the encoder accepts: 2^29 - 1. */
  const GEOM_CMD_HDR_LEN_MAX: int := 0x1FFF_FFFF

  /** `x << 3` on a Java int: the low 29 bits of `x`, sign-extended, times 8. */
  function ShiftLeft3(x: Int32): (r: Int32)
    ensures r % 8 == 0
    ensures r == Wrap(8 * x)
  {
    8 * ((x + 0x1000_0000) % 0x2000_0000 - 0x1000_0000)
  }

  /** `(cmd.getCmdId() & 0x7) | (length << 3)`; the two parts have no bit in common, so `|` adds them. */
  function GeomCmdHdr(cmd: GeomCmd, length: Int32): (hdr: Int32)
    ensures hdr % 8 == CmdId(cmd)
  {
    CmdId(cmd) % 8 + ShiftLeft3(length)
  }

  /** `cmdHdr & 0x7`. */
  function GetGeomCmdId(cmdHdr: Int32): (id: int)
    ensures 0 <= id < 8
  {
    cmdHdr % 8
  }

  /** `cmdHdr >> 3`, an arithmetic shift that copies the sign bit. */
  function GetGeomCmdLength(cmdHdr: Int32): (len: Int32)
    ensures cmdHdr >= 0 ==> 0 <= len <= 0x0FFF_FFFF
    ensures cmdHdr < 0 ==> len < 0
  {
    cmdHdr / 8
  }

  /** The command a header names, or null when its low 3 bits are not 1, 2 or 7. */
  function GetGeomCmd(cmdHdr: Int32): (r: Option<GeomCmd>)
    ensures r.None? <==> cmdHdr % 8 !in {1, 2, 7}
    ensures r.Some? ==> CmdId(r.value) == cmdHdr % 8
  {
    FromId(GetGeomCmdId(cmdHdr))
  }

  /** The header of one ClosePath. */
  const CLOSE_PATH_HDR: Int32 := GeomCmdHdr(ClosePath, 1)

  /** The id always survives a header round trip, whatever the length. */
  lemma HeaderIdRoundTrip(cmd: GeomCmd, length: Int32)
    ensures GetGeomCmdId(GeomCmdHdr(cmd, length)) == CmdId(cmd)
    ensures GetGeomCmd(GeomCmdHdr(cmd, length)) == Some(cmd)
  {
    var s := ShiftLeft3(length);
    assert s == 8 * (s / 8);
  }

  /**
   * The length survives a header round trip only below 2^28: from 2^28 up to
   * GEOM_CMD_HDR_LEN_MAX the arithmetic shift reads the length back negative.
   */
  lemma HeaderLengthRoundTrip(cmd: GeomCmd, length: Int32)
    requires 0 <= length <= GEOM_CMD_HDR_LEN_MAX
    ensures length < 0x1000_0000 ==> GetGeomCmdLength(GeomCmdHdr(cmd, length)) == length
    ensures length >= 0x1000_0000 ==> GetGeomCmdLength(GeomCmdHdr(cmd, length)) == length - 0x2000_0000 < 0
  {
  }

  /** The header constants the encoder writes and the source's own unit test expects. */
  lemma HeaderConstants()
    ensures CLOSE_PATH_HDR == 15
    ensures GeomCmdHdr(MoveTo, 1) == 9
    ensures GetGeomCmdLength(GeomCmdHdr(MoveTo, 1)) == 1
  {
  }

  // ---------------------------------------------------------------- ZigZag

  /** `(n << 1) ^ (n >> 31)`: 0, -1, 1, -2, ... map to 0, 1, 2, 3, ... */
  function EncodeZigZag(n: Int32): (r: Int32)
    ensures Unsigned(r) == if n >= 0 then 2 * n else -2 * n - 1
  {
    XorMask(Wrap(2 * n), n / 0x8000_0000)
  }

  /** `(n >> 1) ^ (-(n & 1))` exactly as MvtUtil.decodeZigZag writes it, with the arithmetic shift. */
  function DecodeZigZagAsWritten(n: Int32): Int32
  {
    XorMask(n / 2, -(n % 2))
  }

  /** The as-written decoding halves with the sign copied: an even word n gives floor(n/2), an odd one -floor(n/2) - 1. */
  lemma DecodeZigZagAsWrittenValue(n: Int32)
    ensures n % 2 == 0 ==> DecodeZigZagAsWritten(n) == n / 2
    ensures n % 2 == 1 ==> DecodeZigZagAsWritten(n) == -(n / 2) - 1
    ensures n < 0 && n % 2 == 0 ==> DecodeZigZagAsWritten(n) < 0
  {
  }

  /** The zigzag decoding the Protocol Buffers scheme defines: `(n >>> 1) ^ (-(n & 1))`. */
  function DecodeZigZag(n: Int32): (r: Int32)
    ensures n % 2 == 0 ==> r == Unsigned(n) / 2
    ensures n % 2 == 1 ==> r == -(Unsigned(n) / 2) - 1
  {
    XorMask(Unsigned(n) / 2, -(n % 2))
  }

  /** Zigzag decoding inverts zigzag encoding on every Java int. */
  lemma ZigZagRoundTrip(n: Int32)
    ensures DecodeZigZag(EncodeZigZag(n)) == n
  {
  }

  /** Encoding is injective, and decoding hits every int: the two are inverse bijections. */
  lemma ZigZagDecodeRoundTrip(u: Int32)
    ensures EncodeZigZag(DecodeZigZag(u)) == u
  {
  }

  /** The as-written decoder agrees with the correct one on every non-negative header word. */
  lemma DecodeZigZagAsWrittenAgrees(u: Int32)
    requires u >= 0
    ensures DecodeZigZagAsWritten(u) == DecodeZigZag(u)
  {
  }

  /** Hence the as-written round trip holds for |n| up to 2^30. */
  lemma ZigZagAsWrittenRoundTrip(n: Int32)
    requires -0x4000_0000 <= n < 0x4000_0000
    ensures DecodeZigZagAsWritten(EncodeZigZag(n)) == n
  {
    DecodeZigZagAsWrittenAgrees(EncodeZigZag(n));
    ZigZagRoundTrip(n);
  }

  /** 2^30 encodes to the bit pattern 0x8000_0000, which the arithmetic shift decodes to -2^30. */
  lemma ZigZagAsWrittenCounterexample()
    ensures EncodeZigZag(0x4000_0000) == MIN_INT
    ensures DecodeZigZagAsWritten(EncodeZigZag(0x4000_0000)) == -0x4000_0000
  {
  }

  /**
   * The non-trivial value of the project's zigzag unit test (0 is covered by
   * the round trip), checked here on `MvtUtil`'s functions: both decoders
   * agree on it, since the encoded word is non-negative.
   */
  lemma ZigZagSpotValue()
    ensures EncodeZigZag(10018754) == 20037508 && DecodeZigZag(20037508) == 10018754
    ensures DecodeZigZagAsWritten(20037508) == 10018754
  {
  }
}
