/**
 * Java's fixed-width integers and the two little-endian serialisers of
 * BitmapConverter (`writeShort`, `writeInt`), with the decoders that undo them.
 */
module LittleEndian {

  /** The bit pattern of a Java `byte`, read as an unsigned value. */
  type Byte = x: int | 0 <= x < 0x100

  /** A Java `short`. */
  type Int16 = x: int | -0x8000 <= x < 0x8000

  /** A Java `int`. */
  type Int32 = x: int | -0x8000_0000 <= x < 0x8000_0000

  const MaxInt32: int := 0x7FFF_FFFF

  /** The 16-bit two's-complement pattern of a `short`, read unsigned. */
  function Bits16(value: Int16): (u: nat)
    ensures u < 0x1_0000
    ensures u == value || u == value + 0x1_0000
  {
    value % 0x1_0000
  }

  /** The 32-bit two's-complement pattern of an `int`, read unsigned. */
  function Bits32(value: Int32): (u: nat)
    ensures u < 0x1_0000_0000
    ensures u == value || u == value + 0x1_0000_0000
  {
    value % 0x1_0000_0000
  }

  /**
   * The byte `k` places above the low end of the pattern `u`, as
   * `(byte)((value & (0xFF << 8k)) >> 8k)` extracts it: `k` shifts by 8 bits,
   * then the low 8 bits.
   */
  function ByteAt(u: nat, k: nat): Byte {
    if k == 0 then u % 0x100 else ByteAt(u / 0x100, k - 1)
  }

  /** `writeShort`: the two bytes of a `short`, low byte first. */
  function WriteShort(value: Int16): (b: seq<Byte>)
    ensures |b| == 2
    ensures DecodeShort(b) == value
  {
    var u := Bits16(value);
    SplitShort(u);
    [ByteAt(u, 0), ByteAt(u, 1)]
  }

  /** `writeInt`: the four bytes of an `int`, low byte first. */
  function WriteInt(value: Int32): (b: seq<Byte>)
    ensures |b| == 4
    ensures DecodeInt(b) == value
  {
    var u := Bits32(value);
    SplitInt(u);
    [ByteAt(u, 0), ByteAt(u, 1), ByteAt(u, 2), ByteAt(u, 3)]
  }

  /** Reads two bytes, low byte first, as a `short`. */
  function DecodeShort(b: seq<Byte>): Int16
    requires |b| == 2
  {
    var u := (b[0] as int) + 0x100 * (b[1] as int);
    if u < 0x8000 then u else u - 0x1_0000
  }

  /** Reads four bytes, low byte first, as an `int`. */
  function DecodeInt(b: seq<Byte>): Int32
    requires |b| == 4
  {
    var u := (b[0] as int) + 0x100 * (b[1] as int) + 0x1_0000 * (b[2] as int) + 0x100_0000 * (b[3] as int);
    if u < 0x8000_0000 then u else u - 0x1_0000_0000
  }

  /** The `int` stored little-endian at offset `at` of `e`. */
  function IntAt(e: seq<Byte>, at: nat): Int32
    requires at + 4 <= |e|
  {
    DecodeInt(e[at .. at + 4])
  }

  /** The `short` stored little-endian at offset `at` of `e`. */
  function ShortAt(e: seq<Byte>, at: nat): Int16
    requires at + 2 <= |e|
  {
    DecodeShort(e[at .. at + 2])
  }

  /** A 16-bit pattern is the sum of its two bytes, weighted low first. */
  lemma SplitShort(u: nat)
    requires u < 0x1_0000
    ensures u == ByteAt(u, 0) + 0x100 * ByteAt(u, 1)
  {
    var q1 := u / 0x100;
    assert u == u % 0x100 + 0x100 * q1;
    assert q1 < 0x100;
    assert ByteAt(u, 1) == ByteAt(q1, 0) == q1;
  }

  /** A 32-bit pattern is the sum of its four bytes, weighted low first. */
  lemma SplitInt(u: nat)
    requires u < 0x1_0000_0000
    ensures u == ByteAt(u, 0) + 0x100 * ByteAt(u, 1)
               + 0x1_0000 * ByteAt(u, 2) + 0x100_0000 * ByteAt(u, 3)
  {
    var q1 := u / 0x100;
    var q2 := q1 / 0x100;
    var q3 := q2 / 0x100;
    assert u == u % 0x100 + 0x100 * q1;
    assert q1 == q1 % 0x100 + 0x100 * q2;
    assert q2 == q2 % 0x100 + 0x100 * q3;
    assert q1 < 0x100_0000 && q2 < 0x1_0000 && q3 < 0x100;
    assert ByteAt(u, 1) == ByteAt(q1, 0) == q1 % 0x100;
    assert ByteAt(u, 2) == ByteAt(q1, 1) == ByteAt(q2, 0) == q2 % 0x100;
    assert ByteAt(u, 3) == ByteAt(q1, 2) == ByteAt(q2, 1) == ByteAt(q3, 0) == q3;
  }

  /** `writeShort` is onto: every two bytes are the encoding of the `short` they decode to. */
  lemma {:induction false} ShortBytesRoundTrip(b: seq<Byte>)
    requires |b| == 2
    ensures WriteShort(DecodeShort(b)) == b
  {
    var u := (b[0] as int) + 0x100 * (b[1] as int);
    assert Bits16(DecodeShort(b)) == u;
    assert u % 0x100 == b[0] && u / 0x100 == b[1];
    assert ByteAt(u, 1) == ByteAt(u / 0x100, 0);
  }

  /** `writeInt` is onto: every four bytes are the encoding of the `int` they decode to. */
  lemma {:induction false} IntBytesRoundTrip(b: seq<Byte>)
    requires |b| == 4
    ensures WriteInt(DecodeInt(b)) == b
  {
    var q1 := (b[1] as int) + 0x100 * (b[2] as int) + 0x1_0000 * (b[3] as int);
    var q2 := (b[2] as int) + 0x100 * (b[3] as int);
    var q3 := b[3] as int;
    var u := (b[0] as int) + 0x100 * q1;
    assert Bits32(DecodeInt(b)) == u;
    assert u % 0x100 == b[0] && u / 0x100 == q1;
    assert q1 % 0x100 == b[1] && q1 / 0x100 == q2;
    assert q2 % 0x100 == b[2] && q2 / 0x100 == q3;
    assert ByteAt(u, 1) == ByteAt(q1, 0);
    assert ByteAt(u, 2) == ByteAt(q1, 1) == ByteAt(q2, 0);
    assert ByteAt(u, 3) == ByteAt(q1, 2) == ByteAt(q2, 1) == ByteAt(q3, 0);
  }

  /** A non-negative `int` is written as the plain base-256 digits of its value. */
  lemma NonNegativeIntBytes(value: Int32)
    requires value >= 0
    ensures (WriteInt(value)[0] as int) + 0x100 * (WriteInt(value)[1] as int) + 0x1_0000 * (WriteInt(value)[2] as int)
            + 0x100_0000 * (WriteInt(value)[3] as int) == value
    ensures WriteInt(value)[3] < 0x80
  {
    SplitInt(value);
  }
}
