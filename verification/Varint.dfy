/** Base 128 varints: the wire format's integers, as pure functions on byte strings. */
module Varint {
  import opened Basics

  const MAX_VARINT32_BYTES: nat := 5
  const MAX_VARINT_BYTES: nat := 10

  /** The shortest little-endian base 128 form of `v`. */
  function Encode(v: nat): (b: seq<byte>)
    ensures |b| >= 1
  {
    if v < 128 then [v] else [v % 128 + 128] + Encode(v / 128)
  }

  /** Decodes a varint of at most `max` bytes; the value is not yet reduced to a machine width. */
  function Decode(b: seq<byte>, max: nat): (r: Read<nat>)
    ensures r.Got? ==> |r.rest| < |b|
    decreases max
  {
    if max == 0 || b == [] then Bad
    else if b[0] < 128 then Got(b[0], b[1..])
    else match Decode(b[1..], max - 1)
      case Bad => Bad
      case Got(v, rest) => Got(b[0] - 128 + 128 * v, rest)
  }

  /** Tags are 32-bit values of at most five bytes; overlong forms are accepted. */
  function ReadTag(b: seq<byte>): (r: Read<uint32>)
    ensures r.Got? ==> |r.rest| < |b|
  {
    match Decode(b, MAX_VARINT32_BYTES)
    case Bad => Bad
    case Got(v, rest) => Got(v % TWO_32, rest)
  }

  /** Length prefixes: at most five bytes, and not within sixteen of INT_MAX. */
  function ReadSize(b: seq<byte>): (r: Read<nat>)
    ensures r.Got? ==> |r.rest| < |b| && r.value <= MAX_LENGTH
  {
    match Decode(b, MAX_VARINT32_BYTES)
    case Bad => Bad
    case Got(v, rest) => if v <= MAX_LENGTH then Got(v, rest) else Bad
  }

  /** 64-bit values of at most ten bytes; bits above the sixty-fourth are dropped. */
  function ReadVarint64(b: seq<byte>): (r: Read<uint64>)
    ensures r.Got? ==> |r.rest| < |b|
  {
    match Decode(b, MAX_VARINT_BYTES)
    case Bad => Bad
    case Got(v, rest) => Got(v % TWO_64, rest)
  }

  /** 32-bit values are sent in up to ten bytes too; bits above the thirty-second are dropped. */
  function ReadVarint32(b: seq<byte>): (r: Read<uint32>)
    ensures r.Got? ==> |r.rest| < |b|
  {
    match Decode(b, MAX_VARINT_BYTES)
    case Bad => Bad
    case Got(v, rest) => Got(v % TWO_32, rest)
  }

  /** Reinterpreting the low 32 bits of an unsigned value as `int32_t`. */
  function Truncate32(v: nat): int32 {
    var low := v % TWO_32;
    if low <= INT_MAX then low else low - TWO_32
  }

  /** An `int32_t` travels sign-extended to 64 bits. */
  function SignExtend(s: int32): uint64 {
    if s < 0 then s + TWO_64 else s
  }

  lemma TruncateSignExtend(s: int32)
    ensures Truncate32(SignExtend(s)) == s
  {
  }

  function Pow128(k: nat): (p: nat)
    ensures p >= 1
  {
    if k == 0 then 1 else 128 * Pow128(k - 1)
  }

  lemma {:induction false} EncodeLength(v: nat, k: nat)
    requires k >= 1
    ensures |Encode(v)| <= k <==> v < Pow128(k)
  {
    if v < 128 || k == 1 {
    } else {
      EncodeLength(v / 128, k - 1);
    }
  }

  lemma EncodeLengths(v: nat)
    ensures v < TWO_32 ==> |Encode(v)| <= MAX_VARINT32_BYTES
    ensures v < TWO_64 ==> |Encode(v)| <= MAX_VARINT_BYTES
    ensures v >= 0x8_0000_0000 ==> |Encode(v)| > MAX_VARINT32_BYTES
  {
    assert Pow128(5) == 0x8_0000_0000 by {
      assert Pow128(2) == 128 * Pow128(1) == 16384;
      assert Pow128(4) == 128 * Pow128(3) == 128 * (128 * Pow128(2));
    }
    assert Pow128(10) == 0x8_0000_0000 * 0x8_0000_0000 by {
      assert Pow128(7) == 128 * Pow128(6) == 128 * (128 * Pow128(5));
      assert Pow128(9) == 128 * Pow128(8) == 128 * (128 * Pow128(7));
    }
    EncodeLength(v, 5);
    EncodeLength(v, 10);
  }

  /** Decoding inverts encoding, whatever follows. */
  lemma {:induction false} DecodeEncode(v: nat, max: nat, rest: seq<byte>)
    ensures Decode(Encode(v) + rest, max) == if |Encode(v)| <= max then Got(v, rest) else Bad
  {
    var b := Encode(v) + rest;
    if v < 128 {
      assert b[1..] == rest;
    } else if max > 0 {
      DecodeEncode(v / 128, max - 1, rest);
      assert b[1..] == Encode(v / 128) + rest;
    }
  }

  /** A successful read is not affected by what comes after it. */
  lemma {:induction false} DecodeExtends(b: seq<byte>, y: seq<byte>, max: nat)
    requires Decode(b, max).Got?
    ensures Decode(b + y, max) == Got(Decode(b, max).value, Decode(b, max).rest + y)
    decreases max
  {
    assert (b + y)[1..] == b[1..] + y;
    if b[0] >= 128 {
      DecodeExtends(b[1..], y, max - 1);
    }
  }

  lemma ReadTagEncode(v: uint32, rest: seq<byte>)
    ensures ReadTag(Encode(v) + rest) == Got(v, rest)
  {
    assert Decode(Encode(v) + rest, MAX_VARINT32_BYTES) == Got(v, rest) by {
      EncodeLengths(v);
      DecodeEncode(v, MAX_VARINT32_BYTES, rest);
    }
    ModSmall32(v);
  }

  lemma ModSmall32(v: uint32)
    ensures v % TWO_32 == v
  {
  }

  /** A one-byte tag, as `ExpectTag` looks for it. */
  lemma ReadTagByte(b: seq<byte>)
    requires b != [] && b[0] < 128
    ensures ReadTag(b) == Got(b[0], b[1..])
  {
  }

  /** A length prefix is read back exactly when it is small enough; otherwise the read fails. */
  lemma ReadSizeEncode(v: nat, rest: seq<byte>)
    ensures ReadSize(Encode(v) + rest) == if v <= 0x7FFF_FFEF then Got(v, rest) else Bad
  {
    EncodeLengths(v);
    DecodeEncode(v, MAX_VARINT32_BYTES, rest);
  }

  lemma ReadVarint64Encode(v: uint64, rest: seq<byte>)
    ensures ReadVarint64(Encode(v) + rest) == Got(v, rest)
  {
    assert Decode(Encode(v) + rest, MAX_VARINT_BYTES) == Got(v, rest) by {
      EncodeLengths(v);
      DecodeEncode(v, MAX_VARINT_BYTES, rest);
    }
    ModSmall(v);
  }

  lemma ModSmall(v: uint64)
    ensures v % TWO_64 == v
  {
  }

  /** Truncating the 64-bit read to 32 bits is the 32-bit read. */
  lemma ReadVarint32Low(b: seq<byte>)
    ensures ReadVarint32(b).Got? <==> ReadVarint64(b).Got?
    ensures ReadVarint64(b).Got? ==>
              ReadVarint32(b) == Got(ReadVarint64(b).value % TWO_32, ReadVarint64(b).rest)
  {
    match Decode(b, MAX_VARINT_BYTES)
    case Bad =>
    case Got(v, _) =>
      var q := v / TWO_64;
      assert v == v % TWO_64 + TWO_32 * (TWO_32 * q);
      ModCycle(v % TWO_64, TWO_32 * q);
  }

  lemma ModCycle(a: int, q: int)
    ensures (a + TWO_32 * q) % TWO_32 == a % TWO_32
  {
  }

  lemma TruncateMod(v: nat)
    ensures Truncate32(v % TWO_32) == Truncate32(v)
  {
  }

  /** Reading an `int32` field with the 32-bit reader or the 64-bit one gives the same value. */
  lemma ReadInt32(b: seq<byte>)
    ensures ReadVarint32(b).Got? <==> ReadVarint64(b).Got?
    ensures ReadVarint64(b).Got? ==>
              && ReadVarint32(b).rest == ReadVarint64(b).rest
              && Truncate32(ReadVarint32(b).value) == Truncate32(ReadVarint64(b).value)
  {
    ReadVarint32Low(b);
    if ReadVarint64(b).Got? {
      TruncateMod(ReadVarint64(b).value);
    }
  }
}
