/**
 The readers over a byte buffer. Positions replace the source's pointers, `limit` is the current
 read limit, and a read that would cross it fails; each method is proved against the pure reader
 of the same bytes.
 */
module ArrayReader {
  import opened Basics
  import opened Varint
  import opened WireFormat

  //
  // The varint loops add `(byte - 1) << 7 * i`: taking one off cancels the continuation bit
  // that the previous byte left behind. `Pending` is that running sum before any reduction.
  //

  ghost function Pending(b: seq<byte>, i: nat): int
    requires i <= |b|
  {
    if i == 0 then 1 else Pending(b, i - 1) + (b[i - 1] - 1) * Pow128(i - 1)
  }

  ghost predicate Continued(b: seq<byte>, i: nat) {
    i <= |b| && forall j | 0 <= j < i :: b[j] >= 128
  }

  lemma {:induction false} DecodePending(b: seq<byte>, i: nat, max: nat)
    requires Continued(b, i) && i <= max
    ensures Decode(b, max)
         == match Decode(b[i..], max - i)
            case Bad => Bad
            case Got(v, rest) => Got(Pending(b, i) - Pow128(i) + Pow128(i) * v, rest)
  {
    if i == 0 {
      assert b[0..] == b;
    } else {
      DecodePending(b, i - 1, max);
      DecodeContinued(b[i - 1..], max - i + 1);
      assert b[i - 1..][1..] == b[i..];
      var q, p, c := Pending(b, i - 1), Pow128(i - 1), b[i - 1];
      assert Pending(b, i) == q + (c - 1) * p && Pow128(i) == 128 * p;
      hide Decode, Pending, Pow128;
      match Decode(b[i..], max - i)
      case Bad =>
      case Got(v, _) => PendingAlgebra(q, p, c, v);
    }
  }

  lemma DecodeContinued(b: seq<byte>, max: nat)
    requires b != [] && b[0] >= 128 && max > 0
    ensures Decode(b, max)
         == match Decode(b[1..], max - 1)
            case Bad => Bad
            case Got(v, rest) => Got(b[0] - 128 + 128 * v, rest)
  {
  }

  lemma PendingAlgebra(q: int, p: int, c: int, v: int)
    ensures q - p + p * (c - 128 + 128 * v) == q + (c - 1) * p - (128 * p) + (128 * p) * v
  {
  }

  /** The byte at `i` ends the varint, and the running sum is then its value. */
  lemma DecodeEnds(b: seq<byte>, i: nat, max: nat)
    requires Continued(b, i) && i < max && i < |b| && b[i] < 128
    ensures Decode(b, max) == Got(Pending(b, i + 1), b[i + 1..])
  {
    DecodePending(b, i, max);
    assert b[i..][1..] == b[i + 1..];
    PendingAlgebra(Pending(b, i), Pow128(i), b[i], 0);
    assert Pow128(i) * b[i] - Pow128(i) == (b[i] - 1) * Pow128(i);
  }

  lemma DecodeRunsOut(b: seq<byte>, i: nat, max: nat)
    requires Continued(b, i) && i <= max && (i == max || i == |b|)
    ensures Decode(b, max) == Bad
  {
    DecodePending(b, i, max);
  }

  lemma AddMod32(x: int, y: int)
    ensures (x % TWO_32 + y) % TWO_32 == (x + y) % TWO_32
  {
    var q := x / TWO_32;
    assert x + y == x % TWO_32 + y + TWO_32 * q;
    ModCycle(x % TWO_32 + y, q);
  }

  lemma AddMod64(x: int, y: int)
    ensures (x % TWO_64 + y) % TWO_64 == (x + y) % TWO_64
  {
    var q := x / TWO_64;
    assert x + y == x % TWO_64 + y + TWO_64 * q;
    ModCycle64(x % TWO_64 + y, q);
  }

  lemma ModCycle64(a: int, q: int)
    ensures (a + TWO_64 * q) % TWO_64 == a % TWO_64
  {
  }

  /** `(byte - 1) << 7 * i`, before reduction to the width of the accumulator. */
  function Shifted(c: byte, i: nat): int {
    (c - 1) * Pow128(i)
  }

  lemma Step32(b: seq<byte>, i: nat, sum: uint32)
    requires i < |b| && Continued(b, i) && sum == Pending(b, i) % TWO_32
    ensures (sum + Shifted(b[i], i)) % TWO_32 == Pending(b, i + 1) % TWO_32
  {
    AddMod32(Pending(b, i), Shifted(b[i], i));
  }

  lemma Step64(b: seq<byte>, i: nat, sum: uint64)
    requires i < |b| && Continued(b, i) && sum == Pending(b, i) % TWO_64
    ensures (sum + Shifted(b[i], i)) % TWO_64 == Pending(b, i + 1) % TWO_64
  {
    AddMod64(Pending(b, i), Shifted(b[i], i));
  }

  /**
   `ReadTag` with `ReadTagFallback`: 32-bit wrap-around, at most five bytes. The source unrolls
   the first two turns of this loop, here and in the other varint readers.
   */
  method ReadTagAt(buf: array<byte>, p: nat, limit: nat) returns (ok: bool, q: nat, tag: uint32)
    requires p <= limit <= buf.Length
    ensures ok <==> ReadTag(buf[p..limit]).Got?
    ensures ok ==> p < q <= limit && ReadTag(buf[p..limit]) == Got(tag, buf[q..limit])
  {
    ghost var b := buf[p..limit];
    var i := 0;
    tag := 1;
    while i < 5 && p + i < limit
      invariant i <= 5 && p + i <= limit && Continued(b, i)
      invariant tag == Pending(b, i) % TWO_32
    {
      var c := buf[p + i];
      Step32(b, i, tag);
      tag := (tag + Shifted(c, i)) % TWO_32;
      if c < 128 {
        DecodeEnds(b, i, MAX_VARINT32_BYTES);
        assert b[i + 1..] == buf[p + i + 1..limit];
        return true, p + i + 1, tag;
      }
      i := i + 1;
    }
    DecodeRunsOut(b, i, MAX_VARINT32_BYTES);
    return false, p, 0;
  }

  lemma {:induction false} PendingBounds(b: seq<byte>, i: nat)
    requires Continued(b, i)
    ensures Pow128(i) <= Pending(b, i) < 2 * Pow128(i)
  {
    if i == 0 {
    } else {
      PendingBounds(b, i - 1);
      MulBounds(b[i - 1] - 1, Pow128(i - 1));
    }
  }

  lemma MulBounds(c: int, p: nat)
    requires 127 <= c <= 254
    ensures 127 * p <= c * p <= 254 * p
  {
  }

  lemma Pow128Values()
    ensures Pow128(0) == 1 && Pow128(1) == 128 && Pow128(2) == 0x4000 && Pow128(3) == 0x20_0000
    ensures Pow128(4) == 0x1000_0000 && Pow128(5) == 0x8_0000_0000
  {
    assert Pow128(2) == 128 * Pow128(1);
    assert Pow128(4) == 128 * Pow128(3);
  }

  /** A size of at most four bytes needs no check. */
  lemma ShortSize(b: seq<byte>, i: nat)
    requires Continued(b, i) && i < 4 && i < |b| && b[i] < 128
    ensures ReadSize(b) == Got(Pending(b, i + 1) % TWO_32, b[i + 1..])
  {
    ShortPending(b, i);
    ModSmall32(Pending(b, i + 1));
    DecodeEnds(b, i, MAX_VARINT32_BYTES);
  }

  lemma ShortPending(b: seq<byte>, i: nat)
    requires Continued(b, i) && i < 4 && i < |b| && b[i] < 128
    ensures 0 <= Pending(b, i + 1) <= MAX_LENGTH
  {
    PendingBounds(b, i);
    Pow128Values();
    SmallMul(b[i], Pow128(i));
  }

  lemma SmallMul(c: byte, p: nat)
    requires c <= 127
    ensures 0 - p <= (c - 1) * p <= 126 * p
  {
  }

  /** A fifth byte of 8 or more would not fit an `int`, or the varint goes on. */
  lemma SizeOverflow(b: seq<byte>)
    requires Continued(b, 4) && |b| > 4 && b[4] >= 8
    ensures ReadSize(b) == Bad
  {
    if b[4] < 128 {
      Pow128Values();
      PendingBounds(b, 4);
      DecodeEnds(b, 4, MAX_VARINT32_BYTES);
      var c: int := b[4];
      assert Pending(b, 5) == Pending(b, 4) + (c - 1) * 0x1000_0000;
    } else {
      DecodeRunsOut(b, 5, MAX_VARINT32_BYTES);
    }
  }

  lemma FivePending(b: seq<byte>)
    requires Continued(b, 4) && |b| > 4 && b[4] < 8
    ensures 0 <= Pending(b, 5) < TWO_32
  {
    Pow128Values();
    PendingBounds(b, 4);
    var c: int := b[4];
    assert Pending(b, 5) == Pending(b, 4) + (c - 1) * 0x1000_0000;
  }

  lemma SizeLastByte(b: seq<byte>, sum: uint32)
    requires Continued(b, 4) && |b| > 4 && b[4] < 8 && sum == Pending(b, 4) % TWO_32
    ensures var v := (sum + Shifted(b[4], 4)) % TWO_32;
            ReadSize(b) == if v <= MAX_LENGTH then Got(v, b[5..]) else Bad
  {
    FivePending(b);
    ModSmall32(Pending(b, 5));
    Step32(b, 4, sum);
    DecodeEnds(b, 4, MAX_VARINT32_BYTES);
  }

  lemma SizeRunsOut(b: seq<byte>, i: nat)
    requires Continued(b, i) && i <= 4 && i == |b|
    ensures ReadSize(b) == Bad
  {
    DecodeRunsOut(b, i, MAX_VARINT32_BYTES);
  }

  /** `ReadSize` with `ReadSizeFallback`: the fifth byte is read apart and must be below 8. */
  method ReadSizeAt(buf: array<byte>, p: nat, limit: nat) returns (ok: bool, q: nat, size: nat)
    requires p <= limit <= buf.Length
    ensures ok <==> ReadSize(buf[p..limit]).Got?
    ensures ok ==> p < q <= limit && ReadSize(buf[p..limit]) == Got(size, buf[q..limit])
  {
    ghost var b := buf[p..limit];
    var i := 0;
    var res: uint32 := 1;
    while i < 4 && p + i < limit
      invariant i <= 4 && p + i <= limit && Continued(b, i)
      invariant res == Pending(b, i) % TWO_32
    {
      var c := buf[p + i];
      Step32(b, i, res);
      res := (res + Shifted(c, i)) % TWO_32;
      if c < 128 {
        ShortSize(b, i);
        assert b[i + 1..] == buf[p + i + 1..limit];
        return true, p + i + 1, res;
      }
      i := i + 1;
    }
    if p + i >= limit {
      SizeRunsOut(b, i);
      return false, p, 0;
    }
    var c := buf[p + 4];
    if c >= 8 {
      SizeOverflow(b);
      return false, p, 0;
    }
    SizeLastByte(b, res);
    res := (res + Shifted(c, 4)) % TWO_32;
    assert b[5..] == buf[p + 5..limit];
    return res <= INT_MAX - SLOP_BYTES, p + 5, res;
  }

  /** `VarintParse<uint64_t>` with `VarintParseSlow64` */
  method ReadVarint64At(buf: array<byte>, p: nat, limit: nat) returns (ok: bool, q: nat, value: uint64)
    requires p <= limit <= buf.Length
    ensures ok <==> ReadVarint64(buf[p..limit]).Got?
    ensures ok ==> p < q <= limit && ReadVarint64(buf[p..limit]) == Got(value, buf[q..limit])
  {
    ghost var b := buf[p..limit];
    var i := 0;
    value := 1;
    while i < 10 && p + i < limit
      invariant i <= 10 && p + i <= limit && Continued(b, i)
      invariant value == Pending(b, i) % TWO_64
    {
      var c := buf[p + i];
      Step64(b, i, value);
      value := (value + Shifted(c, i)) % TWO_64;
      if c < 128 {
        DecodeEnds(b, i, MAX_VARINT_BYTES);
        assert b[i + 1..] == buf[p + i + 1..limit];
        return true, p + i + 1, value;
      }
      i := i + 1;
    }
    DecodeRunsOut(b, i, MAX_VARINT_BYTES);
    return false, p, 0;
  }

  /** From the sixth byte on, a byte's bits lie above the thirty-second. */
  lemma {:induction false} HighPowers(i: nat)
    requires i >= 5
    ensures Pow128(i) == TWO_32 * (8 * Pow128(i - 5))
    decreases i
  {
    if i == 5 {
      Pow128Values();
    } else {
      HighPowers(i - 1);
    }
  }

  lemma HighByte(b: seq<byte>, i: nat)
    requires 5 <= i < |b| && Continued(b, i)
    ensures Pending(b, i + 1) % TWO_32 == Pending(b, i) % TWO_32
  {
    HighPowers(i);
    var k := 8 * Pow128(i - 5);
    assert (b[i] - 1) * (TWO_32 * k) == TWO_32 * ((b[i] - 1) * k);
    ModCycle(Pending(b, i), (b[i] - 1) * k);
  }

  /** The rest of a varint whose low 32 bits are known: bytes six to ten are only skipped. */
  method SkipHighBytes(buf: array<byte>, p: nat, limit: nat, start: nat, value: uint32) returns (ok: bool, q: nat)
    requires p <= limit <= buf.Length && start <= 5 && p + start <= limit && (start < 5 ==> p + start == limit)
    requires Continued(buf[p..limit], start) && value == Pending(buf[p..limit], start) % TWO_32
    ensures ok <==> ReadVarint32(buf[p..limit]).Got?
    ensures ok ==> p < q <= limit && ReadVarint32(buf[p..limit]) == Got(value, buf[q..limit])
  {
    ghost var b := buf[p..limit];
    var i := start;
    while i < 10 && p + i < limit
      invariant i <= 10 && p + i <= limit && Continued(b, i)
      invariant i < 5 ==> p + i == limit
      invariant value == Pending(b, i) % TWO_32
    {
      HighByte(b, i);
      if buf[p + i] < 128 {
        DecodeEnds(b, i, MAX_VARINT_BYTES);
        assert b[i + 1..] == buf[p + i + 1..limit];
        return true, p + i + 1;
      }
      i := i + 1;
    }
    DecodeRunsOut(b, i, MAX_VARINT_BYTES);
    return false, p;
  }

  /** `VarintParse<uint32_t>` with `VarintParseSlow32` */
  method ReadVarint32At(buf: array<byte>, p: nat, limit: nat) returns (ok: bool, q: nat, value: uint32)
    requires p <= limit <= buf.Length
    ensures ok <==> ReadVarint32(buf[p..limit]).Got?
    ensures ok ==> p < q <= limit && ReadVarint32(buf[p..limit]) == Got(value, buf[q..limit])
  {
    ghost var b := buf[p..limit];
    var i := 0;
    value := 1;
    while i < 5 && p + i < limit
      invariant i <= 5 && p + i <= limit && Continued(b, i)
      invariant value == Pending(b, i) % TWO_32
    {
      var c := buf[p + i];
      Step32(b, i, value);
      value := (value + Shifted(c, i)) % TWO_32;
      if c < 128 {
        DecodeEnds(b, i, MAX_VARINT_BYTES);
        assert b[i + 1..] == buf[p + i + 1..limit];
        return true, p + i + 1, value;
      }
      i := i + 1;
    }
    ok, q := SkipHighBytes(buf, p, limit, i, value);
  }

  method TakeAt(buf: array<byte>, p: nat, limit: nat, n: nat) returns (ok: bool, q: nat, bytes: seq<byte>)
    requires p <= limit <= buf.Length
    ensures ok <==> Take(buf[p..limit], n).Got?
    ensures ok ==> p <= q <= limit && Take(buf[p..limit], n) == Got(bytes, buf[q..limit])
  {
    if limit - p < n {
      return false, p, [];
    }
    assert buf[p..limit][..n] == buf[p..p + n];
    assert buf[p..limit][n..] == buf[p + n..limit];
    return true, p + n, buf[p..p + n];
  }

  method ReadBytesAt(buf: array<byte>, p: nat, limit: nat) returns (ok: bool, q: nat, data: seq<byte>)
    requires p <= limit <= buf.Length
    ensures ok <==> ReadBytes(buf[p..limit]).Got?
    ensures ok ==> p <= q <= limit && ReadBytes(buf[p..limit]) == Got(data, buf[q..limit])
  {
    var size;
    data := [];
    ok, q, size := ReadSizeAt(buf, p, limit);
    if ok {
      ok, q, data := TakeAt(buf, q, limit, size);
    }
  }

  /** `UnknownFieldParse` through `FieldParser`: the value after `tag`, kept as a field. */
  method ReadBodyAt(tag: uint32, buf: array<byte>, p: nat, limit: nat, d: nat)
    returns (ok: bool, q: nat, f: Field)
    requires p <= limit <= buf.Length
    ensures ok <==> ReadBody(tag, buf[p..limit], d).Got?
    ensures ok ==> p <= q <= limit && ReadBody(tag, buf[p..limit], d) == Got(f, buf[q..limit])
    decreases limit - p, 1
  {
    var num := tag / 8;
    ok, q, f := false, p, VarintField(num, 0);
    if num == 0 {
      return;
    }
    match tag % 8 {
      case 0 =>
        var v;
        ok, q, v := ReadVarint64At(buf, p, limit);
        f := VarintField(num, v);
      case 1 =>
        var fixed;
        ok, q, fixed := TakeAt(buf, p, limit, 8);
        f := Fixed64Field(num, fixed);
      case 2 =>
        var data;
        ok, q, data := ReadBytesAt(buf, p, limit);
        f := BytesField(num, data);
      case 3 =>
        if d > 0 {
          var fields;
          ok, q, fields := ReadGroupAt(num, buf, p, limit, d - 1);
          f := GroupField(num, fields);
        }
      case 5 =>
        var fixed;
        ok, q, fixed := TakeAt(buf, p, limit, 4);
        f := Fixed32Field(num, fixed);
      case _ =>
    }
  }

  ghost function Prepend(fs: seq<Field>, r: Read<seq<Field>>): Read<seq<Field>> {
    match r
    case Bad => Bad
    case Got(gs, rest) => Got(fs + gs, rest)
  }

  lemma GroupEnds(num: nat, b: seq<byte>, d: nat, tag: uint32, b1: seq<byte>)
    requires ReadTag(b) == Got(tag, b1) && (tag == 0 || tag % 8 == 4)
    ensures ReadGroup(num, b, d) == if tag == num * 8 + 4 then Got([], b1) else Bad
  {
  }

  lemma GroupGoesOn(num: nat, b: seq<byte>, d: nat, tag: uint32, b1: seq<byte>)
    requires ReadTag(b) == Got(tag, b1) && tag % 8 != 4
    ensures var r := ReadBody(tag, b1, d);
            ReadGroup(num, b, d) == if r.Bad? then Bad else Prepend([r.value], ReadGroup(num, r.rest, d))
  {
    assert tag != num * 8 + 4;
  }

  /** `ParseGroup` around `WireFormatParser`: the loop stops on any end tag, which must match. */
  method ReadGroupAt(num: nat, buf: array<byte>, p: nat, limit: nat, d: nat)
    returns (ok: bool, q: nat, fields: seq<Field>)
    requires p <= limit <= buf.Length
    ensures ok <==> ReadGroup(num, buf[p..limit], d).Got?
    ensures ok ==> p <= q <= limit && ReadGroup(num, buf[p..limit], d) == Got(fields, buf[q..limit])
    decreases limit - p, 0
  {
    q, fields := p, [];
    PrependEmpty(ReadGroup(num, buf[p..limit], d));
    while q < limit
      invariant p <= q <= limit
      invariant ReadGroup(num, buf[p..limit], d) == Prepend(fields, ReadGroup(num, buf[q..limit], d))
      decreases limit - q
    {
      var tag, f, q1;
      ok, q1, tag := ReadTagAt(buf, q, limit);
      if !ok {
        return;
      }
      if tag == 0 || tag % 8 == 4 {
        GroupEnds(num, buf[q..limit], d, tag, buf[q1..limit]);
        ok, q := tag == num * 8 + 4, q1;
        assert fields + [] == fields;
        return;
      }
      GroupGoesOn(num, buf[q..limit], d, tag, buf[q1..limit]);
      ok, q, f := ReadBodyAt(tag, buf, q1, limit, d);
      if !ok {
        return;
      }
      PrependAssoc(fields, [f], ReadGroup(num, buf[q..limit], d));
      fields := fields + [f];
    }
    ok := false;
  }

  lemma PrependEmpty(r: Read<seq<Field>>)
    ensures Prepend([], r) == r
  {
    if r.Got? {
      assert [] + r.value == r.value;
    }
  }

  lemma PrependAssoc(x: seq<Field>, y: seq<Field>, r: Read<seq<Field>>)
    ensures Prepend(x, Prepend(y, r)) == Prepend(x + y, r)
  {
    if r.Got? {
      Assoc3(x, y, r.value);
    }
  }
}
