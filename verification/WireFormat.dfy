/**
 The record layer of the wire format. A message on the wire is a sequence of records, each
 a tag followed by a value; a record that no parse case handles is kept as an unknown field,
 so the same datatype serves for both.
 */
module WireFormat {
  import opened Basics
  import opened Varint

  const MAX_FIELD_NUMBER: int := 0x1FFF_FFFF

  /** Fixed-width values are kept as the bytes that are copied in and out. */
  datatype Field =
    | VarintField(num: nat, varint: nat)
    | Fixed64Field(num: nat, fixed: seq<byte>)
    | BytesField(num: nat, data: seq<byte>)
    | GroupField(num: nat, fields: seq<Field>)
    | Fixed32Field(num: nat, fixed: seq<byte>)

  function WireType(f: Field): nat {
    match f
    case VarintField(_, _) => 0
    case Fixed64Field(_, _) => 1
    case BytesField(_, _) => 2
    case GroupField(_, _) => 3
    case Fixed32Field(_, _) => 5
  }

  function Tag(f: Field): nat {
    f.num * 8 + WireType(f)
  }

  //
  // Writing
  //

  function EncodeField(f: Field): seq<byte>
    decreases f, 1
  {
    Encode(Tag(f)) + EncodeBody(f)
  }

  function EncodeBody(f: Field): seq<byte>
    decreases f, 0
  {
    match f
    case VarintField(_, v) => Encode(v)
    case Fixed64Field(_, fixed) => fixed
    case BytesField(_, data) => Encode(|data|) + data
    case GroupField(num, fields) => EncodeFields(fields) + Encode(num * 8 + 4)
    case Fixed32Field(_, fixed) => fixed
  }

  function EncodeFields(fs: seq<Field>): seq<byte>
    decreases fs, 2
  {
    if fs == [] then [] else EncodeField(fs[0]) + EncodeFields(fs[1..])
  }

  //
  // Reading. `d` is the number of nested groups or messages that may still be entered.
  //

  function Take(b: seq<byte>, n: nat): (r: Read<seq<byte>>)
    ensures r.Got? ==> |r.rest| <= |b| && |r.value| == n
  {
    if |b| < n then Bad else Got(b[..n], b[n..])
  }

  function ReadBytes(b: seq<byte>): (r: Read<seq<byte>>)
    ensures r.Got? ==> |r.rest| <= |b| && |r.value| <= MAX_LENGTH
  {
    match ReadSize(b)
    case Bad => Bad
    case Got(size, rest) => Take(rest, size)
  }

  /** The value after a tag. End-group tags and the unused wire types are refused here. */
  function ReadBody(tag: nat, b: seq<byte>, d: nat): (r: Read<Field>)
    ensures r.Got? ==> |r.rest| <= |b|
    decreases |b|, 1
  {
    var num := tag / 8;
    if num == 0 then Bad
    else match tag % 8
      case 0 =>
        (match ReadVarint64(b)
         case Bad => Bad
         case Got(v, rest) => Got(VarintField(num, v), rest))
      case 1 =>
        (match Take(b, 8)
         case Bad => Bad
         case Got(fixed, rest) => Got(Fixed64Field(num, fixed), rest))
      case 2 =>
        (match ReadBytes(b)
         case Bad => Bad
         case Got(data, rest) => Got(BytesField(num, data), rest))
      case 3 =>
        if d == 0 then Bad
        else (match ReadGroup(num, b, d - 1)
              case Bad => Bad
              case Got(fields, rest) => Got(GroupField(num, fields), rest))
      case 5 =>
        (match Take(b, 4)
         case Bad => Bad
         case Got(fixed, rest) => Got(Fixed32Field(num, fixed), rest))
      case _ => Bad
  }

  /** The records of group `num` up to and including its own end tag. */
  function ReadGroup(num: nat, b: seq<byte>, d: nat): (r: Read<seq<Field>>)
    ensures r.Got? ==> |r.rest| <= |b|
    decreases |b|, 0
  {
    match ReadTag(b)
    case Bad => Bad
    case Got(tag, b1) =>
      if tag == num * 8 + 4 then Got([], b1)
      else
        match ReadBody(tag, b1, d)
        case Bad => Bad
        case Got(f, b2) =>
          match ReadGroup(num, b2, d)
          case Bad => Bad
          case Got(fs, rest) => Got([f] + fs, rest)
  }

  function ReadRecord(b: seq<byte>, d: nat): (r: Read<Field>)
    ensures r.Got? ==> |r.rest| < |b|
  {
    match ReadTag(b)
    case Bad => Bad
    case Got(tag, b1) => ReadBody(tag, b1, d)
  }

  //
  // Well-formed records are exactly those that survive the wire.
  //

  ghost predicate WfField(f: Field, d: nat)
    decreases f
  {
    && 1 <= f.num <= MAX_FIELD_NUMBER
    && match f
       case VarintField(_, v) => v < TWO_64
       case Fixed64Field(_, fixed) => |fixed| == 8
       case BytesField(_, data) => |data| <= MAX_LENGTH
       case GroupField(_, fields) => d > 0 && WfFields(fields, d - 1)
       case Fixed32Field(_, fixed) => |fixed| == 4
  }

  ghost predicate WfFields(fs: seq<Field>, d: nat)
    decreases fs
  {
    forall f | f in fs :: WfField(f, d)
  }

  lemma {:induction false} EncodeFieldsAppend(x: seq<Field>, y: seq<Field>)
    ensures EncodeFields(x + y) == EncodeFields(x) + EncodeFields(y)
  {
    if x == [] {
      assert x + y == y;
    } else {
      assert (x + y)[1..] == x[1..] + y;
      EncodeFieldsAppend(x[1..], y);
    }
  }

  lemma EncodeNothing()
    ensures EncodeFields([]) == []
  {
  }

  lemma EncodeOne(f: Field)
    ensures EncodeFields([f]) == EncodeField(f)
  {
    assert EncodeFields([f][1..]) == [];
  }

  lemma TakeAppend(x: seq<byte>, y: seq<byte>)
    ensures Take(x + y, |x|) == Got(x, y)
  {
    assert (x + y)[..|x|] == x;
    assert (x + y)[|x|..] == y;
  }

  lemma ReadBytesEncode(data: seq<byte>, rest: seq<byte>)
    ensures ReadBytes(Encode(|data|) + data + rest) == if |data| <= MAX_LENGTH then Got(data, rest) else Bad
  {
    Assoc3(Encode(|data|), data, rest);
    ReadSizeEncode(|data|, data + rest);
    TakeAppend(data, rest);
  }

  lemma TagParts(f: Field)
    requires 1 <= f.num <= MAX_FIELD_NUMBER
    ensures Tag(f) < TWO_32 && Tag(f) / 8 == f.num && Tag(f) % 8 == WireType(f)
  {
  }

  /** No record starts with an end-group tag. */
  lemma TagNotEnd(f: Field, num: nat)
    ensures Tag(f) != num * 8 + 4
  {
    assert Tag(f) % 8 == WireType(f);
  }

  lemma ReadTagField(f: Field, tail: seq<byte>)
    requires 1 <= f.num <= MAX_FIELD_NUMBER
    ensures ReadTag(EncodeField(f) + tail) == Got(Tag(f), EncodeBody(f) + tail)
  {
    TagParts(f);
    Assoc3(Encode(Tag(f)), EncodeBody(f), tail);
    ReadTagEncode(Tag(f), EncodeBody(f) + tail);
  }

  lemma ReadBytesBody(num: nat, data: seq<byte>, rest: seq<byte>, d: nat)
    requires 1 <= num <= MAX_FIELD_NUMBER
    ensures ReadBody(num * 8 + 2, Encode(|data|) + data + rest, d)
         == if |data| <= MAX_LENGTH then Got(BytesField(num, data), rest) else Bad
  {
    var b := Encode(|data|) + data + rest;
    ReadBytesEncode(data, rest);
    assert (num * 8 + 2) / 8 == num;
  }

  lemma {:induction false} ReadBodyEncode(f: Field, rest: seq<byte>, d: nat)
    requires WfField(f, d)
    ensures ReadBody(Tag(f), EncodeBody(f) + rest, d) == Got(f, rest)
    decreases f, 1
  {
    TagParts(f);
    match f
    case VarintField(_, v) => ReadVarint64Encode(v, rest);
    case Fixed64Field(_, fixed) => TakeAppend(fixed, rest);
    case BytesField(num, data) => ReadBytesBody(num, data, rest, d);
    case GroupField(num, fields) => ReadGroupEncode(num, fields, rest, d - 1);
    case Fixed32Field(_, fixed) => TakeAppend(fixed, rest);
  }

  lemma ReadGroupClose(num: nat, rest: seq<byte>, d: nat)
    requires 1 <= num <= MAX_FIELD_NUMBER
    ensures ReadGroup(num, Encode(num * 8 + 4) + rest, d) == Got([], rest)
  {
    ReadTagEncode(num * 8 + 4, rest);
  }

  lemma ReadGroupUnfold(num: nat, b: seq<byte>, d: nat, tag: uint32, b1: seq<byte>, f: Field, b2: seq<byte>)
    requires ReadTag(b) == Got(tag, b1) && tag != num * 8 + 4
    requires ReadBody(tag, b1, d) == Got(f, b2) && ReadGroup(num, b2, d).Got?
    ensures ReadGroup(num, b, d) == Got([f] + ReadGroup(num, b2, d).value, ReadGroup(num, b2, d).rest)
  {
  }

  lemma ReadGroupCons(num: nat, f: Field, tail: seq<byte>, fs: seq<Field>, rest: seq<byte>, d: nat)
    requires 1 <= f.num <= MAX_FIELD_NUMBER
    requires ReadBody(Tag(f), EncodeBody(f) + tail, d) == Got(f, tail)
    requires ReadGroup(num, tail, d) == Got(fs, rest)
    ensures ReadGroup(num, EncodeField(f) + tail, d) == Got([f] + fs, rest)
  {
    ReadTagField(f, tail);
    TagParts(f);
    TagNotEnd(f, num);
    ReadGroupUnfold(num, EncodeField(f) + tail, d, Tag(f), EncodeBody(f) + tail, f, tail);
  }

  lemma ReadGroupStep(num: nat, fs: seq<Field>, close: seq<byte>, tail: seq<byte>, rest: seq<byte>, d: nat)
    requires fs != [] && 1 <= fs[0].num <= MAX_FIELD_NUMBER
    requires tail == EncodeFields(fs[1..]) + close + rest
    requires ReadBody(Tag(fs[0]), EncodeBody(fs[0]) + tail, d) == Got(fs[0], tail)
    requires ReadGroup(num, tail, d) == Got(fs[1..], rest)
    ensures ReadGroup(num, EncodeFields(fs) + close + rest, d) == Got(fs, rest)
  {
    ReadGroupCons(num, fs[0], tail, fs[1..], rest, d);
    Assoc4(EncodeField(fs[0]), EncodeFields(fs[1..]), close, rest);
    assert fs == [fs[0]] + fs[1..];
  }

  lemma {:induction false} ReadGroupEncode(num: nat, fs: seq<Field>, rest: seq<byte>, d: nat)
    requires 1 <= num <= MAX_FIELD_NUMBER && WfFields(fs, d)
    ensures ReadGroup(num, EncodeFields(fs) + Encode(num * 8 + 4) + rest, d) == Got(fs, rest)
    decreases fs, 0
  {
    var close := Encode(num * 8 + 4);
    if fs == [] {
      assert EncodeFields(fs) + close == close;
      ReadGroupClose(num, rest, d);
    } else {
      var tail := EncodeFields(fs[1..]) + close + rest;
      assert WfField(fs[0], d);
      ReadBodyEncode(fs[0], tail, d);
      ReadGroupEncode(num, fs[1..], rest, d);
      ReadGroupStep(num, fs, close, tail, rest, d);
    }
  }

  /** Reading inverts writing for every well-formed record, whatever follows it. */
  lemma ReadRecordEncode(f: Field, rest: seq<byte>, d: nat)
    requires WfField(f, d)
    ensures ReadRecord(EncodeField(f) + rest, d) == Got(f, rest)
  {
    ReadTagField(f, rest);
    ReadBodyEncode(f, rest, d);
  }

  /** A record whose payload is too long for `ReadSize` makes the read fail. */
  lemma ReadRecordTooLong(num: nat, data: seq<byte>, rest: seq<byte>, d: nat)
    requires 1 <= num <= MAX_FIELD_NUMBER && |data| > MAX_LENGTH
    ensures ReadRecord(EncodeField(BytesField(num, data)) + rest, d) == Bad
  {
    var f := BytesField(num, data);
    ReadTagField(f, rest);
    ReadBytesBody(num, data, rest, d);
  }

  lemma TakeExtends(b: seq<byte>, y: seq<byte>, n: nat)
    requires Take(b, n).Got?
    ensures Take(b + y, n) == Got(Take(b, n).value, Take(b, n).rest + y)
  {
    assert (b + y)[..n] == b[..n];
    assert (b + y)[n..] == b[n..] + y;
  }

  lemma {:induction false} ReadBodyExtends(tag: nat, b: seq<byte>, y: seq<byte>, d: nat)
    requires ReadBody(tag, b, d).Got?
    ensures ReadBody(tag, b + y, d) == Got(ReadBody(tag, b, d).value, ReadBody(tag, b, d).rest + y)
    decreases |b|, 1
  {
    match tag % 8
    case 0 => DecodeExtends(b, y, MAX_VARINT_BYTES);
    case 1 => TakeExtends(b, y, 8);
    case 2 =>
      DecodeExtends(b, y, MAX_VARINT32_BYTES);
      TakeExtends(ReadSize(b).rest, y, ReadSize(b).value);
    case 3 => ReadGroupExtends(tag / 8, b, y, d - 1);
    case _ => TakeExtends(b, y, 4);
  }

  lemma {:induction false} ReadGroupExtends(num: nat, b: seq<byte>, y: seq<byte>, d: nat)
    requires ReadGroup(num, b, d).Got?
    ensures ReadGroup(num, b + y, d) == Got(ReadGroup(num, b, d).value, ReadGroup(num, b, d).rest + y)
    decreases |b|, 0
  {
    DecodeExtends(b, y, MAX_VARINT32_BYTES);
    var Got(tag, b1) := ReadTag(b);
    if tag != num * 8 + 4 {
      ReadBodyExtends(tag, b1, y, d);
      ReadGroupExtends(num, ReadBody(tag, b1, d).rest, y, d);
    }
  }

  /** A record that was read is read again when more bytes follow. */
  lemma ReadRecordExtends(b: seq<byte>, y: seq<byte>, d: nat)
    requires ReadRecord(b, d).Got?
    ensures ReadRecord(b + y, d) == Got(ReadRecord(b, d).value, ReadRecord(b, d).rest + y)
  {
    DecodeExtends(b, y, MAX_VARINT32_BYTES);
    ReadBodyExtends(ReadTag(b).value, ReadTag(b).rest, y, d);
  }

  lemma {:induction false} ReadBodyWf(tag: uint32, b: seq<byte>, d: nat)
    requires ReadBody(tag, b, d).Got?
    ensures WfField(ReadBody(tag, b, d).value, d)
    ensures Tag(ReadBody(tag, b, d).value) == tag
    decreases |b|, 1
  {
    if tag % 8 == 3 {
      ReadGroupWf(tag / 8, b, d - 1);
    }
  }

  lemma {:induction false} ReadGroupWf(num: nat, b: seq<byte>, d: nat)
    requires ReadGroup(num, b, d).Got?
    ensures WfFields(ReadGroup(num, b, d).value, d)
    decreases |b|, 0
  {
    var Got(tag, b1) := ReadTag(b);
    if tag != num * 8 + 4 {
      ReadBodyWf(tag, b1, d);
      ReadGroupWf(num, ReadBody(tag, b1, d).rest, d);
    }
  }

  /** Whatever the bytes, a record that is accepted is well formed. */
  lemma ReadRecordWf(b: seq<byte>, d: nat)
    requires ReadRecord(b, d).Got?
    ensures WfField(ReadRecord(b, d).value, d)
  {
    ReadBodyWf(ReadTag(b).value, ReadTag(b).rest, d);
  }

  /** The well-formed records are exactly those that survive the wire. */
  lemma RecordRoundTrip(f: Field, d: nat)
    ensures ReadRecord(EncodeField(f), d) == Got(f, []) <==> WfField(f, d)
  {
    assert EncodeField(f) + [] == EncodeField(f);
    if WfField(f, d) {
      ReadRecordEncode(f, [], d);
    } else if ReadRecord(EncodeField(f), d) == Got(f, []) {
      ReadRecordWf(EncodeField(f), d);
    }
  }
}
