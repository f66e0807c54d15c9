/**
 The wire format in its own terms, with the numbers written out: what a varint is worth, how the
 records of each message are laid out byte by byte, and where the parser stops. The codec is
 proved to agree with this; `IsVarint` does not mention the functions that encode or decode.
 */
module WireLayout {
  import opened Basics
  import opened Varint
  import opened WireFormat
  import opened RecordParsing
  import opened Messages
  import opened MessageLite
  import Utf8

  //
  // Varints
  //

  /** Seven bits a byte, the low ones first. */
  function Worth(b: seq<byte>): nat {
    if b == [] then 0 else b[0] % 128 + 128 * Worth(b[1..])
  }

  /** Every byte but the last says that another follows. */
  predicate Ends(b: seq<byte>, n: nat) {
    0 < n <= |b| && b[n - 1] < 128 && forall i | 0 <= i < n - 1 :: b[i] >= 128
  }

  /** The shortest varint worth `v`. */
  predicate IsVarint(b: seq<byte>, v: nat) {
    Ends(b, |b|) && Worth(b) == v && (|b| > 1 ==> b[|b| - 1] != 0)
  }

  lemma {:induction false} EncodeIsVarint(v: nat)
    ensures IsVarint(Encode(v), v)
    ensures v > 0 ==> Encode(v)[|Encode(v)| - 1] != 0
  {
    if v < 128 {
      assert Encode(v)[1..] == [];
    } else {
      EncodeIsVarint(v / 128);
      VarintLonger(v % 128 + 128, Encode(v / 128), v / 128);
    }
  }

  lemma VarintLonger(c: byte, rest: seq<byte>, v: nat)
    requires c >= 128 && IsVarint(rest, v) && rest[|rest| - 1] != 0
    ensures var b := [c] + rest; IsVarint(b, c - 128 + 128 * v) && b[|b| - 1] == rest[|rest| - 1]
  {
    var b := [c] + rest;
    assert b[1..] == rest;
    hide Worth;
    assert Worth(b) == c % 128 + 128 * Worth(b[1..]) by {
      WorthFirst(b);
    }
  }

  lemma WorthFirst(b: seq<byte>)
    requires b != []
    ensures Worth(b) == b[0] % 128 + 128 * Worth(b[1..])
  {
  }

  /** A number has one shortest varint, and that is what the writer writes. */
  lemma {:induction false} VarintUnique(b: seq<byte>, v: nat)
    ensures IsVarint(b, v) <==> b == Encode(v)
  {
    EncodeIsVarint(v);
    if IsVarint(b, v) {
      VarintIsEncode(b);
    }
  }

  lemma {:induction false} VarintIsEncode(b: seq<byte>)
    requires IsVarint(b, Worth(b))
    ensures b == Encode(Worth(b))
    decreases |b|
  {
    WorthFirst(b);
    if |b| == 1 {
      assert b[1..] == [] && b == [b[0]];
    } else {
      var rest := b[1..];
      assert forall i | 0 <= i < |rest| :: rest[i] == b[i + 1];
      assert b[0] >= 128;
      WorthPositive(rest);
      VarintIsEncode(rest);
      hide Worth, IsVarint;
      EncodeContinued(b[0], Worth(rest));
      assert b == [b[0]] + rest;
    }
  }

  lemma EncodeContinued(c: byte, v: nat)
    requires c >= 128 && v > 0
    ensures Encode(c % 128 + 128 * v) == [c] + Encode(v)
  {
    var u := c % 128 + 128 * v;
    assert u / 128 == v && u % 128 == c - 128;
  }

  lemma {:induction false} WorthPositive(b: seq<byte>)
    requires b != [] && b[|b| - 1] % 128 != 0
    ensures Worth(b) > 0
    decreases |b|
  {
    if |b| > 1 {
      WorthPositive(b[1..]);
    }
  }

  /** The reader takes the bytes up to the first that ends the varint, if it is among the first `max`. */
  lemma {:induction false} DecodeExact(b: seq<byte>, n: nat, max: nat)
    requires Ends(b, n)
    ensures Decode(b, max) == if n <= max then Got(Worth(b[..n]), b[n..]) else Bad
    decreases n
  {
    if n == 1 {
      assert b[..1][1..] == [] && b[..1][0] == b[0];
    } else {
      var rest := b[1..];
      assert forall i | 0 <= i < |rest| :: rest[i] == b[i + 1];
      assert b[..n][1..] == rest[..n - 1] && rest[n - 1..] == b[n..];
      if max > 0 {
        DecodeExact(rest, n - 1, max - 1);
      }
    }
  }

  lemma {:induction false} DecodeEndless(b: seq<byte>, max: nat)
    requires forall i | 0 <= i < |b| :: b[i] >= 128
    ensures Decode(b, max) == Bad
    decreases max
  {
    if max > 0 && b != [] {
      DecodeEndless(b[1..], max - 1);
    }
  }

  /**
   The four readers: five bytes for tags and lengths, ten for values; tags and 32-bit values keep
   32 bits, values 64; lengths of more than 2,147,483,631 are refused.
   */
  lemma ReadersExact(b: seq<byte>, n: nat)
    requires Ends(b, n)
    ensures var w, rest := Worth(b[..n]), b[n..];
            && ReadTag(b) == (if n <= 5 then Got(w % 0x1_0000_0000, rest) else Bad)
            && ReadSize(b) == (if n <= 5 && w <= 2_147_483_631 then Got(w, rest) else Bad)
            && ReadVarint64(b) == (if n <= 10 then Got(w % 0x1_0000_0000_0000_0000, rest) else Bad)
            && ReadVarint32(b) == (if n <= 10 then Got(w % 0x1_0000_0000, rest) else Bad)
  {
    DecodeExact(b, n, 5);
    DecodeExact(b, n, 10);
  }

  lemma ReadersEndless(b: seq<byte>)
    requires forall i | 0 <= i < |b| :: b[i] >= 128
    ensures ReadTag(b) == Bad && ReadSize(b) == Bad && ReadVarint64(b) == Bad && ReadVarint32(b) == Bad
  {
    DecodeEndless(b, 5);
    DecodeEndless(b, 10);
  }

  /** An `int32` is what its 64-bit value is in two's complement; of a longer value the low 32 bits count. */
  lemma TwosComplement(s: int32, v: nat)
    ensures SignExtend(s) == s || SignExtend(s) == s + 0x1_0000_0000_0000_0000
    ensures 0 <= SignExtend(s) < 0x1_0000_0000_0000_0000
    ensures Truncate32(v) == s <==> (v - s) % 0x1_0000_0000 == 0
  {
    var low := v % 0x1_0000_0000;
    var q := v / 0x1_0000_0000;
    assert v == low + 0x1_0000_0000 * q;
    if (v - s) % 0x1_0000_0000 == 0 {
      var p := (v - s) / 0x1_0000_0000;
      assert low - s == 0x1_0000_0000 * (p - q);
    }
    if Truncate32(v) == s {
      assert v - s == 0x1_0000_0000 * q || v - s == 0x1_0000_0000 * (q + 1);
    }
  }

  //
  // Records
  //

  /** Tag, and for each kind of record what follows. */
  lemma RecordLayout(f: Field)
    ensures match f
            case VarintField(num, v) => exists t, b :: IsVarint(t, 8 * num) && IsVarint(b, v) && EncodeField(f) == t + b
            case Fixed64Field(num, fixed) => exists t :: IsVarint(t, 8 * num + 1) && EncodeField(f) == t + fixed
            case BytesField(num, data) =>
              exists t, n :: IsVarint(t, 8 * num + 2) && IsVarint(n, |data|) && EncodeField(f) == t + (n + data)
            case GroupField(num, fields) =>
              exists t, e :: && IsVarint(t, 8 * num + 3) && IsVarint(e, 8 * num + 4)
                             && EncodeField(f) == t + (EncodeFields(fields) + e)
            case Fixed32Field(num, fixed) => exists t :: IsVarint(t, 8 * num + 5) && EncodeField(f) == t + fixed
  {
    FieldParts(f);
    hide IsVarint, Encode, EncodeField, EncodeFields;
    match f
    case VarintField(num, v) =>
      EncodeIsVarint(8 * num);
      EncodeIsVarint(v);
    case Fixed64Field(num, fixed) => EncodeIsVarint(8 * num + 1);
    case BytesField(num, data) =>
      EncodeIsVarint(8 * num + 2);
      EncodeIsVarint(|data|);
    case GroupField(num, fields) =>
      EncodeIsVarint(8 * num + 3);
      EncodeIsVarint(8 * num + 4);
    case Fixed32Field(num, fixed) => EncodeIsVarint(8 * num + 5);
  }

  lemma FieldParts(f: Field)
    ensures EncodeField(f)
         == match f
            case VarintField(num, v) => Encode(8 * num) + Encode(v)
            case Fixed64Field(num, fixed) => Encode(8 * num + 1) + fixed
            case BytesField(num, data) => Encode(8 * num + 2) + (Encode(|data|) + data)
            case GroupField(num, fields) => Encode(8 * num + 3) + (EncodeFields(fields) + Encode(8 * num + 4))
            case Fixed32Field(num, fixed) => Encode(8 * num + 5) + fixed
  {
    hide Encode, EncodeFields;
  }

  /** Field number zero, an end tag outside its group and the wire types six and seven are refused. */
  lemma RefusedTags(tag: uint32, b: seq<byte>, num: nat, d: nat)
    requires tag < 8 || tag % 8 == 4 || tag % 8 == 6 || tag % 8 == 7
    ensures ReadBody(tag, b, d) == Bad
    ensures tag != 8 * num + 4 ==> forall x | ReadTag(x) == Got(tag, b) :: ReadGroup(num, x, d) == Bad
  {
  }

  //
  // Messages
  //

  /** A record with a one-byte tag, the length of its payload and the payload. */
  function Delimited(tag: byte, data: seq<byte>): seq<byte> {
    [tag] + (Encode(|data|) + data)
  }

  function DelimitedAll(tag: byte, ms: seq<FriendVal>): seq<byte> {
    if ms == [] then [] else Delimited(tag, SerializeFriend(ms[0])) + DelimitedAll(tag, ms[1..])
  }

  function Number(tag: byte, s: int32): seq<byte> {
    if s == 0 then [] else [tag] + Encode(if s < 0 then s + 0x1_0000_0000_0000_0000 else s)
  }

  lemma DelimitedIs(num: nat, data: seq<byte>)
    requires 1 <= num <= 3
    ensures EncodeField(BytesField(num, data)) == Delimited(num * 8 + 2, data)
  {
  }

  lemma NumberIs(num: nat, s: int32)
    requires 1 <= num <= 3
    ensures EncodeFields(if s != 0 then [VarintField(num, SignExtend(s))] else []) == Number(num * 8, s)
  {
    EncodeOne(VarintField(num, SignExtend(s)));
    assert Encode(num * 8) == [num * 8];
  }

  lemma BoolLayout(m: BoolVal)
    ensures SerializeBool(m) == (if m.value then [8, 1] else []) + EncodeFields(m.unknown)
  {
    var f := VarintField(1, 1);
    EncodeOne(f);
    assert Encode(8) == [8] && Encode(1) == [1];
    EncodeFieldsAppend(if m.value then [f] else [], m.unknown);
  }

  lemma FriendLayout(m: FriendVal)
    ensures SerializeFriend(m)
         == (if m.username != [] then Delimited(10, m.username) else []) + Number(16, m.state) + EncodeFields(m.unknown)
  {
    var name := BytesField(1, m.username);
    var names := if m.username != [] then [name] else [];
    var states := if m.state != 0 then [VarintField(2, SignExtend(m.state))] else [];
    EncodeOne(name);
    DelimitedIs(1, m.username);
    NumberIs(2, m.state);
    EncodeFieldsAppend(names, states);
    EncodeFieldsAppend(names + states, m.unknown);
    hide EncodeField, EncodeFields, Delimited, Number;
  }

  lemma {:induction false} ListLayout(num: nat, ms: seq<FriendVal>)
    requires 1 <= num <= 3
    ensures EncodeFields(FriendRecords(num, ms)) == DelimitedAll(num * 8 + 2, ms)
  {
    if ms == [] {
    } else {
      DelimitedIs(num, SerializeFriend(ms[0]));
      ListLayout(num, ms[1..]);
      assert FriendRecords(num, ms)[1..] == FriendRecords(num, ms[1..]);
    }
  }

  lemma LoginLayout(m: LoginVal)
    ensures SerializeLogin(m)
         == (if m.success.Some? then Delimited(10, SerializeBool(m.success.value)) else [])
            + DelimitedAll(18, m.friendList) + DelimitedAll(26, m.pendingList) + EncodeFields(m.unknown)
  {
    var s, fs, ps := OptionalBool(1, m.success), FriendRecords(2, m.friendList), FriendRecords(3, m.pendingList);
    OptionalLayout(m.success, None);
    ListLayout(2, m.friendList);
    ListLayout(3, m.pendingList);
    EncodeFieldsAppend(s, fs);
    EncodeFieldsAppend(s + fs, ps);
    EncodeFieldsAppend(s + fs + ps, m.unknown);
    hide EncodeField, EncodeFields, Delimited, DelimitedAll, FriendRecords, SerializeBool, OptionalBool;
  }

  lemma FindLayout(m: FindVal)
    ensures SerializeFind(m)
         == (if m.exist.Some? then Delimited(10, SerializeBool(m.exist.value)) else [])
            + (if m.friendInfo.Some? then Delimited(18, SerializeFriend(m.friendInfo.value)) else [])
            + Number(24, m.requestState) + EncodeFields(m.unknown)
  {
    var e, f := OptionalBool(1, m.exist), OptionalFriend(2, m.friendInfo);
    var r := if m.requestState != 0 then [VarintField(3, SignExtend(m.requestState))] else [];
    OptionalLayout(m.exist, m.friendInfo);
    NumberIs(3, m.requestState);
    hide EncodeField, EncodeFields, Delimited, Number, SerializeBool, SerializeFriend, OptionalBool, OptionalFriend;
    EncodeFieldsAppend(e, f);
    EncodeFieldsAppend(e + f, r);
    EncodeFieldsAppend(e + f + r, m.unknown);
  }

  lemma OptionalLayout(e: Option<BoolVal>, f: Option<FriendVal>)
    ensures EncodeFields(OptionalBool(1, e)) == if e.Some? then Delimited(10, SerializeBool(e.value)) else []
    ensures EncodeFields(OptionalFriend(2, f)) == if f.Some? then Delimited(18, SerializeFriend(f.value)) else []
  {
    hide SerializeBool, SerializeFriend, EncodeField, Delimited;
    if e.Some? {
      EncodeOne(BytesField(1, SerializeBool(e.value)));
      DelimitedIs(1, SerializeBool(e.value));
    }
    if f.Some? {
      EncodeOne(BytesField(2, SerializeFriend(f.value)));
      DelimitedIs(2, SerializeFriend(f.value));
    }
  }

  //
  // What the parser takes from the bytes of a scalar field
  //

  lemma OneRecord<M>(apply: (M, Field, nat) -> Outcome<M>, m: M, x: seq<byte>, f: Field, d: nat)
    requires x != [] && (ReadRecord(x, d) == Bad || ReadRecord(x, d) == Got(f, []))
    ensures ParseInto(apply, m, x, d) == if ReadRecord(x, d) == Bad then Failure else apply(m, f, d)
  {
    hide ReadRecord;
    if ReadRecord(x, d).Got? && apply(m, f, d).Success? {
      ParseNothing(apply, apply(m, f, d).msg, d);
    }
  }

  /** Of a varint after a one-byte tag the reader keeps 64 bits. */
  lemma VarintRecord(num: nat, b: seq<byte>, d: nat)
    requires 1 <= num <= 3 && Ends(b, |b|) && |b| <= 10
    ensures ReadRecord([num * 8] + b, d) == Got(VarintField(num, Worth(b) % 0x1_0000_0000_0000_0000), [])
  {
    var x := [num * 8] + b;
    assert x[1..] == b && b[..|b|] == b && b[|b|..] == [];
    ReadTagByte(x);
    ReadersExact(b, |b|);
    hide Ends, Worth, ReadTag, ReadVarint64;
    assert num * 8 / 8 == num && num * 8 % 8 == 0;
  }

  /** Anything but zero is true. */
  lemma BoolRead(m: BoolVal, b: seq<byte>, d: nat)
    requires Ends(b, |b|) && |b| <= 10
    ensures ParseInto(ApplyBool, m, [8] + b, d)
         == Success(BoolVal(Worth(b) % 0x1_0000_0000_0000_0000 != 0, m.unknown))
  {
    VarintRecord(1, b, d);
    OneRecord(ApplyBool, m, [8] + b, VarintField(1, Worth(b) % 0x1_0000_0000_0000_0000), d);
    hide ReadRecord, ParseInto, Worth;
  }

  lemma LowBits(v: nat)
    ensures v % 0x1_0000_0000_0000_0000 % 0x1_0000_0000 == v % 0x1_0000_0000
  {
    var q := v / 0x1_0000_0000_0000_0000;
    assert v == v % 0x1_0000_0000_0000_0000 + 0x1_0000_0000 * (0x1_0000_0000 * q);
    ModCycle(v % 0x1_0000_0000_0000_0000, 0x1_0000_0000 * q);
  }

  /** The number with the same low 32 bits, however many bytes were sent. */
  lemma NumberRead(m: FriendVal, q: FindVal, s: int32, b: seq<byte>, d: nat)
    requires Ends(b, |b|) && |b| <= 10 && (Worth(b) - s) % 0x1_0000_0000 == 0
    ensures ParseInto(ApplyFriend, m, [16] + b, d) == Success(FriendVal(m.username, s, m.unknown))
    ensures ParseInto(ApplyFind, q, [24] + b, d) == Success(FindVal(q.exist, q.friendInfo, s, q.unknown))
  {
    var v := Worth(b) % 0x1_0000_0000_0000_0000;
    VarintRecord(2, b, d);
    VarintRecord(3, b, d);
    LowBits(Worth(b));
    TruncateMod(v);
    TruncateMod(Worth(b));
    TwosComplement(s, Worth(b));
    OneRecord(ApplyFriend, m, [16] + b, VarintField(2, v), d);
    OneRecord(ApplyFind, q, [24] + b, VarintField(3, v), d);
    hide ReadRecord, ParseInto, Worth, Truncate32;
  }

  /** A name is taken as it is, if it is UTF-8. */
  lemma NameRead(m: FriendVal, name: seq<byte>, d: nat)
    requires |name| <= 2_147_483_631
    ensures ParseInto(ApplyFriend, m, Delimited(10, name), d)
         == if Utf8.Valid(name) then Success(FriendVal(name, m.state, m.unknown)) else Failure
  {
    var f := BytesField(1, name);
    DelimitedIs(1, name);
    assert EncodeField(f) + [] == EncodeField(f);
    ReadRecordEncode(f, [], d);
    hide ReadRecord, EncodeField, Delimited, Utf8.Valid;
    OneRecord(ApplyFriend, m, EncodeField(f), f, d);
    hide ParseInto;
  }

  //
  // How deep the parser goes
  //

  /** `n` groups, one inside the other. */
  function Nested(n: nat): Field {
    GroupField(15, if n <= 1 then [] else [Nested(n - 1)])
  }

  lemma {:induction false} NestedWf(n: nat, d: nat)
    requires n >= 1
    ensures WfField(Nested(n), d) <==> n <= d
  {
    if n > 1 && d > 0 {
      NestedWf(n - 1, d - 1);
      assert Nested(n - 1) in [Nested(n - 1)];
    }
  }

  lemma NestedParts(n: nat)
    requires n >= 1
    ensures Tag(Nested(n)) == 123
    ensures EncodeBody(Nested(n)) == (if n == 1 then [] else EncodeField(Nested(n - 1))) + [124]
    ensures EncodeField(Nested(n)) == [123] + EncodeBody(Nested(n))
  {
    assert Encode(123) == [123] && Encode(124) == [124];
    if n > 1 {
      EncodeOne(Nested(n - 1));
    }
  }

  lemma {:induction false} NestedLength(n: nat)
    requires n >= 1
    ensures |EncodeField(Nested(n))| == 2 * n
  {
    NestedParts(n);
    if n > 1 {
      NestedLength(n - 1);
    }
  }

  lemma {:induction false} NestedRead(n: nat, rest: seq<byte>, d: nat)
    requires n >= 1
    ensures ReadRecord(EncodeField(Nested(n)) + rest, d) == if n <= d then Got(Nested(n), rest) else Bad
    decreases n
  {
    NestedWf(n, d);
    if n <= d {
      ReadRecordEncode(Nested(n), rest, d);
    } else {
      NestedParts(n);
      ReadTagField(Nested(n), rest);
      if d > 0 {
        var inner, tail := Nested(n - 1), [124] + rest;
        NestedParts(n - 1);
        Assoc3(EncodeField(inner), [124], rest);
        ReadTagField(inner, tail);
        NestedRead(n - 1, tail, d - 1);
        hide EncodeField, EncodeBody;
        assert ReadGroup(15, EncodeField(inner) + tail, d - 1) == Bad;
      }
    }
  }

  lemma NestedParse<M>(apply: (M, Field, nat) -> Outcome<M>, m: M, n: nat, d: nat)
    requires n >= 1 && apply(m, Nested(n), d).Success?
    ensures ParseInto(apply, m, EncodeField(Nested(n)), d).Success? <==> n <= d
  {
    NestedLength(n);
    NestedRead(n, [], d);
    hide ReadRecord, EncodeField;
    assert EncodeField(Nested(n)) + [] == EncodeField(Nested(n));
    if n <= d {
      ParseNothing(apply, apply(m, Nested(n), d).msg, d);
    }
  }

  /** A hundred levels of groups are read, into any message, and not one more. */
  lemma DepthExact(k: Kind, n: nat)
    requires n >= 1
    ensures ParseFromString(k, EncodeField(Nested(n))).Success? <==> n <= 100
  {
    hide ParseInto, EncodeField;
    match k
    case BoolKind => NestedParse(ApplyBool, EMPTY_BOOL, n, 100);
    case FriendKind => NestedParse(ApplyFriend, EMPTY_FRIEND, n, 100);
    case LoginKind => NestedParse(ApplyLogin, EMPTY_LOGIN, n, 100);
    case FindKind => NestedParse(ApplyFind, EMPTY_FIND, n, 100);
  }

  /** A message inside another is one of the levels. */
  lemma DepthInside(n: nat, num: nat)
    requires n >= 1 && 1 <= num <= 3
    ensures var x := Delimited(num * 8 + 2, EncodeField(Nested(n)));
            && (ParseFromString(LoginKind, x).Success? <==> n <= 99)
            && (num <= 2 ==> (ParseFromString(FindKind, x).Success? <==> n <= 99))
  {
    var data := EncodeField(Nested(n));
    var f := BytesField(num, data);
    NestedLength(n);
    NestedParse(ApplyBool, EMPTY_BOOL, n, 99);
    NestedParse(ApplyFriend, EMPTY_FRIEND, n, 99);
    DelimitedIs(num, data);
    assert EncodeField(f) + [] == EncodeField(f);
    if |data| <= MAX_LENGTH {
      ReadRecordEncode(f, [], 100);
    } else {
      ReadRecordTooLong(num, data, [], 100);
    }
    hide ReadRecord, EncodeField, Delimited;
    OneRecord(ApplyLogin, EMPTY_LOGIN, EncodeField(f), f, 100);
    OneRecord(ApplyFind, EMPTY_FIND, EncodeField(f), f, 100);
    hide ParseInto;
  }
}
