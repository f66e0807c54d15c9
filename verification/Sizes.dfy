/**
 The size pass. `ByteSizeLong` is computed from the fields alone, with a shift-free formula for
 the width of a varint and a 32-bit cut in every length prefix; serialising relies on it.
 */
module Sizes {
  import opened Basics
  import opened Varint
  import opened WireFormat
  import opened Messages

  /** `Bits::Log2FloorNonZero`, extended by 0 at 0. */
  function Log2Floor(v: nat): nat {
    if v < 2 then 0 else 1 + Log2Floor(v / 2)
  }

  function Or1(v: nat): nat { if v % 2 == 0 then v + 1 else v }

  /** `CodedOutputStream::VarintSize64` */
  function VarintSize(v: nat): nat {
    (Log2Floor(Or1(v)) * 9 + 73) / 64
  }

  lemma {:induction false} Log2FloorShift(v: nat)
    requires v >= 128
    ensures Log2Floor(v) == 7 + Log2Floor(v / 128)
  {
    var v1, v2, v3 := v / 2, v / 4, v / 8;
    var v4, v5, v6 := v / 16, v / 32, v / 64;
    assert v1 / 2 == v2 && v2 / 2 == v3 && v3 / 2 == v4 && v4 / 2 == v5 && v5 / 2 == v6 && v6 / 2 == v / 128;
    assert Log2Floor(v) == 2 + Log2Floor(v2);
    assert Log2Floor(v2) == 2 + Log2Floor(v4);
    assert Log2Floor(v4) == 2 + Log2Floor(v6);
  }

  lemma {:induction false} EncodeLengthLog2(v: nat)
    requires v >= 1
    ensures |Encode(v)| == Log2Floor(v) / 7 + 1
  {
    if v < 128 {
      var v2 := v / 4;
      var v4 := v2 / 4;
      assert Log2Floor(v) <= 2 + Log2Floor(v2);
      assert Log2Floor(v2) <= 2 + Log2Floor(v4);
      assert v4 < 8;
    } else {
      Log2FloorShift(v);
      EncodeLengthLog2(v / 128);
    }
  }

  lemma Log2Or1(v: nat)
    ensures Log2Floor(Or1(v)) == Log2Floor(v)
  {
    if v >= 2 {
      assert Or1(v) / 2 == v / 2;
    }
  }

  /** The closed formula is the length of the loop's output, for every 64-bit value. */
  lemma VarintSizeExact(v: uint64)
    ensures VarintSize(v) == |Encode(v)|
  {
    Log2Or1(v);
    EncodeLengths(v);
    var l := Log2Floor(v);
    if v >= 1 {
      EncodeLengthLog2(v);
    }
    var k := l / 7;
    assert k <= 9 && 7 * k <= l <= 7 * k + 6;
    assert 64 * (k + 1) <= l * 9 + 73 < 64 * (k + 2);
  }

  /** `WireFormatLite::LengthDelimitedSize`: the prefix is measured after a cut to 32 bits. */
  function LengthDelimitedSize(length: nat): nat {
    length + VarintSize(length % TWO_32)
  }

  /** `WireFormatLite::Int32SizePlusOne` */
  function Int32SizePlusOne(s: int32): nat {
    (Log2Floor(Or1(SignExtend(s))) * 9 + 73 + 64) / 64
  }

  function FieldSize(f: Field): nat
    decreases f, 0
  {
    match f
    case VarintField(num, v) => VarintSize(num * 8) + VarintSize(v)
    case Fixed64Field(num, _) => VarintSize(num * 8 + 1) + 8
    case BytesField(num, data) => VarintSize(num * 8 + 2) + LengthDelimitedSize(|data|)
    case GroupField(num, fields) => VarintSize(num * 8 + 3) + UnknownSize(fields) + VarintSize(num * 8 + 4)
    case Fixed32Field(num, _) => VarintSize(num * 8 + 5) + 4
  }

  /** `WireFormat::ComputeUnknownFieldsSize` */
  function UnknownSize(fs: seq<Field>): nat
    decreases fs, 1
  {
    if fs == [] then 0 else FieldSize(fs[0]) + UnknownSize(fs[1..])
  }

  function ByteSizeBool(m: BoolVal): nat {
    (if m.value then 1 + 1 else 0) + UnknownSize(m.unknown)
  }

  function ByteSizeFriend(m: FriendVal): nat {
    (if m.username != [] then 1 + LengthDelimitedSize(|m.username|) else 0)
    + (if m.state != 0 then Int32SizePlusOne(m.state) else 0)
    + UnknownSize(m.unknown)
  }

  /** One byte of tag for each element, counted first, and then the elements. */
  function FriendsSize(ms: seq<FriendVal>): nat {
    if ms == [] then 0 else LengthDelimitedSize(ByteSizeFriend(ms[0])) + FriendsSize(ms[1..])
  }

  function ByteSizeLogin(m: LoginVal): nat {
    |m.friendList| + FriendsSize(m.friendList)
    + (|m.pendingList| + FriendsSize(m.pendingList))
    + (if m.success.Some? then 1 + LengthDelimitedSize(ByteSizeBool(m.success.value)) else 0)
    + UnknownSize(m.unknown)
  }

  function ByteSizeFind(m: FindVal): nat {
    (if m.exist.Some? then 1 + LengthDelimitedSize(ByteSizeBool(m.exist.value)) else 0)
    + (if m.friendInfo.Some? then 1 + LengthDelimitedSize(ByteSizeFriend(m.friendInfo.value)) else 0)
    + (if m.requestState != 0 then Int32SizePlusOne(m.requestState) else 0)
    + UnknownSize(m.unknown)
  }

  /** What the types of an unknown field guarantee, before any parser has looked at it. */
  ghost predicate TypedField(f: Field)
    decreases f
  {
    && 1 <= f.num <= MAX_FIELD_NUMBER
    && match f
       case VarintField(_, v) => v < TWO_64
       case Fixed64Field(_, fixed) => |fixed| == 8
       case BytesField(_, _) => true
       case GroupField(_, fields) => TypedFields(fields)
       case Fixed32Field(_, fixed) => |fixed| == 4
  }

  ghost predicate TypedFields(fs: seq<Field>)
    decreases fs
  {
    forall f | f in fs :: TypedField(f)
  }

  ghost predicate TypedLogin(m: LoginVal) {
    && (m.success.Some? ==> TypedFields(m.success.value.unknown))
    && (forall x | x in m.friendList :: TypedFields(x.unknown))
    && (forall x | x in m.pendingList :: TypedFields(x.unknown))
    && TypedFields(m.unknown)
  }

  ghost predicate TypedFind(m: FindVal) {
    && (m.exist.Some? ==> TypedFields(m.exist.value.unknown))
    && (m.friendInfo.Some? ==> TypedFields(m.friendInfo.value.unknown))
    && TypedFields(m.unknown)
  }

  /**
   A computed size agrees with a true length: exact when the length is within the two-gigabyte
   limit, and over the limit exactly when the length is.
   */
  predicate Agrees(size: nat, length: nat) {
    if length <= INT_MAX then size == length else size > INT_MAX
  }

  lemma LengthDelimitedAgrees(size: nat, b: seq<byte>)
    requires Agrees(size, |b|)
    ensures Agrees(LengthDelimitedSize(size), |Encode(|b|) + b|)
  {
    if |b| <= INT_MAX {
      assert |b| % TWO_32 == |b|;
      VarintSizeExact(|b|);
    }
  }

  lemma TagSize(tag: uint32)
    ensures VarintSize(tag) == |Encode(tag)|
  {
    VarintSizeExact(tag);
  }

  lemma {:induction false} FieldSizeAgrees(f: Field)
    requires TypedField(f)
    ensures Agrees(FieldSize(f), |EncodeField(f)|)
    decreases f, 0
  {
    hide Encode, VarintSize;
    TagParts(f);
    TagSize(Tag(f));
    match f
    case VarintField(_, v) => VarintSizeExact(v);
    case Fixed64Field(_, _) =>
    case BytesField(_, data) => LengthDelimitedAgrees(|data|, data);
    case GroupField(num, fields) =>
      UnknownSizeAgrees(fields);
      TagSize(num * 8 + 4);
    case Fixed32Field(_, _) =>
  }

  lemma {:induction false} UnknownSizeAgrees(fs: seq<Field>)
    requires TypedFields(fs)
    ensures Agrees(UnknownSize(fs), |EncodeFields(fs)|)
    decreases fs, 1
  {
    if fs == [] {
    } else {
      assert TypedField(fs[0]);
      FieldSizeAgrees(fs[0]);
      UnknownSizeAgrees(fs[1..]);
    }
  }

  lemma OwnTag(num: nat)
    requires 1 <= num <= 15
    ensures |Encode(num * 8)| == |Encode(num * 8 + 2)| == 1
  {
  }

  lemma BytesRecordAgrees(num: nat, b: seq<byte>, size: nat)
    requires 1 <= num <= 15 && Agrees(size, |b|)
    ensures Agrees(1 + LengthDelimitedSize(size), |EncodeField(BytesField(num, b))|)
  {
    OwnTag(num);
    LengthDelimitedAgrees(size, b);
    assert EncodeField(BytesField(num, b)) == Encode(num * 8 + 2) + (Encode(|b|) + b);
  }

  lemma Int32RecordSize(num: nat, s: int32)
    requires 1 <= num <= 15
    ensures Int32SizePlusOne(s) == |EncodeField(VarintField(num, SignExtend(s)))|
  {
    OwnTag(num);
    VarintSizeExact(SignExtend(s));
  }

  /** Appending one more optional record keeps the running total in agreement. */
  lemma AddRecords(fs: seq<Field>, total: nat, gs: seq<Field>, size: nat)
    requires Agrees(total, |EncodeFields(fs)|) && Agrees(size, |EncodeFields(gs)|)
    ensures Agrees(total + size, |EncodeFields(fs + gs)|)
  {
    EncodeFieldsAppend(fs, gs);
  }

  lemma ByteSizeBoolAgrees(m: BoolVal)
    requires TypedFields(m.unknown)
    ensures Agrees(ByteSizeBool(m), |SerializeBool(m)|)
  {
    OwnTag(1);
    EncodeOne(VarintField(1, 1));
    UnknownSizeAgrees(m.unknown);
    AddRecords(if m.value then [VarintField(1, 1)] else [], if m.value then 2 else 0,
               m.unknown, UnknownSize(m.unknown));
  }

  lemma ByteSizeFriendAgrees(m: FriendVal)
    requires TypedFields(m.unknown)
    ensures Agrees(ByteSizeFriend(m), |SerializeFriend(m)|)
  {
    var name, state := BytesField(1, m.username), VarintField(2, SignExtend(m.state));
    var names := if m.username != [] then [name] else [];
    var states := if m.state != 0 then [state] else [];
    var nameSize := if m.username != [] then 1 + LengthDelimitedSize(|m.username|) else 0;
    var stateSize := if m.state != 0 then Int32SizePlusOne(m.state) else 0;
    EncodeOne(name);
    EncodeOne(state);
    BytesRecordAgrees(1, m.username, |m.username|);
    Int32RecordSize(2, m.state);
    UnknownSizeAgrees(m.unknown);
    AddRecords(names, nameSize, states, stateSize);
    AddRecords(names + states, nameSize + stateSize, m.unknown, UnknownSize(m.unknown));
  }

  lemma {:induction false} FriendsSizeAgrees(num: nat, ms: seq<FriendVal>)
    requires 1 <= num <= 15 && forall x | x in ms :: TypedFields(x.unknown)
    ensures Agrees(|ms| + FriendsSize(ms), |EncodeFields(FriendRecords(num, ms))|)
    decreases |ms|
  {
    if ms == [] {
    } else {
      assert ms[0] in ms && forall x | x in ms[1..] :: x in ms;
      ByteSizeFriendAgrees(ms[0]);
      BytesRecordAgrees(num, SerializeFriend(ms[0]), ByteSizeFriend(ms[0]));
      FriendsSizeAgrees(num, ms[1..]);
      assert FriendRecords(num, ms)[1..] == FriendRecords(num, ms[1..]);
    }
  }

  lemma OptionalBoolAgrees(num: nat, m: Option<BoolVal>)
    requires 1 <= num <= 15 && (m.Some? ==> TypedFields(m.value.unknown))
    ensures Agrees(if m.Some? then 1 + LengthDelimitedSize(ByteSizeBool(m.value)) else 0,
                   |EncodeFields(OptionalBool(num, m))|)
  {
    if m.Some? {
      ByteSizeBoolAgrees(m.value);
      BytesRecordAgrees(num, SerializeBool(m.value), ByteSizeBool(m.value));
      EncodeOne(BytesField(num, SerializeBool(m.value)));
    }
  }

  lemma OptionalFriendAgrees(num: nat, m: Option<FriendVal>)
    requires 1 <= num <= 15 && (m.Some? ==> TypedFields(m.value.unknown))
    ensures Agrees(if m.Some? then 1 + LengthDelimitedSize(ByteSizeFriend(m.value)) else 0,
                   |EncodeFields(OptionalFriend(num, m))|)
  {
    if m.Some? {
      ByteSizeFriendAgrees(m.value);
      BytesRecordAgrees(num, SerializeFriend(m.value), ByteSizeFriend(m.value));
      EncodeOne(BytesField(num, SerializeFriend(m.value)));
    }
  }

  /** The size pass visits the lists before the sub-message; the total is the same. */
  lemma ByteSizeLoginAgrees(m: LoginVal)
    requires TypedLogin(m)
    ensures Agrees(ByteSizeLogin(m), |SerializeLogin(m)|)
  {
    hide Encode, EncodeField, EncodeFields, VarintSize, LengthDelimitedSize, UnknownSize, TypedFields;
    hide SerializeBool, ByteSizeBool, OptionalBool, FriendRecords, FriendsSize;
    var s, fs, ps := OptionalBool(1, m.success), FriendRecords(2, m.friendList), FriendRecords(3, m.pendingList);
    var sSize := if m.success.Some? then 1 + LengthDelimitedSize(ByteSizeBool(m.success.value)) else 0;
    var fSize := |m.friendList| + FriendsSize(m.friendList);
    var pSize := |m.pendingList| + FriendsSize(m.pendingList);
    OptionalBoolAgrees(1, m.success);
    FriendsSizeAgrees(2, m.friendList);
    FriendsSizeAgrees(3, m.pendingList);
    UnknownSizeAgrees(m.unknown);
    AddRecords(s, sSize, fs, fSize);
    AddRecords(s + fs, sSize + fSize, ps, pSize);
    AddRecords(s + fs + ps, sSize + fSize + pSize, m.unknown, UnknownSize(m.unknown));
  }

  lemma ByteSizeFindAgrees(m: FindVal)
    requires TypedFind(m)
    ensures Agrees(ByteSizeFind(m), |SerializeFind(m)|)
  {
    hide Encode, EncodeField, EncodeFields, VarintSize, LengthDelimitedSize, UnknownSize, TypedFields;
    hide SerializeBool, SerializeFriend, ByteSizeBool, ByteSizeFriend, SignExtend, OptionalBool, OptionalFriend;
    var e, f := OptionalBool(1, m.exist), OptionalFriend(2, m.friendInfo);
    var state := VarintField(3, SignExtend(m.requestState));
    var r := if m.requestState != 0 then [state] else [];
    var eSize := if m.exist.Some? then 1 + LengthDelimitedSize(ByteSizeBool(m.exist.value)) else 0;
    var fSize := if m.friendInfo.Some? then 1 + LengthDelimitedSize(ByteSizeFriend(m.friendInfo.value)) else 0;
    var rSize := if m.requestState != 0 then Int32SizePlusOne(m.requestState) else 0;
    OptionalBoolAgrees(1, m.exist);
    OptionalFriendAgrees(2, m.friendInfo);
    Int32RecordSize(3, m.requestState);
    EncodeOne(state);
    EncodeNothing();
    UnknownSizeAgrees(m.unknown);
    AddRecords(e, eSize, f, fSize);
    AddRecords(e + f, eSize + fSize, r, rSize);
    AddRecords(e + f + r, eSize + fSize + rSize, m.unknown, UnknownSize(m.unknown));
  }
}
