/**
 How long the serialisation of accepted input can get. Everything but a negative number is written
 back in at most the bytes it took; a negative number may take five more, once in a FriendInfo,
 twice in an S2C_FindFriendResponse, and in every list element of an S2C_LoginResponse.
 */
module Growth {
  import opened Basics
  import opened Varint
  import opened WireFormat
  import opened RecordParsing
  import opened Messages
  import opened ConcatTheorems
  import opened Sizes

  //
  // Records never grow
  //

  lemma {:induction false} EncodeMonotone(u: nat, v: nat)
    requires u <= v
    ensures |Encode(u)| <= |Encode(v)|
  {
    if u < 128 {
    } else {
      EncodeMonotone(u / 128, v / 128);
    }
  }

  lemma {:induction false} DecodeShrinks(b: seq<byte>, max: nat)
    requires Decode(b, max).Got?
    ensures |Encode(Decode(b, max).value)| + |Decode(b, max).rest| <= |b|
    decreases max
  {
    if b[0] < 128 {
    } else {
      DecodeShrinks(b[1..], max - 1);
      var v := Decode(b[1..], max - 1).value;
      assert (b[0] - 128 + 128 * v) / 128 == v;
    }
  }

  lemma ReadTagShrinks(b: seq<byte>)
    requires ReadTag(b).Got?
    ensures |Encode(ReadTag(b).value)| + |ReadTag(b).rest| <= |b|
  {
    DecodeShrinks(b, MAX_VARINT32_BYTES);
    EncodeMonotone(ReadTag(b).value, Decode(b, MAX_VARINT32_BYTES).value);
  }

  lemma ReadVarintShrinks(b: seq<byte>)
    requires ReadVarint64(b).Got?
    ensures |Encode(ReadVarint64(b).value)| + |ReadVarint64(b).rest| <= |b|
  {
    DecodeShrinks(b, MAX_VARINT_BYTES);
    EncodeMonotone(ReadVarint64(b).value, Decode(b, MAX_VARINT_BYTES).value);
  }

  lemma ReadBytesShrinks(b: seq<byte>)
    requires ReadBytes(b).Got?
    ensures |Encode(|ReadBytes(b).value|)| + |ReadBytes(b).value| + |ReadBytes(b).rest| <= |b|
  {
    DecodeShrinks(b, MAX_VARINT32_BYTES);
  }

  lemma {:induction false} ReadBodyShrinks(tag: uint32, b: seq<byte>, d: nat)
    requires ReadBody(tag, b, d).Got?
    ensures |EncodeBody(ReadBody(tag, b, d).value)| + |ReadBody(tag, b, d).rest| <= |b|
    decreases |b|, 1
  {
    hide Encode, Decode;
    match tag % 8
    case 0 => ReadVarintShrinks(b);
    case 2 => ReadBytesShrinks(b);
    case 3 => ReadGroupShrinks(tag / 8, b, d - 1);
    case _ =>
  }

  lemma {:induction false} ReadGroupShrinks(num: nat, b: seq<byte>, d: nat)
    requires ReadGroup(num, b, d).Got?
    ensures |EncodeFields(ReadGroup(num, b, d).value)| + |Encode(num * 8 + 4)| + |ReadGroup(num, b, d).rest| <= |b|
    decreases |b|, 0
  {
    hide Encode, Decode;
    ReadTagShrinks(b);
    var Got(tag, b1) := ReadTag(b);
    if tag == num * 8 + 4 {
    } else {
      ReadBodyShrinks(tag, b1, d);
      ReadBodyWf(tag, b1, d);
      var Got(f, b2) := ReadBody(tag, b1, d);
      ReadGroupShrinks(num, b2, d);
      var fs := ReadGroup(num, b2, d).value;
      assert ([f] + fs)[0] == f && ([f] + fs)[1..] == fs;
    }
  }

  /** A record is written back in at most the bytes it was read from. */
  lemma RecordShrinks(b: seq<byte>, d: nat)
    requires ReadRecord(b, d).Got?
    ensures |EncodeField(ReadRecord(b, d).value)| + |ReadRecord(b, d).rest| <= |b|
  {
    hide Encode, Decode;
    ReadTagShrinks(b);
    ReadBodyShrinks(ReadTag(b).value, ReadTag(b).rest, d);
    ReadBodyWf(ReadTag(b).value, ReadTag(b).rest, d);
  }

  /**
   What each record keeps, counting the bytes it would be written back in, holds for the whole
   parse, counting the bytes it was read from.
   */
  lemma {:induction false} ParseCounts<M(!new)>(
      apply: (M, Field, nat) -> Outcome<M>, inv: (M, nat) -> bool, m: M, b: seq<byte>, d: nat, c: nat, limit: nat)
    requires inv(m, c) && c + |b| <= limit && ParseInto(apply, m, b, d).Success?
    requires forall m': M, f: Field, k: nat, k': nat |
               inv(m', k) && WfField(f, d) && k + |EncodeField(f)| <= k' <= limit && apply(m', f, d).Success? ::
               inv(apply(m', f, d).msg, k')
    requires forall m': M, k: nat, k': nat | inv(m', k) && k <= k' :: inv(m', k')
    ensures inv(ParseInto(apply, m, b, d).msg, c + |b|)
    decreases |b|
  {
    if b == [] {
    } else {
      ReadRecordWf(b, d);
      RecordShrinks(b, d);
      var Got(f, rest) := ReadRecord(b, d);
      ParseCounts(apply, inv, apply(m, f, d).msg, rest, d, c + |b| - |rest|, limit);
    }
  }

  //
  // The two leaf messages
  //

  lemma {:induction false} BoolStepWeight(m: BoolVal, f: Field, d: nat)
    ensures ApplyBool(m, f, d).Success?
    ensures |SerializeBool(ApplyBool(m, f, d).msg)| <= |SerializeBool(m)| + |EncodeField(f)|
  {
    BoolLength(m);
    BoolLength(ApplyBool(m, f, d).msg);
    EncodeFieldsAppend(m.unknown, [f]);
    EncodeOne(f);
  }

  lemma BoolLength(m: BoolVal)
    ensures |SerializeBool(m)| == (if m.value then 2 else 0) + |EncodeFields(m.unknown)|
  {
    OwnTag(1);
    EncodeOne(VarintField(1, 1));
    EncodeFieldsAppend(if m.value then [VarintField(1, 1)] else [], m.unknown);
  }

  /** A BoolValue is written back in at most the bytes it was read from. */
  lemma BoolShrinks(m: BoolVal, b: seq<byte>, d: nat)
    requires ParseInto(ApplyBool, m, b, d).Success?
    ensures |SerializeBool(ParseInto(ApplyBool, m, b, d).msg)| <= |SerializeBool(m)| + |b|
  {
    var base := |SerializeBool(m)|;
    var inv := (m': BoolVal, k: nat) => |SerializeBool(m')| <= base + k;
    forall m', f, k: nat, k': nat |
      inv(m', k) && WfField(f, d) && k + |EncodeField(f)| <= k' <= |b| && ApplyBool(m', f, d).Success?
      ensures inv(ApplyBool(m', f, d).msg, k')
    {
      BoolStepWeight(m', f, d);
    }
    hide SerializeBool, ApplyBool;
    ParseCounts(ApplyBool, inv, m, b, d, 0, |b|);
  }

  /** The bytes a number must have taken: a negative one at least a tag and five. */
  function StateWeight(s: int32): nat {
    if s == 0 then 0 else if s < 0 then 6 else 1 + |Encode(s)|
  }

  function NameWeight(name: seq<byte>): nat {
    if name == [] then 0 else |EncodeField(BytesField(1, name))|
  }

  function Weight(m: FriendVal): nat {
    NameWeight(m.username) + StateWeight(m.state) + |EncodeFields(m.unknown)|
  }

  /** A negative number is written in eleven bytes. */
  lemma FriendLength(m: FriendVal)
    ensures |SerializeFriend(m)| == Weight(m) + if m.state < 0 then 5 else 0
  {
    var name, state := BytesField(1, m.username), VarintField(2, SignExtend(m.state));
    var names := if m.username != [] then [name] else [];
    var states := if m.state != 0 then [state] else [];
    EncodeFieldsAppend(names, states);
    EncodeFieldsAppend(names + states, m.unknown);
    EncodeOne(name);
    EncodeOne(state);
    OwnTag(2);
    if m.state < 0 {
      NegativeLength(m.state);
    }
    hide EncodeField, EncodeFields;
  }

  lemma NegativeLength(s: int32)
    requires s < 0
    ensures |Encode(SignExtend(s))| == 10
  {
    EncodeLengths(SignExtend(s));
    assert Pow128(7) == 128 * (128 * Pow128(5)) && Pow128(9) == 128 * (128 * Pow128(7));
    assert Pow128(5) == 0x8_0000_0000;
    EncodeLength(SignExtend(s), 9);
  }

  lemma StateWeightRead(num: nat, v: nat)
    requires 1 <= num <= 15 && v < TWO_64
    ensures StateWeight(Truncate32(v)) <= |EncodeField(VarintField(num, v))|
  {
    OwnTag(num);
    var s := Truncate32(v);
    if s < 0 {
      EncodeLength(v, 4);
      assert Pow128(4) == 128 * (128 * Pow128(2)) && Pow128(2) == 128 * 128;
    } else {
      EncodeMonotone(s, v);
    }
  }

  lemma FriendStepWeight(m: FriendVal, f: Field, d: nat)
    requires WfField(f, d) && ApplyFriend(m, f, d).Success?
    ensures Weight(ApplyFriend(m, f, d).msg) <= Weight(m) + |EncodeField(f)|
  {
    hide Encode, StateWeight;
    EncodeFieldsAppend(m.unknown, [f]);
    EncodeOne(f);
    if f.num == 2 && f.VarintField? {
      StateWeightRead(2, f.varint);
    }
  }

  lemma FriendWeight(m: FriendVal, b: seq<byte>, d: nat)
    requires ParseInto(ApplyFriend, m, b, d).Success?
    ensures Weight(ParseInto(ApplyFriend, m, b, d).msg) <= Weight(m) + |b|
  {
    var base := Weight(m);
    var inv := (m': FriendVal, k: nat) => Weight(m') <= base + k;
    forall m', f, k: nat, k': nat |
      inv(m', k) && WfField(f, d) && k + |EncodeField(f)| <= k' <= |b| && ApplyFriend(m', f, d).Success?
      ensures inv(ApplyFriend(m', f, d).msg, k')
    {
      FriendStepWeight(m', f, d);
    }
    hide Weight, ApplyFriend;
    ParseCounts(ApplyFriend, inv, m, b, d, 0, |b|);
  }

  //
  // The two messages with nested messages
  //

  /** The longest input whose parts are sure to fit: one more byte than a length prefix can say. */
  const NORMAL_LIMIT: nat := MAX_LENGTH + 1

  /** A record of `p` payload bytes takes two bytes more, and six more from 2^28 on. */
  lemma BytesRecordLength(num: nat, data: seq<byte>)
    requires 1 <= num <= 15
    ensures |EncodeField(BytesField(num, data))| >= |data| + 2
    ensures |data| >= 0x1000_0000 ==> |EncodeField(BytesField(num, data))| >= |data| + 6
  {
    OwnTag(num);
    EncodeLength(|data|, 4);
    assert Pow128(4) == 128 * (128 * Pow128(2)) && Pow128(2) == 128 * 128;
  }

  /** After `c` bytes: the sub-message is at least a tag and a prefix shorter, and all elements fit. */
  ghost predicate LoginCount(m: LoginVal, c: nat) {
    && (m.success.Some? ==> |SerializeBool(m.success.value)| + 2 <= c)
    && (forall x | x in m.friendList :: FitsFriend(x))
    && (forall x | x in m.pendingList :: FitsFriend(x))
  }

  lemma SubBoolLength(a: BoolVal, data: seq<byte>, d: nat)
    requires ParseMessage(ApplyBool, a, data, d).Success?
    ensures |SerializeBool(ParseMessage(ApplyBool, a, data, d).msg)| <= |SerializeBool(a)| + |data|
  {
    BoolShrinks(a, data, d - 1);
  }

  lemma SubFriendWeight(a: FriendVal, data: seq<byte>, d: nat)
    requires ParseMessage(ApplyFriend, a, data, d).Success?
    ensures Weight(ParseMessage(ApplyFriend, a, data, d).msg) <= Weight(a) + |data|
  {
    FriendWeight(a, data, d - 1);
  }

  lemma LoginStepCount(m: LoginVal, f: Field, d: nat, c: nat, c': nat)
    requires LoginCount(m, c) && c + |EncodeField(f)| <= c' <= NORMAL_LIMIT && ApplyLogin(m, f, d).Success?
    ensures LoginCount(ApplyLogin(m, f, d).msg, c')
  {
    hide EncodeField, SerializeBool, SerializeFriend, ParseMessage, Weight, ApplyBool, ApplyFriend;
    if f.BytesField? && 1 <= f.num <= 3 {
      BytesRecordLength(f.num, f.data);
      if f.num == 1 {
        EmptyLengths();
        SubBoolLength(m.success.GetOr(EMPTY_BOOL), f.data, d);
      } else {
        EmptyLengths();
        SubFriendWeight(EMPTY_FRIEND, f.data, d);
        FriendLength(ParseMessage(ApplyFriend, EMPTY_FRIEND, f.data, d).msg);
      }
    }
  }

  lemma EmptyLengths()
    ensures |SerializeBool(EMPTY_BOOL)| == 0 && Weight(EMPTY_FRIEND) == 0
  {
  }

  /** Accepted input of at most `NORMAL_LIMIT` bytes parses to a message whose parts all fit. */
  lemma LoginShortFits(x: seq<byte>, d: nat)
    requires ParseInto(ApplyLogin, EMPTY_LOGIN, x, d).Success? && |x| <= NORMAL_LIMIT
    ensures FitsLogin(ParseInto(ApplyLogin, EMPTY_LOGIN, x, d).msg)
  {
    var inv := (m: LoginVal, k: nat) => LoginCount(m, k);
    forall m, f, k: nat, k': nat |
      inv(m, k) && WfField(f, d) && k + |EncodeField(f)| <= k' <= NORMAL_LIMIT && ApplyLogin(m, f, d).Success?
      ensures inv(ApplyLogin(m, f, d).msg, k')
    {
      LoginStepCount(m, f, d, k, k');
    }
    hide ApplyLogin, SerializeBool, SerializeFriend, ParseInto;
    ParseCounts(ApplyLogin, inv, EMPTY_LOGIN, x, d, 0, NORMAL_LIMIT);
  }

  /**
   Several records may merge into one FriendInfo. Short ones bring at least two bytes of their own
   each, long ones six, and two short ones are far from any limit.
   */
  predicate MergedCount(w: nat, c: nat) {
    w + 6 <= c || (w + 4 <= c && w < 0x2000_0000) || (w + 2 <= c && w < 0x1000_0000)
  }

  ghost predicate FindCount(m: FindVal, c: nat) {
    && (m.exist.Some? ==> |SerializeBool(m.exist.value)| + 2 <= c)
    && (m.friendInfo.Some? ==> MergedCount(Weight(m.friendInfo.value), c))
  }

  lemma FindStepCount(m: FindVal, f: Field, d: nat, c: nat, c': nat)
    requires FindCount(m, c) && c + |EncodeField(f)| <= c' && ApplyFind(m, f, d).Success?
    ensures FindCount(ApplyFind(m, f, d).msg, c')
  {
    hide EncodeField, SerializeBool, SerializeFriend, ParseMessage, Weight, ApplyBool, ApplyFriend;
    if f.BytesField? && 1 <= f.num <= 2 {
      BytesRecordLength(f.num, f.data);
      EmptyLengths();
      if f.num == 1 {
        SubBoolLength(m.exist.GetOr(EMPTY_BOOL), f.data, d);
      } else {
        SubFriendWeight(m.friendInfo.GetOr(EMPTY_FRIEND), f.data, d);
      }
    }
  }

  lemma FindShortFits(x: seq<byte>, d: nat)
    requires ParseInto(ApplyFind, EMPTY_FIND, x, d).Success? && |x| <= NORMAL_LIMIT
    ensures FitsFind(ParseInto(ApplyFind, EMPTY_FIND, x, d).msg)
  {
    var inv := (m: FindVal, k: nat) => FindCount(m, k);
    forall m, f, k: nat, k': nat |
      inv(m, k) && WfField(f, d) && k + |EncodeField(f)| <= k' <= NORMAL_LIMIT && ApplyFind(m, f, d).Success?
      ensures inv(ApplyFind(m, f, d).msg, k')
    {
      FindStepCount(m, f, d, k, k');
    }
    hide ApplyFind, SerializeBool, SerializeFriend, ParseInto, Weight;
    ParseCounts(ApplyFind, inv, EMPTY_FIND, x, d, 0, NORMAL_LIMIT);
    var m := ParseInto(ApplyFind, EMPTY_FIND, x, d).msg;
    if m.friendInfo.Some? {
      FriendLength(m.friendInfo.value);
    }
  }

  //
  // The whole serialisation
  //

  lemma {:induction false} EncodeDoubled(u: nat, v: nat)
    requires u <= 2 * v + 1
    ensures |Encode(u)| <= |Encode(v)| + 1
  {
    if u < 128 {
    } else if v < 128 {
      assert u / 128 == 1;
    } else {
      EncodeDoubled(u / 128, v / 128);
    }
  }

  /** How long a record with `p` bytes of payload is, in a field numbered up to 15. */
  function RecordLength(p: nat): nat {
    1 + |Encode(p)| + p
  }

  lemma RecordLengthIs(num: nat, data: seq<byte>)
    requires 1 <= num <= 15
    ensures |EncodeField(BytesField(num, data))| == RecordLength(|data|)
  {
    OwnTag(num);
  }

  /** Two records for one sub-message are at least as long as one with both payloads. */
  lemma RecordsMerge(c: nat, a: nat, b: nat)
    requires c <= a + b
    ensures RecordLength(c) <= RecordLength(a) + RecordLength(b)
  {
    var most := if a <= b then b else a;
    EncodeDoubled(c, most);
    hide Encode;
  }

  lemma RecordLengthMonotone(a: nat, b: nat)
    requires a <= b
    ensures RecordLength(a) <= RecordLength(b)
  {
    EncodeMonotone(a, b);
  }

  function SubBoolRecord(s: Option<BoolVal>): nat {
    if s.None? then 0 else RecordLength(|SerializeBool(s.value)|)
  }

  lemma SubBoolGrows(s: Option<BoolVal>, data: seq<byte>, d: nat)
    requires ParseMessage(ApplyBool, s.GetOr(EMPTY_BOOL), data, d).Success?
    ensures SubBoolRecord(Some(ParseMessage(ApplyBool, s.GetOr(EMPTY_BOOL), data, d).msg))
         <= SubBoolRecord(s) + RecordLength(|data|)
  {
    EmptyLengths();
    SubBoolLength(s.GetOr(EMPTY_BOOL), data, d);
    hide ParseMessage, SerializeBool, RecordLength;
    var c := |SerializeBool(ParseMessage(ApplyBool, s.GetOr(EMPTY_BOOL), data, d).msg)|;
    if s.Some? {
      RecordsMerge(c, |SerializeBool(s.value)|, |data|);
    } else {
      RecordLengthMonotone(c, |data|);
    }
  }

  lemma SubBoolRecordIs(num: nat, s: Option<BoolVal>)
    requires 1 <= num <= 15
    ensures |EncodeFields(OptionalBool(num, s))| == SubBoolRecord(s)
  {
    if s.Some? {
      EncodeOne(BytesField(num, SerializeBool(s.value)));
      RecordLengthIs(num, SerializeBool(s.value));
    }
  }

  lemma LoginLength(m: LoginVal)
    ensures |SerializeLogin(m)|
         == SubBoolRecord(m.success) + |EncodeFields(FriendRecords(2, m.friendList))|
            + |EncodeFields(FriendRecords(3, m.pendingList))| + |EncodeFields(m.unknown)|
  {
    var s, fs, ps := OptionalBool(1, m.success), FriendRecords(2, m.friendList), FriendRecords(3, m.pendingList);
    SubBoolRecordIs(1, m.success);
    EncodeFieldsAppend(s, fs);
    EncodeFieldsAppend(s + fs, ps);
    EncodeFieldsAppend(s + fs + ps, m.unknown);
    hide EncodeFields, OptionalBool, FriendRecords, SubBoolRecord;
  }

  lemma ListGrows(num: nat, l: seq<FriendVal>, v: FriendVal)
    requires 1 <= num <= 15
    ensures |EncodeFields(FriendRecords(num, l + [v]))|
         == |EncodeFields(FriendRecords(num, l))| + RecordLength(|SerializeFriend(v)|)
  {
    hide EncodeField, EncodeFields, RecordLength;
    var f := BytesField(num, SerializeFriend(v));
    assert FriendRecords(num, l + [v]) == FriendRecords(num, l) + [f];
    EncodeFieldsAppend(FriendRecords(num, l), [f]);
    EncodeOne(f);
    RecordLengthIs(num, SerializeFriend(v));
  }

  /** What `n` bytes can become: every eight of them can be an element that is sent back in thirteen. */
  function Grown(n: nat): nat {
    n + 5 * (n / 8)
  }

  lemma GrownAdds(a: nat, b: nat, c: nat)
    requires a + b <= c
    ensures b <= Grown(b) && Grown(a) + Grown(b) <= Grown(c)
  {
  }

  lemma ElementGrows(v: FriendVal, p: nat)
    requires Weight(v) <= p
    ensures RecordLength(|SerializeFriend(v)|) <= Grown(RecordLength(p))
  {
    FriendLength(v);
    hide SerializeFriend;
    if v.state < 0 {
      NegativeWeight(v);
      hide Weight;
      RecordLengthMonotone(|SerializeFriend(v)|, p + 5);
      NegativeGrows(p);
    } else {
      hide Weight;
      RecordLengthMonotone(|SerializeFriend(v)|, p);
    }
  }

  lemma NegativeWeight(v: FriendVal)
    requires v.state < 0
    ensures Weight(v) >= 6
  {
  }

  lemma NegativeGrows(p: nat)
    requires p >= 6
    ensures RecordLength(p + 5) <= Grown(RecordLength(p))
  {
    EncodeDoubled(p + 5, p);
    if p < 14 {
      assert |Encode(p)| == |Encode(p + 5)| == 1;
    } else {
      hide Encode;
      assert RecordLength(p) >= 15;
      assert p >= 15 || RecordLength(p) == 15 + |Encode(14)|;
    }
  }

  /** A new element of the list that field `num` feeds. */
  lemma ElementStepGrows(m: LoginVal, num: nat, data: seq<byte>, d: nat)
    requires (num == 2 || num == 3) && ParseMessage(ApplyFriend, EMPTY_FRIEND, data, d).Success?
    ensures var v := ParseMessage(ApplyFriend, EMPTY_FRIEND, data, d).msg;
            |SerializeLogin(AddFriends(m, num, [v]))| <= |SerializeLogin(m)| + Grown(RecordLength(|data|))
  {
    var v := ParseMessage(ApplyFriend, EMPTY_FRIEND, data, d).msg;
    EmptyLengths();
    SubFriendWeight(EMPTY_FRIEND, data, d);
    hide ParseMessage, SerializeLogin, EncodeFields, SerializeFriend, Weight, RecordLength, FriendRecords, Grown,
      SubBoolRecord;
    LoginLength(m);
    LoginLength(AddFriends(m, num, [v]));
    ElementGrows(v, |data|);
    ListGrows(2, m.friendList, v);
    ListGrows(3, m.pendingList, v);
  }

  lemma LoginStepGrows(m: LoginVal, f: Field, d: nat)
    requires ApplyLogin(m, f, d).Success?
    ensures |SerializeLogin(ApplyLogin(m, f, d).msg)| <= |SerializeLogin(m)| + Grown(|EncodeField(f)|)
  {
    hide EncodeField, EncodeFields, SerializeLogin, SerializeFriend, SerializeBool, ParseMessage, Weight, ApplyBool,
      ApplyFriend, RecordLength, SubBoolRecord, FriendRecords, Grown;
    GrownAdds(0, |EncodeField(f)|, |EncodeField(f)|);
    if f.BytesField? && 1 <= f.num <= 3 {
      RecordLengthIs(f.num, f.data);
      if f.num == 1 {
        SubBoolGrows(m.success, f.data, d);
        LoginLength(m);
        LoginLength(ApplyLogin(m, f, d).msg);
      } else {
        ElementStepGrows(m, f.num, f.data, d);
      }
    } else {
      LoginLength(m);
      LoginLength(ApplyLogin(m, f, d).msg);
      EncodeFieldsAppend(m.unknown, [f]);
      EncodeOne(f);
    }
  }

  /** After `c` bytes. */
  ghost predicate LoginWithin(m: LoginVal, c: nat) {
    |SerializeLogin(m)| <= Grown(c)
  }

  lemma LoginStepWithin(m: LoginVal, f: Field, d: nat, c: nat, c': nat)
    requires LoginWithin(m, c) && c + |EncodeField(f)| <= c' && ApplyLogin(m, f, d).Success?
    ensures LoginWithin(ApplyLogin(m, f, d).msg, c')
  {
    hide SerializeLogin, ApplyLogin, EncodeField, Grown;
    LoginStepGrows(m, f, d);
    GrownAdds(c, |EncodeField(f)|, c');
  }

  lemma LoginStaysWithin(m: LoginVal, c: nat, c': nat)
    requires LoginWithin(m, c) && c <= c'
    ensures LoginWithin(m, c')
  {
    hide SerializeLogin, Grown;
    GrownAdds(c, c' - c, c');
  }

  lemma EmptyWithin()
    ensures LoginWithin(EMPTY_LOGIN, 0)
  {
  }

  lemma LoginParseWithin(x: seq<byte>, d: nat)
    requires ParseInto(ApplyLogin, EMPTY_LOGIN, x, d).Success?
    ensures LoginWithin(ParseInto(ApplyLogin, EMPTY_LOGIN, x, d).msg, |x|)
  {
    hide LoginWithin, ApplyLogin, ParseInto, EncodeField, WfField;
    var inv := (m: LoginVal, c: nat) => LoginWithin(m, c);
    forall m, f, c: nat, c': nat |
      inv(m, c) && WfField(f, d) && c + |EncodeField(f)| <= c' <= |x| && ApplyLogin(m, f, d).Success?
      ensures inv(ApplyLogin(m, f, d).msg, c')
    {
      LoginStepWithin(m, f, d, c, c');
    }
    forall m: LoginVal, c: nat, c': nat | inv(m, c) && c <= c' ensures inv(m, c') {
      LoginStaysWithin(m, c, c');
    }
    EmptyWithin();
    ParseCounts(ApplyLogin, inv, EMPTY_LOGIN, x, d, 0, |x|);
  }

  /** The serialisation of an accepted S2C_LoginResponse is at most thirteen bytes for every eight. */
  lemma LoginGrows(x: seq<byte>, d: nat)
    requires ParseInto(ApplyLogin, EMPTY_LOGIN, x, d).Success?
    ensures |SerializeLogin(ParseInto(ApplyLogin, EMPTY_LOGIN, x, d).msg)| <= Grown(|x|)
  {
    hide SerializeLogin, Grown, ParseInto;
    LoginParseWithin(x, d);
  }

  function SubFriendWeightRecord(s: Option<FriendVal>): nat {
    if s.None? then 0 else RecordLength(Weight(s.value))
  }

  /** The bytes it must have taken, with negative numbers counted as the six bytes they came in. */
  function FindWeight(m: FindVal): nat {
    SubBoolRecord(m.exist) + SubFriendWeightRecord(m.friendInfo) + StateWeight(m.requestState)
    + |EncodeFields(m.unknown)|
  }

  lemma SubFriendGrows(s: Option<FriendVal>, data: seq<byte>, d: nat)
    requires ParseMessage(ApplyFriend, s.GetOr(EMPTY_FRIEND), data, d).Success?
    ensures SubFriendWeightRecord(Some(ParseMessage(ApplyFriend, s.GetOr(EMPTY_FRIEND), data, d).msg))
         <= SubFriendWeightRecord(s) + RecordLength(|data|)
  {
    EmptyLengths();
    SubFriendWeight(s.GetOr(EMPTY_FRIEND), data, d);
    hide ParseMessage, Weight, RecordLength;
    var c := Weight(ParseMessage(ApplyFriend, s.GetOr(EMPTY_FRIEND), data, d).msg);
    if s.Some? {
      RecordsMerge(c, Weight(s.value), |data|);
    } else {
      RecordLengthMonotone(c, |data|);
    }
  }

  lemma FindStepWeight(m: FindVal, f: Field, d: nat)
    requires WfField(f, d) && ApplyFind(m, f, d).Success?
    ensures FindWeight(ApplyFind(m, f, d).msg) <= FindWeight(m) + |EncodeField(f)|
  {
    EncodeFieldsAppend(m.unknown, [f]);
    EncodeOne(f);
    if f.num == 3 && f.VarintField? {
      StateWeightRead(3, f.varint);
    }
    hide EncodeField, EncodeFields, SerializeBool, ParseMessage, Weight, StateWeight, ApplyBool, ApplyFriend,
      RecordLength, SubBoolRecord, SubFriendWeightRecord;
    if f.BytesField? && 1 <= f.num <= 2 {
      RecordLengthIs(f.num, f.data);
      if f.num == 1 {
        SubBoolGrows(m.exist, f.data, d);
      } else {
        SubFriendGrows(m.friendInfo, f.data, d);
      }
    }
  }

  lemma SubFriendRecordIs(num: nat, s: Option<FriendVal>)
    requires 1 <= num <= 15
    ensures |EncodeFields(OptionalFriend(num, s))| <= SubFriendWeightRecord(s) + 6
  {
    if s.Some? {
      EncodeOne(BytesField(num, SerializeFriend(s.value)));
      RecordLengthIs(num, SerializeFriend(s.value));
      FriendLength(s.value);
      if s.value.state < 0 {
        NegativeWeight(s.value);
        EncodeDoubled(Weight(s.value) + 5, Weight(s.value));
      }
      hide Encode, EncodeField, EncodeFields, SerializeFriend, Weight;
    }
  }

  lemma StateRecordIs(num: nat, s: int32)
    requires 1 <= num <= 15
    ensures |EncodeFields(if s != 0 then [VarintField(num, SignExtend(s))] else [])|
         == StateWeight(s) + if s < 0 then 5 else 0
  {
    EncodeOne(VarintField(num, SignExtend(s)));
    OwnTag(num);
    if s < 0 {
      NegativeLength(s);
    }
  }

  /** Two negative numbers may take five bytes more each, and one prefix one. */
  lemma FindLength(m: FindVal)
    ensures |SerializeFind(m)| <= FindWeight(m) + 11
  {
    var e, f := OptionalBool(1, m.exist), OptionalFriend(2, m.friendInfo);
    var r := if m.requestState != 0 then [VarintField(3, SignExtend(m.requestState))] else [];
    SubBoolRecordIs(1, m.exist);
    SubFriendRecordIs(2, m.friendInfo);
    StateRecordIs(3, m.requestState);
    EncodeFieldsAppend(e, f);
    EncodeFieldsAppend(e + f, r);
    EncodeFieldsAppend(e + f + r, m.unknown);
    hide EncodeFields, OptionalBool, OptionalFriend, SubBoolRecord, SubFriendWeightRecord, StateWeight;
  }

  /** The serialisation of an accepted S2C_FindFriendResponse is at most eleven bytes longer. */
  lemma FindGrows(x: seq<byte>, d: nat)
    requires ParseInto(ApplyFind, EMPTY_FIND, x, d).Success?
    ensures |SerializeFind(ParseInto(ApplyFind, EMPTY_FIND, x, d).msg)| <= |x| + 11
  {
    var inv := (m: FindVal, k: nat) => FindWeight(m) <= k;
    forall m, f, k: nat, k': nat |
      inv(m, k) && WfField(f, d) && k + |EncodeField(f)| <= k' <= |x| && ApplyFind(m, f, d).Success?
      ensures inv(ApplyFind(m, f, d).msg, k')
    {
      FindStepWeight(m, f, d);
    }
    assert FindWeight(EMPTY_FIND) == 0;
    hide ApplyFind, ParseInto, FindWeight;
    ParseCounts(ApplyFind, inv, EMPTY_FIND, x, d, 0, |x|);
    FindLength(ParseInto(ApplyFind, EMPTY_FIND, x, d).msg);
  }
}
