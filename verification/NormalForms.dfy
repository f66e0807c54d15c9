/**
 Serialising what was parsed. An accepted input is normalised if the message it parses to
 serialises and those bytes parse to the same message. Two things can fail: the whole can be over
 the limit of the serialiser, or a part over that of a length prefix. For each message the input
 length up to which neither happens is given, and it is exact.
 */
module NormalForms {
  import opened Basics
  import opened Varint
  import opened WireFormat
  import opened RecordParsing
  import opened Messages
  import opened MessageLite
  import opened RoundTripTheorems
  import opened Sizes
  import opened Growth
  import Utf8

  //
  // When an input is normalised
  //

  lemma {:induction false} WfTyped(f: Field, d: nat)
    requires WfField(f, d)
    ensures TypedField(f)
    decreases f
  {
    match f
    case GroupField(_, fields) =>
      forall g | g in fields ensures TypedField(g) {
        WfTyped(g, d - 1);
      }
    case _ =>
  }

  lemma WfFieldsTyped(fs: seq<Field>, d: nat)
    requires WfFields(fs, d)
    ensures TypedFields(fs)
  {
    forall f | f in fs ensures TypedField(f) {
      WfTyped(f, d);
    }
  }

  lemma WfFriendsTyped(ms: seq<FriendVal>, d: nat)
    requires WfFriends(ms, d)
    ensures forall m | m in ms :: TypedFields(m.unknown)
  {
    forall m | m in ms ensures TypedFields(m.unknown) {
      WfFieldsTyped(m.unknown, d - 1);
    }
  }

  /** Parsing makes messages that the size pass can be trusted with. */
  lemma AcceptedTyped(k: Kind, x: seq<byte>)
    requires ParseFromString(k, x).Success?
    ensures KindOf(ParseFromString(k, x).msg) == k && Typed(ParseFromString(k, x).msg)
  {
    var d := RECURSION_LIMIT;
    assert WfFields([], d);
    hide ParseInto, WfFields, TypedFields;
    match ParseFromString(k, x).msg
    case BoolMessage(b) =>
      BoolAcceptedWf(EMPTY_BOOL, x, d);
      WfFieldsTyped(b.unknown, d);
    case FriendMessage(f) =>
      FriendAcceptedWf(EMPTY_FRIEND, x, d);
      WfFieldsTyped(f.unknown, d);
    case LoginMessage(l) =>
      LoginAcceptedWf(EMPTY_LOGIN, x, d);
      WfFieldsTyped(l.unknown, d);
      WfFriendsTyped(l.friendList, d);
      WfFriendsTyped(l.pendingList, d);
      if l.success.Some? {
        WfFieldsTyped(l.success.value.unknown, d - 1);
      }
    case FindMessage(q) =>
      FindAcceptedWf(EMPTY_FIND, x, d);
      WfFieldsTyped(q.unknown, d);
      if q.exist.Some? {
        WfFieldsTyped(q.exist.value.unknown, d - 1);
      }
      if q.friendInfo.Some? {
        WfFieldsTyped(q.friendInfo.value.unknown, d - 1);
      }
  }

  /** Every nested message fits its length prefix; the leaf messages have none. */
  predicate Fits(m: Message) {
    match m
    case BoolMessage(_) => true
    case FriendMessage(_) => true
    case LoginMessage(l) => FitsLogin(l)
    case FindMessage(q) => FitsFind(q)
  }

  lemma ReadBack(k: Kind, x: seq<byte>)
    requires ParseFromString(k, x).Success?
    ensures var m := ParseFromString(k, x).msg;
            ParseFromString(k, Serialize(m)) == if Fits(m) then Success(m) else Failure
  {
    hide ParseInto, SerializeBool, SerializeFriend, SerializeLogin, SerializeFind, FitsLogin, FitsFind;
    match k
    case BoolKind => LeafNormalForm(x, RECURSION_LIMIT);
    case FriendKind => LeafNormalForm(x, RECURSION_LIMIT);
    case LoginKind => LoginNormalForm(x, RECURSION_LIMIT);
    case FindKind => FindNormalForm(x, RECURSION_LIMIT);
  }

  /**
   What becomes of an accepted input: the message serialises exactly when it is not over two
   gigabytes, and is then read back exactly when its parts fit, and lost otherwise.
   */
  lemma NormalForm(k: Kind, x: seq<byte>)
    requires ParseFromString(k, x).Success?
    ensures var m := ParseFromString(k, x).msg;
            if |Serialize(m)| > 0x7FFF_FFFF then SerializeToString(m) == None
            else
              && SerializeToString(m) == Some(Serialize(m))
              && ParseFromString(k, SerializeToString(m).value) == if Fits(m) then Success(m) else Failure
  {
    AcceptedTyped(k, x);
    ReadBack(k, x);
    hide ParseFromString, Serialize, Fits, Typed, SerializeToString;
    SerializeToStringExact(ParseFromString(k, x).msg);
  }

  /** `x` is refused, or what it parses to serialises, and parses from those bytes again. */
  predicate Normalises(k: Kind, x: seq<byte>) {
    var r := ParseFromString(k, x);
    r.Success? ==> SerializeToString(r.msg).Some? && ParseFromString(k, SerializeToString(r.msg).value) == r
  }

  /** An accepted input is normalised exactly if the whole and its parts are short enough. */
  lemma NormalisesExact(k: Kind, x: seq<byte>)
    ensures Normalises(k, x)
       <==> var r := ParseFromString(k, x);
            r.Success? ==> |Serialize(r.msg)| <= 0x7FFF_FFFF && Fits(r.msg)
  {
    hide ParseFromString, Serialize, Fits, SerializeToString;
    if ParseFromString(k, x).Success? {
      NormalForm(k, x);
    }
  }

  //
  // A part that does not fit: one byte over the limit, and an accepted input is lost
  //

  /** -1 as the five bytes of its low 32 bits, where it is written back in ten. */
  const SHORT_MINUS_ONE: seq<byte> := [16, 255, 255, 255, 255, 15]

  function LongName(): (name: seq<byte>)
    ensures |name| == MAX_LENGTH - 16
  {
    seq(MAX_LENGTH - 16, _ => 97)
  }

  function LongPayload(): seq<byte> {
    EncodeField(BytesField(1, LongName())) + SHORT_MINUS_ONE
  }

  function LongInput(): seq<byte> {
    EncodeField(BytesField(2, LongPayload()))
  }

  const LONG_FRIEND: FriendVal := FriendVal(LongName(), -1, [])

  lemma LongLength(num: nat, data: seq<byte>)
    requires 1 <= num <= 15 && 0x1000_0000 <= |data| <= MAX_LENGTH
    ensures |EncodeField(BytesField(num, data))| == |data| + 6
  {
    BytesRecordLength(num, data);
    OwnTag(num);
    EncodeLengths(|data|);
  }

  lemma LongLengths()
    ensures |LongPayload()| == MAX_LENGTH - 4 && |LongInput()| == NORMAL_LIMIT + 1
    ensures |SerializeFriend(LONG_FRIEND)| == MAX_LENGTH + 1
  {
    hide EncodeField, LongName;
    LongLength(1, LongName());
    LongLength(2, LongPayload());
    FriendLength(LONG_FRIEND);
  }

  lemma ShortMinusOneRead(d: nat)
    ensures ReadRecord(SHORT_MINUS_ONE, d) == Got(VarintField(2, 0xFFFF_FFFF), [])
  {
    var b := SHORT_MINUS_ONE[1..];
    assert b == [255, 255, 255, 255, 15];
    assert ReadTag(SHORT_MINUS_ONE) == Got(16, b);
    assert b[1..] == [255, 255, 255, 15] && b[1..][1..] == [255, 255, 15];
    assert b[1..][1..][1..] == [255, 15] && b[1..][1..][1..][1..] == [15];
    assert Decode([15], 6) == Got(15, []);
    assert Decode([255, 15], 7) == Got(127 + 128 * 15, []);
    assert Decode([255, 255, 15], 8) == Got(127 + 128 * (127 + 128 * 15), []);
  }

  lemma NameThenMinusOne(name: seq<byte>, d: nat)
    requires Utf8.Valid(name) && |name| <= MAX_LENGTH
    ensures ParseInto(ApplyFriend, EMPTY_FRIEND, EncodeField(BytesField(1, name)) + SHORT_MINUS_ONE, d)
         == Success(FriendVal(name, -1, []))
  {
    var f1, f2 := BytesField(1, name), VarintField(2, 0xFFFF_FFFF);
    RecordRoundTrip(f1, d);
    ShortMinusOneRead(d);
    hide ReadRecord, EncodeField, ParseInto;
    ParseRecord(ApplyFriend, EMPTY_FRIEND, EncodeField(f1), f1, SHORT_MINUS_ONE, d);
    ParseRecord(ApplyFriend, FriendVal(name, 0, []), SHORT_MINUS_ONE, f2, [], d);
    ParseNothing(ApplyFriend, FriendVal(name, -1, []), d);
    assert SHORT_MINUS_ONE + [] == SHORT_MINUS_ONE;
  }

  lemma LongPayloadParses(d: nat)
    ensures ParseInto(ApplyFriend, EMPTY_FRIEND, LongPayload(), d) == Success(LONG_FRIEND)
  {
    AsciiValid(MAX_LENGTH - 16);
    NameThenMinusOne(LongName(), d);
  }

  lemma LongInputRecord(d: nat)
    ensures IsRecord(LongInput(), BytesField(2, LongPayload()), d)
  {
    LongLengths();
    RecordRoundTrip(BytesField(2, LongPayload()), d);
  }

  lemma OneElement(x: seq<byte>, data: seq<byte>, v: FriendVal, d: nat)
    requires d > 0 && IsRecord(x, BytesField(2, data), d)
    requires ParseInto(ApplyFriend, EMPTY_FRIEND, data, d - 1) == Success(v) && !FitsFriend(v)
    ensures ParseInto(ApplyLogin, EMPTY_LOGIN, x, d) == Success(LoginVal(None, [v], [], []))
    ensures ParseInto(ApplyLogin, EMPTY_LOGIN, SerializeLogin(LoginVal(None, [v], [], [])), d) == Failure
  {
    var m := LoginVal(None, [v], [], []);
    assert ApplyLogin(EMPTY_LOGIN, BytesField(2, data), d) == Success(m) by {
      hide ParseInto, ApplyFriend, IsRecord, FitsFriend;
      assert EMPTY_LOGIN.friendList + [v] == [v];
    }
    hide ApplyLogin, ApplyFriend, IsRecord, FitsFriend, ReadRecord;
    ParseRecord(ApplyLogin, EMPTY_LOGIN, x, BytesField(2, data), [], d);
    ParseNothing(ApplyLogin, m, d);
    assert x + [] == x;
    hide ParseInto, SerializeLogin;
    assert v in m.friendList && !FitsLogin(m);
    LoginNormalForm(x, d);
  }

  lemma OneFriend(x: seq<byte>, data: seq<byte>, v: FriendVal, d: nat)
    requires d > 0 && IsRecord(x, BytesField(2, data), d)
    requires ParseInto(ApplyFriend, EMPTY_FRIEND, data, d - 1) == Success(v) && !FitsFriend(v)
    ensures ParseInto(ApplyFind, EMPTY_FIND, x, d) == Success(FindVal(None, Some(v), 0, []))
    ensures ParseInto(ApplyFind, EMPTY_FIND, SerializeFind(FindVal(None, Some(v), 0, [])), d) == Failure
  {
    var m := FindVal(None, Some(v), 0, []);
    assert ApplyFind(EMPTY_FIND, BytesField(2, data), d) == Success(m);
    hide ApplyFind, ApplyFriend, IsRecord, FitsFriend;
    ParseRecord(ApplyFind, EMPTY_FIND, x, BytesField(2, data), [], d);
    ParseNothing(ApplyFind, m, d);
    assert x + [] == x;
    hide ParseInto, SerializeFind;
    FindNormalForm(x, d);
  }

  /** A list element with nothing merged into it, in input one byte over the limit, is lost. */
  lemma LoginLongFails(d: nat)
    requires d > 0
    ensures ParseInto(ApplyLogin, EMPTY_LOGIN, LongInput(), d) == Success(LoginVal(None, [LONG_FRIEND], [], []))
    ensures ParseInto(ApplyLogin, EMPTY_LOGIN, SerializeLogin(LoginVal(None, [LONG_FRIEND], [], [])), d) == Failure
  {
    hide LongInput, LongPayload, SerializeFriend, SerializeLogin, IsRecord, ParseInto;
    LongInputRecord(d);
    LongPayloadParses(d - 1);
    LongLengths();
    OneElement(LongInput(), LongPayload(), LONG_FRIEND, d);
  }

  lemma FindLongFails(d: nat)
    requires d > 0
    ensures ParseInto(ApplyFind, EMPTY_FIND, LongInput(), d) == Success(FindVal(None, Some(LONG_FRIEND), 0, []))
    ensures ParseInto(ApplyFind, EMPTY_FIND, SerializeFind(FindVal(None, Some(LONG_FRIEND), 0, [])), d) == Failure
  {
    hide LongInput, LongPayload, SerializeFriend, SerializeFind, IsRecord, ParseInto;
    LongInputRecord(d);
    LongPayloadParses(d - 1);
    LongLengths();
    OneFriend(LongInput(), LongPayload(), LONG_FRIEND, d);
  }

  //
  // A whole that is too long
  //

  const MINUS_ONE: FriendVal := FriendVal([], -1, [])

  /** `q` list elements of eight bytes each. */
  function Elements(q: nat): seq<Field> {
    seq(q, _ => BytesField(2, SHORT_MINUS_ONE))
  }

  lemma ShortMinusOneParses(d: nat)
    ensures ParseInto(ApplyFriend, EMPTY_FRIEND, SHORT_MINUS_ONE, d) == Success(MINUS_ONE)
  {
    ShortMinusOneRead(d);
    ParseNothing(ApplyFriend, MINUS_ONE, d);
  }

  lemma ElementApplies(l: seq<FriendVal>, d: nat)
    requires d > 0
    ensures ApplyLogin(EMPTY_LOGIN.(friendList := l), BytesField(2, SHORT_MINUS_ONE), d)
         == Success(EMPTY_LOGIN.(friendList := l + [MINUS_ONE]))
  {
    hide ParseInto, ApplyFriend;
    ShortMinusOneParses(d - 1);
  }

  lemma {:induction false} ElementsApply(l: seq<FriendVal>, q: nat, d: nat)
    requires d > 0
    ensures ApplyAll(ApplyLogin, EMPTY_LOGIN.(friendList := l), Elements(q), d)
         == Success(EMPTY_LOGIN.(friendList := l + seq(q, _ => MINUS_ONE)))
    decreases q
  {
    if q == 0 {
      assert l + seq(0, _ => MINUS_ONE) == l;
    } else {
      ElementApplies(l, d);
      assert Elements(q)[1..] == Elements(q - 1);
      hide ParseInto, ApplyLogin;
      ElementsApply(l + [MINUS_ONE], q - 1, d);
      assert l + [MINUS_ONE] + seq(q - 1, _ => MINUS_ONE) == l + seq(q, _ => MINUS_ONE);
    }
  }

  lemma {:induction false} ElementsLength(q: nat)
    ensures |EncodeFields(Elements(q))| == 8 * q
  {
    if q == 0 {
    } else {
      RecordLengthIs(2, SHORT_MINUS_ONE);
      assert Elements(q)[1..] == Elements(q - 1);
      ElementsLength(q - 1);
    }
  }

  lemma {:induction false} WrittenLength(q: nat)
    ensures |EncodeFields(FriendRecords(2, seq(q, _ => MINUS_ONE)))| == 13 * q
  {
    if q == 0 {
    } else {
      var l := seq(q - 1, _ => MINUS_ONE);
      assert seq(q, _ => MINUS_ONE) == l + [MINUS_ONE];
      WrittenLength(q - 1);
      FriendLength(MINUS_ONE);
      assert Weight(MINUS_ONE) == 6;
      hide EncodeFields, FriendRecords;
      ListGrows(2, l, MINUS_ONE);
    }
  }

  /** Every eight bytes of this input are written back in thirteen. */
  lemma ElementsGrow(q: nat, d: nat)
    requires d > 0
    ensures |EncodeFields(Elements(q))| == 8 * q
    ensures var r := ParseInto(ApplyLogin, EMPTY_LOGIN, EncodeFields(Elements(q)), d);
            r.Success? && |SerializeLogin(r.msg)| == 13 * q
  {
    var m := EMPTY_LOGIN.(friendList := seq(q, _ => MINUS_ONE));
    ElementsLength(q);
    ElementsApply([], q, d);
    assert EMPTY_LOGIN.(friendList := []) == EMPTY_LOGIN && [] + m.friendList == m.friendList;
    assert WfFields(Elements(q), d);
    LoginLength(m);
    WrittenLength(q);
    hide EncodeFields, Elements, ApplyAll, WfFields, ParseInto, SerializeLogin;
    ParseEncoded(ApplyLogin, EMPTY_LOGIN, Elements(q), [], d);
    assert EncodeFields(Elements(q)) + [] == EncodeFields(Elements(q));
    ParseNothing(ApplyLogin, m, d);
  }

  //
  // The limits are exact
  //

  /** The longest FriendInfo that is sure to be normalised: a negative number takes five bytes more. */
  const FRIEND_LIMIT: nat := INT_MAX - 5

  /** The longest S2C_LoginResponse: at thirteen bytes for eight, one element more is too much. */
  const LOGIN_LIMIT: nat := 1_321_528_399

  /** A BoolValue never grows, so every input that the parser can be given is normalised. */
  lemma BoolNormalises(x: seq<byte>)
    requires |x| <= 0x7FFF_FFFF
    ensures Normalises(BoolKind, x)
  {
    NormalisesExact(BoolKind, x);
    if ParseInto(ApplyBool, EMPTY_BOOL, x, RECURSION_LIMIT).Success? {
      BoolShrinks(EMPTY_BOOL, x, RECURSION_LIMIT);
      EmptyLengths();
    }
    hide Normalises, ParseInto, SerializeBool;
  }

  lemma FriendNormaliserExact(n: nat)
    ensures (forall x | |x| <= n :: Normalises(FriendKind, x)) <==> n <= 2_147_483_642
  {
    hide Normalises, ParseInto, SerializeFriend;
    if n <= FRIEND_LIMIT {
      forall x | |x| <= n ensures Normalises(FriendKind, x) {
        FriendShortNormalises(x);
      }
    } else {
      FriendLongFails();
    }
  }

  lemma FriendShortNormalises(x: seq<byte>)
    requires |x| <= FRIEND_LIMIT
    ensures Normalises(FriendKind, x)
  {
    NormalisesExact(FriendKind, x);
    hide Normalises, ParseInto, SerializeFriend;
    if ParseInto(ApplyFriend, EMPTY_FRIEND, x, RECURSION_LIMIT).Success? {
      FriendWeight(EMPTY_FRIEND, x, RECURSION_LIMIT);
      FriendLength(ParseInto(ApplyFriend, EMPTY_FRIEND, x, RECURSION_LIMIT).msg);
      EmptyLengths();
    }
  }

  function LongestName(): (name: seq<byte>)
    ensures |name| == MAX_LENGTH
  {
    seq(MAX_LENGTH, _ => 97)
  }

  /** The longest name that can be read, and -1 in five bytes. */
  function LongFriend(): seq<byte> {
    EncodeField(BytesField(1, LongestName())) + SHORT_MINUS_ONE
  }

  lemma FriendLongFails()
    ensures |LongFriend()| == FRIEND_LIMIT + 1
    ensures ParseFromString(FriendKind, LongFriend()) == Success(FriendMessage(FriendVal(LongestName(), -1, [])))
    ensures !Normalises(FriendKind, LongFriend())
  {
    var v := FriendVal(LongestName(), -1, []);
    AsciiValid(MAX_LENGTH);
    hide Normalises, ParseInto, SerializeFriend, EncodeField, LongestName;
    NameThenMinusOne(LongestName(), RECURSION_LIMIT);
    LongLength(1, LongestName());
    FriendLength(v);
    NormalisesExact(FriendKind, LongFriend());
  }

  lemma LoginNormaliserExact(n: nat)
    ensures (forall x | |x| <= n :: Normalises(LoginKind, x)) <==> n <= 1_321_528_399
  {
    hide Normalises, ParseInto, SerializeLogin;
    if n <= LOGIN_LIMIT {
      forall x | |x| <= n ensures Normalises(LoginKind, x) {
        LoginShortNormalises(x);
      }
    } else {
      LoginManyFail();
    }
  }

  lemma LoginShortNormalises(x: seq<byte>)
    requires |x| <= LOGIN_LIMIT
    ensures Normalises(LoginKind, x)
  {
    NormalisesExact(LoginKind, x);
    hide Normalises, ParseInto, SerializeLogin, FitsLogin;
    if ParseInto(ApplyLogin, EMPTY_LOGIN, x, RECURSION_LIMIT).Success? {
      LoginGrows(x, RECURSION_LIMIT);
      LoginShortFits(x, RECURSION_LIMIT);
    }
  }

  function ManyElements(): seq<byte> {
    EncodeFields(Elements((LOGIN_LIMIT + 1) / 8))
  }

  /** As many elements as are one too many: each part fits, the whole does not. */
  lemma LoginManyFail()
    ensures |ManyElements()| == LOGIN_LIMIT + 1 && ParseFromString(LoginKind, ManyElements()).Success?
    ensures SerializeToString(ParseFromString(LoginKind, ManyElements()).msg) == None
    ensures !Normalises(LoginKind, ManyElements())
  {
    hide Normalises, ParseInto, SerializeLogin, Elements, EncodeFields, SerializeToString;
    ElementsGrow((LOGIN_LIMIT + 1) / 8, RECURSION_LIMIT);
    NormalForm(LoginKind, ManyElements());
    NormalisesExact(LoginKind, ManyElements());
  }

  lemma FindNormaliserExact(n: nat)
    ensures (forall x | |x| <= n :: Normalises(FindKind, x)) <==> n <= 2_147_483_632
  {
    hide Normalises, ParseInto, SerializeFind;
    if n <= NORMAL_LIMIT {
      forall x | |x| <= n ensures Normalises(FindKind, x) {
        FindShortNormalises(x);
      }
    } else {
      FindLongLost();
    }
  }

  lemma FindShortNormalises(x: seq<byte>)
    requires |x| <= NORMAL_LIMIT
    ensures Normalises(FindKind, x)
  {
    NormalisesExact(FindKind, x);
    hide Normalises, ParseInto, SerializeFind, FitsFind;
    if ParseInto(ApplyFind, EMPTY_FIND, x, RECURSION_LIMIT).Success? {
      FindGrows(x, RECURSION_LIMIT);
      FindShortFits(x, RECURSION_LIMIT);
    }
  }

  lemma FindLongLost()
    ensures |LongInput()| == NORMAL_LIMIT + 1 && !Normalises(FindKind, LongInput())
  {
    hide LongInput, Normalises, ParseInto, SerializeFind, FitsFind;
    LongLengths();
    FindLongFails(RECURSION_LIMIT);
    NormalForm(FindKind, LongInput());
    NormalisesExact(FindKind, LongInput());
  }
}
