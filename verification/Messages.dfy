/**
 The message values and what the generated code computes on them: how a record is applied,
 which records are written, and how messages merge. FriendInfo, S2C_LoginResponse,
 S2C_FindFriendResponse and the wrapper BoolValue between them have every field shape of
 the protocol.
 */
module Messages {
  import opened Basics
  import opened Varint
  import opened WireFormat
  import opened RecordParsing
  import Utf8

  datatype BoolVal = BoolVal(value: bool, unknown: seq<Field>)
  datatype FriendVal = FriendVal(username: seq<byte>, state: int32, unknown: seq<Field>)
  datatype LoginVal = LoginVal(
    success: Option<BoolVal>, friendList: seq<FriendVal>, pendingList: seq<FriendVal>, unknown: seq<Field>)
  datatype FindVal = FindVal(
    exist: Option<BoolVal>, friendInfo: Option<FriendVal>, requestState: int32, unknown: seq<Field>)

  const EMPTY_BOOL := BoolVal(false, [])
  const EMPTY_FRIEND := FriendVal([], 0, [])
  const EMPTY_LOGIN := LoginVal(None, [], [], [])
  const EMPTY_FIND := FindVal(None, None, 0, [])

  //
  // Parsing: the cases of each `_InternalParse` switch. A case is taken on field number and
  // wire type together; every other record is kept as an unknown field.
  //

  function ApplyBool(m: BoolVal, f: Field, d: nat): Outcome<BoolVal> {
    if f.num == 1 && f.VarintField? then Success(m.(value := f.varint != 0))
    else Success(m.(unknown := m.unknown + [f]))
  }

  function ApplyFriend(m: FriendVal, f: Field, d: nat): Outcome<FriendVal> {
    if f.num == 1 && f.BytesField? then
      if Utf8.Valid(f.data) then Success(m.(username := f.data)) else Failure
    else if f.num == 2 && f.VarintField? then Success(m.(state := Truncate32(f.varint)))
    else Success(m.(unknown := m.unknown + [f]))
  }

  function ApplyLogin(m: LoginVal, f: Field, d: nat): Outcome<LoginVal> {
    if f.num == 1 && f.BytesField? then
      match ParseMessage(ApplyBool, m.success.GetOr(EMPTY_BOOL), f.data, d)
      case Failure => Failure
      case Success(v) => Success(m.(success := Some(v)))
    else if f.num == 2 && f.BytesField? then
      match ParseMessage(ApplyFriend, EMPTY_FRIEND, f.data, d)
      case Failure => Failure
      case Success(v) => Success(m.(friendList := m.friendList + [v]))
    else if f.num == 3 && f.BytesField? then
      match ParseMessage(ApplyFriend, EMPTY_FRIEND, f.data, d)
      case Failure => Failure
      case Success(v) => Success(m.(pendingList := m.pendingList + [v]))
    else Success(m.(unknown := m.unknown + [f]))
  }

  function ApplyFind(m: FindVal, f: Field, d: nat): Outcome<FindVal> {
    if f.num == 1 && f.BytesField? then
      match ParseMessage(ApplyBool, m.exist.GetOr(EMPTY_BOOL), f.data, d)
      case Failure => Failure
      case Success(v) => Success(m.(exist := Some(v)))
    else if f.num == 2 && f.BytesField? then
      match ParseMessage(ApplyFriend, m.friendInfo.GetOr(EMPTY_FRIEND), f.data, d)
      case Failure => Failure
      case Success(v) => Success(m.(friendInfo := Some(v)))
    else if f.num == 3 && f.VarintField? then Success(m.(requestState := Truncate32(f.varint)))
    else Success(m.(unknown := m.unknown + [f]))
  }

  predicate HandledBool(f: Field) { f.num == 1 && f.VarintField? }

  predicate HandledFriend(f: Field) { (f.num == 1 && f.BytesField?) || (f.num == 2 && f.VarintField?) }

  predicate HandledLogin(f: Field) { 1 <= f.num <= 3 && f.BytesField? }

  predicate HandledFind(f: Field) { (1 <= f.num <= 2 && f.BytesField?) || (f.num == 3 && f.VarintField?) }

  //
  // Serialising: the records each `_InternalSerialize` writes, in its order. Default-valued
  // scalars are left out, a present sub-message never is.
  //

  function RecordsBool(m: BoolVal): seq<Field> {
    (if m.value then [VarintField(1, 1)] else []) + m.unknown
  }

  function RecordsFriend(m: FriendVal): seq<Field> {
    (if m.username != [] then [BytesField(1, m.username)] else [])
    + (if m.state != 0 then [VarintField(2, SignExtend(m.state))] else [])
    + m.unknown
  }

  function OptionalBool(num: nat, m: Option<BoolVal>): seq<Field> {
    if m.Some? then [BytesField(num, SerializeBool(m.value))] else []
  }

  function OptionalFriend(num: nat, m: Option<FriendVal>): seq<Field> {
    if m.Some? then [BytesField(num, SerializeFriend(m.value))] else []
  }

  function FriendRecords(num: nat, ms: seq<FriendVal>): (fs: seq<Field>)
    ensures |fs| == |ms|
    ensures forall i | 0 <= i < |ms| :: fs[i] == BytesField(num, SerializeFriend(ms[i]))
  {
    if ms == [] then [] else [BytesField(num, SerializeFriend(ms[0]))] + FriendRecords(num, ms[1..])
  }

  function RecordsLogin(m: LoginVal): seq<Field> {
    OptionalBool(1, m.success) + FriendRecords(2, m.friendList) + FriendRecords(3, m.pendingList) + m.unknown
  }

  function RecordsFind(m: FindVal): seq<Field> {
    OptionalBool(1, m.exist) + OptionalFriend(2, m.friendInfo)
    + (if m.requestState != 0 then [VarintField(3, SignExtend(m.requestState))] else [])
    + m.unknown
  }

  function SerializeBool(m: BoolVal): seq<byte> { EncodeFields(RecordsBool(m)) }

  function SerializeFriend(m: FriendVal): seq<byte> { EncodeFields(RecordsFriend(m)) }

  function SerializeLogin(m: LoginVal): seq<byte> { EncodeFields(RecordsLogin(m)) }

  function SerializeFind(m: FindVal): seq<byte> { EncodeFields(RecordsFind(m)) }

  //
  // Merging
  //

  function MergeBool(a: BoolVal, b: BoolVal): BoolVal {
    BoolVal(if b.value then true else a.value, a.unknown + b.unknown)
  }

  function MergeFriend(a: FriendVal, b: FriendVal): FriendVal {
    FriendVal(if b.username != [] then b.username else a.username,
              if b.state != 0 then b.state else a.state,
              a.unknown + b.unknown)
  }

  function MergeLogin(a: LoginVal, b: LoginVal): LoginVal {
    LoginVal(if b.success.Some? then Some(MergeBool(a.success.GetOr(EMPTY_BOOL), b.success.value)) else a.success,
             a.friendList + b.friendList,
             a.pendingList + b.pendingList,
             a.unknown + b.unknown)
  }

  function MergeFind(a: FindVal, b: FindVal): FindVal {
    FindVal(if b.exist.Some? then Some(MergeBool(a.exist.GetOr(EMPTY_BOOL), b.exist.value)) else a.exist,
            if b.friendInfo.Some? then Some(MergeFriend(a.friendInfo.GetOr(EMPTY_FRIEND), b.friendInfo.value))
            else a.friendInfo,
            if b.requestState != 0 then b.requestState else a.requestState,
            a.unknown + b.unknown)
  }

  //
  // Well-formed messages, as seen by a parser that may enter `d` more levels
  //

  ghost predicate WfUnknown(fs: seq<Field>, handled: Field -> bool, d: nat) {
    WfFields(fs, d) && forall f | f in fs :: !handled(f)
  }

  ghost predicate WfBool(m: BoolVal, d: nat) { WfUnknown(m.unknown, HandledBool, d) }

  ghost predicate WfFriend(m: FriendVal, d: nat) {
    Utf8.Valid(m.username) && |m.username| <= MAX_LENGTH && WfUnknown(m.unknown, HandledFriend, d)
  }

  ghost predicate WfSubBool(m: Option<BoolVal>, d: nat) { m.Some? ==> d > 0 && WfBool(m.value, d - 1) }

  ghost predicate WfSubFriend(m: Option<FriendVal>, d: nat) { m.Some? ==> d > 0 && WfFriend(m.value, d - 1) }

  ghost predicate WfFriends(ms: seq<FriendVal>, d: nat) { forall m | m in ms :: d > 0 && WfFriend(m, d - 1) }

  ghost predicate WfLogin(m: LoginVal, d: nat) {
    && WfSubBool(m.success, d) && WfFriends(m.friendList, d) && WfFriends(m.pendingList, d)
    && WfUnknown(m.unknown, HandledLogin, d)
  }

  ghost predicate WfFind(m: FindVal, d: nat) {
    WfSubBool(m.exist, d) && WfSubFriend(m.friendInfo, d) && WfUnknown(m.unknown, HandledFind, d)
  }

  /** Every nested message is short enough for its length prefix to be read back. */
  predicate FitsBool(m: Option<BoolVal>) { m.Some? ==> |SerializeBool(m.value)| <= MAX_LENGTH }

  predicate FitsFriend(m: FriendVal) { |SerializeFriend(m)| <= MAX_LENGTH }

  predicate FitsLogin(m: LoginVal) {
    && FitsBool(m.success)
    && (forall x | x in m.friendList :: FitsFriend(x))
    && (forall x | x in m.pendingList :: FitsFriend(x))
  }

  predicate FitsFind(m: FindVal) {
    FitsBool(m.exist) && (m.friendInfo.Some? ==> FitsFriend(m.friendInfo.value))
  }
}
