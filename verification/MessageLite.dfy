/**
 The interface every message shares: a full name, a size, serialising to a string and parsing
 from one. Messages over two gigabytes are refused on the way out, and lengths close to two
 gigabytes on the way in; the two limits differ.
 */
module MessageLite {
  import opened Basics
  import opened Varint
  import opened WireFormat
  import opened RecordParsing
  import opened Messages
  import opened RoundTripTheorems
  import opened Sizes
  import Utf8

  datatype Kind = BoolKind | FriendKind | LoginKind | FindKind

  datatype Message =
    | BoolMessage(b: BoolVal)
    | FriendMessage(f: FriendVal)
    | LoginMessage(l: LoginVal)
    | FindMessage(q: FindVal)

  function KindOf(m: Message): Kind {
    match m
    case BoolMessage(_) => BoolKind
    case FriendMessage(_) => FriendKind
    case LoginMessage(_) => LoginKind
    case FindMessage(_) => FindKind
  }

  function FullName(k: Kind): string {
    match k
    case BoolKind => "google.protobuf.BoolValue"
    case FriendKind => "Protocol.FriendInfo"
    case LoginKind => "Protocol.S2C_LoginResponse"
    case FindKind => "Protocol.S2C_FindFriendResponse"
  }

  function Serialize(m: Message): seq<byte> {
    match m
    case BoolMessage(b) => SerializeBool(b)
    case FriendMessage(f) => SerializeFriend(f)
    case LoginMessage(l) => SerializeLogin(l)
    case FindMessage(q) => SerializeFind(q)
  }

  function ByteSizeLong(m: Message): nat {
    match m
    case BoolMessage(b) => ByteSizeBool(b)
    case FriendMessage(f) => ByteSizeFriend(f)
    case LoginMessage(l) => ByteSizeLogin(l)
    case FindMessage(q) => ByteSizeFind(q)
  }

  function SerializeToString(m: Message): Option<seq<byte>> {
    if ByteSizeLong(m) > INT_MAX then None else Some(Serialize(m))
  }

  function Lift<M>(o: Outcome<M>, wrap: M -> Message): Outcome<Message> {
    match o
    case Failure => Failure
    case Success(m) => Success(wrap(m))
  }

  function ParseFromString(k: Kind, data: seq<byte>): Outcome<Message> {
    match k
    case BoolKind => Lift(ParseInto(ApplyBool, EMPTY_BOOL, data, RECURSION_LIMIT), b => BoolMessage(b))
    case FriendKind => Lift(ParseInto(ApplyFriend, EMPTY_FRIEND, data, RECURSION_LIMIT), f => FriendMessage(f))
    case LoginKind => Lift(ParseInto(ApplyLogin, EMPTY_LOGIN, data, RECURSION_LIMIT), l => LoginMessage(l))
    case FindKind => Lift(ParseInto(ApplyFind, EMPTY_FIND, data, RECURSION_LIMIT), q => FindMessage(q))
  }

  ghost predicate Typed(m: Message) {
    match m
    case BoolMessage(b) => TypedFields(b.unknown)
    case FriendMessage(f) => TypedFields(f.unknown)
    case LoginMessage(l) => TypedLogin(l)
    case FindMessage(q) => TypedFind(q)
  }

  /** Readable: strings are UTF-8, unknown fields are unknown, groups nest within the limit, lengths fit. */
  ghost predicate Readable(m: Message) {
    match m
    case BoolMessage(b) => WfBool(b, RECURSION_LIMIT)
    case FriendMessage(f) => WfFriend(f, RECURSION_LIMIT)
    case LoginMessage(l) => WfLogin(l, RECURSION_LIMIT) && FitsLogin(l)
    case FindMessage(q) => WfFind(q, RECURSION_LIMIT) && FitsFind(q)
  }

  /** The size check refuses a message exactly when its serialisation is over two gigabytes. */
  lemma SerializeToStringExact(m: Message)
    requires Typed(m)
    ensures SerializeToString(m) == if |Serialize(m)| <= 0x7FFF_FFFF then Some(Serialize(m)) else None
  {
    hide SerializeBool, SerializeFriend, SerializeLogin, SerializeFind;
    match m
    case BoolMessage(b) => ByteSizeBoolAgrees(b);
    case FriendMessage(f) => ByteSizeFriendAgrees(f);
    case LoginMessage(l) => ByteSizeLoginAgrees(l);
    case FindMessage(q) => ByteSizeFindAgrees(q);
  }

  /** A message that serialises comes back from its own bytes exactly when it is readable. */
  lemma SerializeThenParse(m: Message)
    requires SerializeToString(m).Some?
    ensures ParseFromString(KindOf(m), SerializeToString(m).value) == Success(m) <==> Readable(m)
  {
    hide SerializeBool, SerializeFriend, SerializeLogin, SerializeFind, ParseInto;
    match m
    case BoolMessage(b) => BoolRoundTrip(b, RECURSION_LIMIT);
    case FriendMessage(f) => FriendRoundTrip(f, RECURSION_LIMIT);
    case LoginMessage(l) => LoginRoundTrip(l, RECURSION_LIMIT);
    case FindMessage(q) => FindRoundTrip(q, RECURSION_LIMIT);
  }

  lemma {:induction false} AsciiValid(n: nat)
    ensures Utf8.Valid(seq(n, _ => 97))
  {
    if n == 0 {
    } else {
      assert seq(n, _ => 97)[1..] == seq(n - 1, _ => 97);
      AsciiValid(n - 1);
    }
  }

  /**
   The gap between the limits: a user name of INT_MAX - 15 letters is valid, serialises, and
   cannot be parsed.
   */
  lemma SerializableButUnreadable()
    ensures var m := FriendMessage(FriendVal(seq(MAX_LENGTH + 1, _ => 97), 0, []));
            && Utf8.Valid(m.f.username)
            && SerializeToString(m) == Some(Serialize(m))
            && ParseFromString(FriendKind, Serialize(m)) == Failure
  {
    var name: seq<byte> := seq(MAX_LENGTH + 1, _ => 97);
    var v := FriendVal(name, 0, []);
    var record := BytesField(1, name);
    AsciiValid(|name|);
    assert RecordsFriend(v) == [record];
    EncodeOne(record);
    NearLimitSize(record);
    SerializeToStringExact(FriendMessage(v));
    assert TooLong(record) && record in [record];
    TooLongFails(ApplyFriend, EMPTY_FRIEND, [record], RECURSION_LIMIT);
  }

  lemma NearLimitSize(f: Field)
    requires f.BytesField? && f.num == 1 && |f.data| == MAX_LENGTH + 1
    ensures |EncodeField(f)| <= INT_MAX
  {
    OwnTag(1);
    EncodeLengths(|f.data|);
  }
}
