/**
 Appending a serialisation is merging. For each message, the records written for `b` are
 well formed, and applying them to any `a` gives `Merge(a, b)`.
 */
module ConcatTheorems {
  import opened Basics
  import opened Varint
  import opened WireFormat
  import opened RecordParsing
  import opened Messages

  /** Records that no case handles are kept, in order, whatever the message. */
  lemma {:induction false} UnknownKept<M(!new)>(
      apply: (M, Field, nat) -> Outcome<M>, handled: Field -> bool, keep: (M, seq<Field>) -> M,
      a: M, us: seq<Field>, d: nat)
    requires forall m: M, f: Field | !handled(f) :: apply(m, f, d) == Success(keep(m, [f]))
    requires forall m: M, x: seq<Field>, y: seq<Field> :: keep(keep(m, x), y) == keep(m, x + y)
    requires forall m: M :: keep(m, []) == m
    requires forall f | f in us :: !handled(f)
    ensures ApplyAll(apply, a, us, d) == Success(keep(a, us))
    decreases |us|
  {
    if us == [] {
    } else {
      assert !handled(us[0]);
      UnknownKept(apply, handled, keep, keep(a, [us[0]]), us[1..], d);
      assert [us[0]] + us[1..] == us;
    }
  }

  lemma UnknownBool(a: BoolVal, us: seq<Field>, d: nat)
    requires forall f | f in us :: !HandledBool(f)
    ensures ApplyAll(ApplyBool, a, us, d) == Success(a.(unknown := a.unknown + us))
  {
    var keep := (m: BoolVal, x: seq<Field>) => m.(unknown := m.unknown + x);
    forall m: BoolVal, x, y ensures keep(keep(m, x), y) == keep(m, x + y) {
      Assoc3(m.unknown, x, y);
    }
    forall m: BoolVal ensures keep(m, []) == m {
      assert m.unknown + [] == m.unknown;
    }
    UnknownKept(ApplyBool, HandledBool, keep, a, us, d);
  }

  lemma UnknownFriend(a: FriendVal, us: seq<Field>, d: nat)
    requires forall f | f in us :: !HandledFriend(f)
    ensures ApplyAll(ApplyFriend, a, us, d) == Success(a.(unknown := a.unknown + us))
  {
    var keep := (m: FriendVal, x: seq<Field>) => m.(unknown := m.unknown + x);
    forall m: FriendVal, x, y ensures keep(keep(m, x), y) == keep(m, x + y) {
      Assoc3(m.unknown, x, y);
    }
    forall m: FriendVal ensures keep(m, []) == m {
      assert m.unknown + [] == m.unknown;
    }
    UnknownKept(ApplyFriend, HandledFriend, keep, a, us, d);
  }

  lemma UnknownLogin(a: LoginVal, us: seq<Field>, d: nat)
    requires forall f | f in us :: !HandledLogin(f)
    ensures ApplyAll(ApplyLogin, a, us, d) == Success(a.(unknown := a.unknown + us))
  {
    var keep := (m: LoginVal, x: seq<Field>) => m.(unknown := m.unknown + x);
    forall m: LoginVal, x, y ensures keep(keep(m, x), y) == keep(m, x + y) {
      Assoc3(m.unknown, x, y);
    }
    forall m: LoginVal ensures keep(m, []) == m {
      assert m.unknown + [] == m.unknown;
    }
    UnknownKept(ApplyLogin, HandledLogin, keep, a, us, d);
  }

  lemma UnknownFind(a: FindVal, us: seq<Field>, d: nat)
    requires forall f | f in us :: !HandledFind(f)
    ensures ApplyAll(ApplyFind, a, us, d) == Success(a.(unknown := a.unknown + us))
  {
    var keep := (m: FindVal, x: seq<Field>) => m.(unknown := m.unknown + x);
    forall m: FindVal, x, y ensures keep(keep(m, x), y) == keep(m, x + y) {
      Assoc3(m.unknown, x, y);
    }
    forall m: FindVal ensures keep(m, []) == m {
      assert m.unknown + [] == m.unknown;
    }
    UnknownKept(ApplyFind, HandledFind, keep, a, us, d);
  }

  /** Records appended to an accepted parse are applied to its result. */
  lemma EncodedAfter<M>(apply: (M, Field, nat) -> Outcome<M>, m: M, x: seq<byte>, fs: seq<Field>, d: nat)
    requires ParseInto(apply, m, x, d).Success? && WfFields(fs, d)
    requires ApplyAll(apply, ParseInto(apply, m, x, d).msg, fs, d).Success?
    ensures ParseInto(apply, m, x + EncodeFields(fs), d) == ApplyAll(apply, ParseInto(apply, m, x, d).msg, fs, d)
  {
    hide ApplyAll, ParseInto, EncodeFields, WfFields;
    var a := ParseInto(apply, m, x, d).msg;
    ParseStream(apply, m, x, EncodeFields(fs), d);
    ParseEncoded(apply, a, fs, [], d);
    assert EncodeFields(fs) + [] == EncodeFields(fs);
    ParseNothing(apply, ApplyAll(apply, a, fs, d).msg, d);
  }

  lemma BoolRecordsMerge(a: BoolVal, b: BoolVal, d: nat)
    requires WfBool(b, d)
    ensures WfFields(RecordsBool(b), d)
    ensures ApplyAll(ApplyBool, a, RecordsBool(b), d) == Success(MergeBool(a, b))
  {
    var own := if b.value then [VarintField(1, 1)] else [];
    ApplyAllAppend(ApplyBool, a, own, b.unknown, d);
    ApplyOne(ApplyBool, a, VarintField(1, 1), d);
    UnknownBool(if b.value then a.(value := true) else a, b.unknown, d);
  }

  lemma BoolConcatIsMerge(m: BoolVal, x: seq<byte>, b: BoolVal, d: nat)
    requires ParseInto(ApplyBool, m, x, d).Success? && WfBool(b, d)
    ensures ParseInto(ApplyBool, m, x + SerializeBool(b), d)
         == Success(MergeBool(ParseInto(ApplyBool, m, x, d).msg, b))
  {
    var a := ParseInto(ApplyBool, m, x, d).msg;
    BoolRecordsMerge(a, b, d);
    hide ApplyBool, RecordsBool, MergeBool, ParseInto, ApplyAll, EncodeFields, WfFields;
    EncodedAfter(ApplyBool, m, x, RecordsBool(b), d);
  }

  lemma FriendRecordsMerge(a: FriendVal, b: FriendVal, d: nat)
    requires WfFriend(b, d)
    ensures WfFields(RecordsFriend(b), d)
    ensures ApplyAll(ApplyFriend, a, RecordsFriend(b), d) == Success(MergeFriend(a, b))
  {
    var name, state := BytesField(1, b.username), VarintField(2, SignExtend(b.state));
    var names := if b.username != [] then [name] else [];
    var states := if b.state != 0 then [state] else [];
    TruncateSignExtend(b.state);
    ApplyAllAppend(ApplyFriend, a, names + states, b.unknown, d);
    ApplyAllAppend(ApplyFriend, a, names, states, d);
    ApplyOne(ApplyFriend, a, name, d);
    var a1 := if b.username != [] then a.(username := b.username) else a;
    ApplyOne(ApplyFriend, a1, state, d);
    UnknownFriend(if b.state != 0 then a1.(state := b.state) else a1, b.unknown, d);
  }

  lemma FriendConcatIsMerge(m: FriendVal, x: seq<byte>, b: FriendVal, d: nat)
    requires ParseInto(ApplyFriend, m, x, d).Success? && WfFriend(b, d)
    ensures ParseInto(ApplyFriend, m, x + SerializeFriend(b), d)
         == Success(MergeFriend(ParseInto(ApplyFriend, m, x, d).msg, b))
  {
    var a := ParseInto(ApplyFriend, m, x, d).msg;
    FriendRecordsMerge(a, b, d);
    hide ApplyFriend, RecordsFriend, MergeFriend, ParseInto, ApplyAll, EncodeFields, WfFields;
    EncodedAfter(ApplyFriend, m, x, RecordsFriend(b), d);
  }

  /**
   Why what is appended must be a serialisation: an explicit zero overwrites, and merging the
   message it parses to does not. The two agree exactly where there was nothing to overwrite.
   */
  lemma ExplicitZeroOverwrites(m: FriendVal, d: nat)
    ensures ParseInto(ApplyFriend, m, [16, 0], d) == Success(m.(state := 0))
    ensures ParseInto(ApplyFriend, EMPTY_FRIEND, [16, 0], d) == Success(EMPTY_FRIEND)
    ensures ParseInto(ApplyFriend, m, [16, 0], d) == Success(MergeFriend(m, EMPTY_FRIEND)) <==> m.state == 0
  {
    var b: seq<byte> := [16, 0];
    assert ReadTag(b) == Got(16, b[1..]);
    assert ReadVarint64(b[1..]) == Got(0, b[1..][1..]) && b[1..][1..] == [];
    assert ReadRecord(b, d) == Got(VarintField(2, 0), []);
    assert m.unknown + [] == m.unknown;
  }

  /** A serialised sub-message merges into whatever sub-message is already there. */
  lemma SubBoolMerge(a: BoolVal, b: BoolVal, d: nat)
    requires d > 0 && WfBool(b, d - 1)
    ensures ParseMessage(ApplyBool, a, SerializeBool(b), d) == Success(MergeBool(a, b))
  {
    BoolConcatIsMerge(a, [], b, d - 1);
    ParseNothing(ApplyBool, a, d - 1);
    hide ParseInto, ApplyBool, SerializeBool, MergeBool;
    assert [] + SerializeBool(b) == SerializeBool(b);
  }

  lemma SubFriendMerge(a: FriendVal, b: FriendVal, d: nat)
    requires d > 0 && WfFriend(b, d - 1)
    ensures ParseMessage(ApplyFriend, a, SerializeFriend(b), d) == Success(MergeFriend(a, b))
  {
    FriendConcatIsMerge(a, [], b, d - 1);
    ParseNothing(ApplyFriend, a, d - 1);
    hide ParseInto, ApplyFriend, SerializeFriend, MergeFriend;
    assert [] + SerializeFriend(b) == SerializeFriend(b);
  }

  lemma MergeIntoEmptyFriend(b: FriendVal)
    ensures MergeFriend(EMPTY_FRIEND, b) == b
  {
    assert [] + b.unknown == b.unknown;
  }

  /** Appending to the list that field `num` feeds. */
  function AddFriends(a: LoginVal, num: nat, ms: seq<FriendVal>): LoginVal {
    if num == 2 then a.(friendList := a.friendList + ms) else a.(pendingList := a.pendingList + ms)
  }

  lemma AddFriendsStep(a: LoginVal, num: nat, ms: seq<FriendVal>)
    requires ms != []
    ensures AddFriends(AddFriends(a, num, [ms[0]]), num, ms[1..]) == AddFriends(a, num, ms)
  {
    assert [ms[0]] + ms[1..] == ms;
    Assoc3(a.friendList, [ms[0]], ms[1..]);
    Assoc3(a.pendingList, [ms[0]], ms[1..]);
  }

  lemma ApplyFriendRecord(a: LoginVal, num: nat, m: FriendVal, d: nat)
    requires (num == 2 || num == 3) && d > 0 && WfFriend(m, d - 1)
    ensures ApplyLogin(a, BytesField(num, SerializeFriend(m)), d) == Success(AddFriends(a, num, [m]))
  {
    SubFriendMerge(EMPTY_FRIEND, m, d);
    MergeIntoEmptyFriend(m);
  }

  lemma {:induction false} FriendListMerge(a: LoginVal, num: nat, ms: seq<FriendVal>, d: nat)
    requires num == 2 || num == 3
    requires WfFriends(ms, d)
    ensures ApplyAll(ApplyLogin, a, FriendRecords(num, ms), d) == Success(AddFriends(a, num, ms))
    decreases |ms|
  {
    if ms == [] {
      assert AddFriends(a, num, ms) == a;
    } else {
      assert ms[0] in ms && forall x | x in ms[1..] :: x in ms;
      ApplyFriendRecord(a, num, ms[0], d);
      assert FriendRecords(num, ms)[1..] == FriendRecords(num, ms[1..]);
      FriendListMerge(AddFriends(a, num, [ms[0]]), num, ms[1..], d);
      AddFriendsStep(a, num, ms);
    }
  }

  lemma FriendRecordsWf(num: nat, ms: seq<FriendVal>, d: nat)
    requires num == 2 || num == 3
    requires forall x | x in ms :: FitsFriend(x)
    ensures WfFields(FriendRecords(num, ms), d)
  {
    forall f | f in FriendRecords(num, ms)
      ensures WfField(f, d)
    {
      var i :| 0 <= i < |ms| && FriendRecords(num, ms)[i] == f;
      assert FitsFriend(ms[i]);
    }
  }

  lemma LoginRecordsWf(b: LoginVal, d: nat)
    requires WfLogin(b, d) && FitsLogin(b)
    ensures WfFields(RecordsLogin(b), d)
  {
    FriendRecordsWf(2, b.friendList, d);
    FriendRecordsWf(3, b.pendingList, d);
  }

  lemma LoginRecordsMerge(a: LoginVal, b: LoginVal, d: nat)
    requires WfLogin(b, d)
    ensures ApplyAll(ApplyLogin, a, RecordsLogin(b), d) == Success(MergeLogin(a, b))
  {
    var s, fs, ps := OptionalBool(1, b.success), FriendRecords(2, b.friendList), FriendRecords(3, b.pendingList);
    var a1 := a.(success := MergeLogin(a, b).success);
    var a2 := a1.(friendList := a.friendList + b.friendList);
    var a3 := a2.(pendingList := a.pendingList + b.pendingList);
    assert ApplyAll(ApplyLogin, a, s, d) == Success(a1) by {
      if b.success.Some? {
        SubBoolMerge(a.success.GetOr(EMPTY_BOOL), b.success.value, d);
        ApplyOne(ApplyLogin, a, s[0], d);
      }
    }
    FriendListMerge(a1, 2, b.friendList, d);
    FriendListMerge(a2, 3, b.pendingList, d);
    UnknownLogin(a3, b.unknown, d);
    ApplyAllAppend(ApplyLogin, a, s, fs, d);
    ApplyAllAppend(ApplyLogin, a, s + fs, ps, d);
    ApplyAllAppend(ApplyLogin, a, s + fs + ps, b.unknown, d);
  }

  lemma LoginConcatIsMerge(m: LoginVal, x: seq<byte>, b: LoginVal, d: nat)
    requires ParseInto(ApplyLogin, m, x, d).Success? && WfLogin(b, d) && FitsLogin(b)
    ensures ParseInto(ApplyLogin, m, x + SerializeLogin(b), d)
         == Success(MergeLogin(ParseInto(ApplyLogin, m, x, d).msg, b))
  {
    var a := ParseInto(ApplyLogin, m, x, d).msg;
    LoginRecordsWf(b, d);
    LoginRecordsMerge(a, b, d);
    hide ApplyLogin, RecordsLogin, MergeLogin, ParseInto, ApplyAll, EncodeFields, WfFields;
    EncodedAfter(ApplyLogin, m, x, RecordsLogin(b), d);
  }

  lemma FindRecordsWf(b: FindVal, d: nat)
    requires WfFind(b, d) && FitsFind(b)
    ensures WfFields(RecordsFind(b), d)
  {
    hide SerializeBool, SerializeFriend, SignExtend;
  }

  lemma FindRecordsMerge(a: FindVal, b: FindVal, d: nat)
    requires WfFind(b, d)
    ensures ApplyAll(ApplyFind, a, RecordsFind(b), d) == Success(MergeFind(a, b))
  {
    var e, f := OptionalBool(1, b.exist), OptionalFriend(2, b.friendInfo);
    var state := VarintField(3, SignExtend(b.requestState));
    var r := if b.requestState != 0 then [state] else [];
    var a1 := a.(exist := MergeFind(a, b).exist);
    var a2 := a1.(friendInfo := MergeFind(a, b).friendInfo);
    var a3 := a2.(requestState := MergeFind(a, b).requestState);
    if b.exist.Some? {
      SubBoolMerge(a.exist.GetOr(EMPTY_BOOL), b.exist.value, d);
      ApplyOne(ApplyFind, a, e[0], d);
    }
    if b.friendInfo.Some? {
      SubFriendMerge(a.friendInfo.GetOr(EMPTY_FRIEND), b.friendInfo.value, d);
      ApplyOne(ApplyFind, a1, f[0], d);
    }
    TruncateSignExtend(b.requestState);
    ApplyOne(ApplyFind, a2, state, d);
    UnknownFind(a3, b.unknown, d);
    ApplyAllAppend(ApplyFind, a, e, f, d);
    ApplyAllAppend(ApplyFind, a, e + f, r, d);
    ApplyAllAppend(ApplyFind, a, e + f + r, b.unknown, d);
  }

  lemma FindConcatIsMerge(m: FindVal, x: seq<byte>, b: FindVal, d: nat)
    requires ParseInto(ApplyFind, m, x, d).Success? && WfFind(b, d) && FitsFind(b)
    ensures ParseInto(ApplyFind, m, x + SerializeFind(b), d)
         == Success(MergeFind(ParseInto(ApplyFind, m, x, d).msg, b))
  {
    var a := ParseInto(ApplyFind, m, x, d).msg;
    FindRecordsWf(b, d);
    FindRecordsMerge(a, b, d);
    hide ApplyFind, RecordsFind, MergeFind, ParseInto, ApplyAll, EncodeFields, WfFields;
    EncodedAfter(ApplyFind, m, x, RecordsFind(b), d);
  }
}
