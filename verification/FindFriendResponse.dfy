/** S2C_FindFriendResponse: two sub-messages with presence and a number. */
module FindFriendResponse {
  import opened Basics
  import opened Varint
  import opened WireFormat
  import opened RecordParsing
  import opened Messages
  import opened ArrayReader
  import opened ArrayWriter
  import opened MessageObjects
  import opened RoundTripTheorems
  import opened Sizes

  lemma FindExistCase(m: FindVal, b: seq<byte>, d: nat)
    ensures var r := ReadBytes(b);
            AfterTag(ApplyFind, m, 10, b, d)
            == if r.Bad? then Failure else
               var sub := ParseMessage(ApplyBool, m.exist.GetOr(EMPTY_BOOL), r.value, d);
               if sub.Failure? then Failure else ParseInto(ApplyFind, m.(exist := Some(sub.msg)), r.rest, d)
  {
    AfterBytesTag(ApplyFind, m, 1, b, d);
  }

  lemma FindFriendCase(m: FindVal, b: seq<byte>, d: nat)
    ensures var r := ReadBytes(b);
            AfterTag(ApplyFind, m, 18, b, d)
            == if r.Bad? then Failure else
               var sub := ParseMessage(ApplyFriend, m.friendInfo.GetOr(EMPTY_FRIEND), r.value, d);
               if sub.Failure? then Failure else ParseInto(ApplyFind, m.(friendInfo := Some(sub.msg)), r.rest, d)
  {
    AfterBytesTag(ApplyFind, m, 2, b, d);
  }

  lemma FindStateCase(m: FindVal, b: seq<byte>, d: nat)
    ensures var r := ReadVarint32(b);
            AfterTag(ApplyFind, m, 24, b, d)
            == if r.Bad? then Failure
               else ParseInto(ApplyFind, m.(requestState := Truncate32(r.value)), r.rest, d)
  {
    hide ParseInto, ReadVarint32, ReadVarint64, Truncate32;
    AfterVarintTag(ApplyFind, m, 3, b, d);
    ReadInt32(b);
  }

  lemma FindUnusualCase(m: FindVal, tag: uint32, b: seq<byte>, d: nat)
    requires tag != 10 && tag != 18 && tag != 24
    ensures var r := ReadBody(tag, b, d);
            AfterTag(ApplyFind, m, tag, b, d)
            == if r.Bad? then Failure
               else ParseInto(ApplyFind, m.(unknown := m.unknown + [r.value]), r.rest, d)
  {
    if ReadBody(tag, b, d).Got? {
      ReadBodyWf(tag, b, d);
    }
  }

  lemma FindParts(m: FindVal)
    ensures SerializeFind(m)
         == EncodeFields(OptionalBool(1, m.exist)) + EncodeFields(OptionalFriend(2, m.friendInfo))
            + EncodeFields(if m.requestState != 0 then [VarintField(3, SignExtend(m.requestState))] else [])
            + EncodeFields(m.unknown)
  {
    var e, f := OptionalBool(1, m.exist), OptionalFriend(2, m.friendInfo);
    var r := if m.requestState != 0 then [VarintField(3, SignExtend(m.requestState))] else [];
    EncodeFieldsAppend(e, f);
    EncodeFieldsAppend(e + f, r);
    EncodeFieldsAppend(e + f + r, m.unknown);
  }

  class S2C_FindFriendResponse {
    var exist: BoolValue?
    var friendInfo: FriendInfo?
    var requestState: int32
    var unknown: seq<Field>

    ghost predicate Valid()
      reads this, exist, friendInfo
    {
      (exist != null ==> !exist.freed) && (friendInfo != null ==> !friendInfo.freed)
    }

    ghost function View(): FindVal
      reads this, exist, friendInfo
    {
      FindVal(ViewBool(exist), ViewFriend(friendInfo), requestState, unknown)
    }

    ghost predicate Apart(other: S2C_FindFriendResponse)
      reads this, other
    {
      (exist != null ==> exist != other.exist) && (friendInfo != null ==> friendInfo != other.friendInfo)
    }

    /** Each sub-message is the one there was, or new. */
    twostate predicate Kept(e: BoolValue?, f: FriendInfo?)
      reads this
    {
      (exist == e || fresh(exist)) && (friendInfo == f || fresh(friendInfo))
    }

    constructor ()
      ensures Valid() && View() == EMPTY_FIND && exist == null && friendInfo == null
    {
      exist, friendInfo, requestState, unknown := null, null, 0, [];
    }

    method MutableExist() returns (p: BoolValue)
      requires Valid()
      modifies this`exist
      ensures Valid() && p == exist && if old(exist) == null then fresh(p) else p == old(exist)
      ensures View() == old(View()).(exist := Some(old(View()).exist.GetOr(EMPTY_BOOL)))
    {
      if exist == null {
        exist := new BoolValue();
      }
      p := exist;
    }

    method MutableFriendInfo() returns (p: FriendInfo)
      requires Valid()
      modifies this`friendInfo
      ensures Valid() && p == friendInfo && if old(friendInfo) == null then fresh(p) else p == old(friendInfo)
      ensures View() == old(View()).(friendInfo := Some(old(View()).friendInfo.GetOr(EMPTY_FRIEND)))
    {
      if friendInfo == null {
        friendInfo := new FriendInfo();
      }
      p := friendInfo;
    }

    method Clear()
      requires Valid()
      modifies this, exist, friendInfo
      ensures Valid() && View() == EMPTY_FIND && exist == null && friendInfo == null
      ensures old(exist) != null ==> old(exist).freed
      ensures old(friendInfo) != null ==> old(friendInfo).freed
    {
      DeleteBool(exist);
      exist := null;
      DeleteFriend(friendInfo);
      friendInfo := null;
      requestState := 0;
      unknown := [];
    }

    method ParseExist(buf: array<byte>, p: nat, limit: nat, d: nat) returns (ok: bool, q: nat)
      requires Valid() && p <= limit <= buf.Length
      modifies this`exist, exist
      ensures Valid() && (exist == old(exist) || fresh(exist))
      ensures ok ==> p <= q <= limit
      ensures AfterTag(ApplyFind, old(View()), 10, buf[p..limit], d)
           == if ok then ParseInto(ApplyFind, View(), buf[q..limit], d) else Failure
    {
      hide ParseInto, AfterTag;
      FindExistCase(View(), buf[p..limit], d);
      var sub := MutableExist();
      ok, q := ParseBoolAt(sub, buf, p, limit, d);
    }

    method ParseFriendInfo(buf: array<byte>, p: nat, limit: nat, d: nat) returns (ok: bool, q: nat)
      requires Valid() && p <= limit <= buf.Length
      modifies this`friendInfo, friendInfo
      ensures Valid() && (friendInfo == old(friendInfo) || fresh(friendInfo))
      ensures ok ==> p <= q <= limit
      ensures AfterTag(ApplyFind, old(View()), 18, buf[p..limit], d)
           == if ok then ParseInto(ApplyFind, View(), buf[q..limit], d) else Failure
    {
      hide ParseInto, AfterTag;
      FindFriendCase(View(), buf[p..limit], d);
      var sub := MutableFriendInfo();
      ok, q := ParseFriendAt(sub, buf, p, limit, d);
    }

    method ParseState(buf: array<byte>, p: nat, limit: nat, d: nat) returns (ok: bool, q: nat)
      requires Valid() && p <= limit <= buf.Length
      modifies this`requestState
      ensures Valid()
      ensures ok ==> p <= q <= limit
      ensures AfterTag(ApplyFind, old(View()), 24, buf[p..limit], d)
           == if ok then ParseInto(ApplyFind, View(), buf[q..limit], d) else Failure
    {
      hide ParseInto, AfterTag;
      FindStateCase(View(), buf[p..limit], d);
      var v;
      ok, q, v := ReadVarint32At(buf, p, limit);
      if ok {
        requestState := Truncate32(v);
      }
    }

    /** The default case: any other record is kept. */
    method ParseUnusual(tag: uint32, buf: array<byte>, p: nat, limit: nat, d: nat) returns (ok: bool, q: nat)
      requires Valid() && p <= limit <= buf.Length && tag != 10 && tag != 18 && tag != 24 && tag != 0 && tag % 8 != 4
      modifies this`unknown
      ensures Valid()
      ensures ok ==> p <= q <= limit
      ensures AfterTag(ApplyFind, old(View()), tag, buf[p..limit], d)
           == if ok then ParseInto(ApplyFind, View(), buf[q..limit], d) else Failure
    {
      hide ParseInto, AfterTag, ReadBody;
      FindUnusualCase(View(), tag, buf[p..limit], d);
      var f;
      ok, q, f := ReadBodyAt(tag, buf, p, limit, d);
      if ok {
        unknown := unknown + [f];
      }
    }

    method InternalParse(buf: array<byte>, p: nat, limit: nat, d: nat) returns (ok: bool, q: nat)
      requires Valid() && p <= limit <= buf.Length
      modifies this, exist, friendInfo
      ensures Valid() && Kept(old(exist), old(friendInfo))
      ensures ok <==> ParseInto(ApplyFind, old(View()), buf[p..limit], d).Success?
      ensures ok ==> q == limit && View() == ParseInto(ApplyFind, old(View()), buf[p..limit], d).msg
    {
      hide ParseInto, AfterTag, ReadBody, ApplyFind, View, Valid;
      ghost var whole := ParseInto(ApplyFind, View(), buf[p..limit], d);
      q := p;
      while q < limit
        invariant Valid() && Kept(old(exist), old(friendInfo))
        invariant p <= q <= limit
        invariant whole == ParseInto(ApplyFind, View(), buf[q..limit], d)
      {
        var tag;
        ParseUnfold(ApplyFind, View(), buf[q..limit], d);
        ok, q, tag := ReadTagAt(buf, q, limit);
        if !ok {
          return;
        }
        if tag == 10 {
          ok, q := ParseExist(buf, q, limit, d);
          if !ok {
            return;
          }
        } else if tag == 18 {
          ok, q := ParseFriendInfo(buf, q, limit, d);
          if !ok {
            return;
          }
        } else if tag == 24 {
          ok, q := ParseState(buf, q, limit, d);
          if !ok {
            return;
          }
        } else if tag == 0 || tag % 8 == 4 {
          EndTagFails(ApplyFind, View(), tag, buf[q..limit], d);
          return false, q;
        } else {
          ok, q := ParseUnusual(tag, buf, q, limit, d);
          if !ok {
            return;
          }
        }
      }
      ParseNothing(ApplyFind, View(), d);
      assert buf[q..limit] == [];
      ok := true;
    }

    method MergeExist(from: BoolValue)
      requires Valid() && !from.freed && from != exist
      modifies this`exist, exist
      ensures Valid() && (exist == old(exist) || fresh(exist))
      ensures View() == old(View()).(exist := Some(MergeBool(old(View()).exist.GetOr(EMPTY_BOOL), old(from.View()))))
    {
      var sub := MutableExist();
      sub.MergeFrom(from);
    }

    method MergeFriendInfo(from: FriendInfo)
      requires Valid() && !from.freed && from != friendInfo
      modifies this`friendInfo, friendInfo
      ensures Valid() && (friendInfo == old(friendInfo) || fresh(friendInfo))
      ensures View() == old(View()).(friendInfo :=
                          Some(MergeFriend(old(View()).friendInfo.GetOr(EMPTY_FRIEND), old(from.View()))))
    {
      var sub := MutableFriendInfo();
      sub.MergeFrom(from);
    }

    method MergeRest(state: int32, fs: seq<Field>)
      requires Valid()
      modifies this`requestState, this`unknown
      ensures Valid()
      ensures View() == old(View()).(requestState := if state != 0 then state else old(View()).requestState,
                                     unknown := old(View()).unknown + fs)
    {
      if state != 0 {
        requestState := state;
      }
      unknown := unknown + fs;
    }

    lemma ViewParts()
      requires Valid()
      ensures View() == FindVal(ViewBool(exist), ViewFriend(friendInfo), requestState, unknown)
      ensures exist != null ==> !exist.freed
      ensures friendInfo != null ==> !friendInfo.freed
    {
    }

    method MergeFrom(from: S2C_FindFriendResponse)
      requires Valid() && from.Valid() && from != this && Apart(from)
      modifies this, exist, friendInfo
      ensures Valid() && Kept(old(exist), old(friendInfo))
      ensures View() == MergeFind(old(View()), old(from.View()))
      ensures from.Valid() && from.View() == old(from.View())
    {
      ViewParts();
      from.ViewParts();
      hide View, Valid, MergeBool, MergeFriend;
      if from.exist != null {
        MergeExist(from.exist);
      }
      if from.friendInfo != null {
        MergeFriendInfo(from.friendInfo);
      }
      MergeRest(from.requestState, from.unknown);
    }

    method CopyFrom(from: S2C_FindFriendResponse)
      requires Valid() && from.Valid() && (from != this ==> Apart(from))
      modifies this, exist, friendInfo
      ensures Valid() && View() == old(from.View())
      ensures from.Valid() && from.View() == old(from.View())
      ensures from != this ==> (exist != null ==> fresh(exist)) && (friendInfo != null ==> fresh(friendInfo))
      ensures from != this && old(exist) != null ==> old(exist).freed
      ensures from != this && old(friendInfo) != null ==> old(friendInfo).freed
      ensures from == this ==> unchanged(this) && (exist != null ==> unchanged(exist))
      ensures from == this ==> friendInfo != null ==> unchanged(friendInfo)
    {
      if from == this {
        return;
      }
      Clear();
      MergeFrom(from);
      MergeFindMonoid(from.View(), from.View(), from.View());
    }

    constructor Copy(from: S2C_FindFriendResponse)
      requires from.Valid()
      ensures Valid() && View() == from.View() && from.View() == old(from.View())
      ensures (exist != null ==> fresh(exist)) && (friendInfo != null ==> fresh(friendInfo))
    {
      exist, friendInfo := null, null;
      requestState, unknown := from.requestState, from.unknown;
      new;
      if from.exist != null {
        exist := new BoolValue.Copy(from.exist);
      }
      if from.friendInfo != null {
        friendInfo := new FriendInfo.Copy(from.friendInfo);
      }
    }

    method ByteSizeLong() returns (size: nat)
      requires Valid()
      ensures size == ByteSizeFind(View())
    {
      hide LengthDelimitedSize, UnknownSize, ByteSizeBool, ByteSizeFriend, Int32SizePlusOne;
      size := 0;
      var n;
      if exist != null {
        n := exist.ByteSizeLong();
        size := size + 1 + LengthDelimitedSize(n);
      }
      if friendInfo != null {
        n := friendInfo.ByteSizeLong();
        size := size + 1 + LengthDelimitedSize(n);
      }
      if requestState != 0 {
        size := size + Int32SizePlusOne(requestState);
      }
      n := ComputeUnknownFieldsSize(unknown);
      size := size + n;
    }

    ghost function ExistBytes(): seq<byte>
      reads this, exist
    {
      EncodeFields(OptionalBool(1, ViewBool(exist)))
    }

    ghost function FriendInfoBytes(): seq<byte>
      reads this, friendInfo
    {
      EncodeFields(OptionalFriend(2, ViewFriend(friendInfo)))
    }

    ghost function RestBytes(): seq<byte>
      reads this
    {
      EncodeFields(StateRecords()) + EncodeFields(unknown)
    }

    /** The two sub-messages are alive and their fields are typed. */
    ghost predicate Writable()
      reads this, exist, friendInfo
    {
      && (exist != null ==> !exist.freed && TypedFields(exist.unknown) && |SerializeBool(exist.View())| <= INT_MAX)
      && (friendInfo != null ==>
            && !friendInfo.freed && TypedFields(friendInfo.unknown)
            && |SerializeFriend(friendInfo.View())| <= INT_MAX)
    }

    lemma Parts()
      requires Valid() && TypedObjects() && |SerializeFind(View())| <= INT_MAX
      ensures Writable() && SerializeFind(View()) == ExistBytes() + FriendInfoBytes() + RestBytes()
    {
      hide EncodeFields, OptionalBool, OptionalFriend, SerializeBool, SerializeFriend, SerializeFind, TypedFields;
      var v := View();
      FindParts(v);
      OptionalPayload(v.exist);
      OptionalFriendPayload(v.friendInfo);
      Assoc3(ExistBytes() + FriendInfoBytes(), EncodeFields(StateRecords()), EncodeFields(unknown));
    }

    method WriteExist(target: array<byte>, p: nat) returns (q: nat)
      requires Writable()
      requires p + |ExistBytes()| <= target.Length
      modifies target
      ensures q == p + |ExistBytes()|
      ensures Written(old(target[..]), target[..], p, ExistBytes())
    {
      hide Written, Encode, EncodeField, EncodeFields;
      EncodeNothing();
      WrittenNothing(target[..], p);
      q := p;
      if exist != null {
        EncodeOne(BytesField(1, SerializeBool(exist.View())));
        q := WriteBoolMessage(1, exist, target, q);
      }
    }

    method WriteFriendInfo(target: array<byte>, p: nat) returns (q: nat)
      requires Writable()
      requires p + |FriendInfoBytes()| <= target.Length
      modifies target
      ensures q == p + |FriendInfoBytes()|
      ensures Written(old(target[..]), target[..], p, FriendInfoBytes())
    {
      hide Written, Encode, EncodeField, EncodeFields;
      EncodeNothing();
      WrittenNothing(target[..], p);
      q := p;
      if friendInfo != null {
        EncodeOne(BytesField(2, SerializeFriend(friendInfo.View())));
        q := WriteFriendMessage(2, friendInfo, target, q);
      }
    }

    ghost function StateRecords(): seq<Field>
      reads this
    {
      if requestState != 0 then [VarintField(3, SignExtend(requestState))] else []
    }

    method WriteStateAndUnknown(target: array<byte>, p: nat) returns (q: nat)
      requires p + |RestBytes()| <= target.Length
      modifies target
      ensures q == p + |RestBytes()|
      ensures Written(old(target[..]), target[..], p, RestBytes())
    {
      hide Written, Encode, EncodeField, EncodeFields;
      EncodeNothing();
      ghost var before := target[..];
      WrittenNothing(before, p);
      EncodeOne(VarintField(3, SignExtend(requestState)));
      q := p;
      if requestState != 0 {
        q := WriteVarintField(3, SignExtend(requestState), target, q);
      }
      ghost var mid := target[..];
      q := WriteFields(unknown, target, q);
      WrittenThen(before, mid, target[..], p, EncodeFields(StateRecords()), EncodeFields(unknown));
    }

    ghost predicate TypedObjects()
      reads this, exist, friendInfo
    {
      && (exist != null ==> TypedFields(exist.unknown))
      && (friendInfo != null ==> TypedFields(friendInfo.unknown))
      && TypedFields(unknown)
    }

    method InternalSerialize(target: array<byte>, p: nat) returns (q: nat)
      requires Valid() && TypedObjects()
      requires |SerializeFind(View())| <= INT_MAX && p + |SerializeFind(View())| <= target.Length
      modifies target
      ensures q == p + |SerializeFind(View())|
      ensures Written(old(target[..]), target[..], p, SerializeFind(View()))
    {
      hide Written, SerializeFind, TypedObjects, Valid, View, Writable, ExistBytes, FriendInfoBytes, RestBytes;
      Parts();
      ghost var e, f, r, before := ExistBytes(), FriendInfoBytes(), RestBytes(), target[..];
      q := WriteExist(target, p);
      ghost var b1 := target[..];
      q := WriteFriendInfo(target, q);
      ghost var b2 := target[..];
      q := WriteStateAndUnknown(target, q);
      WrittenThree(before, b1, b2, target[..], p, e, f, r);
    }

    method SerializeToString() returns (ok: bool, output: seq<byte>)
      requires Valid() && TypedObjects()
      ensures ok <==> |SerializeFind(View())| <= 0x7FFF_FFFF
      ensures output == if ok then SerializeFind(View()) else []
    {
      hide Written, SerializeFind, ByteSizeFind, TypedFields;
      ByteSizeFindAgrees(View());
      var size := ByteSizeLong();
      if size > INT_MAX {
        return false, [];
      }
      var target := new byte[size](_ => 0);
      ghost var before := target[..];
      var q := InternalSerialize(target, 0);
      WrittenAll(before, target[..], SerializeFind(View()));
      return true, target[..];
    }
  }
}
