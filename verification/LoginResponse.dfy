/** S2C_LoginResponse: a sub-message with presence and two lists of sub-messages. */
module LoginResponse {
  import opened Basics
  import opened Varint
  import opened WireFormat
  import opened RecordParsing
  import opened Messages
  import opened ConcatTheorems
  import opened ArrayReader
  import opened ArrayWriter
  import opened MessageObjects
  import opened Sizes
  import opened RoundTripTheorems

  lemma LoginSuccessCase(m: LoginVal, b: seq<byte>, d: nat)
    ensures var r := ReadBytes(b);
            AfterTag(ApplyLogin, m, 10, b, d)
            == if r.Bad? then Failure else
               var sub := ParseMessage(ApplyBool, m.success.GetOr(EMPTY_BOOL), r.value, d);
               if sub.Failure? then Failure
               else ParseInto(ApplyLogin, m.(success := Some(sub.msg)), r.rest, d)
  {
    AfterBytesTag(ApplyLogin, m, 1, b, d);
  }

  lemma LoginFriendCase(m: LoginVal, num: nat, b: seq<byte>, d: nat)
    requires num == 2 || num == 3
    ensures var r := ReadBytes(b);
            AfterTag(ApplyLogin, m, num * 8 + 2, b, d)
            == if r.Bad? then Failure else
               var sub := ParseMessage(ApplyFriend, EMPTY_FRIEND, r.value, d);
               if sub.Failure? then Failure
               else ParseInto(ApplyLogin, AddFriends(m, num, [sub.msg]), r.rest, d)
  {
    AfterBytesTag(ApplyLogin, m, num, b, d);
  }

  lemma LoginUnusualCase(m: LoginVal, tag: uint32, b: seq<byte>, d: nat)
    requires tag != 10 && tag != 18 && tag != 26
    ensures var r := ReadBody(tag, b, d);
            AfterTag(ApplyLogin, m, tag, b, d)
            == if r.Bad? then Failure
               else ParseInto(ApplyLogin, m.(unknown := m.unknown + [r.value]), r.rest, d)
  {
    if ReadBody(tag, b, d).Got? {
      ReadBodyWf(tag, b, d);
    }
  }

  lemma LoginParts(m: LoginVal)
    ensures SerializeLogin(m)
         == EncodeFields(OptionalBool(1, m.success))
            + (EncodeFields(FriendRecords(2, m.friendList)) + EncodeFields(FriendRecords(3, m.pendingList)))
            + EncodeFields(m.unknown)
  {
    var s, fs, ps := OptionalBool(1, m.success), FriendRecords(2, m.friendList), FriendRecords(3, m.pendingList);
    EncodeFieldsAppend(s, fs);
    EncodeFieldsAppend(s + fs, ps);
    EncodeFieldsAppend(s + fs + ps, m.unknown);
    Assoc3(EncodeFields(s), EncodeFields(fs), EncodeFields(ps));
  }

  lemma RunGoesOn(m: LoginVal, tag: byte, b: seq<byte>, d: nat)
    requires b != [] && b[0] == tag && tag < 128
    ensures ParseInto(ApplyLogin, m, b, d) == AfterTag(ApplyLogin, m, tag, b[1..], d)
  {
    ParseUnfold(ApplyLogin, m, b, d);
    ReadTagByte(b);
  }

  class S2C_LoginResponse {
    var success: BoolValue?
    var friendList: seq<FriendInfo>
    var pendingList: seq<FriendInfo>
    var unknown: seq<Field>

    ghost predicate Valid()
      reads this, success, friendList, pendingList
    {
      && (success != null ==> !success.freed)
      && Live(friendList) && Live(pendingList)
    }

    ghost function View(): LoginVal
      reads this, success, friendList, pendingList
    {
      LoginVal(ViewBool(success), Views(friendList), Views(pendingList), unknown)
    }

    /** The objects that belong to this message and to no other. */
    ghost function Owned(): set<object>
      reads this
    {
      var sub: set<object> := if success == null then {} else {success};
      sub + (set f: FriendInfo | f in friendList :: f) + (set f: FriendInfo | f in pendingList :: f)
    }

    /** The sub-message is the one there was; only where there was none can there be a new one. */
    twostate predicate Held(p: BoolValue?)
      reads this
    {
      success == p || (p == null && fresh(success))
    }

    constructor ()
      ensures Valid() && View() == EMPTY_LOGIN && Owned() == {}
    {
      success, friendList, pendingList, unknown := null, [], [], [];
    }

    /** Presence, not value: a present sub-message may well hold false. */
    predicate HasSuccess()
      reads this, success, friendList, pendingList
      ensures HasSuccess() <==> View().success.Some?
    {
      success != null
    }

    method MutableSuccess() returns (p: BoolValue)
      requires Valid()
      modifies this`success
      ensures Valid() && p == success && if old(success) == null then fresh(p) else p == old(success)
      ensures View() == old(View()).(success := Some(old(View()).success.GetOr(EMPTY_BOOL)))
    {
      if success == null {
        success := new BoolValue();
      }
      p := success;
    }

    /** One new element at the end of the list that field `num` feeds. */
    method AddFriend(num: nat) returns (f: FriendInfo)
      requires Valid() && (num == 2 || num == 3)
      modifies this`friendList, this`pendingList
      ensures Valid() && fresh(f) && f.View() == EMPTY_FRIEND
      ensures num == 2 ==> friendList == old(friendList) + [f] && pendingList == old(pendingList)
      ensures num == 3 ==> pendingList == old(pendingList) + [f] && friendList == old(friendList)
    {
      f := new FriendInfo();
      if num == 2 {
        friendList := friendList + [f];
      } else {
        pendingList := pendingList + [f];
      }
    }

    /** `delete success_; success_ = nullptr;` */
    method ClearSuccess()
      requires Valid()
      modifies this`success, success
      ensures Valid() && success == null && View() == old(View()).(success := None)
      ensures old(success) != null ==> old(success).freed
    {
      DeleteBool(success);
      success := null;
    }

    /** The caller owns what is released; the message forgets it. */
    method ReleaseSuccess() returns (p: BoolValue?)
      requires Valid()
      modifies this`success
      ensures Valid() && success == null && View() == old(View()).(success := None)
      ensures p == old(success) && (p != null ==> !p.freed && p.View() == old(View()).success.value)
    {
      p := success;
      success := null;
    }

    /** The old sub-message is deleted first, so the new one must be the caller's own. */
    method SetAllocatedSuccess(p: BoolValue?)
      requires Valid()
      requires p != null ==> !p.freed && p != success
      modifies this`success, success
      ensures Valid() && success == p && View() == old(View()).(success := ViewBool(p))
      ensures old(success) != null ==> old(success).freed
    {
      DeleteBool(success);
      success := p;
    }

    method Clear()
      requires Valid()
      modifies this, success
      ensures Valid() && View() == EMPTY_LOGIN && Owned() == {} && success == null && friendList == pendingList == []
      ensures old(success) != null ==> old(success).freed
    {
      friendList := [];
      pendingList := [];
      DeleteBool(success);
      success := null;
      unknown := [];
    }

    /** The case for field 1: merge into the sub-message, creating it if need be. */
    method ParseSuccess(buf: array<byte>, p: nat, limit: nat, d: nat) returns (ok: bool, q: nat)
      requires Valid() && p <= limit <= buf.Length
      modifies this`success, success
      ensures Valid() && Held(old(success))
      ensures ok ==> p <= q <= limit
      ensures AfterTag(ApplyLogin, old(View()), 10, buf[p..limit], d)
           == if ok then ParseInto(ApplyLogin, View(), buf[q..limit], d) else Failure
    {
      hide ParseInto, AfterTag, ParseMessage, ReadBytes, ApplyBool, ApplyLogin;
      LoginSuccessCase(View(), buf[p..limit], d);
      var sub := MutableSuccess();
      ok, q := ParseBoolAt(sub, buf, p, limit, d);
    }

    /**
     The case for fields 2 and 3: a run of records with the same one-byte tag is read without
     going back to the outer loop. `DataAvailable` may answer no at any seam of the input,
     even though bytes remain. Whatever it answers, the run is the same as one record per turn.
     */
    method ParseFriendRun(num: nat, buf: array<byte>, p: nat, limit: nat, d: nat) returns (ok: bool, q: nat)
      requires Valid() && (num == 2 || num == 3)
      requires 1 <= p <= limit <= buf.Length
      modifies this`friendList, this`pendingList
      ensures Valid() && Kept(old(friendList), old(pendingList))
      ensures ok ==> p <= q <= limit
      ensures AfterTag(ApplyLogin, old(View()), num * 8 + 2, buf[p..limit], d)
           == if ok then ParseInto(ApplyLogin, View(), buf[q..limit], d) else Failure
    {
      hide ParseInto, AfterTag, ReadBytes, ApplyLogin;
      var tag := num * 8 + 2;
      ghost var whole := AfterTag(ApplyLogin, View(), tag, buf[p..limit], d);
      q := p - 1;
      var more := true;
      while more
        invariant Valid() && Kept(old(friendList), old(pendingList))
        invariant if more then p <= q + 1 <= limit else p <= q <= limit
        invariant whole == if more then AfterTag(ApplyLogin, View(), tag, buf[q + 1..limit], d)
                           else ParseInto(ApplyLogin, View(), buf[q..limit], d)
        decreases limit - q, more
      {
        q := q + 1;
        ok, q := ParseNewFriend(num, buf, q, limit, d);
        if !ok {
          return;
        }
        var seam: bool := *;
        var dataAvailable := q < limit && !seam;
        more := dataAvailable && buf[q] == tag;
        if more {
          RunGoesOn(View(), tag, buf[q..limit], d);
          assert buf[q..limit][1..] == buf[q + 1..limit];
        }
      }
      ok := true;
    }

    /** One element of a run: a new object at the end of its list, parsed into. */
    method ParseNewFriend(num: nat, buf: array<byte>, p: nat, limit: nat, d: nat) returns (ok: bool, q: nat)
      requires Valid() && (num == 2 || num == 3)
      requires p <= limit <= buf.Length
      modifies this`friendList, this`pendingList
      ensures Valid() && Kept(old(friendList), old(pendingList))
      ensures ok ==> p <= q <= limit
      ensures AfterTag(ApplyLogin, old(View()), num * 8 + 2, buf[p..limit], d)
           == if ok then ParseInto(ApplyLogin, View(), buf[q..limit], d) else Failure
    {
      hide ParseInto, AfterTag, ReadBytes, ParseMessage, ApplyFriend, ApplyLogin, AddFriends, Views, ViewBool;
      LoginFriendCase(View(), num, buf[p..limit], d);
      var f := AddFriend(num);
      ok, q := ParseFriendAt(f, buf, p, limit, d);
      Grown(old(View()), num, old(friendList), old(pendingList), f);
    }

    lemma Grown(v: LoginVal, num: nat, fs: seq<FriendInfo>, ps: seq<FriendInfo>, f: FriendInfo)
      requires num == 2 ==> friendList == fs + [f] && pendingList == ps
      requires num != 2 ==> friendList == fs && pendingList == ps + [f]
      requires LoginVal(ViewBool(success), Views(fs), Views(ps), unknown) == v
      ensures View() == AddFriends(v, num, [f.View()])
    {
      ViewsAppend(fs, f);
      ViewsAppend(ps, f);
    }

    /** The default case: any other record is kept. */
    method ParseUnusual(tag: uint32, buf: array<byte>, p: nat, limit: nat, d: nat) returns (ok: bool, q: nat)
      requires Valid() && p <= limit <= buf.Length && tag != 10 && tag != 18 && tag != 26 && tag != 0 && tag % 8 != 4
      modifies this`unknown
      ensures Valid()
      ensures ok ==> p <= q <= limit
      ensures AfterTag(ApplyLogin, old(View()), tag, buf[p..limit], d)
           == if ok then ParseInto(ApplyLogin, View(), buf[q..limit], d) else Failure
    {
      hide ParseInto, AfterTag, ReadBody;
      LoginUnusualCase(View(), tag, buf[p..limit], d);
      var f;
      ok, q, f := ReadBodyAt(tag, buf, p, limit, d);
      if ok {
        KeepUnknown([f]);
      }
    }

    /**
     The generated parse loop, with its switch on field number and wire type. On every input it
     accepts, rejects and computes what reading one record per turn does.
     */
    method InternalParse(buf: array<byte>, p: nat, limit: nat, d: nat) returns (ok: bool, q: nat)
      requires Valid() && p <= limit <= buf.Length
      modifies this, success
      ensures Valid() && Held(old(success)) && Kept(old(friendList), old(pendingList))
      ensures ok <==> ParseInto(ApplyLogin, old(View()), buf[p..limit], d).Success?
      ensures ok ==> q == limit && View() == ParseInto(ApplyLogin, old(View()), buf[p..limit], d).msg
    {
      hide ParseInto, AfterTag, ReadBody, ApplyLogin, View, Valid;
      ghost var whole := ParseInto(ApplyLogin, View(), buf[p..limit], d);
      q := p;
      while q < limit
        invariant Valid() && Held(old(success))
        invariant Kept(old(friendList), old(pendingList))
        invariant p <= q <= limit
        invariant whole == ParseInto(ApplyLogin, View(), buf[q..limit], d)
      {
        var tag;
        ParseUnfold(ApplyLogin, View(), buf[q..limit], d);
        ok, q, tag := ReadTagAt(buf, q, limit);
        if !ok {
          return;
        }
        if tag == 10 {
          ok, q := ParseSuccess(buf, q, limit, d);
          if !ok {
            return;
          }
        } else if tag == 18 || tag == 26 {
          ok, q := ParseFriendRun(if tag == 18 then 2 else 3, buf, q, limit, d);
          if !ok {
            return;
          }
        } else if tag == 0 || tag % 8 == 4 {
          EndTagFails(ApplyLogin, View(), tag, buf[q..limit], d);
          return false, q;
        } else {
          ok, q := ParseUnusual(tag, buf, q, limit, d);
          if !ok {
            return;
          }
        }
      }
      ParseNothing(ApplyLogin, View(), d);
      assert buf[q..limit] == [];
      ok := true;
    }

    /** `ParseFromString`: start from an empty message, with the default nesting limit. */
    method ParseFromString(data: seq<byte>) returns (ok: bool)
      requires Valid()
      modifies this, success
      ensures Valid() && forall o | o in Owned() :: fresh(o)
      ensures old(success) != null ==> old(success).freed
      ensures ok <==> ParseInto(ApplyLogin, EMPTY_LOGIN, data, RECURSION_LIMIT).Success?
      ensures ok ==> View() == ParseInto(ApplyLogin, EMPTY_LOGIN, data, RECURSION_LIMIT).msg
    {
      hide ParseInto, View;
      Clear();
      var buf := new byte[|data|](i requires 0 <= i < |data| => data[i]);
      assert buf[..] == data && buf[0..|data|] == buf[..];
      var q;
      ok, q := InternalParse(buf, 0, |data|, RECURSION_LIMIT);
    }

    method KeepUnknown(fs: seq<Field>)
      requires Valid()
      modifies this`unknown
      ensures Valid() && View() == old(View()).(unknown := old(View()).unknown + fs)
    {
      unknown := unknown + fs;
    }

    /** Parsing only ever appends new objects to the lists. */
    twostate predicate Kept(fs: seq<FriendInfo>, ps: seq<FriendInfo>)
      reads this
    {
      && (forall f | f in friendList :: f in fs || fresh(f))
      && (forall f | f in pendingList :: f in ps || fresh(f))
    }

    method MergeFriendList(l: seq<FriendInfo>)
      requires Valid() && Live(l)
      modifies this`friendList
      ensures Valid() && Kept(old(friendList), pendingList)
      ensures View() == old(View()).(friendList := old(View()).friendList + Views(l))
    {
      hide Views;
      var fs := CopyList(l);
      ViewsConcat(friendList, fs);
      friendList := friendList + fs;
    }

    method MergePendingList(l: seq<FriendInfo>)
      requires Valid() && Live(l)
      modifies this`pendingList
      ensures Valid() && Kept(friendList, old(pendingList))
      ensures View() == old(View()).(pendingList := old(View()).pendingList + Views(l))
    {
      hide Views;
      var ps := CopyList(l);
      ViewsConcat(pendingList, ps);
      pendingList := pendingList + ps;
    }

    method MergeSuccess(from: BoolValue)
      requires Valid() && !from.freed && from != success
      modifies this`success, success
      ensures Valid() && Held(old(success))
      ensures View() == old(View()).(success :=
                          Some(MergeBool(old(View()).success.GetOr(EMPTY_BOOL), old(from.View()))))
    {
      var sub := MutableSuccess();
      sub.MergeFrom(from);
    }

    /** Merging copies: the elements and the sub-message that are added are new objects. */
    method MergeFrom(from: S2C_LoginResponse)
      requires Valid() && from.Valid() && from != this && (success != null ==> success != from.success)
      modifies this, success
      ensures Valid() && Held(old(success)) && Kept(old(friendList), old(pendingList))
      ensures View() == MergeLogin(old(View()), old(from.View()))
      ensures from.Valid() && from.View() == old(from.View())
    {
      hide View, Valid, Views, MergeBool;
      ghost var v := from.View();
      ViewParts();
      from.ViewParts();
      MergeFriendList(from.friendList);
      MergePendingList(from.pendingList);
      if from.HasSuccess() {
        MergeSuccess(from.success);
      }
      KeepUnknown(from.unknown);
    }

    lemma EmptyExceptUnknown()
      requires success == null && friendList == pendingList == []
      ensures Valid() && View() == EMPTY_LOGIN.(unknown := unknown)
    {
    }

    lemma ViewParts()
      requires Valid()
      ensures success == null <==> View().success.None?
      ensures success != null ==> !success.freed && View().success == Some(success.View())
      ensures View().success == ViewBool(success) && View().unknown == unknown && Live(friendList) && Live(pendingList)
      ensures View().friendList == Views(friendList) && View().pendingList == Views(pendingList)
    {
    }

    /**
     From any prior state the target becomes equal to the source, which is left unchanged, and
     everything a distinct target then owns is new: nothing is shared.
     */
    method CopyFrom(from: S2C_LoginResponse)
      requires Valid() && from.Valid()
      requires from != this && success != null ==> success != from.success
      modifies this, success
      ensures Valid() && View() == old(from.View())
      ensures from.Valid() && from.View() == old(from.View())
      ensures if from == this then Owned() == old(Owned()) else forall o | o in Owned() :: fresh(o)
      ensures from != this && old(success) != null ==> old(success).freed
    {
      if from == this {
        return;
      }
      Clear();
      MergeFrom(from);
      MergeLoginMonoid(from.View(), from.View(), from.View());
    }

    /** The copy constructor agrees with `CopyFrom`: an equal message that owns only new objects. */
    constructor Copy(from: S2C_LoginResponse)
      requires from.Valid()
      ensures Valid() && View() == from.View() && from.View() == old(from.View())
      ensures forall o | o in Owned() :: fresh(o)
    {
      success, friendList, pendingList, unknown := null, [], [], from.unknown;
      new;
      CopyFields(from);
    }

    method CopyFields(from: S2C_LoginResponse)
      requires from.Valid() && from != this
      requires success == null && friendList == pendingList == [] && unknown == from.unknown
      modifies this`success, this`friendList, this`pendingList
      ensures Valid() && View() == from.View()
      ensures forall o | o in Owned() :: fresh(o)
    {
      hide Views, Live, View, Valid;
      EmptyExceptUnknown();
      from.ViewParts();
      MergeFriendList(from.friendList);
      MergePendingList(from.pendingList);
      EmptyUnits(from.View().friendList);
      EmptyUnits(from.View().pendingList);
      if from.HasSuccess() {
        CopySuccess(from.success);
      }
    }

    method CopySuccess(from: BoolValue)
      requires Valid() && !from.freed
      modifies this`success
      ensures Valid() && fresh(success)
      ensures View() == old(View()).(success := Some(from.View()))
    {
      success := new BoolValue.Copy(from);
    }

    /** The destructor frees what the message owns. */
    method Destroy()
      requires Valid()
      modifies success, friendList, pendingList
      ensures success != null ==> success.freed
      ensures forall f | f in friendList + pendingList :: f.freed
    {
      DeleteBool(success);
      DestroyList(friendList + pendingList);
    }

    method DestroyList(l: seq<FriendInfo>)
      modifies l
      ensures forall f | f in l :: f.freed
    {
      for i := 0 to |l|
        invariant forall j | 0 <= j < i :: l[j].freed
      {
        l[i].freed := true;
      }
    }

    /** The size pass: lists first, then the sub-message, then unknown fields. */
    method ByteSizeLong() returns (size: nat)
      requires Valid()
      ensures size == ByteSizeLogin(View())
    {
      hide LengthDelimitedSize, FriendsSize, UnknownSize, ByteSizeBool, Views;
      size := |friendList|;
      var n := ListSize(friendList);
      size := size + n + |pendingList|;
      n := ListSize(pendingList);
      size := size + n;
      if success != null {
        n := success.ByteSizeLong();
        size := size + 1 + LengthDelimitedSize(n);
      }
      n := ComputeUnknownFieldsSize(unknown);
      size := size + n;
    }

    method ListSize(l: seq<FriendInfo>) returns (size: nat)
      requires Live(l)
      ensures size == FriendsSize(Views(l))
    {
      size := 0;
      for i := 0 to |l|
        invariant size + FriendsSize(Views(l)[i..]) == FriendsSize(Views(l))
      {
        var n := l[i].ByteSizeLong();
        ViewsAt(l, i);
        size := size + LengthDelimitedSize(n);
        assert Views(l)[i..][1..] == Views(l)[i + 1..];
      }
    }

    method WriteList(num: nat, l: seq<FriendInfo>, target: array<byte>, p: nat) returns (q: nat)
      requires Live(l) && TypedList(l)
      requires |EncodeFields(FriendRecords(num, Views(l)))| <= INT_MAX
      requires p + |EncodeFields(FriendRecords(num, Views(l)))| <= target.Length
      modifies target
      ensures q == p + |EncodeFields(FriendRecords(num, Views(l)))|
      ensures Written(old(target[..]), target[..], p, EncodeFields(FriendRecords(num, Views(l))))
    {
      hide Written, Encode, EncodeField, EncodeFields, SerializeFriend, Views, FriendRecords;
      ghost var fs := FriendRecords(num, Views(l));
      ghost var before := target[..];
      q := p;
      WrittenNothing(before, p);
      EncodeNothing();
      for i := 0 to |l|
        invariant q == p + |EncodeFields(fs[..i])|
        invariant Written(before, target[..], p, EncodeFields(fs[..i]))
      {
        ViewsAt(l, i);
        assert fs[i] == BytesField(num, SerializeFriend(l[i].View()));
        TakeOneMore(fs, i);
        ghost var mid := target[..];
        PayloadShorter(num, SerializeFriend(l[i].View()));
        q := WriteFriendMessage(num, l[i], target, q);
        WrittenThen(before, mid, target[..], p, EncodeFields(fs[..i]), EncodeField(fs[i]));
      }
      assert fs[..|l|] == fs;
    }

    ghost function SuccessBytes(): seq<byte>
      reads this, success
    {
      EncodeFields(OptionalBool(1, ViewBool(success)))
    }

    ghost function ListBytes(): seq<byte>
      reads this, friendList, pendingList
    {
      FriendBytes(2, friendList) + FriendBytes(3, pendingList)
    }

    /** Everything this message owns is alive, its fields are typed, and no part is too long to write. */
    ghost predicate Writable()
      reads this, success, friendList, pendingList
    {
      && Live(friendList) && Live(pendingList) && TypedList(friendList) && TypedList(pendingList)
      && |ListBytes()| <= INT_MAX
      && (success != null ==>
            !success.freed && TypedFields(success.unknown) && |SerializeBool(success.View())| <= INT_MAX)
    }

    lemma Parts()
      requires Valid() && TypedObjects() && |SerializeLogin(View())| <= INT_MAX
      ensures Writable() && SerializeLogin(View()) == SuccessBytes() + ListBytes() + EncodeFields(unknown)
    {
      hide EncodeFields, FriendRecords, Views, OptionalBool, SerializeBool, SerializeLogin, TypedFields, TypedList,
        Live;
      LoginParts(View());
      OptionalPayload(View().success);
    }

    method WriteSuccess(target: array<byte>, p: nat) returns (q: nat)
      requires Writable() && p + |SuccessBytes()| <= target.Length
      modifies target
      ensures q == p + |SuccessBytes()| && Written(old(target[..]), target[..], p, SuccessBytes())
    {
      hide Written, Encode, EncodeField, EncodeFields;
      EncodeNothing();
      WrittenNothing(target[..], p);
      q := p;
      if success != null {
        EncodeOne(BytesField(1, SerializeBool(success.View())));
        q := WriteBoolMessage(1, success, target, q);
      }
    }

    method WriteLists(target: array<byte>, p: nat) returns (q: nat)
      requires Writable() && p + |ListBytes()| <= target.Length
      modifies target
      ensures q == p + |ListBytes()| && Written(old(target[..]), target[..], p, ListBytes())
    {
      hide Written, EncodeFields, FriendRecords, Views, Live, TypedList;
      ghost var before := target[..];
      q := WriteList(2, friendList, target, p);
      ghost var b1 := target[..];
      q := WriteList(3, pendingList, target, q);
      WrittenThen(before, b1, target[..], p, FriendBytes(2, friendList), FriendBytes(3, pendingList));
    }

    ghost function FriendBytes(num: nat, l: seq<FriendInfo>): seq<byte>
      reads l
    {
      EncodeFields(FriendRecords(num, Views(l)))
    }

    method InternalSerialize(target: array<byte>, p: nat) returns (q: nat)
      requires Valid() && TypedObjects()
      requires |SerializeLogin(View())| <= INT_MAX && p + |SerializeLogin(View())| <= target.Length
      modifies target
      ensures q == p + |SerializeLogin(View())|
      ensures Written(old(target[..]), target[..], p, SerializeLogin(View()))
    {
      hide Written, SerializeLogin, EncodeFields, TypedFields, Valid, View, Writable, SuccessBytes, ListBytes;
      Parts();
      ghost var s, ls, u, before := SuccessBytes(), ListBytes(), EncodeFields(unknown), target[..];
      q := WriteSuccess(target, p);
      ghost var b1 := target[..];
      q := WriteLists(target, q);
      ghost var b2 := target[..];
      q := WriteFields(unknown, target, q);
      WrittenThree(before, b1, b2, target[..], p, s, ls, u);
    }

    ghost predicate TypedObjects()
      reads this, success, friendList, pendingList
    {
      && (success != null ==> TypedFields(success.unknown))
      && TypedList(friendList) && TypedList(pendingList) && TypedFields(unknown)
    }

    /**
     `SerializeToString`: refused exactly when the true serialisation is over two gigabytes,
     although the decision is made on the computed size alone.
     */
    method SerializeToString() returns (ok: bool, output: seq<byte>)
      requires Valid() && TypedObjects()
      ensures ok <==> |SerializeLogin(View())| <= 0x7FFF_FFFF
      ensures output == if ok then SerializeLogin(View()) else []
    {
      hide Written, SerializeLogin, View, ByteSizeLogin;
      TypedViews();
      ByteSizeLoginAgrees(View());
      var size := ByteSizeLong();
      if size > INT_MAX {
        return false, [];
      }
      var target := new byte[size](_ => 0);
      ghost var before := target[..];
      var q := InternalSerialize(target, 0);
      WrittenAll(before, target[..], SerializeLogin(View()));
      return true, target[..];
    }

    lemma TypedViews()
      requires TypedObjects()
      ensures TypedLogin(View())
    {
      ViewsTyped(friendList);
      ViewsTyped(pendingList);
    }
  }
}
