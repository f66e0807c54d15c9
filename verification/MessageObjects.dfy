/**
 The message objects. Each class has the fields of the generated class, and its methods are
 proved against the value functions of `Messages`.
 */
module MessageObjects {
  import opened Basics
  import opened Varint
  import opened WireFormat
  import opened RecordParsing
  import opened Messages
  import opened ConcatTheorems
  import opened ArrayReader
  import opened ArrayWriter
  import opened Sizes
  import Utf8

  //
  // One turn of a parse loop, case by case: what the rest of the parse is once the case is known
  //

  lemma BoolValueCase(m: BoolVal, b: seq<byte>, d: nat)
    ensures var r := ReadVarint64(b);
            AfterTag(ApplyBool, m, 8, b, d)
            == if r.Bad? then Failure else ParseInto(ApplyBool, m.(value := r.value != 0), r.rest, d)
  {
    AfterVarintTag(ApplyBool, m, 1, b, d);
  }

  lemma BoolUnusualCase(m: BoolVal, tag: uint32, b: seq<byte>, d: nat)
    requires tag != 8
    ensures var r := ReadBody(tag, b, d);
            AfterTag(ApplyBool, m, tag, b, d)
            == if r.Bad? then Failure
               else ParseInto(ApplyBool, m.(unknown := m.unknown + [r.value]), r.rest, d)
  {
    if ReadBody(tag, b, d).Got? {
      ReadBodyWf(tag, b, d);
    }
  }

  class BoolValue {
    var value: bool
    var unknown: seq<Field>
    /** Set by `delete`; an object must not be used or deleted afterwards. */
    ghost var freed: bool

    ghost function View(): BoolVal
      reads this
    {
      BoolVal(value, unknown)
    }

    constructor ()
      ensures View() == EMPTY_BOOL && !freed
    {
      value, unknown, freed := false, [], false;
    }

    constructor Copy(from: BoolValue)
      ensures View() == from.View() && !freed
    {
      value, unknown, freed := from.value, from.unknown, false;
    }

    method Clear()
      requires !freed
      modifies this`value, this`unknown
      ensures View() == EMPTY_BOOL
    {
      value, unknown := false, [];
    }

    method MergeFrom(from: BoolValue)
      requires !freed && !from.freed && from != this
      modifies this`value, this`unknown
      ensures View() == MergeBool(old(View()), from.View())
    {
      if from.value {
        value := from.value;
      }
      unknown := unknown + from.unknown;
    }

    method ByteSizeLong() returns (size: nat)
      requires !freed
      ensures size == ByteSizeBool(View())
    {
      size := 0;
      if value {
        size := size + 1 + 1;
      }
      var n := ComputeUnknownFieldsSize(unknown);
      size := size + n;
    }

    method InternalSerialize(target: array<byte>, p: nat) returns (q: nat)
      requires !freed && p + |SerializeBool(View())| <= target.Length
      modifies target
      ensures q == p + |SerializeBool(View())|
      ensures Written(old(target[..]), target[..], p, SerializeBool(View()))
    {
      hide Written, EncodeField;
      ghost var before := target[..];
      ghost var own := if value then [VarintField(1, 1)] else [];
      EncodeOne(VarintField(1, 1));
      EncodeFieldsAppend(own, unknown);
      q := p;
      WrittenNothing(before, p);
      if value {
        q := WriteVarintField(1, 1, target, q);
      }
      ghost var mid := target[..];
      q := WriteFields(unknown, target, q);
      WrittenThen(before, mid, target[..], p, EncodeFields(own), EncodeFields(unknown));
    }

    method InternalParse(buf: array<byte>, p: nat, limit: nat, d: nat) returns (ok: bool, q: nat)
      requires !freed && p <= limit <= buf.Length
      modifies this`value, this`unknown
      ensures ok <==> ParseInto(ApplyBool, old(View()), buf[p..limit], d).Success?
      ensures ok ==> q == limit && View() == ParseInto(ApplyBool, old(View()), buf[p..limit], d).msg
    {
      ghost var whole := ParseInto(ApplyBool, View(), buf[p..limit], d);
      q := p;
      while q < limit
        invariant p <= q <= limit
        invariant whole == ParseInto(ApplyBool, View(), buf[q..limit], d)
      {
        var tag;
        ParseUnfold(ApplyBool, View(), buf[q..limit], d);
        ok, q, tag := ReadTagAt(buf, q, limit);
        if !ok {
          return;
        }
        if tag == 8 {
          BoolValueCase(View(), buf[q..limit], d);
          var v;
          ok, q, v := ReadVarint64At(buf, q, limit);
          if !ok {
            return;
          }
          value := v != 0;
        } else if tag == 0 || tag % 8 == 4 {
          EndTagFails(ApplyBool, View(), tag, buf[q..limit], d);
          return false, q;
        } else {
          var f;
          BoolUnusualCase(View(), tag, buf[q..limit], d);
          ok, q, f := ReadBodyAt(tag, buf, q, limit, d);
          if !ok {
            return;
          }
          unknown := unknown + [f];
        }
      }
      ok := true;
    }
  }

  lemma FriendNameCase(m: FriendVal, b: seq<byte>, d: nat)
    ensures var r := ReadBytes(b);
            AfterTag(ApplyFriend, m, 10, b, d)
            == if r.Bad? || !Utf8.Valid(r.value) then Failure
               else ParseInto(ApplyFriend, m.(username := r.value), r.rest, d)
  {
    AfterBytesTag(ApplyFriend, m, 1, b, d);
  }

  lemma FriendStateCase(m: FriendVal, b: seq<byte>, d: nat)
    ensures var r := ReadVarint32(b);
            AfterTag(ApplyFriend, m, 16, b, d)
            == if r.Bad? then Failure
               else ParseInto(ApplyFriend, m.(state := Truncate32(r.value)), r.rest, d)
  {
    AfterVarintTag(ApplyFriend, m, 2, b, d);
    ReadInt32(b);
  }

  lemma FriendUnusualCase(m: FriendVal, tag: uint32, b: seq<byte>, d: nat)
    requires tag != 10 && tag != 16
    ensures var r := ReadBody(tag, b, d);
            AfterTag(ApplyFriend, m, tag, b, d)
            == if r.Bad? then Failure
               else ParseInto(ApplyFriend, m.(unknown := m.unknown + [r.value]), r.rest, d)
  {
    if ReadBody(tag, b, d).Got? {
      ReadBodyWf(tag, b, d);
    }
  }

  lemma FriendParts(m: FriendVal)
    ensures SerializeFriend(m)
         == (if m.username != [] then EncodeField(BytesField(1, m.username)) else [])
            + (if m.state != 0 then EncodeField(VarintField(2, SignExtend(m.state))) else [])
            + EncodeFields(m.unknown)
  {
    hide EncodeField, SignExtend;
    var names := if m.username != [] then [BytesField(1, m.username)] else [];
    var states := if m.state != 0 then [VarintField(2, SignExtend(m.state))] else [];
    EncodeOne(BytesField(1, m.username));
    EncodeOne(VarintField(2, SignExtend(m.state)));
    EncodeFieldsAppend(names, states);
    EncodeFieldsAppend(names + states, m.unknown);
  }

  class FriendInfo {
    var username: seq<byte>
    var state: int32
    var unknown: seq<Field>
    ghost var freed: bool

    ghost function View(): FriendVal
      reads this
    {
      FriendVal(username, state, unknown)
    }

    constructor ()
      ensures View() == EMPTY_FRIEND && !freed
    {
      username, state, unknown, freed := [], 0, [], false;
    }

    constructor Copy(from: FriendInfo)
      ensures View() == from.View() && !freed
    {
      unknown := from.unknown;
      username := [];
      if from.username != [] {
        username := from.username;
      }
      state := from.state;
      freed := false;
    }

    method Clear()
      requires !freed
      modifies this`username, this`state, this`unknown
      ensures View() == EMPTY_FRIEND
    {
      username, state, unknown := [], 0, [];
    }

    method MergeFrom(from: FriendInfo)
      requires !freed && !from.freed && from != this
      modifies this`username, this`state, this`unknown
      ensures View() == MergeFriend(old(View()), from.View())
    {
      if from.username != [] {
        username := from.username;
      }
      if from.state != 0 {
        state := from.state;
      }
      unknown := unknown + from.unknown;
    }

    /** From any prior state the target becomes equal to the source; copying to itself does nothing. */
    method CopyFrom(from: FriendInfo)
      requires !freed && !from.freed
      modifies this`username, this`state, this`unknown
      ensures View() == old(from.View()) && from.View() == old(from.View())
    {
      if from == this {
        return;
      }
      Clear();
      MergeFrom(from);
      MergeIntoEmptyFriend(from.View());
    }

    method ByteSizeLong() returns (size: nat)
      requires !freed
      ensures size == ByteSizeFriend(View())
    {
      size := 0;
      if username != [] {
        size := size + 1 + LengthDelimitedSize(|username|);
      }
      if state != 0 {
        size := size + Int32SizePlusOne(state);
      }
      var n := ComputeUnknownFieldsSize(unknown);
      size := size + n;
    }

    ghost function NameBytes(): seq<byte>
      reads this
    {
      if username != [] then EncodeField(BytesField(1, username)) else []
    }

    ghost function StateBytes(): seq<byte>
      reads this
    {
      if state != 0 then EncodeField(VarintField(2, SignExtend(state))) else []
    }

    lemma Parts()
      ensures SerializeFriend(View()) == NameBytes() + StateBytes() + EncodeFields(unknown)
      ensures |SerializeFriend(View())| == |NameBytes()| + |StateBytes()| + |EncodeFields(unknown)|
    {
      FriendParts(View());
    }

    method WriteName(target: array<byte>, p: nat) returns (q: nat)
      requires !freed && p + |NameBytes()| <= target.Length
      modifies target
      ensures q == p + |NameBytes()| && Written(old(target[..]), target[..], p, NameBytes())
    {
      hide Written, EncodeField;
      q := p;
      WrittenNothing(target[..], p);
      if username != [] {
        q := WriteBytesField(1, username, target, q);
      }
    }

    method WriteState(target: array<byte>, p: nat) returns (q: nat)
      requires !freed && p + |StateBytes()| <= target.Length
      modifies target
      ensures q == p + |StateBytes()| && Written(old(target[..]), target[..], p, StateBytes())
    {
      hide Written, EncodeField;
      q := p;
      WrittenNothing(target[..], p);
      if state != 0 {
        q := WriteVarintField(2, SignExtend(state), target, q);
      }
    }

    method InternalSerialize(target: array<byte>, p: nat) returns (q: nat)
      requires !freed && p + |SerializeFriend(View())| <= target.Length
      modifies target
      ensures q == p + |SerializeFriend(View())|
      ensures Written(old(target[..]), target[..], p, SerializeFriend(View()))
    {
      hide Written, EncodeFields, SerializeFriend, NameBytes, StateBytes;
      ghost var before, x, y := target[..], NameBytes(), StateBytes();
      Parts();
      q := WriteName(target, p);
      ghost var named := target[..];
      q := WriteState(target, q);
      ghost var mid, xy := target[..], x + y;
      WrittenThen(before, named, mid, p, x, y);
      q := WriteFields(unknown, target, q);
      WrittenThen(before, mid, target[..], p, xy, EncodeFields(unknown));
    }

    method InternalParse(buf: array<byte>, p: nat, limit: nat, d: nat) returns (ok: bool, q: nat)
      requires !freed && p <= limit <= buf.Length
      modifies this`username, this`state, this`unknown
      ensures ok <==> ParseInto(ApplyFriend, old(View()), buf[p..limit], d).Success?
      ensures ok ==> q == limit && View() == ParseInto(ApplyFriend, old(View()), buf[p..limit], d).msg
    {
      ghost var whole := ParseInto(ApplyFriend, View(), buf[p..limit], d);
      q := p;
      while q < limit
        invariant p <= q <= limit
        invariant whole == ParseInto(ApplyFriend, View(), buf[q..limit], d)
      {
        var tag;
        ParseUnfold(ApplyFriend, View(), buf[q..limit], d);
        ok, q, tag := ReadTagAt(buf, q, limit);
        if !ok {
          return;
        }
        if tag == 10 {
          FriendNameCase(View(), buf[q..limit], d);
          var name;
          ok, q, name := ReadBytesAt(buf, q, limit);
          if !ok {
            return;
          }
          username := name;
          ok := Utf8.IsStructurallyValid(username);
          if !ok {
            return;
          }
        } else if tag == 16 {
          FriendStateCase(View(), buf[q..limit], d);
          var v;
          ok, q, v := ReadVarint32At(buf, q, limit);
          if !ok {
            return;
          }
          state := Truncate32(v);
        } else if tag == 0 || tag % 8 == 4 {
          EndTagFails(ApplyFriend, View(), tag, buf[q..limit], d);
          return false, q;
        } else {
          var f;
          FriendUnusualCase(View(), tag, buf[q..limit], d);
          ok, q, f := ReadBodyAt(tag, buf, q, limit, d);
          if !ok {
            return;
          }
          unknown := unknown + [f];
        }
      }
      ok := true;
    }
  }

  /** `delete`: allowed on null, and once on an object. */
  method DeleteBool(p: BoolValue?)
    requires p != null ==> !p.freed
    modifies p
    ensures p != null ==> p.freed
  {
    if p != null {
      p.freed := true;
    }
  }

  method DeleteFriend(p: FriendInfo?)
    requires p != null ==> !p.freed
    modifies p
    ensures p != null ==> p.freed
  {
    if p != null {
      p.freed := true;
    }
  }

  ghost function ViewBool(p: BoolValue?): Option<BoolVal>
    reads p
  {
    if p == null then None else Some(p.View())
  }

  ghost function ViewFriend(p: FriendInfo?): Option<FriendVal>
    reads p
  {
    if p == null then None else Some(p.View())
  }

  ghost function Views(l: seq<FriendInfo>): (vs: seq<FriendVal>)
    reads l
    ensures |vs| == |l|
  {
    if l == [] then [] else Views(l[..|l| - 1]) + [l[|l| - 1].View()]
  }

  lemma ViewsAppend(l: seq<FriendInfo>, f: FriendInfo)
    ensures Views(l + [f]) == Views(l) + [f.View()]
  {
    assert (l + [f])[..|l|] == l;
  }

  lemma {:induction false} ViewsAt(l: seq<FriendInfo>, i: nat)
    requires i < |l|
    ensures Views(l)[i] == l[i].View()
  {
    if i < |l| - 1 {
      ViewsAt(l[..|l| - 1], i);
    }
  }

  ghost predicate TypedList(l: seq<FriendInfo>)
    reads l
  {
    forall f | f in l :: TypedFields(f.unknown)
  }

  lemma ViewsTyped(l: seq<FriendInfo>)
    requires TypedList(l)
    ensures forall v | v in Views(l) :: TypedFields(v.unknown)
  {
    forall v | v in Views(l)
      ensures TypedFields(v.unknown)
    {
      var i :| 0 <= i < |l| && Views(l)[i] == v;
      ViewsAt(l, i);
    }
  }

  lemma OptionalPayload(m: Option<BoolVal>)
    ensures m.Some? ==> |SerializeBool(m.value)| <= |EncodeFields(OptionalBool(1, m))|
  {
    if m.Some? {
      EncodeOne(BytesField(1, SerializeBool(m.value)));
      PayloadShorter(1, SerializeBool(m.value));
    }
  }

  lemma OptionalFriendPayload(m: Option<FriendVal>)
    ensures m.Some? ==> |SerializeFriend(m.value)| <= |EncodeFields(OptionalFriend(2, m))|
  {
    if m.Some? {
      EncodeOne(BytesField(2, SerializeFriend(m.value)));
      PayloadShorter(2, SerializeFriend(m.value));
    }
  }

  lemma PayloadShorter(num: nat, data: seq<byte>)
    ensures |data| <= |EncodeField(BytesField(num, data))|
  {
  }

  lemma {:induction false} ViewsConcat(x: seq<FriendInfo>, y: seq<FriendInfo>)
    ensures Views(x + y) == Views(x) + Views(y)
  {
    if y == [] {
      assert x + y == x;
    } else {
      var k := |y| - 1;
      assert (x + y)[..|x + y| - 1] == x + y[..k];
      ViewsConcat(x, y[..k]);
    }
  }

  ghost predicate Live(l: seq<FriendInfo>)
    reads l
  {
    forall f | f in l :: !f.freed
  }

  lemma BytesAt(buf: array<byte>, p: nat, q: nat, limit: nat, size: nat)
    requires p <= q <= limit <= buf.Length && ReadSize(buf[p..limit]) == Got(size, buf[q..limit])
    ensures ReadBytes(buf[p..limit])
         == if limit - q < size then Bad else Got(buf[q..q + size], buf[q + size..limit])
  {
    if size <= limit - q {
      assert buf[q..limit][..size] == buf[q..q + size] && buf[q..limit][size..] == buf[q + size..limit];
    }
  }

  /** `ParseContext::ParseMessage`: size, limit, depth, and then the message itself. */
  method ParseBoolAt(msg: BoolValue, buf: array<byte>, p: nat, limit: nat, d: nat) returns (ok: bool, q: nat)
    requires !msg.freed && p <= limit <= buf.Length
    modifies msg`value, msg`unknown
    ensures var r := ReadBytes(buf[p..limit]);
            ok <==> r.Got? && ParseMessage(ApplyBool, old(msg.View()), r.value, d).Success?
    ensures ok ==>
              var r := ReadBytes(buf[p..limit]);
              && p <= q <= limit && buf[q..limit] == r.rest
              && msg.View() == ParseMessage(ApplyBool, old(msg.View()), r.value, d).msg
  {
    hide ParseInto, ReadSize, Take;
    var size;
    ok, q, size := ReadSizeAt(buf, p, limit);
    if !ok {
      return false, p;
    }
    BytesAt(buf, p, q, limit, size);
    if limit - q < size || d == 0 {
      return false, p;
    }
    ok, q := msg.InternalParse(buf, q, q + size, d - 1);
  }

  method ParseFriendAt(msg: FriendInfo, buf: array<byte>, p: nat, limit: nat, d: nat) returns (ok: bool, q: nat)
    requires !msg.freed && p <= limit <= buf.Length
    modifies msg`username, msg`state, msg`unknown
    ensures var r := ReadBytes(buf[p..limit]);
            ok <==> r.Got? && ParseMessage(ApplyFriend, old(msg.View()), r.value, d).Success?
    ensures ok ==>
              var r := ReadBytes(buf[p..limit]);
              && p <= q <= limit && buf[q..limit] == r.rest
              && msg.View() == ParseMessage(ApplyFriend, old(msg.View()), r.value, d).msg
  {
    hide ParseInto, ReadSize, Take;
    var size;
    ok, q, size := ReadSizeAt(buf, p, limit);
    if !ok {
      return false, p;
    }
    BytesAt(buf, p, q, limit, size);
    if limit - q < size || d == 0 {
      return false, p;
    }
    ok, q := msg.InternalParse(buf, q, q + size, d - 1);
  }

  lemma BytesFieldParts(num: nat, data: seq<byte>)
    ensures EncodeField(BytesField(num, data)) == Encode(num * 8 + 2) + Encode(|data|) + data
  {
    Assoc3(Encode(num * 8 + 2), Encode(|data|), data);
  }

  /** `WireFormatLite::InternalWriteMessage`: tag, computed size, and then the message. */
  method WriteBoolMessage(num: nat, msg: BoolValue, target: array<byte>, p: nat) returns (q: nat)
    requires !msg.freed && TypedFields(msg.unknown) && |SerializeBool(msg.View())| <= INT_MAX
    requires p + |EncodeField(BytesField(num, SerializeBool(msg.View())))| <= target.Length
    modifies target
    ensures q == p + |EncodeField(BytesField(num, SerializeBool(msg.View())))|
    ensures Written(old(target[..]), target[..], p, EncodeField(BytesField(num, SerializeBool(msg.View()))))
  {
    hide Written, Encode, EncodeField, EncodeFields;
    ghost var data := SerializeBool(msg.View());
    BytesFieldParts(num, data);
    ByteSizeBoolAgrees(msg.View());
    var size := msg.ByteSizeLong();
    ghost var before := target[..];
    q := WriteVarint(num * 8 + 2, target, p);
    ghost var tagged := target[..];
    q := WriteVarint(size, target, q);
    WrittenThen(before, tagged, target[..], p, Encode(num * 8 + 2), Encode(|data|));
    ghost var sized := target[..];
    q := msg.InternalSerialize(target, q);
    WrittenThen(before, sized, target[..], p, Encode(num * 8 + 2) + Encode(|data|), data);
  }

  method WriteFriendMessage(num: nat, msg: FriendInfo, target: array<byte>, p: nat) returns (q: nat)
    requires !msg.freed && TypedFields(msg.unknown) && |SerializeFriend(msg.View())| <= INT_MAX
    requires p + |EncodeField(BytesField(num, SerializeFriend(msg.View())))| <= target.Length
    modifies target
    ensures q == p + |EncodeField(BytesField(num, SerializeFriend(msg.View())))|
    ensures Written(old(target[..]), target[..], p, EncodeField(BytesField(num, SerializeFriend(msg.View()))))
  {
    hide Written, Encode, EncodeField, EncodeFields, SerializeFriend, ByteSizeFriend, TypedFields;
    ghost var data := SerializeFriend(msg.View());
    BytesFieldParts(num, data);
    ByteSizeFriendAgrees(msg.View());
    var size := msg.ByteSizeLong();
    ghost var before := target[..];
    q := WriteVarint(num * 8 + 2, target, p);
    ghost var tagged := target[..];
    q := WriteVarint(size, target, q);
    WrittenThen(before, tagged, target[..], p, Encode(num * 8 + 2), Encode(|data|));
    ghost var sized := target[..];
    q := msg.InternalSerialize(target, q);
    WrittenThen(before, sized, target[..], p, Encode(num * 8 + 2) + Encode(|data|), data);
  }

  lemma ViewsNothing()
    ensures Views([]) == []
  {
  }

  /** `RepeatedPtrField::MergeFrom`: a new element for each, merged from the one it copies. */
  method CopyList(l: seq<FriendInfo>) returns (r: seq<FriendInfo>)
    requires Live(l)
    ensures Live(r) && Views(r) == Views(l)
    ensures forall f | f in r :: fresh(f)
  {
    hide MergeFriend, Views, FriendInfo.View;
    r := [];
    ViewsNothing();
    for i := 0 to |l|
      invariant Live(r) && (forall f | f in r :: fresh(f)) && Views(r) == Views(l[..i])
    {
      var f := new FriendInfo();
      f.MergeFrom(l[i]);
      MergeIntoEmptyFriend(l[i].View());
      ViewsAppend(r, f);
      ViewsAppend(l[..i], l[i]);
      assert l[..i] + [l[i]] == l[..i + 1];
      r := r + [f];
    }
    assert l[..|l|] == l;
  }
}
