/**
 What the order of records on the wire means: which neighbours may trade places, which of two
 records for one field decides, and what two records for one sub-message add up to.
 */
module RecordOrder {
  import opened Basics
  import opened Varint
  import opened WireFormat
  import opened RecordParsing
  import opened Messages
  import opened ConcatTheorems
  import Utf8

  //
  // Any message
  //

  /** Whatever follows, these two records may trade places after `x`. */
  ghost predicate Exchangeable<M(!new)>(
      apply: (M, Field, nat) -> Outcome<M>, m: M, x: seq<byte>, r1: seq<byte>, r2: seq<byte>, d: nat)
  {
    forall y :: ParseInto(apply, m, x + (r1 + (r2 + y)), d) == ParseInto(apply, m, x + (r2 + (r1 + y)), d)
  }

  lemma TwoRecords<M(!new)>(apply: (M, Field, nat) -> Outcome<M>, m: M, x: seq<byte>,
                            r1: seq<byte>, f1: Field, r2: seq<byte>, f2: Field, d: nat)
    requires ParseInto(apply, m, x, d).Success?
    requires IsRecord(r1, f1, d) && IsRecord(r2, f2, d)
    ensures ParseInto(apply, m, x + (r1 + r2), d) == ApplyAll(apply, ParseInto(apply, m, x, d).msg, [f1, f2], d)
  {
    var a := ParseInto(apply, m, x, d).msg;
    ParseStream(apply, m, x, r1 + r2, d);
    assert r2 + [] == r2;
    ParseTwo(apply, a, r1, f1, r2, f2, [], d);
    hide IsRecord;
    match ApplyAll(apply, a, [f1, f2], d)
    case Failure =>
    case Success(b) => ParseNothing(apply, b, d);
  }

  /** Bytes aside, it is a matter of what the two records do to the message. */
  lemma ExchangeExact<M(!new)>(apply: (M, Field, nat) -> Outcome<M>, m: M, x: seq<byte>,
                               r1: seq<byte>, f1: Field, r2: seq<byte>, f2: Field, d: nat)
    requires ParseInto(apply, m, x, d).Success?
    requires IsRecord(r1, f1, d) && IsRecord(r2, f2, d)
    ensures var a := ParseInto(apply, m, x, d).msg;
            Exchangeable(apply, m, x, r1, r2, d)
            <==> ApplyAll(apply, a, [f1, f2], d) == ApplyAll(apply, a, [f2, f1], d)
  {
    hide ApplyAll, ParseInto, IsRecord;
    var a := ParseInto(apply, m, x, d).msg;
    TwoRecords(apply, m, x, r1, f1, r2, f2, d);
    TwoRecords(apply, m, x, r2, f2, r1, f1, d);
    if ApplyAll(apply, a, [f1, f2], d) == ApplyAll(apply, a, [f2, f1], d) {
      forall y ensures ParseInto(apply, m, x + (r1 + (r2 + y)), d) == ParseInto(apply, m, x + (r2 + (r1 + y)), d) {
        ParseSwap(apply, m, x, r1, f1, r2, f2, y, d);
      }
    } else {
      assert r1 + (r2 + []) == r1 + r2 && r2 + (r1 + []) == r2 + r1;
    }
  }

  /** If `f2` overwrites what `f1` did, the record of `f1` might as well not be there. */
  lemma EarlierDropped<M(!new)>(apply: (M, Field, nat) -> Outcome<M>, m: M, x: seq<byte>,
                                r1: seq<byte>, f1: Field, r2: seq<byte>, f2: Field, y: seq<byte>, d: nat)
    requires ParseInto(apply, m, x, d).Success?
    requires IsRecord(r1, f1, d) && IsRecord(r2, f2, d)
    requires var a := ParseInto(apply, m, x, d).msg;
             ApplyAll(apply, a, [f1, f2], d) == apply(a, f2, d)
    ensures ParseInto(apply, m, x + (r1 + (r2 + y)), d) == ParseInto(apply, m, x + (r2 + y), d)
  {
    hide ApplyAll, ParseInto, IsRecord;
    var a := ParseInto(apply, m, x, d).msg;
    ParseStream(apply, m, x, r1 + (r2 + y), d);
    ParseStream(apply, m, x, r2 + y, d);
    ParseTwo(apply, a, r1, f1, r2, f2, y, d);
    ParseRecord(apply, a, r2, f2, y, d);
  }

  /** Neither record is handled: both are kept, in wire order. */
  lemma UnknownOrder(u: seq<Field>, f1: Field, f2: Field)
    ensures u + [f1] + [f2] == u + [f2] + [f1] <==> f1 == f2
  {
    assert (u + [f1] + [f2])[|u|] == f1 && (u + [f2] + [f1])[|u|] == f2;
  }

  //
  // What a payload says: its records, and of each field the last
  //

  function Collect(fs: seq<Field>, f: Field, d: nat): Outcome<seq<Field>> {
    Success(fs + [f])
  }

  function Records(b: seq<byte>, d: nat): Outcome<seq<Field>> {
    ParseInto(Collect, [], b, d)
  }

  lemma {:induction false} Collected(fs: seq<Field>, b: seq<byte>, d: nat)
    ensures ParseInto(Collect, fs, b, d)
         == match Records(b, d)
            case Failure => Failure
            case Success(gs) => Success(fs + gs)
    decreases |b|
  {
    if b == [] {
      assert fs + [] == fs;
    } else if ReadRecord(b, d).Got? {
      var Got(f, rest) := ReadRecord(b, d);
      Collected(fs + [f], rest, d);
      Collected([f], rest, d);
      assert [] + [f] == [f];
      if Records(rest, d).Success? {
        Assoc3(fs, [f], Records(rest, d).msg);
      }
    }
  }

  /** Parsing is reading the records and then applying them. */
  lemma {:induction false} ReadThenApply<M(!new)>(
      apply: (M, Field, nat) -> Outcome<M>, m: M, b: seq<byte>, d: nat)
    ensures ParseInto(apply, m, b, d)
         == match Records(b, d)
            case Failure => Failure
            case Success(fs) => ApplyAll(apply, m, fs, d)
    decreases |b|
  {
    if b == [] {
    } else if ReadRecord(b, d).Got? {
      var Got(f, rest) := ReadRecord(b, d);
      Collected([f], rest, d);
      assert [] + [f] == [f];
      if Records(rest, d).Success? {
        var gs := Records(rest, d).msg;
        assert ([f] + gs)[0] == f && ([f] + gs)[1..] == gs;
      }
      if apply(m, f, d).Success? {
        ReadThenApply(apply, apply(m, f, d).msg, rest, d);
      }
    }
  }

  function Last<T>(fs: seq<Field>, says: Field -> Option<T>): Option<T> {
    if fs == [] then None
    else if Last(fs[1..], says).Some? then Last(fs[1..], says) else says(fs[0])
  }

  function Unhandled(fs: seq<Field>, handled: Field -> bool): seq<Field> {
    if fs == [] then []
    else (if handled(fs[0]) then [] else [fs[0]]) + Unhandled(fs[1..], handled)
  }

  function SaysValue(f: Field): Option<bool> {
    if HandledBool(f) then Some(f.varint != 0) else None
  }

  function SaysName(f: Field): Option<seq<byte>> {
    if f.num == 1 && f.BytesField? then Some(f.data) else None
  }

  function SaysState(f: Field): Option<int32> {
    if f.num == 2 && f.VarintField? then Some(Truncate32(f.varint)) else None
  }

  predicate NamesValid(fs: seq<Field>) {
    forall f | f in fs && SaysName(f).Some? :: Utf8.Valid(SaysName(f).value)
  }

  lemma {:induction false} BoolRecordsApply(m: BoolVal, fs: seq<Field>, d: nat)
    ensures ApplyAll(ApplyBool, m, fs, d)
         == Success(BoolVal(Last(fs, SaysValue).GetOr(m.value), m.unknown + Unhandled(fs, HandledBool)))
    decreases |fs|
  {
    if fs == [] {
      assert m.unknown + [] == m.unknown;
    } else {
      var n := ApplyBool(m, fs[0], d).msg;
      BoolRecordsApply(n, fs[1..], d);
      assert n.unknown == m.unknown + if HandledBool(fs[0]) then [] else [fs[0]];
      Assoc3(m.unknown, if HandledBool(fs[0]) then [] else [fs[0]], Unhandled(fs[1..], HandledBool));
    }
  }

  lemma {:induction false} FriendRecordsApply(m: FriendVal, fs: seq<Field>, d: nat)
    ensures ApplyAll(ApplyFriend, m, fs, d)
         == if NamesValid(fs)
            then Success(FriendVal(Last(fs, SaysName).GetOr(m.username), Last(fs, SaysState).GetOr(m.state),
                                   m.unknown + Unhandled(fs, HandledFriend)))
            else Failure
    decreases |fs|
  {
    hide Utf8.Valid, Truncate32;
    if fs == [] {
      assert m.unknown + [] == m.unknown;
    } else if ApplyFriend(m, fs[0], d).Success? {
      var n := ApplyFriend(m, fs[0], d).msg;
      FriendRecordsApply(n, fs[1..], d);
      assert NamesValid(fs) <==> NamesValid(fs[1..]);
      assert n.unknown == m.unknown + if HandledFriend(fs[0]) then [] else [fs[0]];
      Assoc3(m.unknown, if HandledFriend(fs[0]) then [] else [fs[0]], Unhandled(fs[1..], HandledFriend));
    } else {
      assert fs[0] in fs && !NamesValid(fs);
    }
  }

  /** If both speak, they say the same. */
  predicate Agree<T(==)>(a: Option<T>, b: Option<T>) {
    a.Some? && b.Some? ==> a == b
  }

  /** Both payloads end on the same value, and their unhandled records commute, or one is refused. */
  predicate MaySwapSubBool(p: seq<byte>, q: seq<byte>, d: nat) {
    d == 0 ||
    var r, s := Records(p, d - 1), Records(q, d - 1);
    r.Failure? || s.Failure? ||
    (&& Agree(Last(r.msg, SaysValue), Last(s.msg, SaysValue))
     && Unhandled(r.msg, HandledBool) + Unhandled(s.msg, HandledBool)
        == Unhandled(s.msg, HandledBool) + Unhandled(r.msg, HandledBool))
  }

  predicate MaySwapSubFriend(p: seq<byte>, q: seq<byte>, d: nat) {
    d == 0 ||
    var r, s := Records(p, d - 1), Records(q, d - 1);
    r.Failure? || s.Failure? || !NamesValid(r.msg) || !NamesValid(s.msg) ||
    (&& Agree(Last(r.msg, SaysName), Last(s.msg, SaysName))
     && Agree(Last(r.msg, SaysState), Last(s.msg, SaysState))
     && Unhandled(r.msg, HandledFriend) + Unhandled(s.msg, HandledFriend)
        == Unhandled(s.msg, HandledFriend) + Unhandled(r.msg, HandledFriend))
  }

  /** One sub-message parsed from two payloads, one after the other. */
  function InTurn<M>(apply: (M, Field, nat) -> Outcome<M>, m: M, p: seq<byte>, q: seq<byte>, d: nat): Outcome<M> {
    match ParseMessage(apply, m, p, d)
    case Failure => Failure
    case Success(v) => ParseMessage(apply, v, q, d)
  }

  lemma TailsCommute(u: seq<Field>, v: seq<Field>, w: seq<Field>)
    ensures u + v + w == u + w + v <==> v + w == w + v
  {
    Assoc3(u, v, w);
    Assoc3(u, w, v);
    if u + (v + w) == u + (w + v) {
      assert v + w == (u + (v + w))[|u|..] && w + v == (u + (w + v))[|u|..];
    }
  }

  lemma PayloadBool(a: BoolVal, p: seq<byte>, d: nat)
    requires d > 0
    ensures var r := Records(p, d - 1);
            ParseMessage(ApplyBool, a, p, d)
            == if r.Failure? then Failure
               else Success(BoolVal(Last(r.msg, SaysValue).GetOr(a.value), a.unknown + Unhandled(r.msg, HandledBool)))
  {
    hide ParseInto, ApplyAll, Records, Last, Unhandled;
    ReadThenApply(ApplyBool, a, p, d - 1);
    if Records(p, d - 1).Success? {
      BoolRecordsApply(a, Records(p, d - 1).msg, d - 1);
    }
  }

  lemma PayloadFriend(a: FriendVal, p: seq<byte>, d: nat)
    requires d > 0
    ensures var r := Records(p, d - 1);
            ParseMessage(ApplyFriend, a, p, d)
            == if r.Failure? || !NamesValid(r.msg) then Failure
               else Success(FriendVal(Last(r.msg, SaysName).GetOr(a.username), Last(r.msg, SaysState).GetOr(a.state),
                                      a.unknown + Unhandled(r.msg, HandledFriend)))
  {
    hide ParseInto, ApplyAll, Records, Last, Unhandled, NamesValid;
    ReadThenApply(ApplyFriend, a, p, d - 1);
    if Records(p, d - 1).Success? {
      FriendRecordsApply(a, Records(p, d - 1).msg, d - 1);
    }
  }

  lemma SubBoolOrder(m: BoolVal, p: seq<byte>, q: seq<byte>, d: nat)
    ensures InTurn(ApplyBool, m, p, q, d) == InTurn(ApplyBool, m, q, p, d) <==> MaySwapSubBool(p, q, d)
  {
    if d > 0 {
      hide ParseMessage, Records, Last, Unhandled;
      var a, b := ParseMessage(ApplyBool, m, p, d), ParseMessage(ApplyBool, m, q, d);
      PayloadBool(m, p, d);
      PayloadBool(m, q, d);
      if a.Success? {
        PayloadBool(a.msg, q, d);
      }
      if b.Success? {
        PayloadBool(b.msg, p, d);
      }
      if a.Success? && b.Success? {
        TailsCommute(m.unknown, Unhandled(Records(p, d - 1).msg, HandledBool),
                     Unhandled(Records(q, d - 1).msg, HandledBool));
      }
    }
  }

  lemma SubFriendOrder(m: FriendVal, p: seq<byte>, q: seq<byte>, d: nat)
    ensures InTurn(ApplyFriend, m, p, q, d) == InTurn(ApplyFriend, m, q, p, d) <==> MaySwapSubFriend(p, q, d)
  {
    if d > 0 {
      hide ParseMessage, Records, Last, Unhandled, NamesValid;
      var a, b := ParseMessage(ApplyFriend, m, p, d), ParseMessage(ApplyFriend, m, q, d);
      PayloadFriend(m, p, d);
      PayloadFriend(m, q, d);
      if a.Success? {
        PayloadFriend(a.msg, q, d);
      }
      if b.Success? {
        PayloadFriend(b.msg, p, d);
      }
      if a.Success? && b.Success? {
        TailsCommute(m.unknown, Unhandled(Records(p, d - 1).msg, HandledFriend),
                     Unhandled(Records(q, d - 1).msg, HandledFriend));
      }
    }
  }

  //
  // Which neighbours may trade places
  //

  predicate MaySwapBool(f1: Field, f2: Field) {
    if HandledBool(f1) && HandledBool(f2) then (f1.varint != 0) == (f2.varint != 0)
    else HandledBool(f1) || HandledBool(f2) || f1 == f2
  }

  /**
   Two records for one field may trade places only if they say the same, or one is refused anyway;
   two records that are not handled only if they are the same; all others always.
   */
  predicate MaySwapFriend(f1: Field, f2: Field) {
    if HandledFriend(f1) && HandledFriend(f2) && f1.num == f2.num then
      if f1.BytesField? then !Utf8.Valid(f1.data) || !Utf8.Valid(f2.data) || f1.data == f2.data
      else Truncate32(f1.varint) == Truncate32(f2.varint)
    else HandledFriend(f1) || HandledFriend(f2) || f1 == f2
  }

  /** What a record of a list adds to it. */
  function Element(f: Field, d: nat): Outcome<FriendVal>
    requires f.BytesField?
  {
    ParseMessage(ApplyFriend, EMPTY_FRIEND, f.data, d)
  }

  /** Two elements of one list must be equal, or one is refused. */
  predicate MaySwapLogin(f1: Field, f2: Field, d: nat) {
    if HandledLogin(f1) && HandledLogin(f2) && f1.num == f2.num then
      if f1.num == 1 then MaySwapSubBool(f1.data, f2.data, d)
      else Element(f1, d).Failure? || Element(f2, d).Failure? || Element(f1, d) == Element(f2, d)
    else HandledLogin(f1) || HandledLogin(f2) || f1 == f2
  }

  predicate MaySwapFind(f1: Field, f2: Field, d: nat) {
    if HandledFind(f1) && HandledFind(f2) && f1.num == f2.num then
      if f1.num == 1 then MaySwapSubBool(f1.data, f2.data, d)
      else if f1.num == 2 then MaySwapSubFriend(f1.data, f2.data, d)
      else Truncate32(f1.varint) == Truncate32(f2.varint)
    else HandledFind(f1) || HandledFind(f2) || f1 == f2
  }

  lemma BoolRecordsCommute(m: BoolVal, x: seq<byte>, r1: seq<byte>, f1: Field, r2: seq<byte>, f2: Field, d: nat)
    requires ParseInto(ApplyBool, m, x, d).Success?
    requires IsRecord(r1, f1, d) && IsRecord(r2, f2, d)
    ensures Exchangeable(ApplyBool, m, x, r1, r2, d) <==> MaySwapBool(f1, f2)
  {
    var a := ParseInto(ApplyBool, m, x, d).msg;
    ExchangeExact(ApplyBool, m, x, r1, f1, r2, f2, d);
    ApplyTwo(ApplyBool, a, f1, f2, d);
    ApplyTwo(ApplyBool, a, f2, f1, d);
    UnknownOrder(a.unknown, f1, f2);
    hide ApplyAll, ParseInto, IsRecord, Exchangeable;
  }

  lemma FriendOrder(a: FriendVal, f1: Field, f2: Field, d: nat)
    ensures ApplyAll(ApplyFriend, a, [f1, f2], d) == ApplyAll(ApplyFriend, a, [f2, f1], d) <==> MaySwapFriend(f1, f2)
  {
    ApplyTwo(ApplyFriend, a, f1, f2, d);
    ApplyTwo(ApplyFriend, a, f2, f1, d);
    UnknownOrder(a.unknown, f1, f2);
    hide ApplyAll, Utf8.Valid, Truncate32;
  }

  lemma FriendRecordsCommute(m: FriendVal, x: seq<byte>, r1: seq<byte>, f1: Field, r2: seq<byte>, f2: Field, d: nat)
    requires ParseInto(ApplyFriend, m, x, d).Success?
    requires IsRecord(r1, f1, d) && IsRecord(r2, f2, d)
    ensures Exchangeable(ApplyFriend, m, x, r1, r2, d) <==> MaySwapFriend(f1, f2)
  {
    ExchangeExact(ApplyFriend, m, x, r1, f1, r2, f2, d);
    FriendOrder(ParseInto(ApplyFriend, m, x, d).msg, f1, f2, d);
  }

  lemma SameListOrder(a: LoginVal, f1: Field, f2: Field, d: nat)
    requires f1.BytesField? && f2.BytesField? && f1.num == f2.num && (f1.num == 2 || f1.num == 3)
    ensures ApplyAll(ApplyLogin, a, [f1, f2], d) == ApplyAll(ApplyLogin, a, [f2, f1], d)
       <==> Element(f1, d).Failure? || Element(f2, d).Failure? || Element(f1, d) == Element(f2, d)
  {
    ApplyTwo(ApplyLogin, a, f1, f2, d);
    ApplyTwo(ApplyLogin, a, f2, f1, d);
    TwoFriends(a, f1, f2, d);
    TwoFriends(a, f2, f1, d);
    var v1, v2 := Element(f1, d), Element(f2, d);
    hide ApplyAll, ParseMessage, ApplyLogin;
    if v1.Success? && v2.Success? {
      var l := if f1.num == 2 then a.friendList else a.pendingList;
      assert (l + [v1.msg, v2.msg])[|l|] == v1.msg && (l + [v2.msg, v1.msg])[|l|] == v2.msg;
    }
  }

  lemma LoginOrder(a: LoginVal, f1: Field, f2: Field, d: nat)
    ensures ApplyAll(ApplyLogin, a, [f1, f2], d) == ApplyAll(ApplyLogin, a, [f2, f1], d) <==> MaySwapLogin(f1, f2, d)
  {
    ApplyTwo(ApplyLogin, a, f1, f2, d);
    ApplyTwo(ApplyLogin, a, f2, f1, d);
    hide ApplyAll, ParseMessage;
    hide MaySwapSubBool;
    if HandledLogin(f1) && HandledLogin(f2) && f1.num == f2.num {
      if f1.num == 1 {
        SubBoolOrder(a.success.GetOr(EMPTY_BOOL), f1.data, f2.data, d);
      } else {
        SameListOrder(a, f1, f2, d);
      }
    } else {
      UnknownOrder(a.unknown, f1, f2);
    }
  }

  lemma LoginRecordsCommute(m: LoginVal, x: seq<byte>, r1: seq<byte>, f1: Field, r2: seq<byte>, f2: Field, d: nat)
    requires ParseInto(ApplyLogin, m, x, d).Success?
    requires IsRecord(r1, f1, d) && IsRecord(r2, f2, d)
    ensures Exchangeable(ApplyLogin, m, x, r1, r2, d) <==> MaySwapLogin(f1, f2, d)
  {
    ExchangeExact(ApplyLogin, m, x, r1, f1, r2, f2, d);
    LoginOrder(ParseInto(ApplyLogin, m, x, d).msg, f1, f2, d);
  }

  lemma FindOrder(a: FindVal, f1: Field, f2: Field, d: nat)
    ensures ApplyAll(ApplyFind, a, [f1, f2], d) == ApplyAll(ApplyFind, a, [f2, f1], d) <==> MaySwapFind(f1, f2, d)
  {
    ApplyTwo(ApplyFind, a, f1, f2, d);
    ApplyTwo(ApplyFind, a, f2, f1, d);
    UnknownOrder(a.unknown, f1, f2);
    hide ApplyAll, ParseMessage, Truncate32, MaySwapSubBool, MaySwapSubFriend;
    if HandledFind(f1) && HandledFind(f2) && f1.num == f2.num {
      if f1.num == 1 {
        SubBoolOrder(a.exist.GetOr(EMPTY_BOOL), f1.data, f2.data, d);
      } else if f1.num == 2 {
        SubFriendOrder(a.friendInfo.GetOr(EMPTY_FRIEND), f1.data, f2.data, d);
      }
    }
  }

  lemma FindRecordsCommute(m: FindVal, x: seq<byte>, r1: seq<byte>, f1: Field, r2: seq<byte>, f2: Field, d: nat)
    requires ParseInto(ApplyFind, m, x, d).Success?
    requires IsRecord(r1, f1, d) && IsRecord(r2, f2, d)
    ensures Exchangeable(ApplyFind, m, x, r1, r2, d) <==> MaySwapFind(f1, f2, d)
  {
    ExchangeExact(ApplyFind, m, x, r1, f1, r2, f2, d);
    FindOrder(ParseInto(ApplyFind, m, x, d).msg, f1, f2, d);
  }

  /** Records that are not handled are kept in wire order. */
  lemma UnknownRecordsKeepOrder(m: LoginVal, x: seq<byte>, r1: seq<byte>, f1: Field, r2: seq<byte>, f2: Field, d: nat)
    requires ParseInto(ApplyLogin, m, x, d).Success?
    requires IsRecord(r1, f1, d) && IsRecord(r2, f2, d) && !HandledLogin(f1) && !HandledLogin(f2)
    ensures var a := ParseInto(ApplyLogin, m, x, d).msg;
            ParseInto(ApplyLogin, m, x + (r1 + r2), d) == Success(a.(unknown := a.unknown + [f1, f2]))
    ensures ParseInto(ApplyLogin, m, x + (r1 + r2), d) == ParseInto(ApplyLogin, m, x + (r2 + r1), d) <==> f1 == f2
  {
    var a := ParseInto(ApplyLogin, m, x, d).msg;
    TwoRecords(ApplyLogin, m, x, r1, f1, r2, f2, d);
    TwoRecords(ApplyLogin, m, x, r2, f2, r1, f1, d);
    ApplyTwo(ApplyLogin, a, f1, f2, d);
    ApplyTwo(ApplyLogin, a, f2, f1, d);
    UnknownOrder(a.unknown, f1, f2);
    hide ParseInto, ApplyAll, IsRecord;
    assert a.unknown + [f1] + [f2] == a.unknown + [f1, f2];
  }

  //
  // Two records for one field
  //

  /** Two records for `value`: the last one decides. */
  lemma BoolLastWins(m: BoolVal, x: seq<byte>, r1: seq<byte>, f1: Field, r2: seq<byte>, f2: Field,
                     y: seq<byte>, d: nat)
    requires ParseInto(ApplyBool, m, x, d).Success?
    requires IsRecord(r1, f1, d) && IsRecord(r2, f2, d) && HandledBool(f1) && HandledBool(f2)
    ensures ParseInto(ApplyBool, m, x + (r1 + (r2 + y)), d) == ParseInto(ApplyBool, m, x + (r2 + y), d)
  {
    ApplyTwo(ApplyBool, ParseInto(ApplyBool, m, x, d).msg, f1, f2, d);
    hide ApplyAll, ParseInto, IsRecord;
    EarlierDropped(ApplyBool, m, x, r1, f1, r2, f2, y, d);
  }

  /** Two names or two states: the last one decides, but an earlier name must still be valid. */
  lemma FriendLastWins(m: FriendVal, x: seq<byte>, r1: seq<byte>, f1: Field, r2: seq<byte>, f2: Field,
                       y: seq<byte>, d: nat)
    requires ParseInto(ApplyFriend, m, x, d).Success? && IsRecord(r1, f1, d) && IsRecord(r2, f2, d)
    requires HandledFriend(f1) && HandledFriend(f2) && f1.num == f2.num
    ensures ParseInto(ApplyFriend, m, x + (r1 + (r2 + y)), d)
         == if f1.BytesField? && !Utf8.Valid(f1.data) then Failure else ParseInto(ApplyFriend, m, x + (r2 + y), d)
  {
    var a := ParseInto(ApplyFriend, m, x, d).msg;
    ApplyTwo(ApplyFriend, a, f1, f2, d);
    hide ApplyAll, ParseInto, IsRecord, Utf8.Valid, Truncate32;
    if f1.BytesField? && !Utf8.Valid(f1.data) {
      ParseStream(ApplyFriend, m, x, r1 + (r2 + y), d);
      ParseRecord(ApplyFriend, a, r1, f1, r2 + y, d);
    } else {
      EarlierDropped(ApplyFriend, m, x, r1, f1, r2, f2, y, d);
    }
  }

  lemma FindLastWins(m: FindVal, x: seq<byte>, r1: seq<byte>, f1: Field, r2: seq<byte>, f2: Field,
                     y: seq<byte>, d: nat)
    requires ParseInto(ApplyFind, m, x, d).Success? && IsRecord(r1, f1, d) && IsRecord(r2, f2, d)
    requires f1.VarintField? && f2.VarintField? && f1.num == f2.num == 3
    ensures ParseInto(ApplyFind, m, x + (r1 + (r2 + y)), d) == ParseInto(ApplyFind, m, x + (r2 + y), d)
  {
    ApplyTwo(ApplyFind, ParseInto(ApplyFind, m, x, d).msg, f1, f2, d);
    hide ApplyAll, ParseInto, IsRecord, Truncate32;
    EarlierDropped(ApplyFind, m, x, r1, f1, r2, f2, y, d);
  }

  /** Two records of one list keep their order. */
  lemma ListRecordsKeepOrder(m: LoginVal, x: seq<byte>, r1: seq<byte>, f1: Field, r2: seq<byte>, f2: Field, d: nat)
    requires ParseInto(ApplyLogin, m, x, d).Success?
    requires IsRecord(r1, f1, d) && IsRecord(r2, f2, d)
    requires f1.BytesField? && f2.BytesField? && f1.num == f2.num && (f1.num == 2 || f1.num == 3)
    ensures var v1 := ParseMessage(ApplyFriend, EMPTY_FRIEND, f1.data, d);
            var v2 := ParseMessage(ApplyFriend, EMPTY_FRIEND, f2.data, d);
            ParseInto(ApplyLogin, m, x + (r1 + r2), d)
            == if v1.Failure? || v2.Failure? then Failure
               else Success(AddFriends(ParseInto(ApplyLogin, m, x, d).msg, f1.num, [v1.msg, v2.msg]))
  {
    TwoRecords(ApplyLogin, m, x, r1, f1, r2, f2, d);
    ApplyTwo(ApplyLogin, ParseInto(ApplyLogin, m, x, d).msg, f1, f2, d);
    TwoFriends(ParseInto(ApplyLogin, m, x, d).msg, f1, f2, d);
    hide ParseInto, ParseMessage, ApplyLogin, IsRecord, AddFriends;
  }

  lemma TwoFriends(a: LoginVal, f1: Field, f2: Field, d: nat)
    requires f1.BytesField? && f2.BytesField? && f1.num == f2.num && (f1.num == 2 || f1.num == 3)
    ensures var v1 := ParseMessage(ApplyFriend, EMPTY_FRIEND, f1.data, d);
            var v2 := ParseMessage(ApplyFriend, EMPTY_FRIEND, f2.data, d);
            && (v1.Failure? <==> ApplyLogin(a, f1, d).Failure?)
            && (v1.Success? ==>
                  ApplyLogin(ApplyLogin(a, f1, d).msg, f2, d)
                  == if v2.Failure? then Failure else Success(AddFriends(a, f1.num, [v1.msg, v2.msg])))
  {
    hide ParseMessage;
    var v1 := ParseMessage(ApplyFriend, EMPTY_FRIEND, f1.data, d);
    var v2 := ParseMessage(ApplyFriend, EMPTY_FRIEND, f2.data, d);
    if v1.Success? && v2.Success? {
      Assoc3(a.friendList, [v1.msg], [v2.msg]);
      Assoc3(a.pendingList, [v1.msg], [v2.msg]);
      assert [v1.msg] + [v2.msg] == [v1.msg, v2.msg];
    }
  }

  //
  // Two records for one sub-message
  //

  /** Parsing two payloads one after the other is parsing them joined, if the first is accepted. */
  lemma PayloadsJoin<M(!new)>(
      apply: (M, Field, nat) -> Outcome<M>, m: M, p1: seq<byte>, p2: seq<byte>, d: nat)
    requires ParseMessage(apply, m, p1, d).Success?
    ensures ParseMessage(apply, m, p1 + p2, d) == ParseMessage(apply, ParseMessage(apply, m, p1, d).msg, p2, d)
  {
    ParseStream(apply, m, p1, p2, d - 1);
  }

  /** If the two records do together what the third does, they may be replaced by it. */
  lemma TwoForOne<M(!new)>(apply: (M, Field, nat) -> Outcome<M>, m: M, x: seq<byte>, r1: seq<byte>, f1: Field,
                           r2: seq<byte>, f2: Field, r: seq<byte>, f: Field, y: seq<byte>, d: nat)
    requires ParseInto(apply, m, x, d).Success?
    requires IsRecord(r1, f1, d) && IsRecord(r2, f2, d) && IsRecord(r, f, d)
    ensures var a := ParseInto(apply, m, x, d).msg;
            && (ApplyAll(apply, a, [f1, f2], d) == apply(a, f, d) ==>
                  ParseInto(apply, m, x + (r1 + (r2 + y)), d) == ParseInto(apply, m, x + (r + y), d))
            && (ApplyAll(apply, a, [f1, f2], d).Failure? ==>
                  ParseInto(apply, m, x + (r1 + (r2 + y)), d) == Failure)
  {
    hide ApplyAll, ParseInto, IsRecord;
    var a := ParseInto(apply, m, x, d).msg;
    ParseStream(apply, m, x, r1 + (r2 + y), d);
    ParseStream(apply, m, x, r + y, d);
    ParseTwo(apply, a, r1, f1, r2, f2, y, d);
    ParseRecord(apply, a, r, f, y, d);
  }

  /**
   Two records for the sub-message are one record with the payloads joined, unless the first is
   refused: what a sub-message was sent in pieces reads as if it had been sent whole.
   */
  lemma LoginRecordsJoin(m: LoginVal, x: seq<byte>, r1: seq<byte>, p1: seq<byte>, r2: seq<byte>, p2: seq<byte>,
                         r: seq<byte>, y: seq<byte>, d: nat)
    requires ParseInto(ApplyLogin, m, x, d).Success?
    requires IsRecord(r1, BytesField(1, p1), d) && IsRecord(r2, BytesField(1, p2), d)
    requires IsRecord(r, BytesField(1, p1 + p2), d)
    ensures var sub := ParseInto(ApplyLogin, m, x, d).msg.success.GetOr(EMPTY_BOOL);
            ParseInto(ApplyLogin, m, x + (r1 + (r2 + y)), d)
            == if ParseMessage(ApplyBool, sub, p1, d).Failure? then Failure
               else ParseInto(ApplyLogin, m, x + (r + y), d)
  {
    var a := ParseInto(ApplyLogin, m, x, d).msg;
    var f1, f2, f := BytesField(1, p1), BytesField(1, p2), BytesField(1, p1 + p2);
    ApplyTwo(ApplyLogin, a, f1, f2, d);
    TwoForOne(ApplyLogin, m, x, r1, f1, r2, f2, r, f, y, d);
    hide ParseInto, ParseMessage, IsRecord, ApplyAll;
    if ParseMessage(ApplyBool, a.success.GetOr(EMPTY_BOOL), p1, d).Success? {
      PayloadsJoin(ApplyBool, a.success.GetOr(EMPTY_BOOL), p1, p2, d);
    }
  }

  lemma FindRecordsJoin(m: FindVal, x: seq<byte>, num: nat, r1: seq<byte>, p1: seq<byte>,
                        r2: seq<byte>, p2: seq<byte>, r: seq<byte>, y: seq<byte>, d: nat)
    requires ParseInto(ApplyFind, m, x, d).Success? && 1 <= num <= 2
    requires IsRecord(r1, BytesField(num, p1), d) && IsRecord(r2, BytesField(num, p2), d)
    requires IsRecord(r, BytesField(num, p1 + p2), d)
    ensures var a := ParseInto(ApplyFind, m, x, d).msg;
            ParseInto(ApplyFind, m, x + (r1 + (r2 + y)), d)
            == if ApplyFind(a, BytesField(num, p1), d).Failure? then Failure
               else ParseInto(ApplyFind, m, x + (r + y), d)
  {
    var a := ParseInto(ApplyFind, m, x, d).msg;
    var f1, f2, f := BytesField(num, p1), BytesField(num, p2), BytesField(num, p1 + p2);
    ApplyTwo(ApplyFind, a, f1, f2, d);
    TwoForOne(ApplyFind, m, x, r1, f1, r2, f2, r, f, y, d);
    hide ParseInto, ParseMessage, IsRecord, ApplyAll;
    if num == 1 && ParseMessage(ApplyBool, a.exist.GetOr(EMPTY_BOOL), p1, d).Success? {
      PayloadsJoin(ApplyBool, a.exist.GetOr(EMPTY_BOOL), p1, p2, d);
    } else if num == 2 && ParseMessage(ApplyFriend, a.friendInfo.GetOr(EMPTY_FRIEND), p1, d).Success? {
      PayloadsJoin(ApplyFriend, a.friendInfo.GetOr(EMPTY_FRIEND), p1, p2, d);
    }
  }
}
