/**
 What a parser accepts is well formed; serialising and parsing gives the message back exactly
 when it is well formed and its nested messages fit their length prefixes; merging is a monoid.
 */
module RoundTripTheorems {
  import opened Basics
  import opened WireFormat
  import opened RecordParsing
  import opened Messages
  import opened ConcatTheorems

  //
  // Accepted messages are well formed
  //

  lemma {:induction false} ParsePreserves<M(!new)>(
      apply: (M, Field, nat) -> Outcome<M>, inv: M -> bool, m: M, b: seq<byte>, d: nat)
    requires inv(m) && ParseInto(apply, m, b, d).Success?
    requires forall m': M, f: Field | inv(m') && WfField(f, d) && apply(m', f, d).Success? ::
               inv(apply(m', f, d).msg)
    ensures inv(ParseInto(apply, m, b, d).msg)
    decreases |b|
  {
    if b == [] {
    } else {
      ReadRecordWf(b, d);
      var Got(f, rest) := ReadRecord(b, d);
      ParsePreserves(apply, inv, apply(m, f, d).msg, rest, d);
    }
  }

  lemma BoolAcceptedWf(m: BoolVal, b: seq<byte>, d: nat)
    requires WfBool(m, d) && ParseInto(ApplyBool, m, b, d).Success?
    ensures WfBool(ParseInto(ApplyBool, m, b, d).msg, d)
  {
    ParsePreserves(ApplyBool, m' => WfBool(m', d), m, b, d);
  }

  lemma FriendAcceptedWf(m: FriendVal, b: seq<byte>, d: nat)
    requires WfFriend(m, d) && ParseInto(ApplyFriend, m, b, d).Success?
    ensures WfFriend(ParseInto(ApplyFriend, m, b, d).msg, d)
  {
    ParsePreserves(ApplyFriend, m' => WfFriend(m', d), m, b, d);
  }

  lemma LoginStepWf(m: LoginVal, f: Field, d: nat)
    requires WfLogin(m, d) && WfField(f, d) && ApplyLogin(m, f, d).Success?
    ensures WfLogin(ApplyLogin(m, f, d).msg, d)
  {
    hide ParseInto, WfField;
    if f.BytesField? && f.num == 1 {
      BoolAcceptedWf(m.success.GetOr(EMPTY_BOOL), f.data, d - 1);
    } else if f.BytesField? && (f.num == 2 || f.num == 3) {
      FriendAcceptedWf(EMPTY_FRIEND, f.data, d - 1);
    }
  }

  lemma LoginAcceptedWf(m: LoginVal, b: seq<byte>, d: nat)
    requires WfLogin(m, d) && ParseInto(ApplyLogin, m, b, d).Success?
    ensures WfLogin(ParseInto(ApplyLogin, m, b, d).msg, d)
  {
    forall m', f | WfLogin(m', d) && WfField(f, d) && ApplyLogin(m', f, d).Success?
      ensures WfLogin(ApplyLogin(m', f, d).msg, d)
    {
      LoginStepWf(m', f, d);
    }
    ParsePreserves(ApplyLogin, m' => WfLogin(m', d), m, b, d);
  }

  lemma FindStepWf(m: FindVal, f: Field, d: nat)
    requires WfFind(m, d) && WfField(f, d) && ApplyFind(m, f, d).Success?
    ensures WfFind(ApplyFind(m, f, d).msg, d)
  {
    hide ParseInto, WfField;
    if f.BytesField? && f.num == 1 {
      BoolAcceptedWf(m.exist.GetOr(EMPTY_BOOL), f.data, d - 1);
    } else if f.BytesField? && f.num == 2 {
      FriendAcceptedWf(m.friendInfo.GetOr(EMPTY_FRIEND), f.data, d - 1);
    }
  }

  lemma FindAcceptedWf(m: FindVal, b: seq<byte>, d: nat)
    requires WfFind(m, d) && ParseInto(ApplyFind, m, b, d).Success?
    ensures WfFind(ParseInto(ApplyFind, m, b, d).msg, d)
  {
    forall m', f | WfFind(m', d) && WfField(f, d) && ApplyFind(m', f, d).Success?
      ensures WfFind(ApplyFind(m', f, d).msg, d)
    {
      FindStepWf(m', f, d);
    }
    ParsePreserves(ApplyFind, m' => WfFind(m', d), m, b, d);
  }

  //
  // Merging is a monoid
  //

  lemma MergeBoolMonoid(a: BoolVal, b: BoolVal, c: BoolVal)
    ensures MergeBool(MergeBool(a, b), c) == MergeBool(a, MergeBool(b, c))
    ensures MergeBool(EMPTY_BOOL, a) == a && MergeBool(a, EMPTY_BOOL) == a
  {
    Assoc3(a.unknown, b.unknown, c.unknown);
    EmptyUnits(a.unknown);
  }

  lemma EmptyUnits<T>(s: seq<T>)
    ensures [] + s == s && s + [] == s
  {
  }

  lemma MergeFriendMonoid(a: FriendVal, b: FriendVal, c: FriendVal)
    ensures MergeFriend(MergeFriend(a, b), c) == MergeFriend(a, MergeFriend(b, c))
    ensures MergeFriend(EMPTY_FRIEND, a) == a && MergeFriend(a, EMPTY_FRIEND) == a
  {
    Assoc3(a.unknown, b.unknown, c.unknown);
    EmptyUnits(a.unknown);
  }

  lemma MergeLoginMonoid(a: LoginVal, b: LoginVal, c: LoginVal)
    ensures MergeLogin(MergeLogin(a, b), c) == MergeLogin(a, MergeLogin(b, c))
    ensures MergeLogin(EMPTY_LOGIN, a) == a && MergeLogin(a, EMPTY_LOGIN) == a
  {
    MergeBoolMonoid(a.success.GetOr(EMPTY_BOOL), b.success.GetOr(EMPTY_BOOL), c.success.GetOr(EMPTY_BOOL));
    Assoc3(a.friendList, b.friendList, c.friendList);
    Assoc3(a.pendingList, b.pendingList, c.pendingList);
    Assoc3(a.unknown, b.unknown, c.unknown);
    EmptyUnits(a.friendList);
    EmptyUnits(a.pendingList);
    EmptyUnits(a.unknown);
  }

  lemma MergeFindMonoid(a: FindVal, b: FindVal, c: FindVal)
    ensures MergeFind(MergeFind(a, b), c) == MergeFind(a, MergeFind(b, c))
    ensures MergeFind(EMPTY_FIND, a) == a && MergeFind(a, EMPTY_FIND) == a
  {
    MergeBoolMonoid(a.exist.GetOr(EMPTY_BOOL), b.exist.GetOr(EMPTY_BOOL), c.exist.GetOr(EMPTY_BOOL));
    MergeFriendMonoid(a.friendInfo.GetOr(EMPTY_FRIEND), b.friendInfo.GetOr(EMPTY_FRIEND),
                      c.friendInfo.GetOr(EMPTY_FRIEND));
    Assoc3(a.unknown, b.unknown, c.unknown);
    EmptyUnits(a.unknown);
  }

  //
  // Round trips
  //

  ghost predicate TooLong(f: Field) {
    1 <= f.num <= MAX_FIELD_NUMBER && f.BytesField? && |f.data| > MAX_LENGTH
  }

  /** One over-long record among otherwise well-formed ones is enough for the parse to fail. */
  lemma {:induction false} TooLongFails<M>(
      apply: (M, Field, nat) -> Outcome<M>, m: M, fs: seq<Field>, d: nat)
    requires forall f | f in fs :: WfField(f, d) || TooLong(f)
    requires exists f | f in fs :: TooLong(f)
    ensures ParseInto(apply, m, EncodeFields(fs), d) == Failure
    decreases |fs|
  {
    var f, tail := fs[0], EncodeFields(fs[1..]);
    assert f in fs;
    if TooLong(f) {
      ReadRecordTooLong(f.num, f.data, tail, d);
    } else {
      ReadRecordEncode(f, tail, d);
      var g :| g in fs && TooLong(g);
      assert g in fs[1..];
      match apply(m, f, d)
      case Failure =>
      case Success(m') =>
        assert forall x | x in fs[1..] :: x in fs;
        TooLongFails(apply, m', fs[1..], d);
    }
  }

  lemma BoolRoundTrip(b: BoolVal, d: nat)
    ensures ParseInto(ApplyBool, EMPTY_BOOL, SerializeBool(b), d) == Success(b) <==> WfBool(b, d)
  {
    if WfBool(b, d) {
      BoolConcatIsMerge(EMPTY_BOOL, [], b, d);
      EmptyUnits(SerializeBool(b));
      MergeBoolMonoid(b, b, b);
    } else if ParseInto(ApplyBool, EMPTY_BOOL, SerializeBool(b), d) == Success(b) {
      BoolAcceptedWf(EMPTY_BOOL, SerializeBool(b), d);
    }
  }

  lemma FriendRoundTrip(b: FriendVal, d: nat)
    ensures ParseInto(ApplyFriend, EMPTY_FRIEND, SerializeFriend(b), d) == Success(b) <==> WfFriend(b, d)
  {
    if WfFriend(b, d) {
      FriendConcatIsMerge(EMPTY_FRIEND, [], b, d);
      EmptyUnits(SerializeFriend(b));
      MergeFriendMonoid(b, b, b);
    } else if ParseInto(ApplyFriend, EMPTY_FRIEND, SerializeFriend(b), d) == Success(b) {
      FriendAcceptedWf(EMPTY_FRIEND, SerializeFriend(b), d);
    }
  }

  lemma FriendRecordsTooLong(num: nat, ms: seq<FriendVal>, d: nat)
    requires num == 2 || num == 3
    ensures forall f | f in FriendRecords(num, ms) :: WfField(f, d) || TooLong(f)
    ensures (exists x | x in ms :: !FitsFriend(x)) ==> exists f | f in FriendRecords(num, ms) :: TooLong(f)
  {
    var fs := FriendRecords(num, ms);
    forall f | f in fs
      ensures WfField(f, d) || TooLong(f)
    {
      var i :| 0 <= i < |ms| && fs[i] == f;
    }
    if x :| x in ms && !FitsFriend(x) {
      var i :| 0 <= i < |ms| && ms[i] == x;
      assert fs[i] in fs && TooLong(fs[i]);
    }
  }

  /** A nested message that does not fit makes the whole parse fail. */
  lemma LoginUnfitFails(a: LoginVal, b: LoginVal, d: nat)
    requires WfLogin(b, d) && !FitsLogin(b)
    ensures ParseInto(ApplyLogin, a, SerializeLogin(b), d) == Failure
  {
    FriendRecordsTooLong(2, b.friendList, d);
    FriendRecordsTooLong(3, b.pendingList, d);
    var s, fs, ps := OptionalBool(1, b.success), FriendRecords(2, b.friendList), FriendRecords(3, b.pendingList);
    assert exists f | f in RecordsLogin(b) :: TooLong(f) by {
      if !FitsBool(b.success) {
        assert s[0] in RecordsLogin(b) && TooLong(s[0]);
      } else if f :| f in fs && TooLong(f) {
        assert f in RecordsLogin(b);
      } else {
        var f :| f in ps && TooLong(f);
        assert f in RecordsLogin(b);
      }
    }
    TooLongFails(ApplyLogin, a, RecordsLogin(b), d);
  }

  /** Appending a serialisation merges exactly when its nested messages fit; otherwise all fails. */
  lemma LoginConcatExact(m: LoginVal, x: seq<byte>, b: LoginVal, d: nat)
    requires ParseInto(ApplyLogin, m, x, d).Success? && WfLogin(b, d)
    ensures ParseInto(ApplyLogin, m, x + SerializeLogin(b), d)
         == if FitsLogin(b) then Success(MergeLogin(ParseInto(ApplyLogin, m, x, d).msg, b)) else Failure
  {
    if FitsLogin(b) {
      LoginConcatIsMerge(m, x, b, d);
    } else {
      ParseStream(ApplyLogin, m, x, SerializeLogin(b), d);
      LoginUnfitFails(ParseInto(ApplyLogin, m, x, d).msg, b, d);
    }
  }

  lemma LoginRoundTrip(b: LoginVal, d: nat)
    ensures ParseInto(ApplyLogin, EMPTY_LOGIN, SerializeLogin(b), d) == Success(b)
            <==> WfLogin(b, d) && FitsLogin(b)
  {
    if WfLogin(b, d) {
      if FitsLogin(b) {
        LoginConcatIsMerge(EMPTY_LOGIN, [], b, d);
        EmptyUnits(SerializeLogin(b));
        MergeLoginMonoid(b, b, b);
      } else {
        LoginUnfitFails(EMPTY_LOGIN, b, d);
      }
    } else if ParseInto(ApplyLogin, EMPTY_LOGIN, SerializeLogin(b), d) == Success(b) {
      LoginAcceptedWf(EMPTY_LOGIN, SerializeLogin(b), d);
    }
  }

  lemma FindUnfitFails(a: FindVal, b: FindVal, d: nat)
    requires WfFind(b, d) && !FitsFind(b)
    ensures ParseInto(ApplyFind, a, SerializeFind(b), d) == Failure
  {
    var e, i := OptionalBool(1, b.exist), OptionalFriend(2, b.friendInfo);
    assert exists f | f in RecordsFind(b) :: TooLong(f) by {
      if !FitsBool(b.exist) {
        assert e[0] in RecordsFind(b) && TooLong(e[0]);
      } else {
        assert i[0] in RecordsFind(b) && TooLong(i[0]);
      }
    }
    TooLongFails(ApplyFind, a, RecordsFind(b), d);
  }

  /** Appending a serialisation merges exactly when its nested messages fit; otherwise all fails. */
  lemma FindConcatExact(m: FindVal, x: seq<byte>, b: FindVal, d: nat)
    requires ParseInto(ApplyFind, m, x, d).Success? && WfFind(b, d)
    ensures ParseInto(ApplyFind, m, x + SerializeFind(b), d)
         == if FitsFind(b) then Success(MergeFind(ParseInto(ApplyFind, m, x, d).msg, b)) else Failure
  {
    if FitsFind(b) {
      FindConcatIsMerge(m, x, b, d);
    } else {
      ParseStream(ApplyFind, m, x, SerializeFind(b), d);
      FindUnfitFails(ParseInto(ApplyFind, m, x, d).msg, b, d);
    }
  }

  lemma FindRoundTrip(b: FindVal, d: nat)
    ensures ParseInto(ApplyFind, EMPTY_FIND, SerializeFind(b), d) == Success(b)
            <==> WfFind(b, d) && FitsFind(b)
  {
    if WfFind(b, d) {
      if FitsFind(b) {
        FindConcatIsMerge(EMPTY_FIND, [], b, d);
        EmptyUnits(SerializeFind(b));
        MergeFindMonoid(b, b, b);
      } else {
        FindUnfitFails(EMPTY_FIND, b, d);
      }
    } else if ParseInto(ApplyFind, EMPTY_FIND, SerializeFind(b), d) == Success(b) {
      FindAcceptedWf(EMPTY_FIND, SerializeFind(b), d);
    }
  }

  //
  // What the serialisation of an accepted message parses to. Whether the serialiser gives it out at
  // all, which depends on its length, is left to `NormalForms`.
  //

  /** Whatever bytes were accepted, the serialisation of the two leaf messages parses back. */
  lemma LeafNormalForm(x: seq<byte>, d: nat)
    ensures ParseInto(ApplyBool, EMPTY_BOOL, x, d).Success? ==>
              var m := ParseInto(ApplyBool, EMPTY_BOOL, x, d).msg;
              ParseInto(ApplyBool, EMPTY_BOOL, SerializeBool(m), d) == Success(m)
    ensures ParseInto(ApplyFriend, EMPTY_FRIEND, x, d).Success? ==>
              var m := ParseInto(ApplyFriend, EMPTY_FRIEND, x, d).msg;
              ParseInto(ApplyFriend, EMPTY_FRIEND, SerializeFriend(m), d) == Success(m)
  {
    if ParseInto(ApplyBool, EMPTY_BOOL, x, d).Success? {
      BoolAcceptedWf(EMPTY_BOOL, x, d);
      BoolRoundTrip(ParseInto(ApplyBool, EMPTY_BOOL, x, d).msg, d);
    }
    if ParseInto(ApplyFriend, EMPTY_FRIEND, x, d).Success? {
      FriendAcceptedWf(EMPTY_FRIEND, x, d);
      FriendRoundTrip(ParseInto(ApplyFriend, EMPTY_FRIEND, x, d).msg, d);
    }
  }

  /**
   The serialisation of an accepted S2C_LoginResponse parses back exactly when its nested messages
   fit. They may have grown: a negative number can be sent in five bytes and is written in ten,
   and several records for one sub-message merge into one.
   */
  lemma LoginNormalForm(x: seq<byte>, d: nat)
    requires ParseInto(ApplyLogin, EMPTY_LOGIN, x, d).Success?
    ensures var m := ParseInto(ApplyLogin, EMPTY_LOGIN, x, d).msg;
            ParseInto(ApplyLogin, EMPTY_LOGIN, SerializeLogin(m), d)
            == if FitsLogin(m) then Success(m) else Failure
  {
    var m := ParseInto(ApplyLogin, EMPTY_LOGIN, x, d).msg;
    LoginAcceptedWf(EMPTY_LOGIN, x, d);
    LoginRoundTrip(m, d);
    if !FitsLogin(m) {
      LoginUnfitFails(EMPTY_LOGIN, m, d);
    }
  }

  lemma FindNormalForm(x: seq<byte>, d: nat)
    requires ParseInto(ApplyFind, EMPTY_FIND, x, d).Success?
    ensures var m := ParseInto(ApplyFind, EMPTY_FIND, x, d).msg;
            ParseInto(ApplyFind, EMPTY_FIND, SerializeFind(m), d)
            == if FitsFind(m) then Success(m) else Failure
  {
    var m := ParseInto(ApplyFind, EMPTY_FIND, x, d).msg;
    FindAcceptedWf(EMPTY_FIND, x, d);
    FindRoundTrip(m, d);
    if !FitsFind(m) {
      FindUnfitFails(EMPTY_FIND, m, d);
    }
  }
}
