/**
 The accessors of `S2C_LoginResponse` take the steps of `Ownership`, one at a time and in any
 program that uses them.
 */
module OwnershipObjects {
  import opened Basics
  import opened MessageObjects
  import opened LoginResponse
  import opened Ownership
  import opened RecordParsing
  import opened Messages

  type Heap = State<S2C_LoginResponse, BoolValue>
  type History = seq<Event<S2C_LoginResponse, BoolValue>>

  /** The list elements of these messages. */
  ghost function Elements(ms: set<S2C_LoginResponse>): set<FriendInfo>
    reads ms`friendList, ms`pendingList
  {
    set m, f | m in ms && f in m.friendList + m.pendingList :: f
  }

  ghost predicate Apart(m: S2C_LoginResponse, n: S2C_LoginResponse)
    reads m`friendList, m`pendingList, n`friendList, n`pendingList
  {
    forall f | f in m.friendList + m.pendingList :: f !in n.friendList + n.pendingList
  }

  /** The messages' list elements are alive and no two messages share one. */
  ghost predicate ListsStand(ms: set<S2C_LoginResponse>)
    reads ms`friendList, ms`pendingList, Elements(ms)`freed
  {
    && (forall f | f in Elements(ms) :: !f.freed)
    && (forall m, n | m in ms && n in ms && m != n :: Apart(m, n))
  }

  /** The sub-messages are where `s` says, and freed exactly where `s` says. */
  ghost predicate SlotsStand(s: Heap)
    reads s.slot.Keys`success, s.made`freed
  {
    && (forall m | m in s.slot :: if m.success == null then s.slot[m] == None else s.slot[m] == Some(m.success))
    && (forall o | o in s.made :: o.freed <==> o in s.freed)
  }

  ghost predicate Stands(s: Heap)
    reads s.slot.Keys, s.made, Elements(s.slot.Keys)
  {
    SlotsStand(s) && ListsStand(s.slot.Keys)
  }

  lemma MessageValid(s: Heap, m: S2C_LoginResponse)
    requires Stands(s) && Separate(s) && m in s.slot
    ensures m.Valid()
  {
    assert forall f | f in m.friendList + m.pendingList :: f in Elements(s.slot.Keys);
    assert forall f | f in m.friendList :: f in m.friendList + m.pendingList;
    assert forall f | f in m.pendingList :: f in m.friendList + m.pendingList;
  }

  lemma ValidLists(m: S2C_LoginResponse)
    requires m.Valid()
    ensures forall f | f in m.friendList + m.pendingList :: !f.freed
  {
  }

  /** What a program may touch: its messages, its objects and the elements of its lists. */
  ghost function Reach(s: Heap): set<object>
    reads s.slot.Keys
  {
    s.slot.Keys + s.made + Elements(s.slot.Keys)
  }

  /** Whatever is reached now was reached before, or has just been made. */
  twostate predicate Grown(s: Heap, new t: Heap)
    reads t.slot.Keys
  {
    forall o | o in Reach(t) :: o in old(Reach(s)) || fresh(o)
  }

  /** If no list changes, and no element, the lists are as they were. */
  twostate lemma ListsKept(ms: set<S2C_LoginResponse>)
    requires old(ListsStand(ms))
    requires forall m | m in ms :: unchanged(m`friendList) && unchanged(m`pendingList)
    requires forall f | f in old(Elements(ms)) :: unchanged(f)
    ensures ListsStand(ms) && Elements(ms) == old(Elements(ms))
  {
    assert Elements(ms) == old(Elements(ms));
    forall m, n | m in ms && n in ms && m != n ensures Apart(m, n) {
      assert old(Apart(m, n));
    }
  }

  /** If one message's lists get new elements or lose some, the lists still stand. */
  twostate lemma ListsGrown(ms: set<S2C_LoginResponse>, new m: S2C_LoginResponse)
    requires m in ms && old(ListsStand(ms))
    requires forall n | n in ms && n != m :: unchanged(n`friendList) && unchanged(n`pendingList)
    requires forall f | f in old(Elements(ms)) :: unchanged(f)
    requires forall f | f in m.friendList + m.pendingList :: !f.freed
    requires forall f | f in m.friendList + m.pendingList :: f in old(m.friendList + m.pendingList) || fresh(f)
    ensures ListsStand(ms) && forall f | f in Elements(ms) :: f in old(Elements(ms)) || fresh(f)
  {
    forall f | f in Elements(ms) ensures !f.freed && (f in old(Elements(ms)) || fresh(f)) {
      var n :| n in ms && f in n.friendList + n.pendingList;
      if n != m {
        assert f in old(n.friendList + n.pendingList) && f in old(Elements(ms));
        assert !old(f.freed);
      } else if !fresh(f) {
        assert f in old(m.friendList + m.pendingList) && f in old(Elements(ms));
      }
    }
    forall n | n in ms && n != m ensures Apart(n, m) && Apart(m, n) {
      assert old(Apart(n, m)) && old(Apart(m, n));
      assert forall f | fresh(f) :: f !in old(n.friendList) && f !in old(n.pendingList);
    }
    forall n, k | n in ms && k in ms && n != k ensures Apart(n, k) {
      assert old(Apart(n, k));
    }
  }

  twostate lemma ReachKept(s: Heap, new t: Heap)
    requires t.slot.Keys <= s.slot.Keys && forall o | o in t.made :: o in s.made || fresh(o)
    requires forall f | f in Elements(t.slot.Keys) :: f in old(Elements(s.slot.Keys)) || fresh(f)
    ensures Grown(s, t)
  {
  }

  twostate lemma ReachJoined(s: Heap, new m: S2C_LoginResponse, new t: Heap)
    requires fresh(m) && t.slot.Keys == s.slot.Keys + {m} && forall o | o in t.made :: o in s.made || fresh(o)
    requires forall f | f in Elements(t.slot.Keys) :: f in old(Elements(s.slot.Keys)) || fresh(f)
    ensures Grown(s, t)
  {
  }

  twostate lemma NothingGrown(s: Heap)
    requires unchanged(s.slot.Keys)
    ensures Grown(s, s)
  {
  }

  /** What a message holds, nobody else does. */
  lemma SoleHolder(s: Heap, m: S2C_LoginResponse)
    requires Separate(s) && m in s.slot
    ensures s.slot[m].Some? ==> s.slot[m].value in s.made && s.slot[m].value !in s.caller && s.slot[m].value !in s.freed
    ensures s.slot[m].Some? ==> forall n | n in s.slot && n != m :: s.slot[n] != s.slot[m]
  {
  }

  /** All that an accessor may touch is within reach. */
  lemma WithinReach(s: Heap, m: S2C_LoginResponse)
    requires Stands(s) && Separate(s) && m in s.slot
    ensures m in Reach(s) && (m.success != null ==> m.success in Reach(s))
    ensures forall f | f in m.friendList :: f in Reach(s)
    ensures forall f | f in m.pendingList :: f in Reach(s)
  {
    forall f | f in m.friendList + m.pendingList ensures f in Elements(s.slot.Keys) {
    }
    assert forall f | f in m.friendList :: f in m.friendList + m.pendingList;
    assert forall f | f in m.pendingList :: f in m.friendList + m.pendingList;
  }

  lemma ObjectWithinReach(s: Heap, o: BoolValue)
    requires Separate(s) && o in s.caller
    ensures o in Reach(s)
  {
  }

  //
  // What each accessor does to the sub-messages
  //

  method MutableSlot(m: S2C_LoginResponse, ghost s: Heap) returns (p: BoolValue)
    requires SlotsStand(s) && Separate(s) && m in s.slot && m.Valid()
    modifies m`success
    ensures s.slot[m] == None ==> fresh(p)
    ensures Legal(s, Mutable(m, p)) && SlotsStand(Step(s, Mutable(m, p)))
  {
    SoleHolder(s, m);
    hide S2C_LoginResponse.View, S2C_LoginResponse.Valid, Separate;
    p := m.MutableSuccess();
  }

  method ClearSlot(m: S2C_LoginResponse, ghost s: Heap)
    requires SlotsStand(s) && Separate(s) && m in s.slot && m.Valid()
    modifies m`success, m.success
    ensures Legal(s, Clear(m)) && SlotsStand(Step(s, Clear(m)))
  {
    SoleHolder(s, m);
    hide S2C_LoginResponse.View, S2C_LoginResponse.Valid, Separate;
    m.ClearSuccess();
  }

  method ReleaseSlot(m: S2C_LoginResponse, ghost s: Heap) returns (p: BoolValue?)
    requires SlotsStand(s) && Separate(s) && m in s.slot && m.Valid()
    modifies m`success
    ensures Legal(s, Release(m)) && SlotsStand(Step(s, Release(m)))
    ensures p == null <==> s.slot[m] == None
    ensures p != null ==> s.slot[m] == Some(p) && p !in s.caller
  {
    SoleHolder(s, m);
    hide S2C_LoginResponse.View, S2C_LoginResponse.Valid, Separate;
    p := m.ReleaseSuccess();
  }

  method GiveSlot(m: S2C_LoginResponse, p: BoolValue, ghost s: Heap)
    requires SlotsStand(s) && Separate(s) && m in s.slot && m.Valid() && p in s.caller
    modifies m`success, m.success
    ensures Legal(s, SetAllocated(m, Some(p)))
    ensures SlotsStand(Step(s, SetAllocated(m, Some(p))))
  {
    SoleHolder(s, m);
    hide S2C_LoginResponse.View, S2C_LoginResponse.Valid, Separate;
    m.SetAllocatedSuccess(p);
  }

  method GiveNoneSlot(m: S2C_LoginResponse, ghost s: Heap)
    requires SlotsStand(s) && Separate(s) && m in s.slot && m.Valid()
    modifies m`success, m.success
    ensures Legal(s, SetAllocated(m, None))
    ensures SlotsStand(Step(s, SetAllocated(m, None)))
  {
    SoleHolder(s, m);
    hide S2C_LoginResponse.View, S2C_LoginResponse.Valid, Separate;
    m.SetAllocatedSuccess(null);
  }

  /** The sub-message a message now has was handed out by `mutable_success`, if it was there before. */
  function Filled(m: S2C_LoginResponse): History
    reads m`success
  {
    if m.success == null then [] else [Mutable(m, m.success)]
  }

  lemma FilledRun(s: Heap, m: S2C_LoginResponse)
    requires m in s.slot
    requires m.success != null ==> if s.slot[m] == None then m.success !in s.made else s.slot[m] == Some(m.success)
    ensures LegalRun(s, Filled(m))
    ensures Run(s, Filled(m)) == if m.success == null then s else Step(s, Mutable(m, m.success))
  {
    if m.success != null {
      RunOne(s, Mutable(m, m.success));
    }
  }

  /** The events of a refill: the old sub-message goes, and there may be a new one. */
  function Refilled(m: S2C_LoginResponse): History
    reads m`success
  {
    [Event<S2C_LoginResponse, BoolValue>.Clear(m)] + Filled(m)
  }

  /** The sub-messages of all messages but `m` are where `s` says. */
  ghost predicate OthersStand(s: Heap, m: S2C_LoginResponse)
    reads s.slot.Keys`success
  {
    forall n | n in s.slot && n != m :: if n.success == null then s.slot[n] == None else s.slot[n] == Some(n.success)
  }

  lemma MutatedRun(s: Heap, m: S2C_LoginResponse)
    requires m in s.slot && OthersStand(s, m) && forall o | o in s.made :: o.freed <==> o in s.freed
    requires m.success != null && if s.slot[m] == None then m.success !in s.made && !m.success.freed
                                  else s.slot[m] == Some(m.success)
    requires Separate(s)
    ensures Legal(s, Mutable(m, m.success)) && SlotsStand(Step(s, Mutable(m, m.success)))
  {
    SoleHolder(s, m);
    hide Separate;
  }

  /** A message without a sub-message, as `s` has it, may get a new one. */
  lemma FilledStands(s: Heap, m: S2C_LoginResponse)
    requires m in s.slot && s.slot[m] == None && OthersStand(s, m)
    requires forall o | o in s.made :: o.freed <==> o in s.freed
    requires m.success != null ==> m.success !in s.made + s.freed && !m.success.freed
    ensures LegalRun(s, Filled(m)) && SlotsStand(Run(s, Filled(m)))
  {
    FilledRun(s, m);
    hide LegalRun, Run;
  }

  lemma ClearedStands(s: Heap, m: S2C_LoginResponse)
    requires m in s.slot && OthersStand(s, m) && Separate(s)
    requires forall o | o in s.made :: o.freed <==> o in s.freed || s.slot[m] == Some(o)
    ensures Legal(s, Clear(m))
    ensures var t := Step(s, Clear(m));
            && t.slot == s.slot[m := None] && t.made == s.made && t.freed <= s.made && OthersStand(t, m)
            && forall o | o in t.made :: o.freed <==> o in t.freed
  {
    SoleHolder(s, m);
  }

  lemma RefilledRun(s: Heap, m: S2C_LoginResponse)
    requires m in s.slot && OthersStand(s, m) && Separate(s)
    requires forall o | o in s.made :: o.freed <==> o in s.freed || s.slot[m] == Some(o)
    requires m.success != null ==> m.success !in s.made && !m.success.freed
    ensures LegalRun(s, Refilled(m)) && SlotsStand(Run(s, Refilled(m)))
  {
    var e := Event<S2C_LoginResponse, BoolValue>.Clear(m);
    ClearedStands(s, m);
    hide Separate, LegalRun, Run, OthersStand, SlotsStand, Legal, Step, Filled;
    FilledStands(Step(s, e), m);
    RunOne(s, e);
    RunAppend(s, [e], Filled(m));
  }

  method ClearAllSlot(m: S2C_LoginResponse, ghost s: Heap)
    requires SlotsStand(s) && Separate(s) && m in s.slot && m.Valid()
    modifies m, m.success
    ensures Legal(s, Clear(m)) && SlotsStand(Step(s, Clear(m))) && m.friendList == m.pendingList == []
  {
    SoleHolder(s, m);
    hide S2C_LoginResponse.View, S2C_LoginResponse.Valid, Separate;
    m.Clear();
  }

  method MergeSlot(m: S2C_LoginResponse, from: S2C_LoginResponse, ghost s: Heap)
    requires SlotsStand(s) && Separate(s) && m in s.slot && from in s.slot && from != m && m.Valid() && from.Valid()
    modifies m, m.success
    ensures m.Valid() && m.Kept(old(m.friendList), old(m.pendingList))
    ensures s.slot[m] == None && m.success != null ==> fresh(m.success)
    ensures s.slot[from] == None ==> SlotsStand(s)
    ensures s.slot[from].Some? ==> m.success != null && Legal(s, Mutable(m, m.success))
    ensures s.slot[from].Some? ==> SlotsStand(Step(s, Mutable(m, m.success)))
  {
    SoleHolder(s, m);
    m.ViewParts();
    from.ViewParts();
    hide S2C_LoginResponse.View, S2C_LoginResponse.Valid, Separate, Views, MergeBool;
    m.MergeFrom(from);
    m.ViewParts();
    if s.slot[from].Some? {
      assert OthersStand(s, m) && forall o | o in s.made :: o.freed <==> o in s.freed;
      MutatedRun(s, m);
    }
    hide SlotsStand, Legal, Step;
  }

  method CopySlot(m: S2C_LoginResponse, from: S2C_LoginResponse, ghost s: Heap)
    requires SlotsStand(s) && Separate(s) && m in s.slot && from in s.slot && from != m && m.Valid() && from.Valid()
    modifies m, m.success
    ensures m.Valid() && forall f | f in m.friendList + m.pendingList :: fresh(f)
    ensures m.success == null <==> s.slot[from] == None
    ensures m.success != null ==> fresh(m.success)
    ensures LegalRun(s, Refilled(m)) && SlotsStand(Run(s, Refilled(m)))
  {
    SoleHolder(s, m);
    from.ViewParts();
    hide S2C_LoginResponse.View, S2C_LoginResponse.Valid, Separate, Views, Refilled, LegalRun, Run;
    m.CopyFrom(from);
    m.ViewParts();
    OwnedParts(m);
    RefilledRun(s, m);
  }

  method ParseSlot(m: S2C_LoginResponse, data: seq<byte>, ghost s: Heap) returns (ok: bool)
    requires SlotsStand(s) && Separate(s) && m in s.slot && m.Valid()
    modifies m, m.success
    ensures m.Valid() && forall f | f in m.friendList + m.pendingList :: fresh(f)
    ensures m.success != null ==> fresh(m.success)
    ensures ok <==> ParseInto(ApplyLogin, EMPTY_LOGIN, data, RECURSION_LIMIT).Success?
    ensures ok ==> m.View() == ParseInto(ApplyLogin, EMPTY_LOGIN, data, RECURSION_LIMIT).msg
    ensures LegalRun(s, Refilled(m)) && SlotsStand(Run(s, Refilled(m)))
  {
    SoleHolder(s, m);
    hide S2C_LoginResponse.View, S2C_LoginResponse.Valid, Separate, ParseInto, Refilled, LegalRun, Run;
    ok := m.ParseFromString(data);
    m.ViewParts();
    OwnedParts(m);
    RefilledRun(s, m);
  }

  lemma OwnedParts(m: S2C_LoginResponse)
    ensures m.success != null ==> m.success in m.Owned()
    ensures forall f | f in m.friendList + m.pendingList :: f in m.Owned()
  {
  }

  //
  // What each accessor does to everything within reach
  //

  method MakeObject(ghost s: Heap) returns (o: BoolValue)
    requires Stands(s) && Separate(s)
    ensures fresh(o) && Legal(s, NewObject(o)) && Stands(Step(s, NewObject(o))) && Grown(s, Step(s, NewObject(o)))
  {
    o := new BoolValue();
  }

  lemma ListsJoined(ms: set<S2C_LoginResponse>, m: S2C_LoginResponse)
    requires ListsStand(ms) && forall f | f in m.friendList + m.pendingList :: !f.freed && f !in Elements(ms)
    ensures ListsStand(ms + {m})
    ensures forall f | f in Elements(ms + {m}) :: f in Elements(ms) || f in m.friendList + m.pendingList
  {
    forall f | f in Elements(ms + {m}) ensures !f.freed && (f in Elements(ms) || f in m.friendList + m.pendingList) {
      var n :| n in ms + {m} && f in n.friendList + n.pendingList;
    }
    forall n, k | n in ms + {m} && k in ms + {m} && n != k ensures Apart(n, k) {
      if n == m || k == m {
        var l := if n == m then k else n;
        assert forall f | f in l.friendList + l.pendingList :: f in Elements(ms);
      }
    }
  }

  method MakeMessage(ghost s: Heap) returns (m: S2C_LoginResponse)
    requires Stands(s) && Separate(s)
    ensures fresh(m) && m.friendList == m.pendingList == []
    ensures Legal(s, NewMessage(m)) && Stands(Step(s, NewMessage(m))) && Grown(s, Step(s, NewMessage(m)))
  {
    m := new S2C_LoginResponse();
    ListsJoined(s.slot.Keys, m);
    hide ListsStand, Elements;
  }

  /** The events of a copy construction. */
  function Copied(m: S2C_LoginResponse): History
    reads m`success
  {
    [Event<S2C_LoginResponse, BoolValue>.NewMessage(m)] + Filled(m)
  }

  lemma CopiedRun(s: Heap, m: S2C_LoginResponse)
    requires Separate(s) && m !in s.slot && SlotsStand(s)
    requires m.success != null ==> m.success !in s.made && !m.success.freed
    ensures LegalRun(s, Copied(m)) && SlotsStand(Run(s, Copied(m)))
  {
    var e := Event<S2C_LoginResponse, BoolValue>.NewMessage(m);
    hide LegalRun, Run;
    FilledStands(Step(s, e), m);
    hide Separate, SlotsStand;
    RunOne(s, e);
    RunAppend(s, [e], Filled(m));
  }

  lemma CopiedReach(s: Heap, m: S2C_LoginResponse)
    requires m !in s.slot && !(m.success != null && m.success in s.made)
    ensures LegalRun(s, Copied(m))
    ensures var t := Run(s, Copied(m));
            t.slot.Keys == s.slot.Keys + {m} && t.made == s.made + if m.success == null then {} else {m.success}
  {
    var e := Event<S2C_LoginResponse, BoolValue>.NewMessage(m);
    FilledRun(Step(s, e), m);
    RunOne(s, e);
    RunAppend(s, [e], Filled(m));
    hide LegalRun, Run;
  }

  method CopyConstruct(from: S2C_LoginResponse, ghost s: Heap) returns (m: S2C_LoginResponse)
    requires SlotsStand(s) && Separate(s) && from in s.slot && from.Valid()
    ensures fresh(m) && (m.success == null <==> s.slot[from] == None) && (m.success != null ==> fresh(m.success))
    ensures forall f | f in m.friendList + m.pendingList :: fresh(f) && !f.freed
    ensures LegalRun(s, Copied(m)) && SlotsStand(Run(s, Copied(m)))
  {
    from.ViewParts();
    hide S2C_LoginResponse.Valid, S2C_LoginResponse.View, Separate, Copied, LegalRun, Run;
    m := new S2C_LoginResponse.Copy(from);
    m.ViewParts();
    OwnedParts(m);
    ValidLists(m);
    CopiedRun(s, m);
  }

  /** The copy constructor makes a message and, if the source has one, a sub-message of its own. */
  method MakeCopy(from: S2C_LoginResponse, ghost s: Heap) returns (m: S2C_LoginResponse)
    requires Stands(s) && Separate(s) && from in s.slot
    ensures fresh(m) && (m.success == null <==> s.slot[from] == None)
    ensures LegalRun(s, Copied(m)) && var t := Run(s, Copied(m)); Stands(t) && Grown(s, t)
  {
    MessageValid(s, from);
    ghost var ms := s.slot.Keys;
    hide S2C_LoginResponse.Valid, SlotsStand, Elements, Apart, ListsStand, Reach, Grown, Copied, LegalRun, Run;
    m := CopyConstruct(from, s);
    CopiedReach(s, m);
    hide Separate;
    ListsKept(ms);
    ListsJoined(ms, m);
    ReachJoined(s, m, Run(s, Copied(m)));
  }

  method TakeMutable(m: S2C_LoginResponse, ghost s: Heap) returns (p: BoolValue)
    requires Stands(s) && Separate(s) && m in s.slot
    modifies m`success
    ensures s.slot[m] == None ==> fresh(p)
    ensures Legal(s, Mutable(m, p)) && Stands(Step(s, Mutable(m, p))) && Grown(s, Step(s, Mutable(m, p)))
  {
    MessageValid(s, m);
    hide S2C_LoginResponse.Valid, Elements, Apart, Reach, Grown, ListsStand, SlotsStand, Separate;
    ghost var ms := s.slot.Keys;
    p := MutableSlot(m, s);
    ListsKept(ms);
    ReachKept(s, Step(s, Mutable(m, p)));
  }

  method ClearOne(m: S2C_LoginResponse, ghost s: Heap)
    requires Stands(s) && Separate(s) && m in s.slot
    modifies m`success, m.success
    ensures Legal(s, Clear(m)) && Stands(Step(s, Clear(m))) && Grown(s, Step(s, Clear(m)))
  {
    MessageValid(s, m);
    hide S2C_LoginResponse.Valid, Elements, Apart, Reach, Grown, ListsStand, SlotsStand, Separate;
    ghost var ms := s.slot.Keys;
    ClearSlot(m, s);
    ListsKept(ms);
    ReachKept(s, Step(s, Clear(m)));
  }

  method ReleaseOne(m: S2C_LoginResponse, ghost s: Heap) returns (p: BoolValue?)
    requires Stands(s) && Separate(s) && m in s.slot
    modifies m`success
    ensures Legal(s, Release(m)) && Stands(Step(s, Release(m))) && Grown(s, Step(s, Release(m)))
    ensures p == null <==> s.slot[m] == None
    ensures p != null ==> s.slot[m] == Some(p) && p !in s.caller
  {
    MessageValid(s, m);
    hide S2C_LoginResponse.Valid, Elements, Apart, Reach, Grown, ListsStand, SlotsStand, Separate;
    ghost var ms := s.slot.Keys;
    p := ReleaseSlot(m, s);
    ListsKept(ms);
    ReachKept(s, Step(s, Release(m)));
  }

  method GiveOne(m: S2C_LoginResponse, p: BoolValue, ghost s: Heap)
    requires Stands(s) && Separate(s) && m in s.slot && p in s.caller
    modifies m`success, m.success
    ensures Legal(s, SetAllocated(m, Some(p)))
    ensures Stands(Step(s, SetAllocated(m, Some(p)))) && Grown(s, Step(s, SetAllocated(m, Some(p))))
  {
    MessageValid(s, m);
    hide S2C_LoginResponse.Valid, Elements, Apart, Reach, Grown, ListsStand, SlotsStand, Separate;
    ghost var ms := s.slot.Keys;
    GiveSlot(m, p, s);
    ListsKept(ms);
    ReachKept(s, Step(s, SetAllocated(m, Some(p))));
  }

  /** `set_allocated_success(nullptr)` */
  method GiveNone(m: S2C_LoginResponse, ghost s: Heap)
    requires Stands(s) && Separate(s) && m in s.slot
    modifies m`success, m.success
    ensures Legal(s, SetAllocated(m, None))
    ensures Stands(Step(s, SetAllocated(m, None))) && Grown(s, Step(s, SetAllocated(m, None)))
  {
    MessageValid(s, m);
    hide S2C_LoginResponse.Valid, Elements, Apart, Reach, Grown, ListsStand, SlotsStand, Separate;
    ghost var ms := s.slot.Keys;
    GiveNoneSlot(m, s);
    ListsKept(ms);
    ReachKept(s, Step(s, SetAllocated(m, None)));
  }

  /** A new list element belongs to one message; no sub-message changes hands. */
  method AddElement(m: S2C_LoginResponse, num: nat, ghost s: Heap) returns (f: FriendInfo)
    requires Stands(s) && Separate(s) && m in s.slot && (num == 2 || num == 3)
    modifies m`friendList, m`pendingList
    ensures fresh(f) && Stands(s) && Grown(s, s)
    ensures num == 2 ==> m.friendList == old(m.friendList) + [f] && m.pendingList == old(m.pendingList)
    ensures num == 3 ==> m.pendingList == old(m.pendingList) + [f] && m.friendList == old(m.friendList)
  {
    MessageValid(s, m);
    ValidLists(m);
    hide S2C_LoginResponse.View, S2C_LoginResponse.Valid, Elements, Apart, Reach, Grown, ListsStand, SlotsStand,
      Separate;
    ghost var ms := s.slot.Keys;
    f := m.AddFriend(num);
    ValidLists(m);
    ListsGrown(ms, m);
    ReachKept(s, s);
  }

  /** The whole message is cleared. */
  method ClearAll(m: S2C_LoginResponse, ghost s: Heap)
    requires Stands(s) && Separate(s) && m in s.slot
    modifies m, m.success
    ensures Legal(s, Clear(m)) && Stands(Step(s, Clear(m))) && Grown(s, Step(s, Clear(m)))
    ensures m.friendList == m.pendingList == []
  {
    MessageValid(s, m);
    hide S2C_LoginResponse.Valid, Elements, Apart, Reach, Grown, ListsStand, SlotsStand, Separate;
    ghost var ms := s.slot.Keys;
    ClearAllSlot(m, s);
    ListsGrown(ms, m);
    ReachKept(s, Step(s, Clear(m)));
  }

  /** A merge copies: it takes at most what `mutable_success` takes, and never the source's own. */
  method MergeOne(m: S2C_LoginResponse, from: S2C_LoginResponse, ghost s: Heap)
    requires Stands(s) && Separate(s) && m in s.slot && from in s.slot && from != m
    modifies m, m.success
    ensures s.slot[from] == None ==> Stands(s) && Grown(s, s)
    ensures s.slot[from].Some? ==> m.success != null && Legal(s, Mutable(m, m.success))
    ensures s.slot[from].Some? ==> var t := Step(s, Mutable(m, m.success)); Stands(t) && Grown(s, t)
  {
    MessageValid(s, m);
    MessageValid(s, from);
    SoleHolder(s, m);
    hide S2C_LoginResponse.Valid, Elements, Apart, Reach, Grown, ListsStand, SlotsStand, Separate;
    ghost var ms := s.slot.Keys;
    MergeSlot(m, from, s);
    ValidLists(m);
    ListsGrown(ms, m);
    ReachKept(s, if s.slot[from] == None then s else Step(s, Mutable(m, m.success)));
  }

  /** What a refill does to the messages that exist, and to the objects that were made. */
  lemma RefilledReach(s: Heap, m: S2C_LoginResponse)
    requires m in s.slot && LegalRun(s, Refilled(m)) && !(m.success != null && m.success in s.made)
    ensures var t := Run(s, Refilled(m));
            t.slot.Keys == s.slot.Keys && t.made == s.made + if m.success == null then {} else {m.success}
  {
    var e := Event<S2C_LoginResponse, BoolValue>.Clear(m);
    RunOne(s, e);
    FilledRun(Step(s, e), m);
    RunAppend(s, [e], Filled(m));
    hide LegalRun, Run;
  }

  /** A copy from another message frees the old sub-message and makes the new one. */
  method CopyOne(m: S2C_LoginResponse, from: S2C_LoginResponse, ghost s: Heap)
    requires Stands(s) && Separate(s) && m in s.slot && from in s.slot && from != m
    modifies m, m.success
    ensures m.success == null <==> s.slot[from] == None
    ensures LegalRun(s, Refilled(m)) && var t := Run(s, Refilled(m)); Stands(t) && Grown(s, t)
  {
    MessageValid(s, m);
    MessageValid(s, from);
    hide S2C_LoginResponse.Valid, Elements, Apart, Reach, Grown, ListsStand, SlotsStand, Separate, LegalRun, Run,
      Refilled;
    ghost var ms := s.slot.Keys;
    CopySlot(m, from, s);
    ValidLists(m);
    ListsGrown(ms, m);
    RefilledReach(s, m);
    ReachKept(s, Run(s, Refilled(m)));
  }

  /** So does parsing, whether or not the input is accepted. */
  method ParseOne(m: S2C_LoginResponse, data: seq<byte>, ghost s: Heap) returns (ok: bool)
    requires Stands(s) && Separate(s) && m in s.slot
    modifies m, m.success
    ensures ok <==> ParseInto(ApplyLogin, EMPTY_LOGIN, data, RECURSION_LIMIT).Success?
    ensures ok ==> m.View() == ParseInto(ApplyLogin, EMPTY_LOGIN, data, RECURSION_LIMIT).msg
    ensures LegalRun(s, Refilled(m)) && var t := Run(s, Refilled(m)); Stands(t) && Grown(s, t)
  {
    MessageValid(s, m);
    hide S2C_LoginResponse.Valid, Elements, Apart, Reach, Grown, ListsStand, SlotsStand, Separate, LegalRun, Run,
      Refilled, ParseInto;
    ghost var ms := s.slot.Keys;
    ok := ParseSlot(m, data, s);
    ValidLists(m);
    ListsGrown(ms, m);
    RefilledReach(s, m);
    ReachKept(s, Run(s, Refilled(m)));
  }

  method DeleteObject(o: BoolValue, ghost s: Heap)
    requires Stands(s) && Separate(s) && o in s.caller
    modifies o
    ensures Legal(s, Delete(o)) && Stands(Step(s, Delete(o))) && Grown(s, Step(s, Delete(o)))
  {
    DeleteBool(o);
  }

  lemma OthersApart(ms: set<S2C_LoginResponse>, m: S2C_LoginResponse)
    requires ListsStand(ms) && m in ms
    ensures ListsStand(ms - {m})
    ensures forall f | f in Elements(ms - {m}) :: f !in m.friendList && f !in m.pendingList
  {
    forall f | f in Elements(ms - {m}) ensures f !in m.friendList && f !in m.pendingList {
      var n :| n in ms - {m} && f in n.friendList + n.pendingList;
      assert Apart(n, m);
      assert f !in m.friendList + m.pendingList;
    }
  }

  method DestroySlot(m: S2C_LoginResponse, ghost s: Heap)
    requires SlotsStand(s) && Separate(s) && m in s.slot && m.Valid()
    modifies m.success, m.friendList, m.pendingList
    ensures Legal(s, Destroy(m)) && SlotsStand(Step(s, Destroy(m)))
    ensures forall f | f in m.friendList + m.pendingList :: f.freed
  {
    SoleHolder(s, m);
    hide S2C_LoginResponse.View, S2C_LoginResponse.Valid, Separate;
    m.Destroy();
  }

  method DestroyMessage(m: S2C_LoginResponse, ghost s: Heap)
    requires Stands(s) && Separate(s) && m in s.slot
    modifies m.success, m.friendList, m.pendingList
    ensures Legal(s, Destroy(m)) && Stands(Step(s, Destroy(m))) && Grown(s, Step(s, Destroy(m)))
    ensures forall f | f in m.friendList + m.pendingList :: f.freed
  {
    MessageValid(s, m);
    OthersApart(s.slot.Keys, m);
    ghost var ms := s.slot.Keys - {m};
    hide S2C_LoginResponse.Valid, Elements, Apart, ListsStand, SlotsStand, Reach, Grown, Separate;
    DestroySlot(m, s);
    ListsKept(ms);
    ReachKept(s, Step(s, Destroy(m)));
  }

  //
  // Any program
  //

  /**
   The calls of a program, each by the name of what it calls. A program keeps every message it
   makes and every object it is handed in a variable; the numbers say which variable.
   */
  datatype Call =
    | MakeLogin
    | CopyLogin(from: nat)
    | MakeBool
    | MutableSuccess(msg: nat)
    | ClearSuccess(msg: nat)
    | ReleaseSuccess(msg: nat)
    | SetAllocatedSuccess(msg: nat, obj: nat)
    | SetAllocatedNull(msg: nat)
    | AddFriendList(msg: nat)
    | AddPendingList(msg: nat)
    | ClearMessage(msg: nat)
    | MergeFrom(msg: nat, from: nat)
    | CopyFrom(msg: nat, from: nat)
    | ParseFromString(msg: nat, data: seq<byte>)
    | DeleteOwned(obj: nat)
    | DeleteLogin(msg: nat)

  /** Where a program is: its variables, what has happened, and where that leaves every object. */
  datatype Point = Point(msgs: seq<S2C_LoginResponse>, objs: seq<BoolValue>, events: History, heap: Heap)

  const BEGIN := Point([], [], [], Start())

  /** The variable holds a message that still exists. */
  predicate Alive(x: Point, i: nat) {
    i < |x.msgs| && x.msgs[i] in x.heap.slot
  }

  /** The variable holds an object that the program must delete. */
  predicate Owns(x: Point, j: nat) {
    j < |x.objs| && x.objs[j] in x.heap.caller
  }

  /** The program uses what exists, gives away and deletes what it owns, and merges only others. */
  predicate Allowed(c: Call, x: Point) {
    match c
    case MakeLogin => true
    case CopyLogin(k) => Alive(x, k)
    case MakeBool => true
    case SetAllocatedSuccess(i, j) => Alive(x, i) && Owns(x, j)
    case MergeFrom(i, k) => Alive(x, i) && Alive(x, k) && x.msgs[i] != x.msgs[k]
    case CopyFrom(i, k) => Alive(x, i) && Alive(x, k)
    case DeleteOwned(j) => Owns(x, j)
    case _ => Alive(x, c.msg)
  }

  /**
   The rule is no stricter than it must be: a call on messages that exist is forbidden only if it
   would merge a message into itself or break the single ownership.
   */
  lemma AllowedExact(c: Call, x: Point)
    requires Conserved(x.heap)
    ensures match c
            case MakeLogin => Allowed(c, x)
            case MakeBool => Allowed(c, x)
            case CopyLogin(k) => Allowed(c, x) <==> k < |x.msgs| && x.msgs[k] in x.heap.slot
            case SetAllocatedSuccess(i, j) =>
              Allowed(c, x) <==> && i < |x.msgs| && x.msgs[i] in x.heap.slot && j < |x.objs|
                                 && Conserved(Step(x.heap, SetAllocated(x.msgs[i], Some(x.objs[j]))))
            case DeleteOwned(j) =>
              Allowed(c, x) <==> j < |x.objs| && Conserved(Step(x.heap, Delete(x.objs[j])))
            case MergeFrom(i, k) =>
              Allowed(c, x) <==> && i < |x.msgs| && x.msgs[i] in x.heap.slot
                                 && k < |x.msgs| && x.msgs[k] in x.heap.slot && x.msgs[i] != x.msgs[k]
            case CopyFrom(i, k) =>
              Allowed(c, x) <==> && i < |x.msgs| && x.msgs[i] in x.heap.slot
                                 && k < |x.msgs| && x.msgs[k] in x.heap.slot
            case _ => Allowed(c, x) <==> c.msg < |x.msgs| && x.msgs[c.msg] in x.heap.slot
  {
    hide Conserved, Step;
    match c
    case SetAllocatedSuccess(i, j) =>
      if Alive(x, i) && j < |x.objs| {
        SetAllocatedExact(x.heap, x.msgs[i], x.objs[j]);
      }
    case DeleteOwned(j) =>
      if j < |x.objs| {
        DeleteExact(x.heap, x.objs[j]);
      }
    case _ =>
  }

  predicate IsMutable(es: History, m: S2C_LoginResponse) {
    |es| == 1 && es[0].Mutable? && es[0].msg == m
  }

  function Parsed(data: seq<byte>): Outcome<LoginVal> {
    ParseInto(ApplyLogin, EMPTY_LOGIN, data, RECURSION_LIMIT)
  }

  /** Accepted input says whether there is a new sub-message; after a refusal there may be one. */
  ghost predicate IsParse(es: History, m: S2C_LoginResponse, data: seq<byte>) {
    var r := Parsed(data);
    if r.Success? then IsRefill(es, m, r.msg.success.Some?) else IsRefill(es, m, false) || IsRefill(es, m, true)
  }

  /** What the call `c` does to the ownership of sub-messages, and nothing else. */
  ghost predicate Happens(c: Call, x: Point, es: History)
    requires Allowed(c, x)
  {
    match c
    case MakeLogin => |es| == 1 && es[0].NewMessage?
    case CopyLogin(k) =>
      && es != [] && es[0].NewMessage?
      && if x.heap.slot[x.msgs[k]].Some? then IsMutable(es[1..], es[0].msg) else |es| == 1
    case MakeBool => |es| == 1 && es[0].NewObject?
    case MutableSuccess(i) => IsMutable(es, x.msgs[i])
    case ClearSuccess(i) => es == [Clear(x.msgs[i])]
    case ReleaseSuccess(i) => es == [Release(x.msgs[i])]
    case SetAllocatedSuccess(i, j) => es == [SetAllocated(x.msgs[i], Some(x.objs[j]))]
    case SetAllocatedNull(i) => es == [SetAllocated(x.msgs[i], None)]
    case AddFriendList(i) => es == []
    case AddPendingList(i) => es == []
    case ClearMessage(i) => es == [Clear(x.msgs[i])]
    case MergeFrom(i, k) => if x.heap.slot[x.msgs[k]] == None then es == [] else IsMutable(es, x.msgs[i])
    case CopyFrom(i, k) =>
      if x.msgs[i] == x.msgs[k] then es == [] else IsRefill(es, x.msgs[i], x.heap.slot[x.msgs[k]].Some?)
    case ParseFromString(i, data) => IsParse(es, x.msgs[i], data)
    case DeleteOwned(j) => es == [Delete(x.objs[j])]
    case DeleteLogin(i) => es == [Destroy(x.msgs[i])]
  }

  /** The old sub-message is freed; there is a new one if `present` says so. */
  ghost predicate IsRefill(es: History, m: S2C_LoginResponse, present: bool) {
    es != [] && es[0] == Clear(m) && if present then IsMutable(es[1..], m) else es == [Clear(m)]
  }

  /** The variables afterwards: what is made or handed over is kept in a new one. */
  ghost predicate Named(c: Call, x: Point, es: History, msgs: seq<S2C_LoginResponse>, objs: seq<BoolValue>)
    requires Allowed(c, x) && Happens(c, x, es)
  {
    && msgs == (if c.MakeLogin? || c.CopyLogin? then x.msgs + [es[0].msg] else x.msgs)
    && objs == (
         if c.MakeBool? then x.objs + [es[0].obj]
         else if c.ReleaseSuccess? && x.heap.slot[x.msgs[c.msg]].Some? then x.objs + [x.heap.slot[x.msgs[c.msg]].value]
         else x.objs)
  }

  /** From `x` the call leads to `y`. */
  ghost predicate Turn(c: Call, x: Point, es: History, y: Point) {
    && Allowed(c, x) && Happens(c, x, es) && Named(c, x, es, y.msgs, y.objs)
    && LegalRun(x.heap, es) && y.heap == Run(x.heap, es) && y.events == x.events + es
  }

  /** `es` is a legal run that ends in `s`, and the heap is as `s` says. */
  ghost predicate Ran(es: History, s: Heap)
    reads s.slot.Keys, s.made, Elements(s.slot.Keys)
  {
    LegalRun(Start(), es) && Run(Start(), es) == s && Separate(s) && Stands(s)
  }

  lemma RanConserves(es: History, s: Heap)
    requires Ran(es, s)
    ensures Conserved(s)
  {
    ConservedIsSeparate(s);
  }

  lemma RanOn(es: History, s: Heap, fs: History)
    requires LegalRun(Start(), es) && Run(Start(), es) == s && Separate(s)
    requires LegalRun(s, fs) && Stands(Run(s, fs))
    ensures Ran(es + fs, Run(s, fs))
  {
    hide Stands, Separate, LegalRun, Run, Start;
    ConservedIsSeparate(s);
    RunConserves(s, fs);
    ConservedIsSeparate(Run(s, fs));
    RunAppend(Start(), es, fs);
  }

  predicate OnSlot(c: Call) {
    c.MutableSuccess? || c.ClearSuccess? || c.SetAllocatedSuccess? || c.SetAllocatedNull?
  }

  predicate OnMessage(c: Call) {
    c.AddFriendList? || c.AddPendingList? || c.ClearMessage? || c.MergeFrom? || c.CopyFrom? || c.ParseFromString?
  }

  /** The calls on the sub-message of one message. */
  method SlotCall(c: Call, x: Point) returns (es: History)
    requires Ran(x.events, x.heap) && Allowed(c, x)
    requires OnSlot(c)
    modifies Reach(x.heap)
    ensures Happens(c, x, es) && LegalRun(x.heap, es)
    ensures Stands(Run(x.heap, es)) && Grown(x.heap, Run(x.heap, es))
  {
    hide ListsStand, SlotsStand, Stands, Separate, LegalRun, Run, Reach, Grown, ParseInto;
    var s := x.heap;
    WithinReach(s, x.msgs[c.msg]);
    match c {
      case MutableSuccess(i) =>
        var p := TakeMutable(x.msgs[i], s);
        es := [Mutable(x.msgs[i], p)];
      case ClearSuccess(i) =>
        ClearOne(x.msgs[i], s);
        es := [Clear(x.msgs[i])];
      case SetAllocatedSuccess(i, j) =>
        ObjectWithinReach(s, x.objs[j]);
        GiveOne(x.msgs[i], x.objs[j], s);
        es := [SetAllocated(x.msgs[i], Some(x.objs[j]))];
      case SetAllocatedNull(i) =>
        GiveNone(x.msgs[i], s);
        es := [SetAllocated(x.msgs[i], None)];
    }
    RunOne(s, es[0]);
  }

  /** The calls on one whole message. */
  method MessageCall(c: Call, x: Point) returns (es: History)
    requires Ran(x.events, x.heap) && Allowed(c, x)
    requires OnMessage(c)
    modifies Reach(x.heap)
    ensures Happens(c, x, es) && LegalRun(x.heap, es)
    ensures Stands(Run(x.heap, es)) && Grown(x.heap, Run(x.heap, es))
    ensures c.AddFriendList? ==> old(x.msgs[c.msg].friendList) < x.msgs[c.msg].friendList
    ensures c.AddPendingList? ==> old(x.msgs[c.msg].pendingList) < x.msgs[c.msg].pendingList
  {
    hide ListsStand, SlotsStand, Stands, Separate, LegalRun, Run, Reach, Grown, ParseInto;
    var s := x.heap;
    WithinReach(s, x.msgs[c.msg]);
    es := [];
    RunNone(s);
    NothingGrown(s);
    match c {
      case AddFriendList(i) =>
        var f := AddElement(x.msgs[i], 2, s);
      case AddPendingList(i) =>
        var f := AddElement(x.msgs[i], 3, s);
      case ClearMessage(i) =>
        ClearAll(x.msgs[i], s);
        es := [Clear(x.msgs[i])];
        RunOne(s, es[0]);
      case MergeFrom(i, k) =>
        MergeOne(x.msgs[i], x.msgs[k], s);
        if s.slot[x.msgs[k]].Some? {
          es := [Mutable(x.msgs[i], x.msgs[i].success)];
          RunOne(s, es[0]);
        }
      case CopyFrom(i, k) =>
        if x.msgs[i] != x.msgs[k] {
          CopyOne(x.msgs[i], x.msgs[k], s);
          es := Refilled(x.msgs[i]);
        }
      case ParseFromString(i, data) =>
        var ok := ParseOne(x.msgs[i], data, s);
        es := Refilled(x.msgs[i]);
    }
  }

  /** The calls that make, hand over or delete something. */
  method OtherCall(c: Call, x: Point) returns (es: History, msgs: seq<S2C_LoginResponse>, objs: seq<BoolValue>)
    requires Ran(x.events, x.heap) && Allowed(c, x)
    requires !OnSlot(c) && !OnMessage(c)
    modifies Reach(x.heap)
    ensures Happens(c, x, es) && LegalRun(x.heap, es)
    ensures Stands(Run(x.heap, es)) && Grown(x.heap, Run(x.heap, es))
    ensures Named(c, x, es, msgs, objs)
  {
    hide ListsStand, SlotsStand, Stands, Separate, LegalRun, Run, Reach, Grown, ParseInto;
    var s := x.heap;
    msgs, objs := x.msgs, x.objs;
    match c {
      case MakeLogin =>
        var m := MakeMessage(s);
        es, msgs := [NewMessage(m)], msgs + [m];
        RunOne(s, es[0]);
      case CopyLogin(k) =>
        var m := MakeCopy(x.msgs[k], s);
        es, msgs := Copied(m), msgs + [m];
      case MakeBool =>
        var o := MakeObject(s);
        es, objs := [NewObject(o)], objs + [o];
        RunOne(s, es[0]);
      case ReleaseSuccess(i) =>
        WithinReach(s, x.msgs[i]);
        var p := ReleaseOne(x.msgs[i], s);
        es := [Release(x.msgs[i])];
        RunOne(s, es[0]);
        if p != null {
          objs := objs + [p];
        }
      case DeleteOwned(j) =>
        ObjectWithinReach(s, objs[j]);
        DeleteObject(objs[j], s);
        es := [Delete(objs[j])];
        RunOne(s, es[0]);
      case DeleteLogin(i) =>
        WithinReach(s, msgs[i]);
        DestroyMessage(msgs[i], s);
        es := [Destroy(msgs[i])];
        RunOne(s, es[0]);
    }
  }

  /** One call of the script, whichever it is. */
  method AnyCall(c: Call, x: Point) returns (es: History, y: Point)
    requires Ran(x.events, x.heap) && Allowed(c, x)
    modifies Reach(x.heap)
    ensures Ran(y.events, y.heap) && Grown(x.heap, y.heap) && Turn(c, x, es, y)
    ensures c.AddFriendList? ==> old(x.msgs[c.msg].friendList) < x.msgs[c.msg].friendList
    ensures c.AddPendingList? ==> old(x.msgs[c.msg].pendingList) < x.msgs[c.msg].pendingList
  {
    hide Stands, Separate, LegalRun, Run, Reach, Grown, Happens;
    var msgs, objs := x.msgs, x.objs;
    if OnSlot(c) {
      es := SlotCall(c, x);
    } else if OnMessage(c) {
      es := MessageCall(c, x);
    } else {
      es, msgs, objs := OtherCall(c, x);
    }
    RanOn(x.events, x.heap, es);
    y := Point(msgs, objs, x.events + es, Run(x.heap, es));
  }

  /** A program has played the first of its calls, one for every turn. */
  ghost predicate Played(script: seq<Call>, points: seq<Point>, turns: seq<History>) {
    && |turns| <= |script| && |points| == |turns| + 1 && points[0] == BEGIN
    && forall k | 0 <= k < |turns| :: Turn(script[k], points[k], turns[k], points[k + 1])
  }

  lemma PlayedOn(script: seq<Call>, points: seq<Point>, turns: seq<History>, es: History, y: Point)
    requires Played(script, points, turns) && |turns| < |script|
    requires Turn(script[|turns|], points[|turns|], es, y)
    ensures Played(script, points + [y], turns + [es])
  {
    hide Turn;
    var ps, ts := points + [y], turns + [es];
    forall k | 0 <= k < |ts| ensures Turn(script[k], ps[k], ts[k], ps[k + 1]) {
      if k < |turns| {
        assert ps[k] == points[k] && ps[k + 1] == points[k + 1] && ts[k] == turns[k];
      } else {
        assert ps[k] == points[k] && ps[k + 1] == y && ts[k] == es;
      }
    }
  }

  /**
   A whole program, given as the script of its calls. It goes on to the first call that is not
   allowed, or to the end. Each turn is the one its call stands for, and the heap is then where all
   these events lead: every object has one owner, and none was freed twice.
   */
  method AnyProgram(script: seq<Call>) returns (points: seq<Point>, turns: seq<History>)
    ensures Played(script, points, turns)
    ensures |turns| < |script| ==> !Allowed(script[|turns|], points[|turns|])
    ensures var y := points[|turns|]; Ran(y.events, y.heap) && Conserved(y.heap)
  {
    points, turns := [BEGIN], [];
    var y := BEGIN;
    assert Ran([], Start()) && Reach(Start()) == {};
    hide Ran, Reach, Turn, Allowed, Conserved;
    while |turns| < |script| && Allowed(script[|turns|], y)
      invariant Played(script, points, turns) && points[|turns|] == y
      invariant Ran(y.events, y.heap) && forall o | o in Reach(y.heap) :: fresh(o)
    {
      var es, z := AnyCall(script[|turns|], y);
      PlayedOn(script, points, turns, es, z);
      points, turns, y := points + [z], turns + [es], z;
    }
    RanConserves(y.events, y.heap);
  }
}
