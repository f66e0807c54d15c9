/**
 Who owns a sub-message: one message through its pointer, or the caller, or nobody once it is
 freed. `State` follows a whole program that uses the generated accessors.
 */
module Ownership {
  import opened Basics

  /**
   `slot` maps every live message to its sub-message, `caller` holds what the program itself must
   delete, `made` is every object ever made. `fault` is set by freeing an object twice.
   */
  datatype State<M, O> = State(slot: map<M, Option<O>>, caller: set<O>, freed: set<O>, made: set<O>, fault: bool)

  /**
   In `Mutable`, `obj` is what the message returns: its own, or a new one if it has none. A merge,
   a copy or a parse of a whole message is a sequence of these.
   */
  datatype Event<M, O> =
    | NewMessage(msg: M)
    | NewObject(obj: O)
    | Mutable(msg: M, obj: O)
    | Clear(msg: M)
    | Release(msg: M)
    | SetAllocated(msg: M, given: Option<O>)
    | Delete(obj: O)
    | Destroy(msg: M)

  function Free<M, O(==)>(s: State<M, O>, o: Option<O>): State<M, O> {
    if o == None then s else s.(freed := s.freed + {o.value}, fault := s.fault || o.value in s.freed)
  }

  /** The message exists, or does not exist yet; a `Mutable` that must allocate gets a new object. */
  predicate Possible<M(==), O(==)>(s: State<M, O>, e: Event<M, O>) {
    match e
    case NewMessage(m) => m !in s.slot
    case NewObject(o) => o !in s.made
    case Mutable(m, o) => m in s.slot && if s.slot[m] == None then o !in s.made else s.slot[m] == Some(o)
    case Clear(m) => m in s.slot
    case Release(m) => m in s.slot
    case SetAllocated(m, o) => m in s.slot
    case Delete(o) => true
    case Destroy(m) => m in s.slot
  }

  function Step<M(==), O(==)>(s: State<M, O>, e: Event<M, O>): State<M, O>
    requires Possible(s, e)
  {
    match e
    case NewMessage(m) => s.(slot := s.slot[m := None])
    case NewObject(o) => s.(made := s.made + {o}, caller := s.caller + {o})
    case Mutable(m, o) => s.(slot := s.slot[m := Some(o)], made := s.made + {o})
    case Clear(m) => Free(s, s.slot[m]).(slot := s.slot[m := None])
    case Release(m) =>
      s.(slot := s.slot[m := None],
         caller := if s.slot[m].Some? then s.caller + {s.slot[m].value} else s.caller)
    case SetAllocated(m, given) =>
      Free(s, s.slot[m]).(slot := s.slot[m := given],
                          caller := if given.Some? then s.caller - {given.value} else s.caller)
    case Delete(o) => Free(s, Some(o)).(caller := s.caller - {o})
    case Destroy(m) => Free(s, s.slot[m]).(slot := s.slot - {m})
  }

  /** The one rule for callers: give away or delete only what is yours. */
  predicate Legal<M(==), O(==)>(s: State<M, O>, e: Event<M, O>) {
    && Possible(s, e)
    && (e.SetAllocated? && e.given.Some? ==> e.given.value in s.caller)
    && (e.Delete? ==> e.obj in s.caller)
  }

  ghost function Holders<M, O>(s: State<M, O>, o: O): set<M> {
    set m | m in s.slot && s.slot[m] == Some(o)
  }

  /** How many owners an object has, counting "freed" as one. */
  ghost function Owners<M, O>(s: State<M, O>, o: O): nat {
    |Holders(s, o)| + (if o in s.caller then 1 else 0) + (if o in s.freed then 1 else 0)
  }

  /** Exactly one owner each, and nothing owned that was never made. */
  ghost predicate Conserved<M, O>(s: State<M, O>) {
    && !s.fault
    && (forall o | o in s.made :: Owners(s, o) == 1)
    && s.caller <= s.made && s.freed <= s.made
    && (forall m | m in s.slot && s.slot[m].Some? :: s.slot[m].value in s.made)
  }

  /** The same, without counting. */
  ghost predicate Separate<M, O>(s: State<M, O>) {
    && !s.fault && s.caller !! s.freed && s.caller + s.freed <= s.made
    && (forall m | m in s.slot && s.slot[m].Some? :: s.slot[m].value in s.made - s.caller - s.freed)
    && (forall m, n | m in s.slot && n in s.slot && s.slot[m].Some? && s.slot[m] == s.slot[n] :: m == n)
    && (forall o | o in s.made - s.caller - s.freed :: exists m :: m in s.slot && s.slot[m] == Some(o))
  }

  lemma HoldersCount<M, O>(s: State<M, O>, o: O, m: M)
    requires m in s.slot && s.slot[m] == Some(o)
    ensures |Holders(s, o)| == 1 <==> Holders(s, o) == {m}
  {
    assert m in Holders(s, o);
    assert Holders(s, o) == {m} + (Holders(s, o) - {m});
  }

  /** Counting to one is the same as being separate. */
  lemma ConservedIsSeparate<M, O>(s: State<M, O>)
    ensures Conserved(s) <==> Separate(s)
  {
    if Conserved(s) {
      forall m | m in s.slot && s.slot[m].Some? ensures Holders(s, s.slot[m].value) == {m} {
        assert m in Holders(s, s.slot[m].value);
        assert |Holders(s, s.slot[m].value)| >= 1;
        HoldersCount(s, s.slot[m].value, m);
      }
      forall o | o in s.made - s.caller - s.freed ensures exists m :: m in s.slot && s.slot[m] == Some(o) {
        assert |Holders(s, o)| == 1;
        var m :| m in Holders(s, o);
      }
    }
    if Separate(s) {
      forall o | o in s.made ensures Owners(s, o) == 1 {
        if o in s.caller + s.freed {
          assert Holders(s, o) == {};
        } else {
          var m :| m in s.slot && s.slot[m] == Some(o);
          assert Holders(s, o) == {m};
        }
      }
    }
  }

  lemma StillHeld<M, O>(s: State<M, O>, e: Event<M, O>)
    requires Separate(s) && Legal(s, e)
    ensures var t := Step(s, e);
            forall o | o in t.made - t.caller - t.freed :: exists m :: m in t.slot && t.slot[m] == Some(o)
  {
    var t := Step(s, e);
    forall o | o in t.made - t.caller - t.freed ensures exists m :: m in t.slot && t.slot[m] == Some(o) {
      if e.Mutable? && e.obj == o {
        assert t.slot[e.msg] == Some(o);
      } else if e.SetAllocated? && e.given == Some(o) {
        assert t.slot[e.msg] == Some(o);
      } else {
        assert o in s.made - s.caller - s.freed;
        var m :| m in s.slot && s.slot[m] == Some(o);
        assert t.slot[m] == Some(o);
      }
    }
  }

  lemma StillApart<M, O>(s: State<M, O>, e: Event<M, O>)
    requires Separate(s) && Legal(s, e)
    ensures var t := Step(s, e);
            forall m, n | m in t.slot && n in t.slot && t.slot[m].Some? && t.slot[m] == t.slot[n] :: m == n
  {
  }

  lemma StepSeparates<M, O>(s: State<M, O>, e: Event<M, O>)
    requires Separate(s) && Legal(s, e)
    ensures Separate(Step(s, e))
  {
    StillHeld(s, e);
    StillApart(s, e);
  }

  predicate LegalRun<M(==), O(==)>(s: State<M, O>, es: seq<Event<M, O>>)
    decreases |es|
  {
    es == [] || (Legal(s, es[0]) && LegalRun(Step(s, es[0]), es[1..]))
  }

  function Run<M(==), O(==)>(s: State<M, O>, es: seq<Event<M, O>>): State<M, O>
    requires LegalRun(s, es)
    decreases |es|
  {
    if es == [] then s else Run(Step(s, es[0]), es[1..])
  }

  /**
   Over any run every object has exactly one owner and none is freed twice; what is freed stays
   freed, and nothing that was made is forgotten.
   */
  lemma {:induction false} RunConserves<M, O>(s: State<M, O>, es: seq<Event<M, O>>)
    requires Conserved(s) && LegalRun(s, es)
    ensures Conserved(Run(s, es))
    ensures s.freed <= Run(s, es).freed && s.made <= Run(s, es).made
    decreases |es|
  {
    if es == [] {
    } else {
      hide Separate, Conserved;
      ConservedIsSeparate(s);
      StepSeparates(s, es[0]);
      ConservedIsSeparate(Step(s, es[0]));
      RunConserves(Step(s, es[0]), es[1..]);
    }
  }

  /** Before the program has made anything. */
  function Start<M, O>(): State<M, O> {
    State(map[], {}, {}, {}, false)
  }

  lemma {:induction false} RunAppend<M, O>(s: State<M, O>, es: seq<Event<M, O>>, fs: seq<Event<M, O>>)
    requires LegalRun(s, es) && LegalRun(Run(s, es), fs)
    ensures LegalRun(s, es + fs) && Run(s, es + fs) == Run(Run(s, es), fs)
    decreases |es|
  {
    if es == [] {
      assert es + fs == fs;
    } else {
      hide Legal, Step;
      assert (es + fs)[0] == es[0] && (es + fs)[1..] == es[1..] + fs;
      RunAppend(Step(s, es[0]), es[1..], fs);
    }
  }

  lemma RunNone<M, O>(s: State<M, O>)
    ensures LegalRun(s, []) && Run(s, []) == s
  {
  }

  lemma RunOne<M, O>(s: State<M, O>, e: Event<M, O>)
    requires Legal(s, e)
    ensures LegalRun(s, [e]) && Run(s, [e]) == Step(s, e)
  {
    hide Legal, Step;
    assert [e][1..] == [];
  }

  /** Once the messages are gone and the caller has nothing left to delete, everything is freed. */
  lemma NothingLeaks<M, O>(es: seq<Event<M, O>>)
    requires LegalRun(Start<M, O>(), es)
    ensures var t := Run(Start<M, O>(), es);
            t.slot == map[] && t.caller == {} ==> t.freed == t.made
  {
    RunConserves(Start<M, O>(), es);
    ConservedIsSeparate(Run(Start<M, O>(), es));
  }

  /** A message may be given exactly what the caller owns: not its own object, nor another's. */
  lemma SetAllocatedExact<M, O>(s: State<M, O>, m: M, o: O)
    requires Conserved(s) && m in s.slot
    ensures Conserved(Step(s, Event.SetAllocated(m, Some(o)))) <==> o in s.caller
  {
    var e := Event.SetAllocated(m, Some(o));
    var t := Step(s, e);
    ConservedIsSeparate(s);
    ConservedIsSeparate(t);
    hide Conserved;
    assert t.slot[m] == Some(o);
    if o in s.caller {
      StepSeparates(s, e);
    } else if o in s.made - s.freed {
      var n :| n in s.slot && s.slot[n] == Some(o);
      if n == m {
        assert o in t.freed;
      } else {
        assert t.slot[n] == t.slot[m];
      }
    }
  }

  /** The caller may delete exactly what it owns. */
  lemma DeleteExact<M, O>(s: State<M, O>, o: O)
    requires Conserved(s)
    ensures Conserved(Step(s, Event<M, O>.Delete(o))) <==> o in s.caller
  {
    var e := Event<M, O>.Delete(o);
    ConservedIsSeparate(s);
    ConservedIsSeparate(Step(s, e));
    hide Conserved;
    if o in s.caller {
      StepSeparates(s, e);
    } else if o in s.made - s.freed {
      var n :| n in s.slot && s.slot[n] == Some(o);
      assert o in Step(s, e).freed;
    }
  }
}
