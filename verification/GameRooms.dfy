/**
 Game rooms and the users in them, as values: which users a room's member map holds, and which
 room each user's back pointer names.
 */
module GameRooms {
  import opened Basics

  const MAX_PLAYER_NUM := 4

  datatype RoomState = WAIT | IN_GAME | DESTROYING | NONE

  datatype RoomVal<U> = RoomVal(host: U, players: map<string, U>, state: RoomState)

  datatype World<R, U> = World(rooms: map<R, RoomVal<U>>, active: map<U, Option<R>>, names: map<U, string>)

  datatype Event<R, U> =
    | Construct(room: R, user: U)
    | Enter(room: R, user: U)
    | Quit(room: R, user: U)
    | Destruct(room: R)

  predicate Full<U>(room: RoomVal<U>) {
    |room.players| >= MAX_PLAYER_NUM
  }

  /** `unordered_map::insert` keeps the entry that is already there. */
  function Inserted<U>(players: map<string, U>, name: string, u: U): map<string, U> {
    if name in players then players else players[name := u]
  }

  /** The objects an event names exist (or, for a constructor, do not exist yet). */
  predicate Possible<R(==), U(==)>(w: World<R, U>, e: Event<R, U>) {
    && w.active.Keys == w.names.Keys
    && (if e.Construct? then e.room !in w.rooms else e.room in w.rooms)
    && (e.Destruct? || e.user in w.names)
  }

  function Constructed<R(==), U(==)>(w: World<R, U>, r: R, u: U): World<R, U>
    requires u in w.names
  {
    w.(rooms := w.rooms[r := RoomVal(u, map[w.names[u] := u], WAIT)])
  }

  function Entered<R(==), U(==)>(w: World<R, U>, r: R, u: U): World<R, U>
    requires r in w.rooms && u in w.names
  {
    var room := w.rooms[r];
    if Full(room) then w else
    World(w.rooms[r := room.(players := Inserted(room.players, w.names[u], u))], w.active[u := Some(r)], w.names)
  }

  function WithoutPlayer<R, U(==)>(w: World<R, U>, room: RoomVal<U>, u: U): RoomVal<U>
    requires u in w.names
  {
    if u == room.host then room.(state := DESTROYING) else room.(players := room.players - {w.names[u]})
  }

  function Left<R(==), U(==)>(w: World<R, U>, r: R, u: U): World<R, U>
    requires r in w.rooms && u in w.names
  {
    World(w.rooms[r := WithoutPlayer(w, w.rooms[r], u)], w.active[u := None], w.names)
  }

  function Destructed<R(==), U(==)>(w: World<R, U>, r: R): World<R, U>
    requires r in w.rooms
  {
    World(w.rooms - {r},
          map u | u in w.active :: if u in w.rooms[r].players.Values then None else w.active[u],
          w.names)
  }

  function Step<R(==), U(==)>(w: World<R, U>, e: Event<R, U>): World<R, U>
    requires Possible(w, e)
  {
    match e
    case Construct(r, u) => Constructed(w, r, u)
    case Enter(r, u) => Entered(w, r, u)
    case Quit(r, u) => Left(w, r, u)
    case Destruct(r) => Destructed(w, r)
  }

  //
  // The discipline users follow, and what it keeps true
  //

  predicate HostsOnly<R, U(==)>(w: World<R, U>, u: U, allowed: set<R>) {
    forall r | r in w.rooms && w.rooms[r].host == u :: r in allowed
  }

  predicate NotElsewhere<R(==), U>(w: World<R, U>, u: U, r: R)
    requires u in w.active
  {
    w.active[u].Some? ==> w.active[u].value == r
  }

  /** The room a user is in, if any, is the user's own. */
  predicate AtHome<R, U(==)>(w: World<R, U>, u: U)
    requires u in w.active
  {
    w.active[u].Some? ==> w.active[u].value in w.rooms && w.rooms[w.active[u].value].host == u
  }

  /**
   A room is made only by a user in no room; it is entered by a user in no other room, or refuses;
   it is quit by its host, by a user in no other room, or by a user whose other room is its own.
   */
  predicate Legal<R(==), U(==)>(w: World<R, U>, e: Event<R, U>) {
    && Possible(w, e)
    && match e
       case Construct(r, u) => w.active[u] == None && HostsOnly(w, u, {})
       case Enter(r, u) => Full(w.rooms[r]) || (NotElsewhere(w, u, r) && HostsOnly(w, u, {r}))
       case Quit(r, u) => u == w.rooms[r].host || NotElsewhere(w, u, r) || AtHome(w, u)
       case Destruct(r) => true
  }

  /** Every entry is under its user's name, and the users are known. */
  ghost predicate MembersOk<U>(players: map<string, U>, names: map<U, string>) {
    forall k | k in players :: players[k] in names && names[players[k]] == k
  }

  /** A guest's back pointer names the room exactly when the room's map holds the guest. */
  ghost predicate LinksOk<R, U>(w: World<R, U>, r: R)
    requires r in w.rooms && w.active.Keys == w.names.Keys
  {
    forall u | u in w.names && u != w.rooms[r].host :: w.active[u] == Some(r) <==> w.names[u] in w.rooms[r].players
  }

  ghost predicate RoomOk<R, U>(w: World<R, U>, r: R)
    requires r in w.rooms && w.active.Keys == w.names.Keys
  {
    var room := w.rooms[r];
    && |room.players| <= 4
    && (room.state == WAIT || room.state == DESTROYING)
    && room.host in w.names && w.names[room.host] in room.players
    && NotElsewhere(w, room.host, r)
    && MembersOk(room.players, w.names)
    && LinksOk(w, r)
  }

  ghost predicate DistinctNames<U>(names: map<U, string>) {
    forall u, v | u in names && v in names && names[u] == names[v] :: u == v
  }

  ghost predicate DistinctHosts<R, U>(w: World<R, U>) {
    forall r, q | r in w.rooms && q in w.rooms && w.rooms[r].host == w.rooms[q].host :: r == q
  }

  /** No back pointer names a room that is gone. */
  ghost predicate NoneDangling<R, U>(w: World<R, U>) {
    forall u | u in w.active && w.active[u].Some? :: w.active[u].value in w.rooms
  }

  ghost predicate Inv<R, U>(w: World<R, U>) {
    && w.active.Keys == w.names.Keys
    && DistinctNames(w.names)
    && (forall r | r in w.rooms :: RoomOk(w, r))
    && DistinctHosts(w)
    && NoneDangling(w)
  }

  /** A member is the user of that name. */
  lemma MemberIs<R, U>(w: World<R, U>, r: R, u: U)
    requires Inv(w) && r in w.rooms && u in w.names
    ensures w.names[u] in w.rooms[r].players <==> u in w.rooms[r].players.Values
    ensures w.names[u] in w.rooms[r].players ==> w.rooms[r].players[w.names[u]] == u
  {
    hide LinksOk, NotElsewhere;
    assert RoomOk(w, r);
  }

  /** A room that an event leaves alone stays in order if nobody's link to it changes. */
  lemma OtherRoomOk<R, U>(w: World<R, U>, v: World<R, U>, q: R)
    requires w.active.Keys == w.names.Keys == v.active.Keys && v.names == w.names
    requires q in w.rooms && q in v.rooms && v.rooms[q] == w.rooms[q] && RoomOk(w, q)
    requires forall u | u in w.names && u != w.rooms[q].host :: w.active[u] == Some(q) <==> v.active[u] == Some(q)
    requires NotElsewhere(v, w.rooms[q].host, q)
    ensures RoomOk(v, q)
  {
    hide MembersOk;
  }

  /** Moving one user between no room and room `r` leaves every other room in order. */
  lemma OthersOk<R, U>(w: World<R, U>, v: World<R, U>, r: R, u: U)
    requires Inv(w) && u in w.names && v.names == w.names && v.active.Keys == w.active.Keys
    requires v.rooms.Keys <= w.rooms.Keys + {r}
    requires forall q | q in w.rooms && q != r :: q in v.rooms && v.rooms[q] == w.rooms[q]
    requires v.active == w.active[u := v.active[u]]
    requires NotElsewhere(w, u, r) && NotElsewhere(v, u, r) && (HostsOnly(w, u, {r}) || v.active[u] == None)
    ensures forall q | q in v.rooms && q != r :: RoomOk(v, q)
  {
    hide LinksOk, MembersOk, DistinctNames;
    forall q | q in v.rooms && q != r ensures RoomOk(v, q) {
      assert RoomOk(w, q);
      OtherRoomOk(w, v, q);
    }
  }

  lemma HostIsDistinct<R, U>(w: World<R, U>, r: R)
    requires DistinctHosts(w) && r in w.rooms
    ensures HostsOnly(w, w.rooms[r].host, {r})
  {
  }

  lemma DistinctHostsKept<R, U>(w: World<R, U>, v: World<R, U>, r: R)
    requires DistinctHosts(w) && r in v.rooms && HostsOnly(w, v.rooms[r].host, {r})
    requires v.rooms.Keys <= w.rooms.Keys + {r} && forall q | q in v.rooms && q != r :: v.rooms[q] == w.rooms[q]
    ensures DistinctHosts(v)
  {
  }

  lemma NoneDanglingKept<R, U>(w: World<R, U>, v: World<R, U>, r: R, u: U)
    requires NoneDangling(w) && w.rooms.Keys <= v.rooms.Keys && r in v.rooms
    requires u in v.active && v.active == w.active[u := v.active[u]] && NotElsewhere(v, u, r)
    ensures NoneDangling(v)
  {
  }

  lemma ConstructedRoomOk<R, U>(w: World<R, U>, r: R, u: U)
    requires Possible(w, Event.Construct(r, u)) && DistinctNames(w.names) && NoneDangling(w)
    requires r !in w.rooms && w.active[u] == None
    ensures RoomOk(Constructed(w, r, u), r)
  {
    assert LinksOk(Constructed(w, r, u), r);
  }

  lemma ConstructKeepsInv<R, U>(w: World<R, U>, r: R, u: U)
    requires Inv(w) && Legal(w, Event.Construct(r, u))
    ensures Inv(Step(w, Event.Construct(r, u)))
  {
    hide RoomOk, DistinctNames, DistinctHosts, NoneDangling;
    var v := Constructed(w, r, u);
    ConstructedRoomOk(w, r, u);
    OthersOk(w, v, r, u);
    DistinctHostsKept(w, v, r);
    NoneDanglingKept(w, v, r, u);
  }

  /** What entering does to the room itself. */
  lemma EnteredRoomOk<R, U>(w: World<R, U>, r: R, u: U)
    requires Possible(w, Event.Enter(r, u)) && DistinctNames(w.names) && RoomOk(w, r)
    ensures RoomOk(Step(w, Event.Enter(r, u)), r)
  {
    var room, v := w.rooms[r], Step(w, Event.Enter(r, u));
    if !Full(room) {
      assert |v.rooms[r].players| <= |room.players| + 1;
      assert MembersOk(v.rooms[r].players, v.names);
      assert LinksOk(v, r);
    }
  }

  lemma EnterKeepsInv<R, U>(w: World<R, U>, r: R, u: U)
    requires Inv(w) && Legal(w, Event.Enter(r, u))
    ensures Inv(Step(w, Event.Enter(r, u)))
  {
    if Full(w.rooms[r]) {
      return;
    }
    hide RoomOk, DistinctNames, DistinctHosts, NoneDangling, Full, Inserted;
    var v := Entered(w, r, u);
    HostIsDistinct(w, r);
    EnteredRoomOk(w, r, u);
    OthersOk(w, v, r, u);
    DistinctHostsKept(w, v, r);
    NoneDanglingKept(w, v, r, u);
  }

  lemma QuitRoomOk<R, U>(w: World<R, U>, r: R, u: U)
    requires Possible(w, Event.Quit(r, u)) && DistinctNames(w.names) && RoomOk(w, r)
    ensures RoomOk(Step(w, Event.Quit(r, u)), r)
  {
    var room, v := w.rooms[r], Step(w, Event.Quit(r, u));
    if u != room.host {
      assert |v.rooms[r].players| <= |room.players|;
      assert MembersOk(v.rooms[r].players, v.names);
      assert LinksOk(v, r);
    }
  }

  lemma StrangerLeaves<R, U>(w: World<R, U>, r: R, u: U)
    requires Possible(w, Event.Quit(r, u)) && RoomOk(w, r) && u != w.rooms[r].host && !NotElsewhere(w, u, r)
    ensures Left(w, r, u) == w.(active := w.active[u := None])
  {
    hide MembersOk;
    assert w.names[u] !in w.rooms[r].players;
    assert Left(w, r, u).rooms[r].players == w.rooms[r].players;
    assert Left(w, r, u).rooms == w.rooms;
  }

  /** A user at home may forget the room: the host's entry does not depend on the pointer. */
  lemma HostMayForget<R, U>(w: World<R, U>, u: U)
    requires Inv(w) && u in w.names && AtHome(w, u)
    ensures Inv(w.(active := w.active[u := None]))
  {
    hide LinksOk, MembersOk, DistinctNames;
    var v := w.(active := w.active[u := None]);
    assert DistinctHosts(v) && NoneDangling(v);
    hide DistinctHosts, NoneDangling;
    forall q | q in v.rooms ensures RoomOk(v, q) {
      assert RoomOk(w, q);
      OtherRoomOk(w, v, q);
    }
  }

  /** A user whose other room is its own: the room it quits does not change. */
  lemma StrangerKeepsInv<R, U>(w: World<R, U>, r: R, u: U)
    requires Inv(w) && Possible(w, Event.Quit(r, u)) && AtHome(w, u)
    requires u != w.rooms[r].host && !NotElsewhere(w, u, r)
    ensures Inv(Left(w, r, u))
  {
    assert RoomOk(w, r);
    hide RoomOk, DistinctNames, DistinctHosts, NoneDangling, Left, AtHome;
    StrangerLeaves(w, r, u);
    hide Inv;
    HostMayForget(w, u);
  }

  lemma MemberKeepsInv<R, U>(w: World<R, U>, r: R, u: U)
    requires Inv(w) && Possible(w, Event.Quit(r, u)) && (u == w.rooms[r].host || NotElsewhere(w, u, r))
    ensures Inv(Left(w, r, u))
  {
    assert NotElsewhere(w, u, r) by {
      assert RoomOk(w, r);
    }
    hide RoomOk, DistinctNames, DistinctHosts, NoneDangling;
    var v := Left(w, r, u);
    HostIsDistinct(w, r);
    QuitRoomOk(w, r, u);
    OthersOk(w, v, r, u);
    DistinctHostsKept(w, v, r);
    NoneDanglingKept(w, v, r, u);
  }

  lemma QuitKeepsInv<R, U>(w: World<R, U>, r: R, u: U)
    requires Inv(w) && Legal(w, Event.Quit(r, u))
    ensures Inv(Step(w, Event.Quit(r, u)))
  {
    hide Inv, Left, AtHome;
    if u != w.rooms[r].host && !NotElsewhere(w, u, r) {
      StrangerKeepsInv(w, r, u);
    } else {
      MemberKeepsInv(w, r, u);
    }
  }

  /** Destruction resets exactly the back pointers that name the room. */
  lemma DestructResets<R, U>(w: World<R, U>, r: R, u: U)
    requires Inv(w) && r in w.rooms && u in w.names
    ensures Step(w, Destruct(r)).active[u] == if w.active[u] == Some(r) then None else w.active[u]
  {
    MemberIs(w, r, u);
    hide MembersOk, DistinctNames;
    assert RoomOk(w, r);
  }

  lemma DestructKeepsInv<R, U>(w: World<R, U>, r: R)
    requires Inv(w) && r in w.rooms
    ensures Inv(Step(w, Destruct(r)))
  {
    hide LinksOk, MembersOk, DistinctNames;
    var v := Step(w, Destruct(r));
    assert v.active.Keys == w.active.Keys;
    forall u | u in w.names ensures v.active[u] == if w.active[u] == Some(r) then None else w.active[u] {
      DestructResets(w, r, u);
    }
    hide Step;
    forall q | q in v.rooms ensures RoomOk(v, q) {
      assert RoomOk(w, q);
      OtherRoomOk(w, v, q);
    }
  }

  //
  // The discipline is exact: an event outside it breaks the invariant
  //

  /** `Enter` itself checks only the size. */
  lemma EnterExact<R, U>(w: World<R, U>, r: R, u: U)
    requires Inv(w) && Possible(w, Event.Enter(r, u))
    ensures Inv(Step(w, Event.Enter(r, u)))
       <==> Full(w.rooms[r]) || (NotElsewhere(w, u, r) && HostsOnly(w, u, {r}))
  {
    var v := Step(w, Event.Enter(r, u));
    hide MembersOk, DistinctNames, Full;
    if Full(w.rooms[r]) {
    } else if !HostsOnly(w, u, {r}) {
      hide LinksOk;
      var q :| q in w.rooms && w.rooms[q].host == u && q != r;
      assert !RoomOk(v, q);
    } else if !NotElsewhere(w, u, r) {
      var q := w.active[u].value;
      assert RoomOk(w, q) && q != r && u != w.rooms[q].host;
      assert !LinksOk(v, q);
    } else {
      EnterKeepsInv(w, r, u);
    }
  }

  /** The constructor checks nothing. */
  lemma ConstructExact<R, U>(w: World<R, U>, r: R, u: U)
    requires Inv(w) && Possible(w, Event.Construct(r, u))
    ensures Inv(Step(w, Event.Construct(r, u))) <==> w.active[u] == None && HostsOnly(w, u, {})
  {
    hide Inv, Constructed;
    if w.active[u] == None && HostsOnly(w, u, {}) {
      ConstructKeepsInv(w, r, u);
    } else if w.active[u] != None {
      ConstructElsewhere(w, r, u);
    } else {
      ConstructAgain(w, r, u);
    }
  }

  lemma ConstructElsewhere<R, U>(w: World<R, U>, r: R, u: U)
    requires Inv(w) && Possible(w, Event.Construct(r, u)) && w.active[u] != None
    ensures !Inv(Constructed(w, r, u))
  {
    hide LinksOk, MembersOk, DistinctNames, DistinctHosts;
    assert w.active[u].value != r && !RoomOk(Constructed(w, r, u), r);
  }

  lemma ConstructAgain<R, U>(w: World<R, U>, r: R, u: U)
    requires Inv(w) && Possible(w, Event.Construct(r, u)) && !HostsOnly(w, u, {})
    ensures !Inv(Constructed(w, r, u))
  {
    hide RoomOk, DistinctNames, NoneDangling;
    var v := Constructed(w, r, u);
    var q :| q in w.rooms && w.rooms[q].host == u;
    assert v.rooms[q].host == v.rooms[r].host && q != r;
  }

  /** `Quit` does not check that the user is in the room. */
  lemma QuitExact<R, U>(w: World<R, U>, r: R, u: U)
    requires Inv(w) && Possible(w, Event.Quit(r, u))
    ensures Inv(Step(w, Event.Quit(r, u))) <==> u == w.rooms[r].host || NotElsewhere(w, u, r) || AtHome(w, u)
  {
    if u == w.rooms[r].host || NotElsewhere(w, u, r) || AtHome(w, u) {
      QuitKeepsInv(w, r, u);
    } else {
      hide MembersOk, DistinctNames, DistinctHosts;
      var v, q := Left(w, r, u), w.active[u].value;
      assert RoomOk(w, q) && q != r && u != w.rooms[q].host;
      assert !LinksOk(v, q);
    }
  }

  lemma StepExact<R, U>(w: World<R, U>, e: Event<R, U>)
    requires Inv(w) && Possible(w, e)
    ensures Inv(Step(w, e)) <==> Legal(w, e)
  {
    hide Inv;
    match e
    case Construct(r, u) => ConstructExact(w, r, u);
    case Enter(r, u) => EnterExact(w, r, u);
    case Quit(r, u) => QuitExact(w, r, u);
    case Destruct(r) => DestructKeepsInv(w, r);
  }

  //
  // Runs
  //

  predicate PossibleRun<R(==), U(==)>(w: World<R, U>, es: seq<Event<R, U>>)
    decreases |es|
  {
    es == [] || (Possible(w, es[0]) && PossibleRun(Step(w, es[0]), es[1..]))
  }

  predicate LegalRun<R(==), U(==)>(w: World<R, U>, es: seq<Event<R, U>>)
    decreases |es|
  {
    es == [] || (Legal(w, es[0]) && LegalRun(Step(w, es[0]), es[1..]))
  }

  /** The invariant holds now and after every event. */
  ghost predicate AlwaysInv<R, U>(w: World<R, U>, es: seq<Event<R, U>>)
    requires PossibleRun(w, es)
    decreases |es|
  {
    Inv(w) && (es == [] || AlwaysInv(Step(w, es[0]), es[1..]))
  }

  /** A run of possible events keeps the invariant throughout exactly when every event is legal. */
  lemma {:induction false} RunExact<R, U>(w: World<R, U>, es: seq<Event<R, U>>)
    requires Inv(w) && PossibleRun(w, es)
    ensures AlwaysInv(w, es) <==> LegalRun(w, es)
    decreases |es|
  {
    if es == [] {
    } else {
      hide Inv, Step, Legal;
      var v, rest := Step(w, es[0]), es[1..];
      StepExact(w, es[0]);
      if Inv(v) {
        RunExact(v, rest);
      }
    }
  }

  function Run<R(==), U(==)>(w: World<R, U>, es: seq<Event<R, U>>): World<R, U>
    requires LegalRun(w, es)
    decreases |es|
  {
    if es == [] then w else Run(Step(w, es[0]), es[1..])
  }

  /** Every state of every legal run, on any number of rooms, from users in no room. */
  lemma {:induction false} RunKeepsInv<R, U>(w: World<R, U>, es: seq<Event<R, U>>)
    requires Inv(w) && LegalRun(w, es)
    ensures Inv(Run(w, es))
    decreases |es|
  {
    if es == [] {
    } else {
      hide Inv, Step, Legal;
      StepExact(w, es[0]);
      RunKeepsInv(Step(w, es[0]), es[1..]);
    }
  }

  lemma NoRoomsInv<R, U>(names: map<U, string>)
    requires DistinctNames(names)
    ensures Inv(World(map[], map u | u in names :: Option<R>.None, names))
  {
  }

  lemma StepHistory<R, U>(w: World<R, U>, e: Event<R, U>, r: R)
    requires Legal(w, e) && r in w.rooms && e != Destruct(r)
    ensures r in Step(w, e).rooms && Step(w, e).rooms[r].host == w.rooms[r].host
    ensures Step(w, e).rooms[r].state == if e == Event.Quit(r, w.rooms[r].host) then DESTROYING else w.rooms[r].state
  {
  }

  /** Over a whole run a room keeps its host, and DESTROYING means that the host has quit. */
  lemma {:induction false} RoomHistory<R, U>(w: World<R, U>, es: seq<Event<R, U>>, r: R)
    requires LegalRun(w, es) && r in w.rooms
    requires forall e | e in es :: e != Destruct(r)
    ensures r in Run(w, es).rooms && Run(w, es).rooms[r].host == w.rooms[r].host
    ensures Run(w, es).rooms[r].state
         == if Event.Quit(r, w.rooms[r].host) in es then DESTROYING else w.rooms[r].state
    decreases |es|
  {
    if es == [] {
    } else {
      hide Step, Legal;
      var e, rest := es[0], es[1..];
      assert es == [e] + rest && e in es;
      assert forall x | x in rest :: x in es;
      StepHistory(w, e, r);
      RoomHistory(Step(w, e), rest, r);
    }
  }

  /**
   What each event does in any state, in order or not. An entry already there under a name is kept,
   and a guest who quits takes whatever entry stands under its name.
   */
  lemma StepOutcome<R, U>(w: World<R, U>, e: Event<R, U>)
    requires Possible(w, e)
    ensures Step(w, e).names == w.names && Step(w, e).active.Keys == w.active.Keys
    ensures e.Construct? ==>
              var v := Step(w, e);
              && v.rooms == w.rooms[e.room := RoomVal(e.user, map[w.names[e.user] := e.user], WAIT)]
              && v.active == w.active
    ensures e.Enter? ==>
              var v, room, name := Step(w, e), w.rooms[e.room], w.names[e.user];
              if |room.players| >= 4 then v == w else
              && v.rooms.Keys == w.rooms.Keys && (forall q | q in w.rooms && q != e.room :: v.rooms[q] == w.rooms[q])
              && v.rooms[e.room].host == room.host && v.rooms[e.room].state == room.state
              && v.rooms[e.room].players.Keys == room.players.Keys + {name}
              && (forall k | k in room.players :: v.rooms[e.room].players[k] == room.players[k])
              && (name !in room.players ==> v.rooms[e.room].players[name] == e.user)
              && v.active == w.active[e.user := Some(e.room)]
    ensures e.Quit? ==>
              var v, room, name := Step(w, e), w.rooms[e.room], w.names[e.user];
              && v.rooms.Keys == w.rooms.Keys && (forall q | q in w.rooms && q != e.room :: v.rooms[q] == w.rooms[q])
              && v.rooms[e.room].host == room.host
              && (if e.user == room.host
                  then v.rooms[e.room].state == DESTROYING && v.rooms[e.room].players == room.players
                  else v.rooms[e.room].state == room.state && v.rooms[e.room].players == room.players - {name})
              && v.active == w.active[e.user := None]
    ensures e.Destruct? ==>
              var v, room := Step(w, e), w.rooms[e.room];
              && v.rooms == w.rooms - {e.room}
              && forall u | u in w.active :: v.active[u] == if u in room.players.Values then None else w.active[u]
  {
  }

  /** A refused Enter changes nothing; an accepted one adds this user and touches nobody else. */
  lemma EnterEffect<R, U>(w: World<R, U>, r: R, u: U)
    requires Inv(w) && Possible(w, Event.Enter(r, u))
    ensures var v := Step(w, Event.Enter(r, u));
            if |w.rooms[r].players| == 4 then v == w else
            && v.rooms[r].players.Values == w.rooms[r].players.Values + {u}
            && v.rooms == w.rooms[r := v.rooms[r]]
            && v.active == w.active[u := Some(r)]
  {
    MemberIs(w, r, u);
    hide LinksOk, MembersOk, DistinctNames;
    assert RoomOk(w, r);
    InsertedValues(w.rooms[r].players, w.names[u], u);
  }

  lemma InsertedValues<U>(players: map<string, U>, name: string, u: U)
    requires name in players ==> players[name] == u
    ensures Inserted(players, name, u).Values == players.Values + {u}
  {
    var after := Inserted(players, name, u);
    assert after[name] == u;
    forall v | v in players.Values ensures v in after.Values {
      var k :| k in players && players[k] == v;
      assert after[k] == v;
    }
  }

  /** A guest who quits is the one member that goes; a host who quits stays on the list. */
  lemma QuitEffect<R, U>(w: World<R, U>, r: R, u: U)
    requires Inv(w) && Legal(w, Event.Quit(r, u))
    ensures var v := Step(w, Event.Quit(r, u));
            && v.rooms == w.rooms[r := v.rooms[r]]
            && v.active == w.active[u := None]
            && v.rooms[r].players.Values
               == if u == w.rooms[r].host then w.rooms[r].players.Values else w.rooms[r].players.Values - {u}
  {
    var v := Step(w, Event.Quit(r, u));
    if u != w.rooms[r].host {
      hide LinksOk, DistinctHosts, NoneDangling;
      assert RoomOk(w, r);
      MemberIs(w, r, u);
      forall x | x in w.rooms[r].players.Values - {u} ensures x in v.rooms[r].players.Values {
        MemberIs(w, r, x);
        assert v.rooms[r].players[w.names[x]] == x;
      }
      assert v.rooms[r].players.Values <= w.rooms[r].players.Values - {u};
    }
  }
}
