/**
 `GameRoomManager` and the parts of `UserManager` that let users go, as values: the registry of
 room codes over the rooms and users of `GameRooms`. The registry holds the one lasting reference
 to a room, so erasing a room's code destroys the room.
 */
module RoomManager {
  import opened Basics
  import opened GameRooms

  /** `codes` is the registry; `codeOf` is each room's own record of its code. */
  datatype Manager<R, U> = Manager(world: World<R, U>, codes: map<string, R>, codeOf: map<R, string>)

  datatype JoinAnswer = SUCCESS | OVER_PLAYER | INVALID_ROOM

  datatype Request<R, U> =
    | Login(user: U, name: string)
    | Create(user: U, room: R, code: string)
    | Join(user: U, code: string)
    | QuitRoom(user: U)
    | Drop(user: U)
    | Logout(user: U)

  /** A new user; names are unique among the users that are logged in. */
  function LoggedIn<R, U(==)>(m: Manager<R, U>, u: U, name: string): Manager<R, U> {
    m.(world := m.world.(names := m.world.names[u := name], active := m.world.active[u := None]))
  }

  function Created<R(==), U(==)>(m: Manager<R, U>, u: U, r: R, code: string): Manager<R, U>
    requires u in m.world.names
  {
    Manager(Entered(Constructed(m.world, r, u), r, u), m.codes[code := r], m.codeOf[r := code])
  }

  predicate Registered<R(==), U>(m: Manager<R, U>) {
    forall c | c in m.codes :: m.codes[c] in m.world.rooms
  }

  function Answer<R(==), U>(m: Manager<R, U>, code: string): JoinAnswer
    requires Registered(m)
  {
    if code !in m.codes then INVALID_ROOM
    else
      var room := m.world.rooms[m.codes[code]];
      if room.state == DESTROYING then INVALID_ROOM else if Full(room) then OVER_PLAYER else SUCCESS
  }

  function Joined<R(==), U(==)>(m: Manager<R, U>, u: U, code: string): Manager<R, U>
    requires Registered(m) && u in m.world.names
  {
    if Answer(m, code) == SUCCESS then m.(world := Entered(m.world, m.codes[code], u)) else m
  }

  /** What a quit does when all the pointers it follows lead somewhere. */
  function RoomLeft<R(==), U(==)>(m: Manager<R, U>, u: U): Manager<R, U>
    requires u in m.world.names && u in m.world.active && m.world.active[u].Some?
    requires m.world.active[u].value in m.world.rooms && m.world.active[u].value in m.codeOf
  {
    var r := m.world.active[u].value;
    var after := Left(m.world, r, u);
    if after.rooms[r].state == DESTROYING
    then Manager(Destructed(after, r), m.codes - {m.codeOf[r]}, m.codeOf - {r})
    else m.(world := after)
  }

  function Forgotten<R, U(==)>(w: World<R, U>, u: U): World<R, U> {
    w.(active := w.active - {u}, names := w.names - {u})
  }

  /** The sweep of a dead session: the user quits, then goes. */
  function Dropped<R(==), U(==)>(m: Manager<R, U>, u: U): Manager<R, U>
    requires u in m.world.names && u in m.world.active
    requires m.world.active[u].Some? ==> m.world.active[u].value in m.world.rooms && m.world.active[u].value in m.codeOf
  {
    var after := if m.world.active[u].Some? then RoomLeft(m, u) else m;
    after.(world := Forgotten(after.world, u))
  }

  /** A logout forgets the user and does not look at the room. */
  function LoggedOut<R, U(==)>(m: Manager<R, U>, u: U): Manager<R, U> {
    m.(world := Forgotten(m.world, u))
  }

  //
  // What holds between requests
  //

  /** Codes and rooms correspond one to one. */
  ghost predicate RegistryOk<R, U>(m: Manager<R, U>) {
    && m.codeOf.Keys == m.world.rooms.Keys
    && (forall c | c in m.codes :: m.codes[c] in m.codeOf && m.codeOf[m.codes[c]] == c)
    && (forall r | r in m.codeOf :: m.codeOf[r] in m.codes && m.codes[m.codeOf[r]] == r)
  }

  /** A room outlives a request only with its host inside it. */
  ghost predicate HostsPresent<R, U>(w: World<R, U>) {
    forall r | r in w.rooms ::
      w.rooms[r].state == WAIT && w.rooms[r].host in w.active && w.active[w.rooms[r].host] == Some(r)
  }

  ghost predicate ManagerInv<R, U>(m: Manager<R, U>) {
    Inv(m.world) && RegistryOk(m) && HostsPresent(m.world)
  }

  ghost predicate Ready<R, U>(m: Manager<R, U>, u: U) {
    && u in m.world.names && u in m.world.active
    && (m.world.active[u].Some? ==> m.world.active[u].value in m.world.rooms && m.world.active[u].value in m.codeOf)
  }

  /** Users that are in no room host none, and the other way round the room is their own. */
  lemma HostsOwnRoom<R, U>(w: World<R, U>, u: U)
    requires Inv(w) && HostsPresent(w) && u in w.names
    ensures w.active[u] == None ==> HostsOnly(w, u, {})
    ensures w.active[u].Some? ==> w.active[u].value in w.rooms && HostsOnly(w, u, {w.active[u].value})
  {
  }

  /** Between requests, host included: members are exactly the users whose back pointer is the room. */
  lemma MembersExactly<R, U>(w: World<R, U>, r: R)
    requires Inv(w) && HostsPresent(w) && r in w.rooms
    ensures w.rooms[r].players.Values == set u | u in w.names && w.active[u] == Some(r)
    ensures 1 <= |w.rooms[r].players| <= 4
  {
    assert RoomOk(w, r);
    forall u | u in w.names ensures u in w.rooms[r].players.Values <==> w.active[u] == Some(r) {
      MemberIs(w, r, u);
    }
  }

  lemma LoginRoomOk<R, U>(w: World<R, U>, u: U, name: string, r: R)
    requires w.active.Keys == w.names.Keys && NoneDangling(w) && r in w.rooms && RoomOk(w, r)
    requires u !in w.names && forall x | x in w.names :: w.names[x] != name
    ensures RoomOk(w.(names := w.names[u := name], active := w.active[u := None]), r)
  {
    assert name !in w.rooms[r].players;
  }

  lemma LoginRooms<R, U>(w: World<R, U>, u: U, name: string)
    requires Inv(w) && u !in w.names && name !in w.names.Values
    ensures Inv(w.(names := w.names[u := name], active := w.active[u := None]))
  {
    hide RoomOk;
    var v := w.(names := w.names[u := name], active := w.active[u := None]);
    assert forall x | x in w.names :: w.names[x] in w.names.Values;
    assert DistinctNames(v.names) && NoneDangling(v) && DistinctHosts(v);
    hide DistinctNames, NoneDangling, DistinctHosts;
    forall r | r in v.rooms ensures RoomOk(v, r) {
      LoginRoomOk(w, u, name, r);
    }
  }

  lemma LoginKeepsInv<R, U>(m: Manager<R, U>, u: U, name: string)
    requires ManagerInv(m) && u !in m.world.names && name !in m.world.names.Values
    ensures ManagerInv(LoggedIn(m, u, name))
  {
    LoginRooms(m.world, u, name);
    hide Inv;
  }

  /** A new code for a new room extends the correspondence. */
  lemma RegistryAdds<R, U>(m: Manager<R, U>, n: Manager<R, U>, r: R, code: string)
    requires RegistryOk(m) && r !in m.world.rooms && code !in m.codes
    requires n.codes == m.codes[code := r] && n.codeOf == m.codeOf[r := code]
    requires n.world.rooms.Keys == m.world.rooms.Keys + {r}
    ensures RegistryOk(n)
  {
  }

  lemma CreateKeepsInv<R, U>(m: Manager<R, U>, u: U, r: R, code: string)
    requires ManagerInv(m) && u in m.world.names && m.world.active[u] == None
    requires r !in m.world.rooms && code !in m.codes
    ensures ManagerInv(Created(m, u, r, code))
  {
    hide RegistryOk, RoomOk, DistinctNames, DistinctHosts, NoneDangling;
    HostsOwnRoom(m.world, u);
    CreateRooms(m.world, u, r);
    CreateHosts(m.world, u, r);
    hide Inv, HostsPresent;
    RegistryAdds(m, Created(m, u, r, code), r, code);
  }

  lemma CreateRooms<R, U>(w: World<R, U>, u: U, r: R)
    requires Inv(w) && Legal(w, Event.Construct(r, u))
    ensures Inv(Entered(Constructed(w, r, u), r, u))
  {
    ConstructKeepsInv(w, r, u);
    assert HostsOnly(Constructed(w, r, u), u, {r});
    hide Inv;
    EnterKeepsInv(Constructed(w, r, u), r, u);
  }

  /** The host's own Enter is never refused. */
  lemma CreateHosts<R, U>(w: World<R, U>, u: U, r: R)
    requires HostsPresent(w) && Legal(w, Event.Construct(r, u))
    ensures !Full(Constructed(w, r, u).rooms[r])
    ensures HostsPresent(Entered(Constructed(w, r, u), r, u))
  {
  }

  lemma JoinKeepsInv<R, U>(m: Manager<R, U>, u: U, code: string)
    requires ManagerInv(m) && u in m.world.names && Answer(m, code) == SUCCESS
    requires NotElsewhere(m.world, u, m.codes[code])
    ensures ManagerInv(Joined(m, u, code))
  {
    assert Registered(m);
    hide RegistryOk, RoomOk, DistinctNames, DistinctHosts, NoneDangling;
    var r := m.codes[code];
    HostsOwnRoom(m.world, u);
    EnterKeepsInv(m.world, r, u);
    EnteredHosts(m.world, u, r);
    hide Inv, HostsPresent, Full;
    RegistryStays(m, Joined(m, u, code));
  }

  lemma EnteredHosts<R, U>(w: World<R, U>, u: U, r: R)
    requires Possible(w, Event.Enter(r, u)) && HostsPresent(w) && NotElsewhere(w, u, r)
    ensures HostsPresent(Entered(w, r, u))
  {
  }

  lemma RegistryStays<R, U>(m: Manager<R, U>, n: Manager<R, U>)
    requires RegistryOk(m) && n.codes == m.codes && n.codeOf == m.codeOf
    requires n.world.rooms.Keys == m.world.rooms.Keys
    ensures RegistryOk(n)
  {
  }

  lemma ForgetKeepsInv<R, U>(w: World<R, U>, u: U)
    requires Inv(w) && HostsPresent(w) && u in w.names && w.active[u] == None
    ensures Inv(Forgotten(w, u)) && HostsPresent(Forgotten(w, u))
  {
    var v := Forgotten(w, u);
    HostsOwnRoom(w, u);
    forall r | r in v.rooms ensures RoomOk(v, r) {
      assert RoomOk(w, r);
    }
  }

  /** A guest leaves; a host's leaving destroys the room, and no trace of it stays. */
  lemma QuitRoomKeepsInv<R, U>(m: Manager<R, U>, u: U)
    requires ManagerInv(m) && u in m.world.names && m.world.active[u].Some?
    ensures Ready(m, u) && ManagerInv(RoomLeft(m, u)) && RoomLeft(m, u).world.active[u] == None
  {
    hide RoomOk, DistinctNames, DistinctHosts, HostsPresent;
    var r := m.world.active[u].value;
    assert r in m.world.rooms && r in m.codeOf;
    hide NoneDangling, RegistryOk, RoomLeft, Inv;
    if u == m.world.rooms[r].host {
      HostQuitKeepsInv(m, u, r);
    } else {
      GuestQuitKeepsInv(m, u, r);
    }
  }

  lemma HostQuitKeepsInv<R, U>(m: Manager<R, U>, u: U, r: R)
    requires ManagerInv(m) && Ready(m, u) && m.world.active[u] == Some(r) && u == m.world.rooms[r].host
    ensures ManagerInv(RoomLeft(m, u)) && RoomLeft(m, u).world.active[u] == None
  {
    hide RoomOk, DistinctNames, DistinctHosts, HostsPresent, NoneDangling, RegistryOk;
    QuitKeepsInv(m.world, r, u);
    DestructKeepsInv(Left(m.world, r, u), r);
    DestructedHosts(m.world, u, r);
    hide Inv;
    RegistryRemoves(m, RoomLeft(m, u), r);
  }

  lemma GuestQuitKeepsInv<R, U>(m: Manager<R, U>, u: U, r: R)
    requires ManagerInv(m) && Ready(m, u) && m.world.active[u] == Some(r) && u != m.world.rooms[r].host
    ensures ManagerInv(RoomLeft(m, u)) && RoomLeft(m, u).world.active[u] == None
  {
    hide RoomOk, DistinctNames, DistinctHosts, HostsPresent, NoneDangling, RegistryOk;
    QuitKeepsInv(m.world, r, u);
    GuestLeftHosts(m.world, u, r);
    GuestLeft(m.world, u, r);
    hide Inv, Left;
    RegistryStays(m, RoomLeft(m, u));
  }

  lemma GuestLeft<R, U>(w: World<R, U>, u: U, r: R)
    requires Possible(w, Event.Quit(r, u)) && HostsPresent(w) && u != w.rooms[r].host
    ensures Left(w, r, u).rooms[r].state == WAIT && Left(w, r, u).rooms.Keys == w.rooms.Keys
    ensures u in Left(w, r, u).active && Left(w, r, u).active[u] == None
  {
  }

  lemma GuestLeftHosts<R, U>(w: World<R, U>, u: U, r: R)
    requires Possible(w, Event.Quit(r, u)) && HostsPresent(w) && w.active[u] == Some(r) && u != w.rooms[r].host
    ensures HostsPresent(Left(w, r, u))
  {
  }

  lemma DestructedHosts<R, U>(w: World<R, U>, u: U, r: R)
    requires Inv(w) && HostsPresent(w) && Legal(w, Event.Quit(r, u)) && u == w.rooms[r].host
    ensures HostsPresent(Destructed(Left(w, r, u), r)) && Destructed(Left(w, r, u), r).active[u] == None
  {
    hide RoomOk, DistinctNames, NoneDangling;
    var v := Left(w, r, u);
    QuitKeepsInv(w, r, u);
    forall q | q in w.rooms ensures Destructed(v, r).active[w.rooms[q].host] == if q == r then None else Some(q) {
      DestructResets(v, r, w.rooms[q].host);
    }
  }

  lemma RegistryRemoves<R, U>(m: Manager<R, U>, n: Manager<R, U>, r: R)
    requires RegistryOk(m) && r in m.codeOf
    requires n.codes == m.codes - {m.codeOf[r]} && n.codeOf == m.codeOf - {r}
    requires n.world.rooms.Keys == m.world.rooms.Keys - {r}
    ensures RegistryOk(n)
  {
  }

  lemma DropKeepsInv<R, U>(m: Manager<R, U>, u: U)
    requires ManagerInv(m) && u in m.world.names
    ensures Ready(m, u) && ManagerInv(Dropped(m, u))
  {
    var after := m;
    if m.world.active[u].Some? {
      QuitRoomKeepsInv(m, u);
      after := RoomLeft(m, u);
    }
    hide RoomOk, DistinctNames, DistinctHosts, NoneDangling, RoomLeft;
    assert ManagerInv(after) && u in after.world.names;
    ForgetKeepsInv(after.world, u);
    hide Inv, HostsPresent;
    RegistryStays(after, Dropped(m, u));
  }

  //
  // What the manager does not check
  //

  /** Joining is safe exactly when the user is in no other room; the source does not look. */
  lemma JoinExact<R, U>(m: Manager<R, U>, u: U, code: string)
    requires ManagerInv(m) && u in m.world.names
    ensures ManagerInv(Joined(m, u, code))
       <==> Answer(m, code) != SUCCESS || NotElsewhere(m.world, u, m.codes[code])
  {
    if Answer(m, code) == SUCCESS {
      if NotElsewhere(m.world, u, m.codes[code]) {
        JoinKeepsInv(m, u, code);
      } else {
        hide RegistryOk, RoomOk, DistinctNames, DistinctHosts, NoneDangling;
        EnterExact(m.world, m.codes[code], u);
        if HostsOnly(m.world, u, {m.codes[code]}) {
          assert !Inv(Joined(m, u, code).world);
        }
      }
    }
  }

  /** A user of room `q` who makes room `r` is no longer linked to `q`. */
  lemma CreateBreaks<R, U>(w: World<R, U>, u: U, r: R, q: R)
    requires Inv(w) && u in w.names && r !in w.rooms && q in w.rooms && w.active[u] == Some(q)
    ensures !Inv(Entered(Constructed(w, r, u), r, u))
  {
    var v := Entered(Constructed(w, r, u), r, u);
    hide DistinctNames, MembersOk, NoneDangling;
    if w.rooms[q].host == u {
      hide RoomOk;
      assert v.rooms[q].host == v.rooms[r].host;
      assert !DistinctHosts(v);
    } else {
      assert RoomOk(w, q) && w.names[u] in w.rooms[q].players;
      hide DistinctHosts;
      assert !LinksOk(v, q);
    }
  }

  /** Likewise for creating. */
  lemma CreateExact<R, U>(m: Manager<R, U>, u: U, r: R, code: string)
    requires ManagerInv(m) && u in m.world.names && r !in m.world.rooms && code !in m.codes
    ensures ManagerInv(Created(m, u, r, code)) <==> m.world.active[u] == None
  {
    hide RegistryOk, DistinctNames, DistinctHosts, HostsPresent, RoomOk, Entered;
    if m.world.active[u] == None {
      CreateKeepsInv(m, u, r, code);
    } else {
      CreateBreaks(m.world, u, r, m.world.active[u].value);
    }
  }

  /** Logging out is safe exactly from no room: otherwise the room keeps an entry for nobody. */
  lemma LogoutExact<R, U>(m: Manager<R, U>, u: U)
    requires ManagerInv(m) && u in m.world.names
    ensures ManagerInv(LoggedOut(m, u)) <==> m.world.active[u] == None
  {
    hide DistinctNames, DistinctHosts, LinksOk;
    if m.world.active[u] == None {
      ForgetKeepsInv(m.world, u);
      hide RoomOk, HostsPresent, Inv;
      RegistryStays(m, LoggedOut(m, u));
    } else {
      var r := m.world.active[u].value;
      HostsOwnRoom(m.world, u);
      MemberIs(m.world, r, u);
      MembersExactly(m.world, r);
      hide RegistryOk, HostsPresent;
      var k := m.world.names[u];
      assert k in m.world.rooms[r].players && m.world.rooms[r].players[k] == u;
      assert !MembersOk(LoggedOut(m, u).world.rooms[r].players, LoggedOut(m, u).world.names);
      assert !RoomOk(LoggedOut(m, u).world, r);
    }
  }

  //
  // What each answer means to the user who asked
  //

  /** A new user is known under its name and in no room; nobody and nothing else changes. */
  lemma LoginOutcome<R, U>(m: Manager<R, U>, u: U, name: string)
    requires m.world.active.Keys == m.world.names.Keys && u !in m.world.names
    ensures var n := LoggedIn(m, u, name);
            && n.world.names.Keys == m.world.names.Keys + {u} && n.world.active.Keys == m.world.active.Keys + {u}
            && n.world.names[u] == name && n.world.active[u] == None
            && (forall x | x in m.world.names ::
                  n.world.names[x] == m.world.names[x] && n.world.active[x] == m.world.active[x])
            && n.world.rooms == m.world.rooms && n.codes == m.codes && n.codeOf == m.codeOf
    ensures LoggedOut(LoggedIn(m, u, name), u) == m
  {
    var w, v := m.world, LoggedOut(LoggedIn(m, u, name), u).world;
    assert v.names == w.names && v.active == w.active;
  }

  /** A user who logs out is gone; every other user, every room and every code is as before. */
  lemma LogoutOutcome<R, U>(m: Manager<R, U>, u: U)
    requires m.world.active.Keys == m.world.names.Keys && u in m.world.names
    ensures var n := LoggedOut(m, u);
            && n.world.names.Keys == m.world.names.Keys - {u} && n.world.active.Keys == m.world.active.Keys - {u}
            && (forall x | x in m.world.names && x != u ::
                  n.world.names[x] == m.world.names[x] && n.world.active[x] == m.world.active[x])
            && n.world.rooms == m.world.rooms && n.codes == m.codes && n.codeOf == m.codeOf
    ensures DistinctNames(m.world.names) ==> m.world.names[u] !in LoggedOut(m, u).world.names.Values
  {
    var w, v := m.world, LoggedOut(m, u).world;
    if DistinctNames(w.names) {
      forall x | x in v.names ensures v.names[x] != w.names[u] {
      }
    }
  }

  /** A new room is found under its code and holds its host, whose back pointer names it. */
  lemma CreateOutcome<R, U>(m: Manager<R, U>, u: U, r: R, code: string)
    requires u in m.world.names && r !in m.world.rooms && code !in m.codes
    ensures var n := Created(m, u, r, code);
            && code in n.codes && n.codes[code] == r && r in n.world.rooms
            && n.world.rooms[r].host == u && n.world.rooms[r].players.Values == {u}
            && n.world.active == m.world.active[u := Some(r)] && n.world.names == m.world.names
            && n.codes == m.codes[code := r] && n.codeOf == m.codeOf[r := code]
            && forall q | q in m.world.rooms :: q in n.world.rooms && n.world.rooms[q] == m.world.rooms[q]
  {
    CreatedWorld(m.world, u, r);
    hide Entered, Constructed;
  }

  lemma CreatedWorld<R, U>(w: World<R, U>, u: U, r: R)
    requires u in w.names
    ensures Entered(Constructed(w, r, u), r, u)
         == World(w.rooms[r := RoomVal(u, map[w.names[u] := u], WAIT)], w.active[u := Some(r)], w.names)
  {
    var players := map[w.names[u] := u];
    var v := Constructed(w, r, u);
    assert v.rooms[r] == RoomVal(u, players, WAIT) && |players| == 1;
    assert Inserted(players, w.names[u], u) == players;
    hide Inserted, Constructed;
    assert v.rooms[r := RoomVal(u, players, WAIT)] == v.rooms;
  }

  /** Each of the three answers, in terms of the code and of how many members the room has. */
  lemma JoinOutcome<R, U>(m: Manager<R, U>, u: U, code: string)
    requires ManagerInv(m) && u in m.world.names
    ensures Answer(m, code) == INVALID_ROOM <==> code !in m.codes
    ensures Answer(m, code) == OVER_PLAYER
       <==> code in m.codes && |m.world.rooms[m.codes[code]].players| == 4
    ensures Answer(m, code) != SUCCESS ==> Joined(m, u, code) == m
    ensures Answer(m, code) == SUCCESS ==>
              var r, w, v := m.codes[code], m.world, Joined(m, u, code).world;
              && v.rooms[r].players.Values == w.rooms[r].players.Values + {u} && v.names == w.names
              && v.rooms[r].host == w.rooms[r].host && v.rooms[r].state == w.rooms[r].state
              && v.rooms == w.rooms[r := v.rooms[r]] && v.active == w.active[u := Some(r)]
    ensures Joined(m, u, code).codes == m.codes && Joined(m, u, code).codeOf == m.codeOf
  {
    hide LinksOk, MembersOk, DistinctNames, DistinctHosts, NoneDangling;
    if code in m.codes {
      assert RoomOk(m.world, m.codes[code]);
      EnterEffect(m.world, m.codes[code], u);
    }
  }

  /** The answer in any state the registry can be in: a room that is going away is not found either. */
  lemma AnswerExact<R, U>(m: Manager<R, U>, code: string)
    requires Registered(m)
    ensures Answer(m, code) == INVALID_ROOM
       <==> code !in m.codes || m.world.rooms[m.codes[code]].state == DESTROYING
    ensures Answer(m, code) == OVER_PLAYER
       <==> && code in m.codes && m.world.rooms[m.codes[code]].state != DESTROYING
            && |m.world.rooms[m.codes[code]].players| >= 4
  {
  }

  /** A host who quits takes the room, its code and every member's back pointer along. */
  lemma HostQuitOutcome<R, U>(m: Manager<R, U>, u: U, r: R)
    requires ManagerInv(m) && u in m.world.names && m.world.active[u] == Some(r)
    requires r in m.world.rooms && u == m.world.rooms[r].host
    ensures Ready(m, u)
    ensures var w, n := m.world, RoomLeft(m, u);
            && n.world.rooms == w.rooms - {r} && n.codes == m.codes - {m.codeOf[r]} && n.codeOf == m.codeOf - {r}
            && n.world.names == w.names && n.world.active.Keys == w.active.Keys
            && forall v | v in w.names ::
                 v in n.world.active && n.world.active[v] == if w.active[v] == Some(r) then None else w.active[v]
  {
    assert Ready(m, u);
    hide RegistryOk, RoomOk, DistinctNames, DistinctHosts, NoneDangling, HostsPresent;
    HostLeft(m.world, r, u);
    hide Inv, Left, Destructed;
  }

  lemma UserReady<R, U>(m: Manager<R, U>, u: U)
    requires ManagerInv(m) && u in m.world.names
    ensures Ready(m, u)
  {
    hide RoomOk, DistinctNames, DistinctHosts, HostsPresent;
  }

  /** A guest who quits leaves alone. */
  lemma GuestQuitOutcome<R, U>(m: Manager<R, U>, u: U, r: R)
    requires ManagerInv(m) && u in m.world.names && m.world.active[u] == Some(r)
    requires r in m.world.rooms && u != m.world.rooms[r].host
    ensures Ready(m, u)
    ensures var w, n := m.world, RoomLeft(m, u);
            && n.world.rooms == w.rooms[r := n.world.rooms[r]] && n.codes == m.codes && n.codeOf == m.codeOf
            && n.world.rooms[r].host == w.rooms[r].host && n.world.rooms[r].state == WAIT && n.world.names == w.names
            && n.world.rooms[r].players.Values == w.rooms[r].players.Values - {u}
            && n.world.active == w.active[u := None]
  {
    UserReady(m, u);
    hide RegistryOk, RoomOk, DistinctNames, DistinctHosts, NoneDangling, HostsPresent;
    QuitEffectGuest(m.world, r, u);
    hide ManagerInv, Inv, Left, Destructed;
    assert RoomLeft(m, u) == m.(world := Left(m.world, r, u));
    hide RoomLeft;
  }

  predicate HostedBy<R(==), U(==)>(w: World<R, U>, r: Option<R>, u: U) {
    r.Some? && r.value in w.rooms && w.rooms[r.value].host == u
  }

  /**
   From `w` to `v` the user `u` is gone from everywhere. The room it hosted goes too, with the back
   pointers to it; every other room loses at most the entry of `u`; the rest stays.
   */
  ghost predicate GoneOnly<R, U>(w: World<R, U>, v: World<R, U>, u: U)
    requires w.active.Keys == w.names.Keys
  {
    && v.names == w.names - {u} && v.active.Keys == w.names.Keys - {u}
    && (forall x | x in v.active :: v.active[x] == if HostedBy(w, w.active[x], u) then None else w.active[x])
    && v.rooms.Keys == (set r | r in w.rooms && w.rooms[r].host != u)
    && forall r | r in v.rooms ::
         && v.rooms[r].host == w.rooms[r].host && v.rooms[r].state == w.rooms[r].state
         && v.rooms[r].players.Values == w.rooms[r].players.Values - {u}
  }

  /** The codes that are left are those of the rooms that are left. */
  ghost predicate CodesOnly<R, U>(m: Manager<R, U>, n: Manager<R, U>) {
    && (forall c :: c in n.codes <==> c in m.codes && m.codes[c] in n.world.rooms)
    && (forall c | c in n.codes :: n.codes[c] == m.codes[c])
  }

  /** A user who is dropped is gone, with the room it hosted, and nothing else changes. */
  lemma DropOutcome<R, U>(m: Manager<R, U>, u: U)
    requires ManagerInv(m) && u in m.world.names
    ensures Ready(m, u) && GoneOnly(m.world, Dropped(m, u).world, u) && CodesOnly(m, Dropped(m, u))
  {
    UserReady(m, u);
    hide ManagerInv, GoneOnly, CodesOnly, Dropped;
    if m.world.active[u].None? {
      DropFromNoRoom(m, u);
    } else if m.world.rooms[m.world.active[u].value].host == u {
      DropOfHost(m, u, m.world.active[u].value);
    } else {
      DropOfGuest(m, u, m.world.active[u].value);
    }
  }

  /** A user is listed only in the room it is in, and hosts no other. */
  ghost predicate OnlyThere<R, U>(w: World<R, U>, u: U)
    requires u in w.active
  {
    forall r | r in w.rooms ::
      && (u in w.rooms[r].players.Values <==> w.active[u] == Some(r))
      && (w.rooms[r].host == u ==> w.active[u] == Some(r))
      && w.rooms[r].state == WAIT
  }

  lemma UserOnlyThere<R, U>(w: World<R, U>, u: U)
    requires Inv(w) && HostsPresent(w) && u in w.names
    ensures OnlyThere(w, u)
  {
    forall r | r in w.rooms
      ensures u in w.rooms[r].players.Values <==> w.active[u] == Some(r)
    {
      MembersExactly(w, r);
    }
    hide RoomOk, DistinctNames, DistinctHosts, NoneDangling;
  }

  lemma NobodyLeft<R, U>(w: World<R, U>, u: U)
    requires w.active.Keys == w.names.Keys && u in w.names && w.active[u] == None && OnlyThere(w, u)
    ensures GoneOnly(w, Forgotten(w, u), u)
  {
    var v := Forgotten(w, u);
    assert v.rooms.Keys == (set r | r in w.rooms && w.rooms[r].host != u);
    assert v.names == w.names - {u};
  }

  lemma HostGone<R, U>(w: World<R, U>, v: World<R, U>, u: U, r: R)
    requires w.active.Keys == w.names.Keys == v.active.Keys && u in w.names && OnlyThere(w, u)
    requires r in w.rooms && w.active[u] == Some(r) && w.rooms[r].host == u
    requires v.rooms == w.rooms - {r} && v.names == w.names
    requires forall x | x in w.names :: v.active[x] == if w.active[x] == Some(r) then None else w.active[x]
    ensures GoneOnly(w, Forgotten(v, u), u)
  {
    assert (w.rooms - {r}).Keys == (set q | q in w.rooms && w.rooms[q].host != u);
    assert forall x | x in w.names :: HostedBy(w, w.active[x], u) <==> w.active[x] == Some(r);
  }

  lemma GuestGone<R, U>(w: World<R, U>, v: World<R, U>, u: U, r: R)
    requires w.active.Keys == w.names.Keys && u in w.names && OnlyThere(w, u)
    requires r in w.rooms && w.active[u] == Some(r) && w.rooms[r].host != u
    requires r in v.rooms && v.rooms == w.rooms[r := v.rooms[r]] && v.names == w.names
    requires v.rooms[r].host == w.rooms[r].host && v.rooms[r].state == WAIT
    requires v.rooms[r].players.Values == w.rooms[r].players.Values - {u} && v.active == w.active[u := None]
    ensures GoneOnly(w, Forgotten(v, u), u)
  {
    assert v.rooms.Keys == (set q | q in w.rooms && w.rooms[q].host != u);
    assert forall x | x in w.names :: !HostedBy(w, w.active[x], u);
  }

  lemma CodesLeft<R, U>(m: Manager<R, U>, n: Manager<R, U>, gone: set<R>)
    requires RegistryOk(m) && gone <= m.world.rooms.Keys && n.world.rooms.Keys == m.world.rooms.Keys - gone
    requires n.codes == m.codes - set r | r in gone :: m.codeOf[r]
    ensures CodesOnly(m, n)
  {
  }

  lemma DropFromNoRoom<R, U>(m: Manager<R, U>, u: U)
    requires ManagerInv(m) && u in m.world.names && m.world.active[u] == None
    ensures GoneOnly(m.world, Dropped(m, u).world, u) && CodesOnly(m, Dropped(m, u))
  {
    hide Inv, HostsPresent, RegistryOk, GoneOnly, CodesOnly;
    UserOnlyThere(m.world, u);
    assert m.world.active.Keys == m.world.names.Keys by {
      InvKeys(m.world);
    }
    NobodyLeft(m.world, u);
    CodesLeft(m, Dropped(m, u), {});
  }

  lemma InvKeys<R, U>(w: World<R, U>)
    requires Inv(w)
    ensures w.active.Keys == w.names.Keys
  {
  }

  lemma DropOfHost<R, U>(m: Manager<R, U>, u: U, r: R)
    requires ManagerInv(m) && Ready(m, u) && m.world.active[u] == Some(r) && m.world.rooms[r].host == u
    ensures GoneOnly(m.world, Dropped(m, u).world, u) && CodesOnly(m, Dropped(m, u))
  {
    hide RegistryOk, HostsPresent, Inv, GoneOnly, CodesOnly, RoomLeft, OnlyThere;
    InvKeys(m.world);
    UserOnlyThere(m.world, u);
    HostQuitOutcome(m, u, r);
    HostGone(m.world, RoomLeft(m, u).world, u, r);
    assert Dropped(m, u).codes == RoomLeft(m, u).codes;
    assert Dropped(m, u).world == Forgotten(RoomLeft(m, u).world, u);
    hide Dropped;
    assert (set q | q in {r} :: m.codeOf[q]) == {m.codeOf[r]};
    CodesLeft(m, Dropped(m, u), {r});
  }

  lemma DropOfGuest<R, U>(m: Manager<R, U>, u: U, r: R)
    requires ManagerInv(m) && Ready(m, u) && m.world.active[u] == Some(r) && m.world.rooms[r].host != u
    ensures GoneOnly(m.world, Dropped(m, u).world, u) && CodesOnly(m, Dropped(m, u))
  {
    hide RegistryOk, HostsPresent, Inv, GoneOnly, CodesOnly, RoomLeft, OnlyThere;
    InvKeys(m.world);
    UserOnlyThere(m.world, u);
    GuestQuitOutcome(m, u, r);
    GuestGone(m.world, RoomLeft(m, u).world, u, r);
    assert Dropped(m, u).codes == RoomLeft(m, u).codes;
    assert Dropped(m, u).world == Forgotten(RoomLeft(m, u).world, u);
    hide Dropped;
    CodesLeft(m, Dropped(m, u), {});
  }

  lemma HostLeft<R, U>(w: World<R, U>, r: R, u: U)
    requires Inv(w) && Legal(w, Event.Quit(r, u)) && u == w.rooms[r].host && w.active[u] == Some(r)
    ensures r in Left(w, r, u).rooms && Left(w, r, u).rooms[r].state == DESTROYING
    ensures var v := Destructed(Left(w, r, u), r);
            && v.rooms == w.rooms - {r} && v.active.Keys == w.names.Keys
            && forall x | x in w.names :: v.active[x] == if w.active[x] == Some(r) then None else w.active[x]
  {
    hide RoomOk, DistinctNames, DistinctHosts, NoneDangling;
    var after := Left(w, r, u);
    QuitKeepsInv(w, r, u);
    HostLeftRooms(w, r, u);
    hide Left, Legal;
    assert Inv(after);
    assert w.active.Keys == w.names.Keys;
    hide Inv;
    forall x | x in w.names
      ensures Destructed(after, r).active[x] == if w.active[x] == Some(r) then None else w.active[x]
    {
      DestructResets(after, r, x);
    }
    hide Destructed;
  }

  lemma HostLeftRooms<R, U>(w: World<R, U>, r: R, u: U)
    requires Possible(w, Event.Quit(r, u)) && u == w.rooms[r].host
    ensures var after := Left(w, r, u);
            && r in after.rooms && after.rooms[r].state == DESTROYING
            && after.names == w.names && after.active == w.active[u := None]
            && Destructed(after, r).rooms == w.rooms - {r} && Destructed(after, r).active.Keys == w.active.Keys
  {
  }

  lemma QuitEffectGuest<R, U>(w: World<R, U>, r: R, u: U)
    requires Inv(w) && HostsPresent(w) && Legal(w, Event.Quit(r, u)) && u != w.rooms[r].host
    ensures var v := Left(w, r, u);
            && v.rooms == w.rooms[r := v.rooms[r]] && v.active == w.active[u := None]
            && v.rooms[r].state == WAIT && v.rooms[r].players.Values == w.rooms[r].players.Values - {u}
  {
    QuitEffect(w, r, u);
    hide Inv;
    GuestLeft(w, u, r);
  }
}
