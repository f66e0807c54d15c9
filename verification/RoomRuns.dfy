/**
 Runs of requests to the manager, and how they fail. A user that is no longer logged in no longer
 exists: following a pointer to it, or a back pointer that was never set, brings the server down.
 */
module RoomRuns {
  import opened Basics
  import opened GameRooms
  import opened RoomManager

  /** What is left of the server after a request. */
  datatype Served<R, U> = Crashed | Running(manager: Manager<R, U>)

  //
  // Pointers that lead nowhere
  //

  /** The room holds an entry for a user that no longer exists. */
  predicate Expired<R(==), U(==)>(w: World<R, U>, r: R)
    requires r in w.rooms
  {
    exists k | k in w.rooms[r].players :: w.rooms[r].players[k] !in w.names
  }

  /** The quit destroys the room, and the destructor comes to such an entry. */
  predicate DestructorFaults<R(==), U(==)>(w: World<R, U>, r: R, u: U)
    requires r in w.rooms && u in w.names
  {
    var after := Left(w, r, u);
    after.rooms[r].state == DESTROYING && Expired(after, r)
  }

  /**
   What every request keeps, sensible or not: codes and rooms correspond, and a back pointer
   names a room that exists and has an entry under the user's name.
   */
  ghost predicate WellKept<R, U>(m: Manager<R, U>) {
    WorldKept(m.world) && RegistryOk(m)
  }

  ghost predicate WorldKept<R, U>(w: World<R, U>) {
    w.active.Keys == w.names.Keys && DistinctNames(w.names) && EntriesKeyed(w) && PointersMet(w)
  }

  ghost predicate EntriesKeyed<R, U>(w: World<R, U>) {
    forall r, k | r in w.rooms && k in w.rooms[r].players && w.rooms[r].players[k] in w.names ::
      w.names[w.rooms[r].players[k]] == k
  }

  ghost predicate PointersMet<R, U>(w: World<R, U>) {
    forall u | u in w.names && u in w.active && w.active[u].Some? ::
      w.active[u].value in w.rooms && w.names[u] in w.rooms[w.active[u].value].players
  }

  /**
   What the requests themselves guarantee: they come from users that are logged in, a login makes
   a new user, whom no room knows, under a name not in use, and a new room gets a code not in use.
   */
  ghost predicate Arrives<R, U>(m: Manager<R, U>, q: Request<R, U>) {
    match q
    case Login(u, name) =>
      && u !in m.world.names && name !in m.world.names.Values
      && forall r | r in m.world.rooms :: u !in m.world.rooms[r].players.Values && u != m.world.rooms[r].host
    case Create(u, r, code) => u in m.world.names && r !in m.world.rooms && code !in m.codes
    case Join(u, code) => u in m.world.names
    case QuitRoom(u) => u in m.world.names
    case Drop(u) => u in m.world.names
    case Logout(u) => u in m.world.names
  }

  /** The request follows a pointer that leads nowhere. Only the sweep checks for a room at all. */
  ghost predicate Faults<R, U>(m: Manager<R, U>, q: Request<R, U>)
    requires WellKept(m) && Arrives(m, q)
  {
    match q
    case QuitRoom(u) => m.world.active[u] == None || DestructorFaults(m.world, m.world.active[u].value, u)
    case Drop(u) => m.world.active[u].Some? && DestructorFaults(m.world, m.world.active[u].value, u)
    case _ => false
  }

  ghost function Serve<R, U>(m: Manager<R, U>, q: Request<R, U>): Served<R, U>
    requires WellKept(m) && Arrives(m, q)
  {
    if Faults(m, q) then Crashed
    else Running(
      match q
      case Login(u, name) => LoggedIn(m, u, name)
      case Create(u, r, code) => Created(m, u, r, code)
      case Join(u, code) => Joined(m, u, code)
      case QuitRoom(u) => RoomLeft(m, u)
      case Drop(u) => Dropped(m, u)
      case Logout(u) => LoggedOut(m, u))
  }

  lemma InvWellKept<R, U>(m: Manager<R, U>)
    requires ManagerInv(m)
    ensures WellKept(m)
  {
    hide RegistryOk, DistinctNames, DistinctHosts;
    forall r | r in m.world.rooms
      ensures forall k | k in m.world.rooms[r].players ::
                m.world.rooms[r].players[k] in m.world.names && m.world.names[m.world.rooms[r].players[k]] == k
    {
      assert RoomOk(m.world, r);
    }
    forall u | u in m.world.names && m.world.active[u].Some?
      ensures m.world.names[u] in m.world.rooms[m.world.active[u].value].players
    {
      assert RoomOk(m.world, m.world.active[u].value);
    }
  }

  lemma LoginKeeps<R, U>(m: Manager<R, U>, u: U, name: string)
    requires WellKept(m) && Arrives(m, Login(u, name))
    ensures WellKept(LoggedIn(m, u, name))
  {
    var w, v := m.world, LoggedIn(m, u, name).world;
    assert forall x | x in w.names :: w.names[x] in w.names.Values;
    assert forall r, k | r in w.rooms && k in w.rooms[r].players :: w.rooms[r].players[k] != u;
  }

  lemma CreateKeeps<R, U>(w: World<R, U>, u: U, r: R)
    requires WorldKept(w) && u in w.names && r !in w.rooms
    ensures WorldKept(Entered(Constructed(w, r, u), r, u))
  {
  }

  lemma EnterKeeps<R, U>(w: World<R, U>, u: U, r: R)
    requires WorldKept(w) && u in w.names && r in w.rooms
    ensures WorldKept(Entered(w, r, u))
  {
  }

  lemma LeaveKeeps<R, U>(w: World<R, U>, u: U, r: R)
    requires WorldKept(w) && u in w.names && w.active[u] == Some(r)
    ensures WorldKept(Left(w, r, u))
  {
  }

  /** A destructor that meets no missing user resets everybody who points at the room. */
  lemma DestroyKeeps<R, U>(w: World<R, U>, r: R)
    requires WorldKept(w) && r in w.rooms && !Expired(w, r)
    ensures WorldKept(Destructed(w, r))
  {
    var v, players := Destructed(w, r), w.rooms[r].players;
    forall u | u in w.names && w.active[u] == Some(r) ensures u in players.Values {
      var k := w.names[u];
      assert k in players && players[k] in w.names && w.names[players[k]] == k;
    }
  }

  lemma ForgetKeeps<R, U>(w: World<R, U>, u: U)
    requires WorldKept(w)
    ensures WorldKept(Forgotten(w, u))
  {
  }

  lemma QuitKeeps<R, U>(m: Manager<R, U>, u: U)
    requires WellKept(m) && u in m.world.names && m.world.active[u].Some?
    requires !DestructorFaults(m.world, m.world.active[u].value, u)
    ensures Ready(m, u) && WellKept(RoomLeft(m, u)) && u in RoomLeft(m, u).world.names
  {
    hide EntriesKeyed, DistinctNames;
    var r := m.world.active[u].value;
    assert Ready(m, u);
    hide PointersMet, RegistryOk;
    LeaveKeeps(m.world, u, r);
    var after := Left(m.world, r, u);
    if after.rooms[r].state == DESTROYING {
      DestroyKeeps(after, r);
      hide WorldKept;
      RegistryRemoves(m, RoomLeft(m, u), r);
    } else {
      hide WorldKept;
      RegistryStays(m, RoomLeft(m, u));
    }
  }

  lemma DropKeeps<R, U>(m: Manager<R, U>, u: U)
    requires WellKept(m) && Arrives(m, Drop(u)) && !Faults(m, Drop(u))
    ensures WellKept(Serve(m, Drop(u)).manager)
  {
    hide RegistryOk, EntriesKeyed, PointersMet, DistinctNames, DestructorFaults;
    if m.world.active[u].Some? {
      QuitKeeps(m, u);
      hide RoomLeft;
      ForgetKeeps(RoomLeft(m, u).world, u);
      RegistryStays(RoomLeft(m, u), Dropped(m, u));
    } else {
      ForgetKeeps(m.world, u);
      RegistryStays(m, Dropped(m, u));
    }
  }

  /** A request that does not bring the server down leaves it well kept, whatever it was. */
  lemma ServeKeeps<R, U>(m: Manager<R, U>, q: Request<R, U>)
    requires WellKept(m) && Arrives(m, q) && Serve(m, q).Running?
    ensures WellKept(Serve(m, q).manager)
  {
    hide RegistryOk, EntriesKeyed, PointersMet, DistinctNames, DestructorFaults, Full, Inserted;
    match q
    case Login(u, name) => LoginKeeps(m, u, name);
    case Create(u, r, code) =>
      CreateKeeps(m.world, u, r);
      RegistryAdds(m, Created(m, u, r, code), r, code);
    case Join(u, code) =>
      RegistryMeansRegistered(m);
      if Answer(m, code) == SUCCESS {
        EnterKeeps(m.world, u, m.codes[code]);
        RegistryStays(m, Joined(m, u, code));
      }
    case QuitRoom(u) => QuitKeeps(m, u);
    case Drop(u) => DropKeeps(m, u);
    case Logout(u) =>
      ForgetKeeps(m.world, u);
      RegistryStays(m, LoggedOut(m, u));
  }

  lemma RegistryMeansRegistered<R, U>(m: Manager<R, U>)
    requires RegistryOk(m)
    ensures Registered(m)
  {
  }

  //
  // Safe requests
  //

  /** Users create, log out and join elsewhere only from no room, and quit only from a room. */
  ghost predicate Safe<R, U>(m: Manager<R, U>, q: Request<R, U>)
    requires WellKept(m) && Arrives(m, q)
  {
    match q
    case Login(u, name) => true
    case Create(u, r, code) => m.world.active[u] == None
    case Join(u, code) => Answer(m, code) != SUCCESS || NotElsewhere(m.world, u, m.codes[code])
    case QuitRoom(u) => m.world.active[u].Some?
    case Drop(u) => true
    case Logout(u) => m.world.active[u] == None
  }

  lemma NoEntryExpired<R, U>(m: Manager<R, U>, r: R, u: U)
    requires ManagerInv(m) && u in m.world.names && m.world.active[u] == Some(r)
    ensures r in m.world.rooms && !DestructorFaults(m.world, r, u)
  {
    QuitKeepsInv(m.world, r, u);
    assert RoomOk(Left(m.world, r, u), r);
  }

  /** While the invariant holds only one request can bring the server down: a quit from no room. */
  lemma FaultExact<R, U>(m: Manager<R, U>, q: Request<R, U>)
    requires ManagerInv(m) && WellKept(m) && Arrives(m, q)
    ensures Faults(m, q) <==> q.QuitRoom? && m.world.active[q.user] == None
  {
    hide ManagerInv, DestructorFaults, RegistryOk, EntriesKeyed, PointersMet, DistinctNames;
    if (q.QuitRoom? || q.Drop?) && m.world.active[q.user].Some? {
      NoEntryExpired(m, m.world.active[q.user].value, q.user);
    }
  }

  /** A request keeps the server running and its invariant exactly when it is safe. */
  lemma ServeExact<R, U>(m: Manager<R, U>, q: Request<R, U>)
    requires ManagerInv(m) && WellKept(m) && Arrives(m, q)
    ensures Serve(m, q).Running? && ManagerInv(Serve(m, q).manager) <==> Safe(m, q)
  {
    FaultExact(m, q);
    hide ManagerInv, Faults;
    match q
    case Login(u, name) => LoginKeepsInv(m, u, name);
    case Create(u, r, code) => CreateExact(m, u, r, code);
    case Join(u, code) => JoinExact(m, u, code);
    case QuitRoom(u) =>
      if m.world.active[u].Some? {
        QuitRoomKeepsInv(m, u);
      }
    case Drop(u) => DropKeepsInv(m, u);
    case Logout(u) => LogoutExact(m, u);
  }

  /** What each request does while the invariant holds. */
  lemma ServedAs<R, U>(m: Manager<R, U>, q: Request<R, U>)
    requires ManagerInv(m) && WellKept(m) && Arrives(m, q)
    ensures q.QuitRoom? || q.Drop? ==> Ready(m, q.user)
    ensures q.Join? ==> Registered(m)
    ensures Serve(m, q)
         == match q
            case Login(u, name) => Running(LoggedIn(m, u, name))
            case Create(u, r, code) => Running(Created(m, u, r, code))
            case Join(u, code) => Running(Joined(m, u, code))
            case QuitRoom(u) => if m.world.active[u] == None then Crashed else Running(RoomLeft(m, u))
            case Drop(u) => Running(Dropped(m, u))
            case Logout(u) => Running(LoggedOut(m, u))
  {
    FaultExact(m, q);
    RegistryMeansRegistered(m);
    if q.QuitRoom? || q.Drop? {
      UserReady(m, q.user);
    }
    hide ManagerInv, Faults;
  }

  /** After a logout the name is free again. */
  lemma LogoutFreesName<R, U>(m: Manager<R, U>, u: U, v: U)
    requires ManagerInv(m) && u in m.world.names && (v == u || v !in m.world.names)
    requires forall r | r in m.world.rooms :: v !in m.world.rooms[r].players.Values && v != m.world.rooms[r].host
    ensures Arrives(LoggedOut(m, u), Login(v, m.world.names[u]))
  {
    hide RoomOk, DistinctHosts, NoneDangling, HostsPresent, RegistryOk;
    LogoutOutcome(m, u);
  }

  //
  // Runs
  //

  /** Requests that arrive one after another, as long as the server is there to serve them. */
  ghost predicate RunArrives<R, U>(m: Manager<R, U>, qs: seq<Request<R, U>>)
    requires WellKept(m)
    decreases |qs|
  {
    if qs == [] then true
    else
      Arrives(m, qs[0]) &&
      match Serve(m, qs[0])
      case Crashed => true
      case Running(n) => ServeKeeps(m, qs[0]); RunArrives(n, qs[1..])
  }

  ghost function ServeAll<R, U>(m: Manager<R, U>, qs: seq<Request<R, U>>): (s: Served<R, U>)
    requires WellKept(m) && RunArrives(m, qs)
    ensures s.Running? ==> WellKept(s.manager)
    decreases |qs|
  {
    if qs == [] then Running(m)
    else
      match Serve(m, qs[0])
      case Crashed => Crashed
      case Running(n) => ServeKeeps(m, qs[0]); ServeAll(n, qs[1..])
  }

  /** The server runs on, and the invariant holds now and after every request. */
  ghost predicate AlwaysInv<R, U>(m: Manager<R, U>, qs: seq<Request<R, U>>)
    requires WellKept(m) && RunArrives(m, qs)
    decreases |qs|
  {
    && ManagerInv(m)
    && if qs == [] then true
       else
         match Serve(m, qs[0])
         case Crashed => false
         case Running(n) => ServeKeeps(m, qs[0]); AlwaysInv(n, qs[1..])
  }

  ghost predicate AllSafe<R, U>(m: Manager<R, U>, qs: seq<Request<R, U>>)
    requires WellKept(m) && RunArrives(m, qs)
    decreases |qs|
  {
    if qs == [] then true
    else
      Safe(m, qs[0]) &&
      match Serve(m, qs[0])
      case Crashed => false
      case Running(n) => ServeKeeps(m, qs[0]); AllSafe(n, qs[1..])
  }

  /**
   Whatever requests arrive: the server stays up with its invariant all the way exactly when every
   one of them is safe in the state it meets.
   */
  lemma {:induction false} RunExact<R, U>(m: Manager<R, U>, qs: seq<Request<R, U>>)
    requires ManagerInv(m) && WellKept(m) && RunArrives(m, qs)
    ensures AlwaysInv(m, qs) <==> AllSafe(m, qs)
    ensures AllSafe(m, qs) ==> ServeAll(m, qs).Running? && ManagerInv(ServeAll(m, qs).manager)
    decreases |qs|
  {
    if qs == [] {
    } else {
      hide ManagerInv, WellKept, Safe, Serve;
      ServeExact(m, qs[0]);
      match Serve(m, qs[0])
      case Crashed =>
      case Running(n) =>
        ServeKeeps(m, qs[0]);
        if ManagerInv(n) {
          RunExact(n, qs[1..]);
        }
    }
  }

  ghost function NewServer<R, U>(): (m: Manager<R, U>)
    ensures ManagerInv(m) && WellKept(m)
  {
    Manager(World(map[], map[], map[]), map[], map[])
  }

  /**
   From a server with nobody on it: after any run of safe requests, a room's members are exactly
   the logged-in users whose back pointer names it, between one and four of them, the host always
   among them; and a code leads to a room exactly when the room exists and goes by that code.
   */
  lemma ServerRun<R, U>(qs: seq<Request<R, U>>)
    requires RunArrives<R, U>(NewServer(), qs) && AllSafe<R, U>(NewServer(), qs)
    ensures ServeAll<R, U>(NewServer(), qs).Running?
    ensures var m := ServeAll<R, U>(NewServer(), qs).manager;
            && (forall r | r in m.world.rooms ::
                  && m.world.rooms[r].players.Values == (set u | u in m.world.active && m.world.active[u] == Some(r))
                  && 1 <= |m.world.rooms[r].players| <= 4
                  && m.world.rooms[r].host in m.world.rooms[r].players.Values)
            && m.codes.Values == m.world.rooms.Keys
            && (forall c, d | c in m.codes && d in m.codes && m.codes[c] == m.codes[d] :: c == d)
  {
    RunExact<R, U>(NewServer(), qs);
    hide RoomOk, DistinctNames, DistinctHosts, NoneDangling, WellKept, ServeAll, AllSafe, RunArrives, NewServer;
    var m := ServeAll<R, U>(NewServer(), qs).manager;
    forall r | r in m.world.rooms
      ensures && m.world.rooms[r].players.Values == (set u | u in m.world.active && m.world.active[u] == Some(r))
              && 1 <= |m.world.rooms[r].players| <= 4
              && m.world.rooms[r].host in m.world.rooms[r].players.Values
    {
      MembersExactly(m.world, r);
    }
  }

  //
  // What an unsafe request leads to
  //

  /** A host who is in its room brings the server down by quitting exactly if a member is gone. */
  lemma HostQuitExact<R, U>(m: Manager<R, U>, r: R, h: U)
    requires WellKept(m) && h in m.world.names && m.world.active[h] == Some(r)
    requires r in m.world.rooms && m.world.rooms[r].host == h
    ensures Arrives(m, QuitRoom(h))
    ensures Serve(m, QuitRoom(h)) == Crashed <==> !(m.world.rooms[r].players.Values <= m.world.names.Keys)
  {
    hide RegistryOk, WorldKept;
    var players := m.world.rooms[r].players;
    assert Left(m.world, r, h).rooms[r].players == players;
    if u :| u in players.Values && u !in m.world.names {
      var k :| k in players && players[k] == u;
    }
  }

  /** So does dropping the host, under the same condition. */
  lemma HostDropExact<R, U>(m: Manager<R, U>, r: R, h: U)
    requires WellKept(m) && h in m.world.names && m.world.active[h] == Some(r)
    requires r in m.world.rooms && m.world.rooms[r].host == h
    ensures Arrives(m, Drop(h))
    ensures Serve(m, Drop(h)) == Crashed <==> !(m.world.rooms[r].players.Values <= m.world.names.Keys)
  {
    HostQuitExact(m, r, h);
    hide RegistryOk, WorldKept, DestructorFaults;
  }

  /**
   After a logout, the quit of a room's host brings the server down exactly when the user had been
   in that room: the destructor comes to the entry of a user that is gone.
   */
  lemma LogoutThenHostQuits<R, U>(m: Manager<R, U>, u: U, r: R)
    requires ManagerInv(m) && u in m.world.names && r in m.world.rooms && m.world.rooms[r].host != u
    ensures var n, h := LoggedOut(m, u), m.world.rooms[r].host;
            && WellKept(n) && Arrives(n, QuitRoom(h))
            && (Serve(n, QuitRoom(h)) == Crashed <==> m.world.active[u] == Some(r))
  {
    hide RegistryOk, WorldKept, DistinctNames, DistinctHosts, NoneDangling, RoomOk;
    InvWellKept(m);
    ForgetKeeps(m.world, u);
    RegistryStays(m, LoggedOut(m, u));
    var w, h := m.world, m.world.rooms[r].host;
    MembersExactly(w, r);
    hide Inv;
    HostQuitExact(LoggedOut(m, u), r, h);
    assert w.rooms[r].players.Values <= w.names.Keys;
  }

  ghost predicate HostInside<R, U>(w: World<R, U>, q: R)
    requires q in w.rooms
  {
    var h := w.rooms[q].host;
    h in w.names && h in w.active && w.active[h] == Some(q)
  }

  /**
   A guest with an entry in `q` whose back pointer names another room: one that is kept when the
   guest goes, or the guest's own with nobody else in it.
   */
  ghost predicate Strayed<R, U>(w: World<R, U>, u: U, q: R) {
    && q in w.rooms && u in w.rooms[q].players.Values && u != w.rooms[q].host && HostInside(w, q)
    && u in w.names && u in w.active && w.active[u].Some? && w.active[u].value in w.rooms && w.active[u].value != q
    && var room := w.rooms[w.active[u].value];
    if room.host == u then room.players.Values == {u} else room.state == WAIT
  }

  /** The guest is gone and its entry is still there. */
  ghost predicate Stranded<R, U>(w: World<R, U>, u: U, q: R) {
    q in w.rooms && u in w.rooms[q].players.Values && u !in w.names && HostInside(w, q)
  }

  lemma DropStrands<R, U>(m: Manager<R, U>, u: U, q: R)
    requires Ready(m, u) && Strayed(m.world, u, q)
    ensures !DestructorFaults(m.world, m.world.active[u].value, u)
    ensures Stranded(Dropped(m, u).world, u, q) && Dropped(m, u).world.rooms[q] == m.world.rooms[q]
  {
    var w, r := m.world, m.world.active[u].value;
    var after := Left(w, r, u);
    if w.rooms[r].host == u {
      assert after.rooms[r].players == w.rooms[r].players;
      forall k | k in after.rooms[r].players ensures after.rooms[r].players[k] == u {
        assert after.rooms[r].players[k] in w.rooms[r].players.Values;
      }
    }
  }

  lemma DropServed<R, U>(m: Manager<R, U>, u: U)
    requires WellKept(m) && Ready(m, u)
    requires m.world.active[u].Some? && !DestructorFaults(m.world, m.world.active[u].value, u)
    ensures WellKept(Dropped(m, u)) && Serve(m, Drop(u)) == Running(Dropped(m, u))
  {
    hide RegistryOk, WorldKept, RoomLeft, DestructorFaults;
    ServeKeeps(m, Drop(u));
  }

  /** These two requests are served one after the other, and the second brings the server down. */
  ghost predicate SecondCrashes<R, U>(m: Manager<R, U>, p: Request<R, U>, q: Request<R, U>) {
    && WellKept(m) && Arrives(m, p) && Serve(m, p).Running?
    && var n := Serve(m, p).manager;
    WellKept(n) && Arrives(n, q) && Serve(n, q) == Crashed
  }

  /** When such a guest is dropped, the quit of the room's host brings the server down. */
  lemma StrayFails<R, U>(m: Manager<R, U>, u: U, q: R)
    requires WellKept(m) && Ready(m, u) && Strayed(m.world, u, q)
    ensures SecondCrashes(m, Drop(u), QuitRoom(m.world.rooms[q].host))
  {
    hide WellKept, Strayed, DestructorFaults, Dropped, Serve;
    DropStrands(m, u, q);
    StrayHasRoom(m.world, u, q);
    DropServed(m, u);
    HostQuitExact(Dropped(m, u), q, m.world.rooms[q].host);
  }

  lemma StrayHasRoom<R, U>(w: World<R, U>, u: U, q: R)
    requires Strayed(w, u, q)
    ensures u in w.active && w.active[u].Some? && q in w.rooms
  {
  }

  lemma JoinedParts<R, U>(m: Manager<R, U>, u: U, code: string)
    requires Registered(m) && u in m.world.names && Answer(m, code) == SUCCESS
    ensures var w, r, v := m.world, m.codes[code], Joined(m, u, code).world;
            && r in v.rooms && v.rooms == w.rooms[r := v.rooms[r]] && v.rooms[r].host == w.rooms[r].host
            && v.rooms[r].state == w.rooms[r].state && v.active == w.active[u := Some(r)] && v.names == w.names
    ensures code in m.codes && m.codes[code] in m.world.rooms && Joined(m, u, code).codeOf == m.codeOf
  {
    hide Inserted;
  }

  lemma GuestOf<R, U>(m: Manager<R, U>, u: U, q: R)
    requires ManagerInv(m) && u in m.world.names && m.world.active[u] == Some(q) && q in m.world.rooms
    requires u != m.world.rooms[q].host
    ensures u in m.world.rooms[q].players.Values && HostInside(m.world, q)
    ensures m.codeOf.Keys == m.world.rooms.Keys && Registered(m)
  {
    RegistryMeansRegistered(m);
    assert RoomOk(m.world, q);
    hide MembersOk, DistinctNames, DistinctHosts, NoneDangling;
    MemberIs(m.world, q, u);
  }

  lemma NotItsHost<R, U>(m: Manager<R, U>, u: U, q: R, r: R)
    requires ManagerInv(m) && u in m.world.names && m.world.active[u] == Some(q) && r in m.world.rooms && r != q
    ensures m.world.rooms[r].state == WAIT && m.world.rooms[r].host != u
  {
    hide RoomOk, DistinctNames, DistinctHosts;
    HostsOwnRoom(m.world, u);
  }

  /** A guest of room `q` who joins another room has strayed. */
  lemma SecondJoinStrays<R, U>(m: Manager<R, U>, u: U, q: R, code: string)
    requires ManagerInv(m) && u in m.world.names && m.world.active[u] == Some(q) && q in m.world.rooms
    requires u != m.world.rooms[q].host && Answer(m, code) == SUCCESS && m.codes[code] != q
    ensures var n := Joined(m, u, code);
            Ready(n, u) && Strayed(n.world, u, q) && n.world.rooms[q] == m.world.rooms[q]
  {
    hide ManagerInv, Joined, Answer;
    GuestOf(m, u, q);
    JoinedParts(m, u, code);
    NotItsHost(m, u, q, m.codes[code]);
  }

  /** And so has one who creates a room. */
  lemma SecondRoomStrays<R, U>(m: Manager<R, U>, u: U, q: R, r: R, code: string)
    requires ManagerInv(m) && u in m.world.names && m.world.active[u] == Some(q) && q in m.world.rooms
    requires u != m.world.rooms[q].host && r !in m.world.rooms && code !in m.codes
    ensures var n := Created(m, u, r, code);
            Ready(n, u) && Strayed(n.world, u, q) && n.world.rooms[q] == m.world.rooms[q]
  {
    hide ManagerInv, Inserted, Full;
    assert Created(m, u, r, code).world.names == m.world.names && Created(m, u, r, code).codeOf == m.codeOf[r := code];
    GuestOf(m, u, q);
    CreateOutcome(m, u, r, code);
    hide Created;
  }

  lemma JoinServed<R, U>(m: Manager<R, U>, u: U, code: string)
    requires WellKept(m) && u in m.world.names
    ensures Registered(m) && WellKept(Joined(m, u, code))
    ensures Serve(m, Join(u, code)) == Running(Joined(m, u, code))
  {
    hide RegistryOk, WorldKept, Answer;
    RegistryMeansRegistered(m);
    ServeKeeps(m, Join(u, code));
  }

  lemma CreateServed<R, U>(m: Manager<R, U>, u: U, r: R, code: string)
    requires WellKept(m) && Arrives(m, Create(u, r, code))
    ensures WellKept(Created(m, u, r, code))
    ensures Serve(m, Create(u, r, code)) == Running(Created(m, u, r, code))
  {
    hide RegistryOk, WorldKept;
    ServeKeeps(m, Create(u, r, code));
  }

  /**
   A guest of room `q` joins another room and is dropped: this leaves an entry for nobody behind in
   `q`, and the quit of that room's host brings the server down.
   */
  lemma SecondJoinThenHostQuits<R, U>(m: Manager<R, U>, u: U, q: R, code: string) returns (joined: Manager<R, U>)
    requires ManagerInv(m) && u in m.world.names && m.world.active[u] == Some(q) && q in m.world.rooms
    requires u != m.world.rooms[q].host && Answer(m, code) == SUCCESS && m.codes[code] != q
    ensures WellKept(m) && Arrives(m, Join(u, code)) && Serve(m, Join(u, code)) == Running(joined)
    ensures SecondCrashes(joined, Drop(u), QuitRoom(m.world.rooms[q].host))
  {
    hide ManagerInv, WellKept, Strayed, Answer, Joined, Serve, SecondCrashes;
    InvWellKept(m);
    SecondJoinStrays(m, u, q, code);
    JoinServed(m, u, code);
    joined := Joined(m, u, code);
    StrayFails(joined, u, q);
  }

  /** The same when the guest creates a room of its own instead. */
  lemma SecondRoomThenHostQuits<R, U>(m: Manager<R, U>, u: U, q: R, r: R, code: string)
    returns (created: Manager<R, U>)
    requires ManagerInv(m) && u in m.world.names && m.world.active[u] == Some(q) && q in m.world.rooms
    requires u != m.world.rooms[q].host && r !in m.world.rooms && code !in m.codes
    ensures WellKept(m) && Arrives(m, Create(u, r, code)) && Serve(m, Create(u, r, code)) == Running(created)
    ensures SecondCrashes(created, Drop(u), QuitRoom(m.world.rooms[q].host))
  {
    hide ManagerInv, WellKept, Strayed, Created, Serve, SecondCrashes;
    InvWellKept(m);
    SecondRoomStrays(m, u, q, r, code);
    CreateServed(m, u, r, code);
    created := Created(m, u, r, code);
    StrayFails(created, u, q);
  }
}
