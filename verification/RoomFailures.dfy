/**
 Runs from a server with nobody on it: safe requests, on which the invariant holds throughout, as
 far as a name that is free again and a room that is full; and runs to a failure, which go on with
 one of the requests that the source does not check.
 */
module RoomFailures {
  import opened Basics
  import opened GameRooms
  import opened RoomManager
  import opened RoomRuns

  lemma {:induction false} RunThen<R, U>(m: Manager<R, U>, qs: seq<Request<R, U>>, q: Request<R, U>)
    requires WellKept(m) && RunArrives(m, qs) && ServeAll(m, qs).Running? && Arrives(ServeAll(m, qs).manager, q)
    ensures RunArrives(m, qs + [q]) && ServeAll(m, qs + [q]) == Serve(ServeAll(m, qs).manager, q)
    decreases |qs|
  {
    if qs == [] {
      assert [] + [q] == [q] && [q][1..] == [];
      if Serve(m, q).Running? {
        ServeKeeps(m, q);
      }
    } else {
      hide WellKept, Arrives, Serve;
      ServeKeeps(m, qs[0]);
      assert (qs + [q])[0] == qs[0] && (qs + [q])[1..] == qs[1..] + [q];
      RunThen(Serve(m, qs[0]).manager, qs[1..], q);
    }
  }

  /** Safe requests, from a server with nobody on it, lead to `m`. */
  ghost predicate Reached<R, U>(qs: seq<Request<R, U>>, m: Manager<R, U>) {
    && ManagerInv(m) && RunArrives(NewServer(), qs) && AllSafe(NewServer(), qs)
    && ServeAll(NewServer(), qs) == Running(m)
  }

  lemma {:induction false} SafeThen<R, U>(m: Manager<R, U>, qs: seq<Request<R, U>>, q: Request<R, U>)
    requires WellKept(m) && RunArrives(m, qs) && AllSafe(m, qs) && RunArrives(m, qs + [q])
    requires ServeAll(m, qs).Running? && Arrives(ServeAll(m, qs).manager, q) && Safe(ServeAll(m, qs).manager, q)
    requires Serve(ServeAll(m, qs).manager, q).Running?
    ensures AllSafe(m, qs + [q])
    decreases |qs|
  {
    if qs == [] {
      assert [] + [q] == [q] && [q][1..] == [];
      ServeKeeps(m, q);
    } else {
      hide WellKept, Arrives, Serve, Safe;
      ServeKeeps(m, qs[0]);
      assert (qs + [q])[0] == qs[0] && (qs + [q])[1..] == qs[1..] + [q];
      SafeThen(Serve(m, qs[0]).manager, qs[1..], q);
    }
  }

  lemma ReachOne<R, U>(qs: seq<Request<R, U>>, m: Manager<R, U>, q: Request<R, U>)
    requires Reached(qs, m) && WellKept(m) && Arrives(m, q) && Safe(m, q)
    ensures Serve(m, q).Running? && Reached(qs + [q], Serve(m, q).manager)
  {
    hide ManagerInv, WellKept, Arrives, Serve, Safe, ServeAll, RunArrives, AllSafe, NewServer;
    ServeExact(m, q);
    RunThen(NewServer(), qs, q);
    SafeThen(NewServer(), qs, q);
  }

  lemma ReachLogin<R, U>(qs: seq<Request<R, U>>, m: Manager<R, U>, u: U, name: string)
    requires Reached(qs, m) && u !in m.world.names && name !in m.world.names.Values
    ensures Reached(qs + [Login(u, name)], LoggedIn(m, u, name))
  {
    hide RunArrives, ServeAll, AllSafe, NewServer, RegistryOk, HostsPresent;
    InvWellKept(m);
    forall r | r in m.world.rooms ensures u !in m.world.rooms[r].players.Values && u != m.world.rooms[r].host {
      assert RoomOk(m.world, r);
    }
    hide ManagerInv, WellKept;
    ReachOne(qs, m, Login(u, name));
  }

  lemma ReachCreate<R, U>(qs: seq<Request<R, U>>, m: Manager<R, U>, u: U, r: R, code: string)
    requires Reached(qs, m) && u in m.world.names && u in m.world.active && m.world.active[u] == None
    requires r !in m.world.rooms && code !in m.codes
    ensures Reached(qs + [Create(u, r, code)], Created(m, u, r, code))
  {
    hide RunArrives, ServeAll, AllSafe, NewServer, ManagerInv, WellKept;
    InvWellKept(m);
    ReachOne(qs, m, Create(u, r, code));
  }

  lemma ReachJoin<R, U>(qs: seq<Request<R, U>>, m: Manager<R, U>, u: U, code: string)
    requires Reached(qs, m) && u in m.world.names && u in m.world.active && m.world.active[u] == None
    ensures Registered(m) && Reached(qs + [Join(u, code)], Joined(m, u, code))
  {
    hide RunArrives, ServeAll, AllSafe, NewServer, ManagerInv;
    InvWellKept(m);
    RegistryMeansRegistered(m);
    hide WellKept;
    ReachOne(qs, m, Join(u, code));
  }

  lemma NewReached<R, U>()
    ensures Reached<R, U>([], NewServer())
  {
  }

  /** A host in its room, in sole company. */
  ghost predicate HostAlone<R, U>(m: Manager<R, U>, h: U, r: R, code: string, name: string) {
    && r in m.world.rooms && m.world.rooms[r] == RoomVal(h, map[name := h], WAIT)
    && code in m.codes && m.codes[code] == r
  }

  lemma CreatedAlone<R, U>(m: Manager<R, U>, u: U, r: R, code: string)
    requires u in m.world.names
    ensures var n := Created(m, u, r, code);
            && HostAlone(n, u, r, code, m.world.names[u])
            && n.world.names == m.world.names && n.world.active == m.world.active[u := Some(r)]
            && n.codes == m.codes[code := r] && n.world.rooms == m.world.rooms[r := n.world.rooms[r]]
  {
    CreatedWorld(m.world, u, r);
    hide Entered, Constructed;
    var n, w, alone := Created(m, u, r, code), m.world, RoomVal(u, map[m.world.names[u] := u], WAIT);
    assert n.codes == m.codes[code := r] && n.world == World(w.rooms[r := alone], w.active[u := Some(r)], w.names);
    hide Created;
  }

  lemma JoinedAlone<R, U>(m: Manager<R, U>, u: U, h: U, r: R, code: string, name: string)
    requires Registered(m) && u in m.world.names && HostAlone(m, h, r, code, name)
    ensures Answer(m, code) == SUCCESS
    ensures var n := Joined(m, u, code);
            && n.world.names == m.world.names && n.world.active == m.world.active[u := Some(r)]
            && n.codes == m.codes && n.world.rooms.Keys == m.world.rooms.Keys && n.world.rooms[r].host == h
  {
  }

  /** Safe requests that end with a host and a guest in one room. */
  function ToOneRoom<R, U>(h: U, g: U, r: R): seq<Request<R, U>> {
    [Login(h, "host"), Login(g, "guest"), Create(h, r, "0000"), Join(g, "0000")]
  }

  lemma OneRoomReached<R, U>(h: U, g: U, r: R) returns (m: Manager<R, U>)
    requires h != g
    ensures Reached(ToOneRoom(h, g, r), m)
    ensures m.world.names == map[h := "host", g := "guest"] && m.world.active == map[h := Some(r), g := Some(r)]
    ensures m.world.rooms.Keys == {r} && m.world.rooms[r].host == h && m.codes == map["0000" := r]
  {
    hide Reached, Created, Joined, Answer;
    var q0: seq<Request<R, U>> := [];
    var m0: Manager<R, U> := NewServer();
    NewReached<R, U>();
    ReachLogin(q0, m0, h, "host");
    var q1, m1 := q0 + [Login(h, "host")], LoggedIn(m0, h, "host");
    assert m1.world.names == map[h := "host"];
    ReachLogin(q1, m1, g, "guest");
    var q2, m2 := q1 + [Login(g, "guest")], LoggedIn(m1, g, "guest");
    ReachCreate(q2, m2, h, r, "0000");
    CreatedAlone(m2, h, r, "0000");
    var q3, m3 := q2 + [Create(h, r, "0000")], Created(m2, h, r, "0000");
    ReachJoin(q3, m3, g, "0000");
    JoinedAlone(m3, g, h, r, "0000", "host");
    m := Joined(m3, g, "0000");
    assert q3 + [Join(g, "0000")] == ToOneRoom(h, g, r);
  }

  /** A run goes on from a state it has reached. */
  lemma ThenServed<R, U>(qs: seq<Request<R, U>>, m: Manager<R, U>, q: Request<R, U>)
    requires WellKept(m) && RunArrives(NewServer(), qs) && ServeAll(NewServer(), qs) == Running(m) && Arrives(m, q)
    ensures RunArrives(NewServer(), qs + [q]) && ServeAll(NewServer(), qs + [q]) == Serve(m, q)
  {
    RunThen(NewServer(), qs, q);
  }

  lemma ThenCrashes<R, U>(qs: seq<Request<R, U>>, m: Manager<R, U>, p: Request<R, U>, q: Request<R, U>)
    requires RunArrives(NewServer(), qs) && ServeAll(NewServer(), qs) == Running(m) && SecondCrashes(m, p, q)
    ensures RunArrives(NewServer(), qs + [p] + [q]) && ServeAll(NewServer(), qs + [p] + [q]) == Crashed
  {
    hide WellKept, RunArrives, ServeAll, NewServer, Arrives, Serve;
    ThenServed(qs, m, p);
    ThenServed(qs + [p], Serve(m, p).manager, q);
  }

  //
  // A name that is free again, and a room that is full
  //

  /** A user logs in and out, and the next one gets the name. */
  lemma NameFreed<R, U>(u: U, v: U)
    ensures var qs := [Login(u, "user")] + [Logout(u)] + [Login(v, "user")];
            RunArrives<R, U>(NewServer(), qs)
            && ServeAll<R, U>(NewServer(), qs)
               == Running(Manager(World(map[], map[v := None], map[v := "user"]), map[], map[]))
  {
    hide RunArrives, ServeAll, AllSafe, ManagerInv, WellKept, Serve;
    var m0: Manager<R, U> := NewServer();
    NewReached<R, U>();
    ReachLogin([], m0, u, "user");
    var q1: seq<Request<R, U>> := [] + [Login(u, "user")];
    assert q1 == [Login(u, "user")];
    var m1 := LoggedIn(m0, u, "user");
    InvWellKept(m1);
    ServedAs(m1, Logout(u));
    ReachOne(q1, m1, Logout(u));
    assert LoggedOut(m1, u) == m0;
    ReachLogin(q1 + [Logout(u)], m0, v, "user");
  }

  /** A guest under a new name enters a room with less than four members. */
  lemma JoinListed<R, U>(m: Manager<R, U>, u: U, r: R, code: string)
    requires Registered(m) && u in m.world.names && code in m.codes && m.codes[code] == r
    requires m.world.rooms[r].state == WAIT && m.world.names[u] !in m.world.rooms[r].players
    requires |m.world.rooms[r].players| < 4
    ensures Answer(m, code) == SUCCESS
    ensures var w, n := m.world, Joined(m, u, code);
            && n.world.rooms == w.rooms[r := RoomVal(w.rooms[r].host, w.rooms[r].players[w.names[u] := u], WAIT)]
            && n.world.names == w.names && n.world.active == w.active[u := Some(r)] && n.codes == m.codes
  {
  }

  function ToFullRoom<R, U>(h: U, a: U, b: U, c: U, d: U, r: R): seq<Request<R, U>> {
    [Login(h, "host"), Login(a, "a"), Login(b, "b"), Login(c, "c"), Login(d, "d"), Create(h, r, "0000"),
     Join(a, "0000"), Join(b, "0000"), Join(c, "0000")]
  }

  lemma FiveLoggedIn<R, U>(h: U, a: U, b: U, c: U, d: U) returns (m: Manager<R, U>)
    requires h !in {a, b, c, d} && a !in {b, c, d} && b !in {c, d} && c != d
    ensures Reached([Login(h, "host"), Login(a, "a"), Login(b, "b"), Login(c, "c"), Login(d, "d")], m)
    ensures m == Manager(World(map[], map[h := None, a := None, b := None, c := None, d := None],
                               map[h := "host", a := "a", b := "b", c := "c", d := "d"]), map[], map[])
  {
    hide Reached;
    var m0: Manager<R, U> := NewServer();
    NewReached<R, U>();
    ReachLogin([], m0, h, "host");
    var m1 := LoggedIn(m0, h, "host");
    ReachLogin([] + [Login(h, "host")], m1, a, "a");
    var m2 := LoggedIn(m1, a, "a");
    ReachLogin([] + [Login(h, "host")] + [Login(a, "a")], m2, b, "b");
    var m3 := LoggedIn(m2, b, "b");
    ReachLogin([] + [Login(h, "host")] + [Login(a, "a")] + [Login(b, "b")], m3, c, "c");
    var m4 := LoggedIn(m3, c, "c");
    ReachLogin([] + [Login(h, "host")] + [Login(a, "a")] + [Login(b, "b")] + [Login(c, "c")], m4, d, "d");
    m := LoggedIn(m4, d, "d");
    assert [] + [Request<R, U>.Login(h, "host")] + [Login(a, "a")] + [Login(b, "b")] + [Login(c, "c")] + [Login(d, "d")]
        == [Login(h, "host"), Login(a, "a"), Login(b, "b"), Login(c, "c"), Login(d, "d")];
  }

  /** A host and three guests are served, and the fifth user is refused. */
  lemma FifthRefused<R, U>(h: U, a: U, b: U, c: U, d: U, r: R) returns (m: Manager<R, U>)
    requires h !in {a, b, c, d} && a !in {b, c, d} && b !in {c, d} && c != d
    ensures Reached(ToFullRoom(h, a, b, c, d, r), m) && WellKept(m) && Arrives(m, Join(d, "0000"))
    ensures m.world.rooms == map[r := RoomVal(h, map["host" := h, "a" := a, "b" := b, "c" := c], WAIT)]
    ensures Registered(m) && Answer(m, "0000") == OVER_PLAYER && Serve(m, Join(d, "0000")) == Running(m)
  {
    hide Reached, Created, Joined, Answer, WellKept, ManagerInv, Serve;
    var m0: Manager<R, U> := FiveLoggedIn(h, a, b, c, d);
    var q0: seq<Request<R, U>> := [Login(h, "host"), Login(a, "a"), Login(b, "b"), Login(c, "c"), Login(d, "d")];
    ReachCreate(q0, m0, h, r, "0000");
    CreatedAlone(m0, h, r, "0000");
    var q1, m1 := q0 + [Create(h, r, "0000")], Created(m0, h, r, "0000");
    ReachJoin(q1, m1, a, "0000");
    JoinListed(m1, a, r, "0000");
    var q2, m2 := q1 + [Join(a, "0000")], Joined(m1, a, "0000");
    ReachJoin(q2, m2, b, "0000");
    JoinListed(m2, b, r, "0000");
    var q3, m3 := q2 + [Join(b, "0000")], Joined(m2, b, "0000");
    ReachJoin(q3, m3, c, "0000");
    JoinListed(m3, c, r, "0000");
    m := Joined(m3, c, "0000");
    assert q3 + [Join(c, "0000")] == ToFullRoom(h, a, b, c, d, r);
    FullRefuses(ToFullRoom(h, a, b, c, d, r), m, d, "0000");
  }

  lemma FullRefuses<R, U>(qs: seq<Request<R, U>>, m: Manager<R, U>, u: U, code: string)
    requires Reached(qs, m) && u in m.world.names && code in m.codes && m.codes[code] in m.world.rooms
    requires |m.world.rooms[m.codes[code]].players| == 4
    ensures WellKept(m) && Arrives(m, Join(u, code)) && Registered(m)
    ensures Answer(m, code) == OVER_PLAYER && Serve(m, Join(u, code)) == Running(m)
  {
    hide RunArrives, ServeAll, AllSafe, NewServer, ManagerInv, WellKept, Serve;
    InvWellKept(m);
    ServedAs(m, Join(u, code));
    JoinOutcome(m, u, code);
    hide Joined, Answer;
  }

  //
  // The five failures
  //

  /** Quitting from no room, right after a login. */
  lemma QuitFromNoRoom<R, U>(u: U)
    ensures RunArrives<R, U>(NewServer(), [Login(u, "user"), QuitRoom(u)])
    ensures ServeAll<R, U>(NewServer(), [Login(u, "user"), QuitRoom(u)]) == Crashed
  {
    hide RunArrives, ServeAll, AllSafe, ManagerInv;
    var m0: Manager<R, U> := NewServer();
    NewReached<R, U>();
    ReachLogin([], m0, u, "user");
    var q1, m := [] + [Request<R, U>.Login(u, "user")], LoggedIn(m0, u, "user");
    InvWellKept(m);
    ThenServed(q1, m, QuitRoom(u));
    assert q1 + [Request<R, U>.QuitRoom(u)] == [Login(u, "user"), QuitRoom(u)];
  }

  /** A guest logs out, and the host quits. */
  lemma LogoutFromRoom<R, U>(h: U, g: U, r: R)
    requires h != g
    ensures RunArrives(NewServer(), ToOneRoom(h, g, r) + [Logout(g), QuitRoom(h)])
    ensures ServeAll(NewServer(), ToOneRoom(h, g, r) + [Logout(g), QuitRoom(h)]) == Crashed
  {
    hide RunArrives, ServeAll, AllSafe, NewServer, ManagerInv, WellKept;
    var qs := ToOneRoom(h, g, r);
    var m := OneRoomReached(h, g, r);
    InvWellKept(m);
    ThenServed(qs, m, Logout(g));
    LogoutThenHostQuits(m, g, r);
    ThenServed(qs + [Logout(g)], LoggedOut(m, g), QuitRoom(h));
    assert qs + [Logout(g)] + [QuitRoom(h)] == qs + [Logout(g), QuitRoom(h)];
  }

  /** A host creates a second room, and the invariant is lost. */
  lemma SecondRoomOfHost<R, U>(h: U, g: U, r: R, q: R)
    requires h != g && q != r
    ensures RunArrives(NewServer(), ToOneRoom(h, g, r) + [Create(h, q, "0001")])
    ensures var s := ServeAll(NewServer(), ToOneRoom(h, g, r) + [Create(h, q, "0001")]);
            s.Running? && !ManagerInv(s.manager)
  {
    hide RunArrives, ServeAll, AllSafe, NewServer, ManagerInv, WellKept;
    var qs := ToOneRoom(h, g, r);
    var m := OneRoomReached(h, g, r);
    InvWellKept(m);
    ThenServed(qs, m, Create(h, q, "0001"));
    CreateExact(m, h, q, "0001");
  }

  function ToTwoRooms<R, U>(h: U, g: U, r: R, k: U, q: R): seq<Request<R, U>> {
    ToOneRoom(h, g, r) + [Login(k, "other")] + [Create(k, q, "0001")]
  }

  lemma TwoRoomsReached<R, U>(h: U, g: U, r: R, k: U, q: R) returns (m: Manager<R, U>)
    requires h != g && k != h && k != g && q != r
    ensures Reached(ToTwoRooms(h, g, r, k, q), m)
    ensures g in m.world.names && g in m.world.active && m.world.active[g] == Some(r)
    ensures r in m.world.rooms && m.world.rooms[r].host == h
    ensures HostAlone(m, k, q, "0001", "other")
  {
    hide Reached, Created, Joined;
    var q1 := ToOneRoom(h, g, r);
    var m1 := OneRoomReached(h, g, r);
    ReachLogin(q1, m1, k, "other");
    var q2, m2 := q1 + [Login(k, "other")], LoggedIn(m1, k, "other");
    ReachCreate(q2, m2, k, q, "0001");
    CreatedAlone(m2, k, q, "0001");
    m := Created(m2, k, q, "0001");
  }

  /** A guest joins a second room and is dropped, and the host of the first room quits. */
  lemma JoinFromRoom<R, U>(h: U, g: U, r: R, k: U, q: R)
    requires h != g && k != h && k != g && q != r
    ensures RunArrives(NewServer(), ToTwoRooms(h, g, r, k, q) + [Join(g, "0001")] + [Drop(g)] + [QuitRoom(h)])
    ensures ServeAll(NewServer(), ToTwoRooms(h, g, r, k, q) + [Join(g, "0001")] + [Drop(g)] + [QuitRoom(h)]) == Crashed
  {
    hide RunArrives, ServeAll, AllSafe, NewServer, ManagerInv, WellKept, Serve, ToTwoRooms, SecondCrashes;
    var qs := ToTwoRooms(h, g, r, k, q);
    var m := TwoRoomsReached(h, g, r, k, q);
    InvWellKept(m);
    JoinServed(m, g, "0001");
    JoinedAlone(m, g, k, q, "0001", "other");
    var joined := SecondJoinThenHostQuits(m, g, r, "0001");
    ThenServed(qs, m, Join(g, "0001"));
    ThenCrashes(qs + [Join(g, "0001")], joined, Drop(g), QuitRoom(h));
  }

  /** A guest creates a second room and is dropped, and the host of the first room quits. */
  lemma CreateFromRoom<R, U>(h: U, g: U, r: R, q: R)
    requires h != g && q != r
    ensures RunArrives(NewServer(), ToOneRoom(h, g, r) + [Create(g, q, "0001")] + [Drop(g)] + [QuitRoom(h)])
    ensures ServeAll(NewServer(), ToOneRoom(h, g, r) + [Create(g, q, "0001")] + [Drop(g)] + [QuitRoom(h)]) == Crashed
  {
    hide RunArrives, ServeAll, AllSafe, NewServer, ManagerInv, WellKept, Serve, ToOneRoom, SecondCrashes;
    var qs := ToOneRoom(h, g, r);
    var m := OneRoomReached(h, g, r);
    InvWellKept(m);
    var created := SecondRoomThenHostQuits(m, g, r, q, "0001");
    ThenServed(qs, m, Create(g, q, "0001"));
    ThenCrashes(qs + [Create(g, q, "0001")], created, Drop(g), QuitRoom(h));
  }
}
