/**
 The objects behind `GameRooms` and `RoomManager`: users, rooms and the manager, each updated in
 place. Every method is proved to turn objects that stand for a state into objects that stand for
 the state the value functions give, or to fail exactly where those fail. `unordered_map` is a
 `map` field. A weak pointer is a reference, null if it was never set; it has expired when the
 user it leads to is not among `users`, those that are logged in and so exist.
 */
module GameRoomObjects {
  import opened Basics
  import opened GameRooms
  import opened RoomManager
  import opened RoomRuns

  class User {
    const name: string
    var activeGameRoom: GameRoom?

    constructor (name: string)
      ensures this.name == name && activeGameRoom == null
    {
      this.name, activeGameRoom := name, null;
    }
  }

  function Known(room: GameRoom?): Option<GameRoom> {
    if room == null then None else Some(room)
  }

  /** The rooms and users of `w` are in the state that `w` says. */
  ghost predicate Stands(w: World<GameRoom, User>)
    reads w.rooms.Keys`players, w.rooms.Keys`roomState, w.names.Keys`activeGameRoom
  {
    && w.active.Keys == w.names.Keys
    && (forall r | r in w.rooms :: RoomVal(r.hostPlayer, r.players, r.roomState) == w.rooms[r])
    && (forall u | u in w.names :: u.name == w.names[u] && Known(u.activeGameRoom) == w.active[u])
  }

  /** One room and one user have moved on, and nobody else. */
  twostate lemma StandsAfter(w: World<GameRoom, User>, new v: World<GameRoom, User>, new r: GameRoom, new u: User)
    requires old(Stands(w)) && r in w.rooms && u in w.names && r in v.rooms && u in v.active
    requires v.names == w.names && v.rooms == w.rooms[r := v.rooms[r]] && v.active == w.active[u := v.active[u]]
    requires forall q | q in w.rooms && q != r :: unchanged(q`players) && unchanged(q`roomState)
    requires forall x | x in w.names && x != u :: unchanged(x`activeGameRoom)
    requires RoomVal(r.hostPlayer, r.players, r.roomState) == v.rooms[r] && Known(u.activeGameRoom) == v.active[u]
    ensures Stands(v)
  {
  }

  /** What the objects of one room and one user say. */
  lemma StandsAt(w: World<GameRoom, User>, r: GameRoom, u: User)
    requires Stands(w) && r in w.rooms && u in w.names
    ensures RoomVal(r.hostPlayer, r.players, r.roomState) == w.rooms[r]
    ensures u in w.active && u.name == w.names[u] && Known(u.activeGameRoom) == w.active[u]
  {
  }

  predicate Digits(s: string) {
    forall c | c in s :: '0' <= c <= '9'
  }

  class GameRoom {
    const hostPlayer: User
    var roomCode: string
    var roomState: RoomState
    var players: map<string, User>

    /** The host is a member from the start, but its back pointer is left as it was. */
    constructor (hostPlayer: User, ghost w: World<GameRoom, User>)
      requires Stands(w) && hostPlayer in w.names
      ensures Stands(Constructed(w, this, hostPlayer))
      ensures |roomCode| == 4 && Digits(roomCode)
    {
      this.hostPlayer := hostPlayer;
      roomCode := "";
      roomState := WAIT;
      players := map[hostPlayer.name := hostPlayer];
      new;
      GenerateRoomCode();
    }

    /** Four random digits are appended to whatever code there is. */
    method GenerateRoomCode()
      modifies this`roomCode
      ensures |roomCode| == |old(roomCode)| + 4 && old(roomCode) <= roomCode
      ensures Digits(old(roomCode)) ==> Digits(roomCode)
    {
      var chars := "0123456789";
      for i := 0 to 4
        invariant |roomCode| == |old(roomCode)| + i && old(roomCode) <= roomCode
        invariant Digits(old(roomCode)) ==> Digits(roomCode)
      {
        var k: nat :| k < |chars|;
        roomCode := roomCode + [chars[k]];
      }
    }

    method Enter(player: User, ghost w: World<GameRoom, User>) returns (ok: bool)
      requires Stands(w) && this in w.rooms && player in w.names
      modifies this`players, player`activeGameRoom
      ensures Stands(Entered(w, this, player)) && ok == !Full(w.rooms[this])
    {
      StandsAt(w, this, player);
      hide Stands;
      if |players| >= MAX_PLAYER_NUM {
        return false;
      }
      player.activeGameRoom := this;
      if player.name !in players {
        players := players[player.name := player];
      }
      ok := true;
      StandsAfter(w, Entered(w, this, player), this, player);
    }

    method Quit(player: User, ghost w: World<GameRoom, User>)
      requires Stands(w) && this in w.rooms && player in w.names
      modifies this`players, this`roomState, player`activeGameRoom
      ensures Stands(Left(w, this, player))
    {
      StandsAt(w, this, player);
      hide Stands;
      player.activeGameRoom := null;
      if player == hostPlayer {
        roomState := DESTROYING;
      } else {
        players := players - {player.name};
      }
      StandsAfter(w, Left(w, this, player), this, player);
    }

    /** The loop of the destructor, in whatever order the table gives, up to an expired pointer. */
    method ResetMembers(users: set<User>) returns (ok: bool)
      modifies users`activeGameRoom
      ensures ok <==> players.Values <= users
      ensures ok ==> forall u | u in players.Values :: u.activeGameRoom == null
      ensures ok ==> forall u | u in users && u !in players.Values :: u.activeGameRoom == old(u.activeGameRoom)
    {
      var rest := players;
      while rest.Keys != {}
        invariant rest.Keys <= players.Keys && forall k | k in rest :: rest[k] == players[k]
        invariant forall k | k in players && k !in rest :: players[k] in users && players[k].activeGameRoom == null
        invariant forall u | u in users && u !in players.Values :: u.activeGameRoom == old(u.activeGameRoom)
        decreases |rest.Keys|
      {
        var k :| k in rest;
        if rest[k] !in users {
          return false;
        }
        rest[k].activeGameRoom := null;
        rest := rest - {k};
      }
      ok := true;
    }

    method Destroy(users: set<User>, ghost w: World<GameRoom, User>) returns (ok: bool)
      requires Stands(w) && this in w.rooms && users == w.names.Keys
      modifies this`players, users`activeGameRoom
      ensures ok <==> !Expired(w, this)
      ensures ok ==> Stands(Destructed(w, this)) && players == map[]
    {
      ghost var v := Destructed(w, this);
      DestructedParts(w, this);
      ExpiredMeans(w, this);
      hide Destructed, Expired;
      ok := ResetMembers(users);
      if !ok {
        return;
      }
      players := map[];
      forall u | u in v.names ensures u.name == v.names[u] && Known(u.activeGameRoom) == v.active[u] {
      }
      forall r | r in v.rooms ensures RoomVal(r.hostPlayer, r.players, r.roomState) == v.rooms[r] {
        assert r in w.rooms && r != this;
      }
    }

    static lemma ExpiredMeans(w: World<GameRoom, User>, r: GameRoom)
      requires r in w.rooms
      ensures Expired(w, r) <==> !(w.rooms[r].players.Values <= w.names.Keys)
    {
      if u :| u in w.rooms[r].players.Values && u !in w.names {
        var k :| k in w.rooms[r].players && w.rooms[r].players[k] == u;
      }
    }

    static lemma DestructedParts(w: World<GameRoom, User>, r: GameRoom)
      requires r in w.rooms
      ensures var v := Destructed(w, r);
              && v.rooms == w.rooms - {r} && v.names == w.names && v.active.Keys == w.active.Keys
              && forall u | u in w.active :: v.active[u] == if u in w.rooms[r].players.Values then None else w.active[u]
    {
    }
  }

  /** The length that no code in a set exceeds. */
  ghost function Longest(codes: set<string>): (n: nat)
    ensures forall c | c in codes :: |c| <= n
  {
    if codes == {} then 0 else
      var c :| c in codes;
      var n := Longest(codes - {c});
      if |c| <= n then n else |c|
  }

  class GameRoomManager {
    var activeGameRooms: map<string, GameRoom>

    constructor ()
      ensures activeGameRooms == map[] && Matches(NewServer())
    {
      activeGameRooms := map[];
    }

    ghost predicate Matches(m: Manager<GameRoom, User>)
      reads this, m.world.rooms.Keys, m.world.names.Keys
    {
      && Stands(m.world)
      && activeGameRooms == m.codes
      && m.codeOf.Keys == m.world.rooms.Keys
      && forall r | r in m.codeOf :: r.roomCode == m.codeOf[r]
    }

    /** Regenerates until the code is new. Codes only grow, so this ends. */
    method ChooseCode(gameRoom: GameRoom)
      requires Digits(gameRoom.roomCode)
      modifies gameRoom`roomCode
      ensures gameRoom.roomCode !in activeGameRooms && Digits(gameRoom.roomCode)
      ensures gameRoom.roomCode == old(gameRoom.roomCode) || old(gameRoom.roomCode) in activeGameRooms
    {
      var snapshot := activeGameRooms;
      ghost var longest := Longest(snapshot.Keys);
      while gameRoom.roomCode in snapshot
        invariant Digits(gameRoom.roomCode)
        invariant gameRoom.roomCode == old(gameRoom.roomCode) || old(gameRoom.roomCode) in snapshot
        decreases longest - |gameRoom.roomCode|
      {
        gameRoom.GenerateRoomCode();
      }
    }

    /** A new room, entered in the registry under a code not in use. */
    method NewRoom(hostPlayer: User, ghost m: Manager<GameRoom, User>) returns (gameRoom: GameRoom)
      requires Matches(m) && hostPlayer in m.world.names
      modifies this
      ensures fresh(gameRoom) && gameRoom.roomCode !in m.codes && Digits(gameRoom.roomCode)
      ensures Stands(Constructed(m.world, gameRoom, hostPlayer))
      ensures activeGameRooms == m.codes[gameRoom.roomCode := gameRoom]
    {
      hide Stands, Digits;
      gameRoom := new GameRoom(hostPlayer, m.world);
      ChooseCode(gameRoom);
      activeGameRooms := activeGameRooms[gameRoom.roomCode := gameRoom];
    }

    /** The host enters its own room, which is never refused. */
    method CreateGameRoom(hostPlayer: User, ghost m: Manager<GameRoom, User>) returns (gameRoom: GameRoom?)
      requires Matches(m) && hostPlayer in m.world.names
      modifies this, hostPlayer`activeGameRoom
      ensures gameRoom != null && fresh(gameRoom) && gameRoom.roomCode !in m.codes && Digits(gameRoom.roomCode)
      ensures Matches(Created(m, hostPlayer, gameRoom, gameRoom.roomCode))
    {
      hide Stands, Entered, Constructed, Full, Digits;
      gameRoom := NewRoom(hostPlayer, m);
      HostFits(m.world, gameRoom, hostPlayer);
      var entered := gameRoom.Enter(hostPlayer, Constructed(m.world, gameRoom, hostPlayer));
      if !entered {
        return null;
      }
    }

    lemma HostFits(w: World<GameRoom, User>, r: GameRoom, u: User)
      requires u in w.names
      ensures var v := Constructed(w, r, u); r in v.rooms && !Full(v.rooms[r]) && v.names == w.names
      ensures Entered(Constructed(w, r, u), r, u).rooms.Keys == w.rooms.Keys + {r}
    {
    }

    /** The code leads to a room that is not going away. */
    lemma JoinMeans(m: Manager<GameRoom, User>, u: User, code: string)
      requires Registered(m) && u in m.world.names && code in m.codes
      requires m.world.rooms[m.codes[code]].state != DESTROYING
      ensures var r, w := m.codes[code], m.world;
              && Answer(m, code) == (if Full(w.rooms[r]) then OVER_PLAYER else SUCCESS)
              && Joined(m, u, code) == m.(world := Entered(w, r, u)) && Entered(w, r, u).rooms.Keys == w.rooms.Keys
    {
    }

    method JoinGameRoom(player: User, roomCode: string, ghost m: Manager<GameRoom, User>) returns (answer: JoinAnswer)
      requires Matches(m) && Registered(m) && player in m.world.names
      modifies m.codes.Values`players, player`activeGameRoom
      ensures Matches(Joined(m, player, roomCode)) && answer == Answer(m, roomCode)
    {
      hide Stands, Entered, Full;
      if roomCode !in activeGameRooms {
        return INVALID_ROOM;
      }
      var gameRoom := activeGameRooms[roomCode];
      StandsAt(m.world, gameRoom, player);
      if gameRoom.roomState == DESTROYING {
        return INVALID_ROOM;
      }
      JoinMeans(m, player, roomCode);
      hide Joined, Answer;
      var entered := gameRoom.Enter(player, m.world);
      answer := if entered then SUCCESS else OVER_PLAYER;
    }

    /** Erasing the code drops the last reference, and so destroys the room. */
    method Erase(gameRoom: GameRoom, users: set<User>, ghost m: Manager<GameRoom, User>) returns (ok: bool)
      requires Matches(m) && gameRoom in m.world.rooms && users == m.world.names.Keys
      modifies this, gameRoom`players, users`activeGameRoom
      ensures ok <==> !Expired(m.world, gameRoom)
      ensures ok ==>
                Matches(Manager(Destructed(m.world, gameRoom), m.codes - {m.codeOf[gameRoom]}, m.codeOf - {gameRoom}))
    {
      hide Stands, Expired;
      activeGameRooms := activeGameRooms - {gameRoom.roomCode};
      ok := gameRoom.Destroy(users, m.world);
    }

    /** The quit of a user in a room, and the destructor that may follow it. */
    method QuitFrom(activeRoom: GameRoom, player: User, users: set<User>, ghost m: Manager<GameRoom, User>)
      returns (ok: bool)
      requires Matches(m) && player in m.world.names && users == m.world.names.Keys
      requires m.world.active[player] == Some(activeRoom) && Ready(m, player)
      modifies this, activeRoom, users`activeGameRoom
      ensures ok <==> !DestructorFaults(m.world, activeRoom, player)
      ensures ok ==> Matches(RoomLeft(m, player))
    {
      hide Expired, Destructed, Stands, WithoutPlayer;
      ghost var after := Left(m.world, activeRoom, player);
      activeRoom.Quit(player, m.world);
      StandsAt(after, activeRoom, player);
      ok := true;
      if activeRoom.roomState == DESTROYING {
        ok := Erase(activeRoom, users, m.(world := after));
      }
    }

    /** The back pointer is followed without a check. It may be null, and the destructor may fail. */
    method QuitGameRoom(player: User, users: set<User>, ghost m: Manager<GameRoom, User>) returns (ok: bool)
      requires Matches(m) && WellKept(m) && player in m.world.names && users == m.world.names.Keys
      modifies this, player.activeGameRoom, users`activeGameRoom
      ensures ok <==> !Faults(m, QuitRoom(player))
      ensures ok ==> Ready(m, player) && Matches(RoomLeft(m, player))
    {
      assert Ready(m, player);
      assert Known(player.activeGameRoom) == m.world.active[player];
      hide WellKept, Matches, Ready, RoomLeft, DestructorFaults;
      var activeRoom := player.activeGameRoom;
      if activeRoom == null {
        return false;
      }
      ok := QuitFrom(activeRoom, player, users, m);
    }
  }
}
