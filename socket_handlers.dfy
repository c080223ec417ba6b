/**
 * The server's realtime coordinator: the in-memory `games` map from a game id
 * to its bound players (player id -> socket and slot), the handlers that
 * change it (`joinGameRoom`, `disconnect`), the readiness barrier
 * (`playerReady` and its delayed `gameStart`), the relays (`playerMove`,
 * `updateScore`), `gameOver`, `updateStatus` and the lobby broadcast. Each
 * handler runs as one atomic step against the tables of `Store` and the
 * rooms and delivery log of `Transport`.
 */
module SocketHandlers {
  import opened Common
  import opened Store
  import opened Transport

  /** A bound player: the value `{ socket, playerNumber }` stored under the player id. */
  datatype Binding = Binding(player: Id, socket: SocketId, playerNumber: int)

  /** One entry of the `games` map; `players` is the inner map in insertion order. */
  datatype Room = Room(gameId: Id, players: seq<Binding>)

  /** The acknowledgement `joinGameRoom` passes to its callback. */
  datatype JoinAck = JoinOk(playerNumber: int) | JoinFailed(error: string)

  /** The acknowledgement `playerReady` passes to its callback; the error text is not modelled. */
  datatype ReadyAck = ReadyOk(playerNumber: int, allReady: bool) | ReadyFailed

  /** The fields a client's `updateScore` is read for. */
  datatype ScoreData = ScoreData(gameId: Id, playerId: Option<Id>, score: int)

  // ------------------------------------------------- maps as ordered sequences

  /** `games.get(gameId)`: the position of the room, if there is one. */
  function RoomIndex(rooms: seq<Room>, gameId: Id): (r: Option<nat>)
    ensures r.Some? ==> r.value < |rooms| && rooms[r.value].gameId == gameId
    ensures r.Some? ==> forall j :: 0 <= j < r.value ==> rooms[j].gameId != gameId
    ensures r.None? ==> forall room :: room in rooms ==> room.gameId != gameId
  {
    if |rooms| == 0 then None
    else if rooms[0].gameId == gameId then Some(0)
    else match RoomIndex(rooms[1..], gameId)
      case None => None
      case Some(k) => Some(k + 1)
  }

  /** The position of the player's binding in a room, if any. */
  function KeyIndex(ps: seq<Binding>, player: Id): (r: Option<nat>)
    ensures r.Some? ==> r.value < |ps| && ps[r.value].player == player
    ensures r.Some? ==> forall j :: 0 <= j < r.value ==> ps[j].player != player
    ensures r.None? ==> forall b :: b in ps ==> b.player != player
  {
    if |ps| == 0 then None
    else if ps[0].player == player then Some(0)
    else match KeyIndex(ps[1..], player)
      case None => None
      case Some(k) => Some(k + 1)
  }

  /** The position of the first binding, in insertion order, held by the socket. */
  function SocketIndex(ps: seq<Binding>, s: SocketId): (r: Option<nat>)
    ensures r.Some? ==> r.value < |ps| && ps[r.value].socket == s
    ensures r.Some? ==> forall j :: 0 <= j < r.value ==> ps[j].socket != s
    ensures r.None? ==> forall b :: b in ps ==> b.socket != s
  {
    if |ps| == 0 then None
    else if ps[0].socket == s then Some(0)
    else match SocketIndex(ps[1..], s)
      case None => None
      case Some(k) => Some(k + 1)
  }

  /** A map has each key once. */
  predicate DistinctKeys(ps: seq<Binding>) {
    forall i, j :: 0 <= i < j < |ps| ==> ps[i].player != ps[j].player
  }

  predicate DistinctRooms(rooms: seq<Room>) {
    forall i, j :: 0 <= i < j < |rooms| ==> rooms[i].gameId != rooms[j].gameId
  }

  /** The shape of the `games` map between handlers: distinct keys, and no room left empty. */
  predicate RoomsValid(rooms: seq<Room>) {
    DistinctRooms(rooms) &&
    forall room :: room in rooms ==> |room.players| > 0 && DistinctKeys(room.players)
  }

  // ------------------------------------------------------------------ joining

  /**
   * `players.set(player, binding)`: a player already bound keeps their
   * position and gets the new socket and slot; a new player goes last.
   */
  function Bind(ps: seq<Binding>, b: Binding): (r: seq<Binding>)
    ensures KeyIndex(ps, b.player).Some? ==> r == ps[KeyIndex(ps, b.player).value := b]
    ensures KeyIndex(ps, b.player).None? ==> r == ps + [b]
  {
    if |ps| == 0 then [b]
    else if ps[0].player == b.player then [b] + ps[1..]
    else [ps[0]] + Bind(ps[1..], b)
  }

  /** Binding keeps every key once, binds `b`, and keeps every binding of another player. */
  lemma BindKeeps(ps: seq<Binding>, b: Binding)
    requires DistinctKeys(ps)
    ensures DistinctKeys(Bind(ps, b)) && b in Bind(ps, b)
    ensures forall x :: x in Bind(ps, b) ==> x == b || (x in ps && x.player != b.player)
    ensures forall x :: x in ps && x.player != b.player ==> x in Bind(ps, b)
  {
    var r := Bind(ps, b);
    match KeyIndex(ps, b.player)
    case Some(k) =>
      assert r[k] == b;
      forall x | x in r ensures x == b || (x in ps && x.player != b.player) {
        var i :| 0 <= i < |r| && r[i] == x;
        if i != k { assert x == ps[i] && ps[i].player != ps[k].player; }
      }
      forall x | x in ps && x.player != b.player ensures x in r {
        var i :| 0 <= i < |ps| && ps[i] == x;
        assert r[i] == x;
      }
    case None =>
      assert r[|ps|] == b;
  }

  /** The slot the game record gives the player: 1 is tested first, then 2. */
  function SlotOf(g: GameRow, player: Id): Option<int> {
    if g.player1 == player then Some(1)
    else if g.player2 == Some(player) then Some(2)
    else None
  }

  /** Whether the game record backs a binding: slot 1 is the host, slot 2 the recorded joiner. */
  predicate Holds(b: Binding, g: GameRow) {
    (b.playerNumber == 1 && b.player == g.player1) ||
    (b.playerNumber == 2 && g.player2 == Some(b.player))
  }

  /** Every room belongs to a recorded game whose players back all its bindings. */
  ghost predicate Agree(rooms: seq<Room>, games: seq<GameRow>) {
    forall room :: room in rooms ==>
      FindGame(games, room.gameId).Some? &&
      forall b :: b in room.players ==> Holds(b, FindGame(games, room.gameId).value)
  }

  /**
   * The games table may change between handlers; as long as every game keeps
   * its host and its recorded second player, the rooms stay backed by it.
   */
  lemma AgreeExtends(rooms: seq<Room>, g0: seq<GameRow>, g1: seq<GameRow>)
    requires Agree(rooms, g0) && Extends(g0, g1)
    ensures Agree(rooms, g1)
  {
    forall room | room in rooms
      ensures FindGame(g1, room.gameId).Some? &&
        forall b :: b in room.players ==> Holds(b, FindGame(g1, room.gameId).value)
    {
      assert FindGame(g0, room.gameId).Some?;
    }
  }

  /** `games.set` of a fresh room if absent, then the player's binding in it. */
  function WithBinding(rooms: seq<Room>, gameId: Id, b: Binding): seq<Room> {
    match RoomIndex(rooms, gameId)
    case None => rooms + [Room(gameId, [b])]
    case Some(i) => rooms[i := Room(gameId, Bind(rooms[i].players, b))]
  }

  /**
   * A join keeps the map well formed and backed by the games table: rooms
   * stay distinct and non-empty, and the new binding is backed by the record.
   */
  lemma {:induction false} JoinKeeps(rooms: seq<Room>, games: seq<GameRow>, gameId: Id, b: Binding)
    requires RoomsValid(rooms) && Agree(rooms, games)
    requires FindGame(games, gameId).Some? && Holds(b, FindGame(games, gameId).value)
    ensures RoomsValid(WithBinding(rooms, gameId, b)) && Agree(WithBinding(rooms, gameId, b), games)
  {
    var r := WithBinding(rooms, gameId, b);
    match RoomIndex(rooms, gameId)
    case None =>
      assert r == rooms + [Room(gameId, [b])];
      forall room | room in r ensures |room.players| > 0 && DistinctKeys(room.players) {
        if room !in rooms { assert room == Room(gameId, [b]); }
      }
    case Some(i) =>
      BindKeeps(rooms[i].players, b);
      assert rooms[i] in rooms;
      forall room | room in r
        ensures |room.players| > 0 && DistinctKeys(room.players)
        ensures FindGame(games, room.gameId).Some? &&
          forall x :: x in room.players ==> Holds(x, FindGame(games, room.gameId).value)
      {
        var j :| 0 <= j < |r| && r[j] == room;
        if j != i { assert room == rooms[j] && room in rooms; }
      }
  }

  // --------------------------------------------------------------- disconnect

  /** One room's turn of the disconnect loop: its first binding on the socket is deleted. */
  function Unbind(ps: seq<Binding>, s: SocketId): seq<Binding> {
    match SocketIndex(ps, s)
    case None => ps
    case Some(k) => ps[..k] + ps[k + 1..]
  }

  /** Deleting position k shifts every later binding down by one. */
  lemma UnbindAt(ps: seq<Binding>, s: SocketId, k: nat)
    requires SocketIndex(ps, s) == Some(k)
    ensures |Unbind(ps, s)| == |ps| - 1
    ensures forall i :: 0 <= i < k ==> Unbind(ps, s)[i] == ps[i]
    ensures forall i :: k <= i < |ps| - 1 ==> Unbind(ps, s)[i] == ps[i + 1]
  {
  }

  /**
   * A room loses at most one binding, the first one on the socket; every
   * binding on another socket stays, and the keys stay distinct.
   */
  lemma UnbindKeeps(ps: seq<Binding>, s: SocketId)
    ensures |Unbind(ps, s)| == if SocketIndex(ps, s).Some? then |ps| - 1 else |ps|
    ensures forall b :: b in Unbind(ps, s) ==> b in ps
    ensures forall b :: b in ps && b.socket != s ==> b in Unbind(ps, s)
    ensures DistinctKeys(ps) ==> DistinctKeys(Unbind(ps, s))
  {
    match SocketIndex(ps, s)
    case None =>
    case Some(k) =>
      var r := Unbind(ps, s);
      UnbindAt(ps, s, k);
      forall b | b in r ensures b in ps {
        var i :| 0 <= i < |r| && r[i] == b;
        if i < k { assert ps[i] == b; } else { assert ps[i + 1] == b; }
      }
      forall b | b in ps && b.socket != s ensures b in r {
        var i :| 0 <= i < |ps| && ps[i] == b;
        if i < k { assert r[i] == b; } else { assert i > k && r[i - 1] == b; }
      }
      if DistinctKeys(ps) {
        forall i, j | 0 <= i < j < |r| ensures r[i].player != r[j].player {
          var i', j' := if i < k then i else i + 1, if j < k then j else j + 1;
          assert r[i] == ps[i'] && r[j] == ps[j'] && i' < j';
        }
      }
  }

  /** The room the loop keeps, if it still has bindings. */
  function Kept(room: Room, s: SocketId): seq<Room> {
    var ps := Unbind(room.players, s);
    if |ps| == 0 then [] else [Room(room.gameId, ps)]
  }

  /** The `games` map after the disconnect loop: each room unbound once, the empty ones deleted. */
  function AfterDisconnect(rooms: seq<Room>, s: SocketId): seq<Room> {
    if |rooms| == 0 then []
    else AfterDisconnect(rooms[..|rooms| - 1], s) + Kept(rooms[|rooms| - 1], s)
  }

  /**
   * After a disconnect every remaining room has bindings and comes from a
   * room of before, unbound; every room that still had bindings remains.
   */
  lemma {:induction false} AfterDisconnectShape(rooms: seq<Room>, s: SocketId)
    ensures forall x :: x in AfterDisconnect(rooms, s) ==> (|x.players| > 0 &&
      exists room :: room in rooms && x == Room(room.gameId, Unbind(room.players, s)))
    ensures forall room :: room in rooms && |Unbind(room.players, s)| > 0 ==>
      Room(room.gameId, Unbind(room.players, s)) in AfterDisconnect(rooms, s)
  {
    if |rooms| > 0 {
      var init := rooms[..|rooms| - 1];
      var last := rooms[|rooms| - 1];
      AfterDisconnectShape(init, s);
      var a := AfterDisconnect(init, s);
      assert AfterDisconnect(rooms, s) == a + Kept(last, s);
      forall x | x in AfterDisconnect(rooms, s)
        ensures |x.players| > 0 && exists room :: room in rooms && x == Room(room.gameId, Unbind(room.players, s))
      {
        if x in a {
          var room :| room in init && x == Room(room.gameId, Unbind(room.players, s));
          var i :| 0 <= i < |init| && init[i] == room;
          assert rooms[i] == room;
        } else {
          assert last in rooms;
        }
      }
      forall room | room in rooms && |Unbind(room.players, s)| > 0
        ensures Room(room.gameId, Unbind(room.players, s)) in AfterDisconnect(rooms, s)
      {
        var i :| 0 <= i < |rooms| && rooms[i] == room;
        if i < |rooms| - 1 {
          assert init[i] == room;
        }
      }
    }
  }

  /** The disconnect loop keeps the map well formed. */
  lemma AfterDisconnectValid(rooms: seq<Room>, s: SocketId)
    requires RoomsValid(rooms)
    ensures RoomsValid(AfterDisconnect(rooms, s))
  {
    AfterDisconnectDistinct(rooms, s);
    AfterDisconnectShape(rooms, s);
    forall room | room in AfterDisconnect(rooms, s) ensures |room.players| > 0 && DistinctKeys(room.players) {
      var r0 :| r0 in rooms && room == Room(r0.gameId, Unbind(r0.players, s));
      UnbindKeeps(r0.players, s);
    }
  }

  /** A game id no room had is not brought in by the disconnect loop. */
  lemma AfterDisconnectAvoids(rooms: seq<Room>, s: SocketId, gameId: Id)
    requires forall i :: 0 <= i < |rooms| ==> rooms[i].gameId != gameId
    ensures forall x :: x in AfterDisconnect(rooms, s) ==> x.gameId != gameId
  {
    AfterDisconnectShape(rooms, s);
    forall x | x in AfterDisconnect(rooms, s) ensures x.gameId != gameId {
      var room :| room in rooms && x == Room(room.gameId, Unbind(room.players, s));
      var i :| 0 <= i < |rooms| && rooms[i] == room;
    }
  }

  /** Deleting bindings and rooms never makes two rooms share a game id. */
  lemma {:induction false} AfterDisconnectDistinct(rooms: seq<Room>, s: SocketId)
    requires DistinctRooms(rooms)
    ensures DistinctRooms(AfterDisconnect(rooms, s))
  {
    if |rooms| > 0 {
      var init := rooms[..|rooms| - 1];
      var last := rooms[|rooms| - 1];
      AfterDisconnectDistinct(init, s);
      assert forall i :: 0 <= i < |init| ==> init[i] == rooms[i];
      AfterDisconnectAvoids(init, s, last.gameId);
      var a := AfterDisconnect(init, s);
      var r := AfterDisconnect(rooms, s);
      assert r == a + Kept(last, s);
      forall i, j | 0 <= i < j < |r| ensures r[i].gameId != r[j].gameId {
        if j < |a| {
          assert r[i] == a[i] && r[j] == a[j];
        } else {
          assert r[j].gameId == last.gameId;
          assert r[i] == a[i] && a[i] in a;
        }
      }
    }
  }

  /** The `playerDisconnected` notice one room's turn emits, if it found a binding. */
  function Notice(room: Room, s: SocketId, members: map<Id, set<SocketId>>): seq<Delivery> {
    match SocketIndex(room.players, s)
    case None => []
    case Some(k) =>
      [Delivery(MembersOf(members, room.gameId),
                PlayerDisconnected(room.gameId, room.players[k].player, room.players[k].playerNumber))]
  }

  function Notices(rooms: seq<Room>, s: SocketId, members: map<Id, set<SocketId>>): seq<Delivery> {
    if |rooms| == 0 then []
    else Notices(rooms[..|rooms| - 1], s, members) + Notice(rooms[|rooms| - 1], s, members)
  }

  /** The disconnect loop's bookkeeping for one more room. */
  lemma DisconnectStep(rooms: seq<Room>, i: nat, s: SocketId, members: map<Id, set<SocketId>>)
    requires i < |rooms|
    ensures AfterDisconnect(rooms[..i + 1], s) == AfterDisconnect(rooms[..i], s) + Kept(rooms[i], s)
    ensures Notices(rooms[..i + 1], s, members) == Notices(rooms[..i], s, members) + Notice(rooms[i], s, members)
  {
    assert rooms[..i + 1][..i] == rooms[..i];
  }

  /** One notice per room that held the socket, never more than there are rooms. */
  lemma {:induction false} NoticesCount(rooms: seq<Room>, s: SocketId, members: map<Id, set<SocketId>>)
    ensures |Notices(rooms, s, members)| <= |rooms|
    ensures (forall room :: room in rooms ==> SocketIndex(room.players, s).None?) <==> Notices(rooms, s, members) == []
  {
    if |rooms| > 0 {
      var init := rooms[..|rooms| - 1];
      NoticesCount(init, s, members);
      assert forall room :: room in rooms ==> room in init || room == rooms[|rooms| - 1];
      assert forall room :: room in init ==> room in rooms;
    }
  }

  /** Unbinding keeps every remaining binding backed by the games table. */
  lemma AfterDisconnectAgrees(rooms: seq<Room>, games: seq<GameRow>, s: SocketId)
    requires Agree(rooms, games)
    ensures Agree(AfterDisconnect(rooms, s), games)
  {
    AfterDisconnectShape(rooms, s);
    forall x | x in AfterDisconnect(rooms, s)
      ensures FindGame(games, x.gameId).Some? &&
        forall b :: b in x.players ==> Holds(b, FindGame(games, x.gameId).value)
    {
      var room :| room in rooms && x == Room(room.gameId, Unbind(room.players, s));
      UnbindKeeps(room.players, s);
    }
  }

  // ------------------------------------------------------------ game over

  /** `Array.from(players.keys()).find(id => id != sender)`, as a position. */
  function OtherIndex(ps: seq<Binding>, sender: Option<Id>): (r: Option<nat>)
    ensures r.Some? ==> r.value < |ps| && Some(ps[r.value].player) != sender
    ensures r.Some? ==> forall j :: 0 <= j < r.value ==> Some(ps[j].player) == sender
    ensures r.None? ==> forall b :: b in ps ==> Some(b.player) == sender
  {
    if |ps| == 0 then None
    else if Some(ps[0].player) != sender then Some(0)
    else match OtherIndex(ps[1..], sender)
      case None => None
      case Some(k) => Some(k + 1)
  }

  function Winner(ps: seq<Binding>, sender: Option<Id>): Option<Id> {
    match OtherIndex(ps, sender)
    case None => None
    case Some(k) => Some(ps[k].player)
  }

  /**
   * In a room with distinct keys, the winner is the one bound player who is
   * not the sender; a sender without an id makes the first bound player the
   * winner; a sender alone in the room gets no winner at all.
   */
  lemma WinnerIsOpponent(ps: seq<Binding>, sender: Option<Id>)
    requires DistinctKeys(ps)
    ensures |ps| == 2 && sender == Some(ps[0].player) ==> Winner(ps, sender) == Some(ps[1].player)
    ensures |ps| == 2 && sender == Some(ps[1].player) ==> Winner(ps, sender) == Some(ps[0].player)
    ensures |ps| > 0 && sender.None? ==> Winner(ps, sender) == Some(ps[0].player)
    ensures |ps| == 1 && sender == Some(ps[0].player) ==> Winner(ps, sender).None?
  {
    if |ps| == 2 && sender == Some(ps[0].player) {
      assert OtherIndex(ps, sender) == Some(1);
    }
  }

  /** A room backed by its game record never holds more than its two players. */
  lemma RoomAtMostTwo(rooms: seq<Room>, games: seq<GameRow>, room: Room)
    requires Agree(rooms, games) && room in rooms && DistinctKeys(room.players)
    ensures |room.players| <= 2
    ensures forall b :: b in room.players ==>
      b.player == FindGame(games, room.gameId).value.player1 ||
      Some(b.player) == FindGame(games, room.gameId).value.player2
  {
    var g := FindGame(games, room.gameId).value;
    if |room.players| > 2 {
      FirstThree(room.players);
      assert false;
    }
  }

  /** The first three bindings of a room that has more than two. */
  lemma FirstThree(ps: seq<Binding>)
    requires |ps| > 2
    ensures ps[0] in ps && ps[1] in ps && ps[2] in ps
  {
  }

  // ---------------------------------------------------------------- ready

  /**
   * Right after the ready update, both flags of the game are set exactly
   * when each was already set or belongs to the caller's slot.
   */
  lemma ReadyAfterUpdate(games: seq<GameRow>, gameId: Id, caller: Id)
    requires FindGame(games, gameId).Some?
    ensures FindGame(SetGame(games, gameId, ReadyFrom(caller)), gameId).Some?
    ensures
      var g, h := FindGame(games, gameId).value, FindGame(SetGame(games, gameId, ReadyFrom(caller)), gameId).value;
      (h.ready1 && h.ready2 <==> (g.ready1 || g.player1 == caller) && (g.ready2 || g.player2 == Some(caller))) &&
      h.player1 == g.player1 && h.player2 == g.player2
  {
    FindAfterSet(games, gameId, ReadyFrom(caller), gameId);
  }

  // ------------------------------------------------------------- handlers

  /** What the room hears from a successful ready call: the caller's slot and flag state, then `allPlayersReady` if both are set. */
  function ReadyNotices(to: set<SocketId>, gameId: Id, ack: ReadyAck): seq<Delivery>
    requires ack.ReadyOk?
  {
    [Delivery(to, ReadyChanged(gameId, ack.playerNumber, ack.allReady))] +
    if ack.allReady then [Delivery(to, AllPlayersReady(gameId))] else []
  }

  /** `updateLobby`: every connected socket receives the players whose status is not 'playing'. */
  method UpdateLobby(db: Database, io: Io)
    modifies io`log
    ensures io.log == old(io.log) + [Delivery(io.connected, LobbyUpdate(LobbyOf(db.players, None)))]
  {
    io.ToAll(LobbyUpdate(LobbyOf(db.players, None)));
  }

  /**
   * The inner loop of `disconnect` over one room: the first binding on the
   * socket is deleted and the room hears `playerDisconnected` for it.
   */
  method LeaveRoom(io: Io, room: Room, s: SocketId) returns (ps: seq<Binding>)
    modifies io`log
    ensures ps == Unbind(room.players, s)
    ensures io.log == old(io.log) + Notice(room, s, io.rooms)
  {
    ps := room.players;
    var j := 0;
    while j < |ps|
      invariant 0 <= j <= |ps| && ps == room.players
      invariant forall k :: 0 <= k < j ==> ps[k].socket != s
      invariant io.log == old(io.log)
    {
      if ps[j].socket == s {
        assert SocketIndex(room.players, s) == Some(j);
        ps := ps[..j] + ps[j + 1..];
        io.ToRoom(room.gameId, PlayerDisconnected(room.gameId, room.players[j].player, room.players[j].playerNumber));
        return;
      }
      j := j + 1;
    }
  }

  /**
   * The outer loop of `disconnect`: every room in turn loses its first
   * binding on the socket, and the rooms left with bindings are kept in
   * their order.
   */
  method LeaveRooms(io: Io, rooms: seq<Room>, s: SocketId) returns (kept: seq<Room>)
    modifies io`log
    ensures kept == AfterDisconnect(rooms, s)
    ensures io.log == old(io.log) + Notices(rooms, s, io.rooms)
  {
    kept := [];
    var i := 0;
    while i < |rooms|
      invariant 0 <= i <= |rooms|
      invariant kept == AfterDisconnect(rooms[..i], s)
      invariant io.log == old(io.log) + Notices(rooms[..i], s, io.rooms)
    {
      var room := rooms[i];
      var ps := LeaveRoom(io, room, s);
      assert io.log == old(io.log) + Notices(rooms[..i], s, io.rooms) + Notice(room, s, io.rooms);
      DisconnectStep(rooms, i, s, io.rooms);
      if |ps| > 0 {
        kept := kept + [Room(room.gameId, ps)];
      }
      assert kept == AfterDisconnect(rooms[..i], s) + Kept(room, s);
      i := i + 1;
    }
    assert rooms[..i] == rooms;
  }

  /**
   * The ready update of `playerReady`: when round trips 0 and 1 succeed, the
   * caller's flag is set in the game record, which keeps its players and
   * status; otherwise nothing is written.
   */
  method WriteReady(db: Database, gameId: Id, playerId: Id, fault: Fault)
    requires db.Valid()
    modifies db`games
    ensures db.Valid()
    ensures db.games == if Survives(fault, 2) then SetGame(old(db.games), gameId, ReadyFrom(playerId)) else old(db.games)
    ensures Survives(fault, 2) ==> FindGame(db.games, gameId).Some? == FindGame(old(db.games), gameId).Some?
    ensures Extends(old(db.games), db.games)
    ensures WellFormed(old(db.games)) ==> WellFormed(db.games)
  {
    if Survives(fault, 2) {
      FindAfterSet(db.games, gameId, ReadyFrom(playerId), gameId);
      ReadyKeepsPlayers(db.games, gameId, playerId);
      db.UpdateGame(gameId, ReadyFrom(playerId));
    }
  }

  class Coordinator {
    /** The `games` map, in insertion order. */
    var games: seq<Room>
    /** The game ids of the `gameStart` timers not yet fired, oldest first (all have the same delay). */
    var pendingStarts: seq<Id>

    ghost predicate Valid()
      reads this`games
    {
      RoomsValid(games)
    }

    constructor ()
      ensures Valid() && games == [] && pendingStarts == []
    {
      games := [];
      pendingStarts := [];
    }

    /** The socket `login` event: only a lobby broadcast. */
    method Login(db: Database, io: Io)
      modifies io`log
      ensures io.log == old(io.log) + [Delivery(io.connected, LobbyUpdate(LobbyOf(db.players, None)))]
    {
      UpdateLobby(db, io);
    }

    /**
     * `joinGameRoom`: round trips 0..2 read the game record. A failure at any
     * of them, an unknown game or a caller in neither slot changes nothing.
     * Otherwise the socket joins the room, the player is bound with their
     * slot, and the room hears `opponentJoined`.
     */
    method JoinGameRoom(db: Database, io: Io, s: SocketId, gameId: Id, playerId: Id, fault: Fault)
      returns (ack: JoinAck)
      requires Valid() && Agree(games, db.games) && io.Valid() && s in io.connected
      modifies this`games, io`rooms, io`log
      ensures Valid() && Agree(games, db.games) && io.Valid()
      ensures !Survives(fault, 3) ==> ack == JoinFailed("Server error")
      ensures Survives(fault, 3) && FindGame(db.games, gameId).None? ==> ack == JoinFailed("Game not found")
      ensures Survives(fault, 3) && FindGame(db.games, gameId).Some? ==>
        var slot := SlotOf(FindGame(db.games, gameId).value, playerId);
        ack == if slot.None? then JoinFailed("Player not in this game") else JoinOk(slot.value)
      ensures ack.JoinFailed? ==> games == old(games) && io.rooms == old(io.rooms) && io.log == old(io.log)
      ensures ack.JoinOk? ==>
        games == WithBinding(old(games), gameId, Binding(playerId, s, ack.playerNumber)) &&
        io.rooms == old(io.rooms)[gameId := old(io.Members(gameId)) + {s}] &&
        io.log == old(io.log) + [Delivery(io.Members(gameId), OpponentJoined(gameId, playerId))]
    {
      if !Survives(fault, 3) {
        return JoinFailed("Server error");
      }
      var found := FindGame(db.games, gameId);
      if found.None? {
        return JoinFailed("Game not found");
      }
      var slot := SlotOf(found.value, playerId);
      if slot.None? {
        return JoinFailed("Player not in this game");
      }
      io.Join(s, gameId);
      var b := Binding(playerId, s, slot.value);
      JoinKeeps(games, db.games, gameId, b);
      AddBinding(gameId, b);
      io.ToRoom(gameId, OpponentJoined(gameId, playerId));
      ack := JoinOk(slot.value);
    }

    /** `games.set(gameId, ...)` when the room is new, then `players.set(player, binding)` in it. */
    method AddBinding(gameId: Id, b: Binding)
      modifies this`games
      ensures games == WithBinding(old(games), gameId, b)
    {
      var i := RoomIndex(games, gameId);
      if i.None? {
        games := games + [Room(gameId, [])];
        i := Some(|games| - 1);
      }
      games := games[i.value := Room(gameId, Bind(games[i.value].players, b))];
    }

    /**
     * `disconnect`: the socket has already left its rooms. Each room loses
     * its first binding on the socket, with a `playerDisconnected` notice to
     * the room, and a room left without bindings is deleted; then the lobby
     * is broadcast. The tables are not written.
     */
    method Disconnect(db: Database, io: Io, s: SocketId)
      requires Valid() && io.Valid()
      modifies this`games, io`connected, io`rooms, io`log
      ensures Valid() && io.Valid()
      ensures games == AfterDisconnect(old(games), s)
      ensures Agree(old(games), db.games) ==> Agree(games, db.games)
      ensures io.connected == old(io.connected) - {s}
      ensures io.log == old(io.log) + Notices(old(games), s, io.rooms) +
                        [Delivery(io.connected, LobbyUpdate(LobbyOf(db.players, None)))]
    {
      io.Disconnect(s);
      var rooms := games;
      games := LeaveRooms(io, rooms, s);
      AfterDisconnectValid(rooms, s);
      if Agree(rooms, db.games) {
        AfterDisconnectAgrees(rooms, db.games, s);
      }
      UpdateLobby(db, io);
    }

    /**
     * `playerReady`: round trips 0 and 1 open the connection and run the
     * ready update, round trip 2 reads the record back. An unknown game
     * fails on reading the missing row. On success the room hears the
     * caller's slot (2 for anyone who is not the host) and whether both
     * flags are now set; if they are, it also hears `allPlayersReady` and one
     * more `gameStart` is scheduled, however many were scheduled before.
     */
    method PlayerReady(db: Database, io: Io, gameId: Id, playerId: Id, fault: Fault)
      returns (ack: ReadyAck)
      requires db.Valid()
      modifies db`games, io`log, this`pendingStarts
      ensures db.Valid()
      ensures db.games == if Survives(fault, 2) then SetGame(old(db.games), gameId, ReadyFrom(playerId)) else old(db.games)
      ensures Extends(old(db.games), db.games)
      ensures WellFormed(old(db.games)) ==> WellFormed(db.games)
      ensures ack.ReadyOk? <==> Survives(fault, 3) && FindGame(old(db.games), gameId).Some?
      ensures ack.ReadyOk? ==>
        ack.playerNumber == (if FindGame(db.games, gameId).value.player1 == playerId then 1 else 2) &&
        ack.allReady == (FindGame(db.games, gameId).value.ready1 && FindGame(db.games, gameId).value.ready2)
      ensures io.log == old(io.log) + if ack.ReadyOk? then ReadyNotices(io.Members(gameId), gameId, ack) else []
      ensures pendingStarts == old(pendingStarts) + if ack.ReadyOk? && ack.allReady then [gameId] else []
    {
      WriteReady(db, gameId, playerId, fault);
      ack := ReadBack(db, io, gameId, playerId, fault);
    }

    /**
     * The read-back of `playerReady`: round trip 2 reads the record, and a
     * missing record fails; otherwise the room hears the outcome.
     */
    method ReadBack(db: Database, io: Io, gameId: Id, playerId: Id, fault: Fault) returns (ack: ReadyAck)
      modifies io`log, this`pendingStarts
      ensures ack.ReadyOk? <==> Survives(fault, 3) && FindGame(db.games, gameId).Some?
      ensures ack.ReadyOk? ==>
        ack.playerNumber == (if FindGame(db.games, gameId).value.player1 == playerId then 1 else 2) &&
        ack.allReady == (FindGame(db.games, gameId).value.ready1 && FindGame(db.games, gameId).value.ready2)
      ensures io.log == old(io.log) + if ack.ReadyOk? then ReadyNotices(io.Members(gameId), gameId, ack) else []
      ensures pendingStarts == old(pendingStarts) + if ack.ReadyOk? && ack.allReady then [gameId] else []
    {
      ack := ReadyFailed;
      var found := FindGame(db.games, gameId);
      if Survives(fault, 3) && found.Some? {
        var g := found.value;
        ack := AnnounceReady(io, gameId, if g.player1 == playerId then 1 else 2, g.ready1 && g.ready2);
      }
    }

    /** The success half of `playerReady`: the room hears the outcome and, when both are ready, a start is scheduled. */
    method AnnounceReady(io: Io, gameId: Id, playerNumber: int, allReady: bool) returns (ack: ReadyAck)
      modifies io`log, this`pendingStarts
      ensures ack == ReadyOk(playerNumber, allReady)
      ensures io.log == old(io.log) + ReadyNotices(io.Members(gameId), gameId, ack)
      ensures pendingStarts == old(pendingStarts) + if allReady then [gameId] else []
    {
      ack := ReadyOk(playerNumber, allReady);
      io.ToRoom(gameId, ReadyChanged(gameId, playerNumber, allReady));
      if allReady {
        io.ToRoom(gameId, AllPlayersReady(gameId));
        pendingStarts := pendingStarts + [gameId];
      }
    }

    /** The oldest `gameStart` timer fires: its room hears `gameStart`. */
    method CountdownElapsed(io: Io)
      requires |pendingStarts| > 0
      modifies this`pendingStarts, io`log
      ensures pendingStarts == old(pendingStarts)[1..]
      ensures io.log == old(io.log) + [Delivery(io.Members(old(pendingStarts)[0]), GameStart(old(pendingStarts)[0]))]
    {
      var gameId := pendingStarts[0];
      pendingStarts := pendingStarts[1..];
      io.ToRoom(gameId, GameStart(gameId));
    }

    /**
     * `playerMove`: the room minus the sending socket receives the five
     * fields unchanged, each optional one present or absent as it came.
     */
    method PlayerMove(io: Io, s: SocketId, data: MoveData)
      modifies io`log
      ensures io.log == old(io.log) +
        [Delivery(io.Members(data.gameId) - {s},
                  OpponentMove(data.gameId, data.playerNumber, data.arena, data.playerPos, data.playerMatrix))]
    {
      io.ToRoomExcept(data.gameId, s,
        OpponentMove(data.gameId, data.playerNumber, data.arena, data.playerPos, data.playerMatrix));
    }

    /** `updateScore`: the whole room, the sender included, receives the score. */
    method UpdateScore(io: Io, data: ScoreData)
      modifies io`log
      ensures io.log == old(io.log) + [Delivery(io.Members(data.gameId), ScoreUpdate(data.gameId, data.playerId, data.score))]
    {
      io.ToRoom(data.gameId, ScoreUpdate(data.gameId, data.playerId, data.score));
    }

    /**
     * `gameOver`: without a room nothing happens. Otherwise the winner is
     * the first bound player other than the sender, possibly none. The stats
     * update makes round trips 0 (connect), 1 (the wins update), 2 (the
     * losses update) and 3 (end); the first that throws stops it, and an
     * update given a missing id throws too. So the win is written when a
     * winner exists and trips 0 and 1 succeed, the loss only after it when a
     * sender exists and trip 2 succeeds. The error is swallowed: the room
     * hears the result in every case.
     */
    method GameOver(db: Database, io: Io, gameId: Id, sender: Option<Id>, fault: Fault)
      requires db.Valid()
      modifies db`players, io`log
      ensures db.Valid()
      ensures RoomIndex(games, gameId).None? ==> db.players == old(db.players) && io.log == old(io.log)
      ensures RoomIndex(games, gameId).Some? ==>
        var winner := Winner(games[RoomIndex(games, gameId).value].players, sender);
        var won := winner.Some? && Survives(fault, 2);
        var lost := won && sender.Some? && Survives(fault, 3);
        io.log == old(io.log) + [Delivery(io.Members(gameId), GameResult(gameId, sender, winner))] &&
        db.players ==
          if lost then SetPlayer(SetPlayer(old(db.players), winner.value, AddWin), sender.value, AddLoss)
          else if won then SetPlayer(old(db.players), winner.value, AddWin)
          else old(db.players)
    {
      var i := RoomIndex(games, gameId);
      if i.None? {
        return;
      }
      var winner := Winner(games[i.value].players, sender);
      if winner.Some? && Survives(fault, 2) {
        db.UpdatePlayer(winner.value, AddWin);
        if sender.Some? && !Fails(fault, 2) {
          db.UpdatePlayer(sender.value, AddLoss);
        }
      }
      io.ToRoom(gameId, GameResult(gameId, sender, winner));
    }

    /**
     * The socket `updateStatus` event: round trips 0..2 write any status
     * string, unchecked, to the player's row; the lobby is broadcast only if
     * none of them failed.
     */
    method UpdateStatus(db: Database, io: Io, userId: Id, status: string, fault: Fault)
      requires db.Valid()
      modifies db`players, io`log
      ensures db.Valid()
      ensures db.players == if Survives(fault, 2) then SetPlayer(old(db.players), userId, NewStatus(Some(status))) else old(db.players)
      ensures io.log == old(io.log) +
        if Survives(fault, 3) then [Delivery(io.connected, LobbyUpdate(LobbyOf(db.players, None)))] else []
    {
      if !Survives(fault, 2) {
        return;
      }
      db.UpdatePlayer(userId, NewStatus(Some(status)));
      if Fails(fault, 2) {
        return;
      }
      UpdateLobby(db, io);
    }
  }
}
