/**
 * What the server's handlers see of Socket.IO: which sockets are connected,
 * which sockets have joined each `game:<id>` room, and the log of every event
 * emitted, each with the set of sockets it reaches.
 */
module Transport {
  import opened Common
  import opened Store
  import TetrisMatrix

  type SocketId = int

  /**
   * The fields a client's `playerMove` carries. The board sends all five;
   * the key handler sends only the arena; a receiver tells them apart by
   * which fields are absent.
   */
  datatype MoveData = MoveData(gameId: Id, playerNumber: int, arena: Option<TetrisMatrix.Matrix>,
                               playerPos: Option<TetrisMatrix.Pos>, playerMatrix: Option<TetrisMatrix.Matrix>)

  /** The events the server emits, named after their Socket.IO event names. */
  datatype Event =
    | LobbyUpdate(players: seq<LobbyEntry>)
    | OpponentJoined(gameId: Id, playerId: Id)
    | PlayerJoined(gameId: Id, playerId: Id)
    | ReadyChanged(gameId: Id, playerNumber: int, allReady: bool)
    | AllPlayersReady(gameId: Id)
    | GameStart(gameId: Id)
    | OpponentMove(gameId: Id, playerNumber: int, arena: Option<TetrisMatrix.Matrix>,
                   playerPos: Option<TetrisMatrix.Pos>, playerMatrix: Option<TetrisMatrix.Matrix>)
    | ScoreUpdate(gameId: Id, scorer: Option<Id>, score: int)
    | GameResult(gameId: Id, loserId: Option<Id>, winnerId: Option<Id>)
    | PlayerDisconnected(gameId: Id, playerId: Id, playerNumber: int)

  /** One emit: the sockets it reaches and what they receive. */
  datatype Delivery = Delivery(to: set<SocketId>, event: Event)

  /** The sockets in room `game:<gameId>`; a room nobody joined is empty. */
  function MembersOf(rooms: map<Id, set<SocketId>>, gameId: Id): set<SocketId> {
    if gameId in rooms then rooms[gameId] else {}
  }

  class Io {
    var connected: set<SocketId>
    var rooms: map<Id, set<SocketId>>
    var log: seq<Delivery>

    /** Only connected sockets sit in rooms. */
    ghost predicate Valid()
      reads this
    {
      forall g :: g in rooms ==> rooms[g] <= connected
    }

    constructor ()
      ensures Valid() && connected == {} && rooms == map[] && log == []
    {
      connected := {};
      rooms := map[];
      log := [];
    }

    function Members(gameId: Id): set<SocketId>
      reads this`rooms
    {
      MembersOf(rooms, gameId)
    }

    method Connect(s: SocketId)
      requires Valid()
      modifies this`connected
      ensures Valid() && connected == old(connected) + {s}
    {
      connected := connected + {s};
    }

    /** A closed socket leaves every room before its `disconnect` handler runs. */
    method Disconnect(s: SocketId)
      requires Valid()
      modifies this`connected, this`rooms
      ensures Valid() && connected == old(connected) - {s}
      ensures rooms.Keys == old(rooms).Keys
      ensures forall g :: g in rooms ==> rooms[g] == old(rooms)[g] - {s}
    {
      connected := connected - {s};
      rooms := map g | g in rooms :: rooms[g] - {s};
    }

    /** `socket.join('game:' + gameId)`. */
    method Join(s: SocketId, gameId: Id)
      requires Valid() && s in connected
      modifies this`rooms
      ensures Valid() && rooms == old(rooms)[gameId := old(Members(gameId)) + {s}]
    {
      rooms := rooms[gameId := Members(gameId) + {s}];
    }

    /** `io.to('game:' + gameId).emit(...)`: every socket in the room. */
    method ToRoom(gameId: Id, e: Event)
      modifies this`log
      ensures log == old(log) + [Delivery(Members(gameId), e)]
    {
      log := log + [Delivery(Members(gameId), e)];
    }

    /** `socket.to('game:' + gameId).emit(...)`: the room without the sending socket. */
    method ToRoomExcept(gameId: Id, s: SocketId, e: Event)
      modifies this`log
      ensures log == old(log) + [Delivery(Members(gameId) - {s}, e)]
    {
      log := log + [Delivery(Members(gameId) - {s}, e)];
    }

    /** `io.emit(...)`: every connected socket. */
    method ToAll(e: Event)
      modifies this`log
      ensures log == old(log) + [Delivery(connected, e)]
    {
      log := log + [Delivery(connected, e)];
    }
  }
}
