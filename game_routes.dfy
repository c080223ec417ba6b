/**
 * The game routes: `/game/create` (a transaction that inserts the game and
 * marks the host as waiting), `/game/join/:gameId` (three ordered checks,
 * then two writes outside any transaction) and `/game/by-player/:playerId`
 * (a read). Each route's database round trips are numbered from 0 for its
 * `Fault`.
 */
module GameRoutes {
  import opened Common
  import opened Store
  import opened Transport
  import opened Http
  import SocketHandlers

  const CreateFailed := Reply(500, Message("Error creating game"))
  const JoinFailed := Reply(500, Message("Error joining game"))
  const FetchFailed := Reply(500, Message("Error fetching game"))

  /**
   * `/game/create`: round trips 0 (connect), 1 (`BEGIN`), 2 (`INSERT`),
   * 3 (host status) and 4 (`COMMIT`). Any failure answers 500 and the
   * rollback leaves both tables as they were; after the commit the lobby is
   * broadcast and the new id returned.
   */
  method CreateGame(db: Database, io: Io, user: Id, fault: Fault) returns (reply: Reply)
    requires db.Valid() && db.open.None?
    modifies db, io`log
    ensures db.Valid() && db.open.None?
    ensures reply.status == 200 <==> Survives(fault, 5)
    ensures reply.status == 200 ==>
      reply.body.GameCreated? &&
      FindGame(old(db.games), reply.body.gameId).None? &&
      db.games == old(db.games) + [GameRow(reply.body.gameId, user, None, "waiting", false, false)] &&
      db.players == SetPlayer(old(db.players), user, NewStatus(Some("waiting"))) &&
      io.log == old(io.log) + [Delivery(io.connected, LobbyUpdate(LobbyOf(db.players, None)))]
    ensures reply.status != 200 ==>
      reply == CreateFailed && db.games == old(db.games) && db.players == old(db.players) && io.log == old(io.log)
    ensures Extends(old(db.games), db.games)
    ensures WellFormed(old(db.games)) ==> WellFormed(db.games)
  {
    if Fails(fault, 0) {
      return CreateFailed;
    }
    var created := Transact(db, user, fault);
    if created.None? {
      return CreateFailed;
    }
    SocketHandlers.UpdateLobby(db, io);
    reply := Reply(200, GameCreated(created.value));
  }

  /**
   * The transaction of `/game/create`, round trips 1 to 4: the game row and
   * the host's status are written and committed, or, on any failure, rolled
   * back to the tables as they were.
   */
  method Transact(db: Database, user: Id, fault: Fault) returns (created: Option<Id>)
    requires db.Valid() && db.open.None? && !Fails(fault, 0)
    modifies db`players, db`games, db`nextGameId, db`open
    ensures db.Valid() && db.open.None?
    ensures created.Some? <==> Survives(fault, 5)
    ensures created.Some? ==>
      FindGame(old(db.games), created.value).None? &&
      db.games == old(db.games) + [GameRow(created.value, user, None, "waiting", false, false)] &&
      db.players == SetPlayer(old(db.players), user, NewStatus(Some("waiting")))
    ensures created.None? ==> db.games == old(db.games) && db.players == old(db.players)
    ensures Extends(old(db.games), db.games)
    ensures WellFormed(old(db.games)) ==> WellFormed(db.games)
  {
    if !Fails(fault, 1) {
      db.Begin();
      assert db.open == Some(Snapshot(old(db.players), old(db.games)));
      if !Fails(fault, 2) {
        var gameId := db.InsertGame(user, "waiting");
        InsertKeepsPlayers(old(db.games), GameRow(gameId, user, None, "waiting", false, false));
        if !Fails(fault, 3) {
          db.UpdatePlayer(user, NewStatus(Some("waiting")));
          if !Fails(fault, 4) {
            db.Commit();
            return Some(gameId);
          }
        }
      }
    }
    // the `catch`: roll back whatever the transaction wrote
    db.Rollback();
    created := None;
  }

  /** The three checks of `/game/join`, in their order, on the row `SELECT * ... WHERE id = ?` returns. */
  function JoinRejection(games: seq<GameRow>, gameId: Id, user: Id): Option<Reply> {
    match FindGame(games, gameId)
    case None => Some(Reply(404, Message("Game not found")))
    case Some(g) =>
      if g.status != "waiting" then Some(Reply(400, Message("Game is not available to join")))
      else if g.player1 == user then Some(Reply(400, Message("Cannot join your own game")))
      else None
  }

  /**
   * `/game/join/:gameId`: round trips 0 (connect), 1 (lookup), 2 (game
   * row) and 3 (joiner status). A rejection or a failure before round trip
   * 3 writes nothing; a failure at 3 leaves the game joined but the
   * joiner's status unchanged, since there is no transaction. On success
   * the lobby is broadcast and the room hears `playerJoined`.
   */
  method JoinGame(db: Database, io: Io, gameId: Id, user: Id, fault: Fault) returns (reply: Reply)
    requires db.Valid()
    modifies db`games, db`players, io`log
    ensures db.Valid()
    ensures !Survives(fault, 2) ==> reply == JoinFailed
    ensures Survives(fault, 2) && JoinRejection(old(db.games), gameId, user).Some? ==>
      reply == JoinRejection(old(db.games), gameId, user).value
    ensures Survives(fault, 2) && JoinRejection(old(db.games), gameId, user).None? ==>
      reply == (if Survives(fault, 4) then Reply(200, GameJoined(gameId)) else JoinFailed)
    ensures reply.status != 200 && !(Survives(fault, 3) && JoinRejection(old(db.games), gameId, user).None?) ==>
      db.games == old(db.games) && db.players == old(db.players) && io.log == old(io.log)
    ensures Fails(fault, 3) && JoinRejection(old(db.games), gameId, user).None? ==>
      db.games == SetGame(old(db.games), gameId, JoinedBy(user)) && db.players == old(db.players) && io.log == old(io.log)
    ensures reply.status == 200 ==>
      db.games == SetGame(old(db.games), gameId, JoinedBy(user)) &&
      db.players == SetPlayer(old(db.players), user, NewStatus(Some("waiting")))
    ensures reply.status == 200 ==>
      io.log == old(io.log) + [Delivery(io.connected, LobbyUpdate(LobbyOf(db.players, None))),
                               Delivery(io.Members(gameId), PlayerJoined(gameId, user))]
    ensures WellFormed(old(db.games)) ==> Extends(old(db.games), db.games) && WellFormed(db.games)
  {
    if !Survives(fault, 2) {
      return JoinFailed;
    }
    var rejection := JoinRejection(db.games, gameId, user);
    if rejection.Some? {
      return rejection.value;
    }
    if Fails(fault, 2) {
      return JoinFailed;
    }
    WriteJoin(db, gameId, user);
    if Fails(fault, 3) {
      return JoinFailed;
    }
    db.UpdatePlayer(user, NewStatus(Some("waiting")));
    AnnounceJoin(db, io, gameId, user);
    reply := Reply(200, GameJoined(gameId));
  }

  /** The join update: the game records its second player and becomes 'ready'. */
  method WriteJoin(db: Database, gameId: Id, user: Id)
    requires db.Valid()
    requires JoinRejection(db.games, gameId, user).None?
    modifies db`games
    ensures db.Valid()
    ensures db.games == SetGame(old(db.games), gameId, JoinedBy(user))
    ensures WellFormed(old(db.games)) ==> Extends(old(db.games), db.games) && WellFormed(db.games)
  {
    if WellFormed(db.games) {
      JoinKeepsPlayers(db.games, gameId, user);
    }
    db.UpdateGame(gameId, JoinedBy(user));
  }

  /** After a join: the lobby to every connected socket, then `playerJoined` to the game's room. */
  method AnnounceJoin(db: Database, io: Io, gameId: Id, user: Id)
    modifies io`log
    ensures io.log == old(io.log) + [Delivery(io.connected, LobbyUpdate(LobbyOf(db.players, None))),
                                     Delivery(io.Members(gameId), PlayerJoined(gameId, user))]
  {
    SocketHandlers.UpdateLobby(db, io);
    io.ToRoom(gameId, PlayerJoined(gameId, user));
  }

  /**
   * `/game/by-player/:playerId`: round trips 0 (connect), 1 (lookup) and
   * 2 (close). The answer is the first game the player hosts whose status
   * is 'waiting', or 404.
   */
  method GameByPlayer(db: Database, playerId: Id, fault: Fault) returns (reply: Reply)
    ensures !Survives(fault, 3) ==> reply == FetchFailed
    ensures Survives(fault, 3) ==>
      (reply.status == 200 <==> exists g :: g in db.games && WaitingOf(g, playerId))
    ensures reply.status == 200 ==>
      reply.body.WaitingGame? &&
      exists i :: 0 <= i < |db.games| && db.games[i].id == reply.body.gameId && WaitingOf(db.games[i], playerId) &&
        forall j :: 0 <= j < i ==> !WaitingOf(db.games[j], playerId)
    ensures Survives(fault, 3) && reply.status != 200 ==> reply == Reply(404, Message("No waiting game found for this player"))
  {
    if !Survives(fault, 3) {
      return FetchFailed;
    }
    var k := FirstWaiting(db.games, playerId);
    if k.None? {
      return Reply(404, Message("No waiting game found for this player"));
    }
    assert db.games[k.value] in db.games;
    reply := Reply(200, WaitingGame(db.games[k.value].id));
  }

  /** A game accepts one joiner: once joined, every later join is refused as not available. */
  lemma {:induction false} SecondJoinRefused(games: seq<GameRow>, gameId: Id, first: Id, second: Id)
    requires FindGame(games, gameId).Some?
    ensures JoinRejection(SetGame(games, gameId, JoinedBy(first)), gameId, second) ==
      Some(Reply(400, Message("Game is not available to join")))
  {
    FindAfterSet(games, gameId, JoinedBy(first), gameId);
  }

  /** A joined game is no longer found by the host's by-player lookup. */
  lemma JoinedGameNotWaiting(games: seq<GameRow>, gameId: Id, joiner: Id, host: Id)
    ensures var r := SetGame(games, gameId, JoinedBy(joiner));
      FirstWaiting(r, host).Some? ==> r[FirstWaiting(r, host).value].id != gameId
  {
  }

  /**
   * A freshly created game is found by its host's by-player lookup: it is
   * the one found when the host had no waiting game before, and an older
   * waiting game of the host's still comes first, in the model's id order,
   * otherwise.
   */
  lemma {:induction false} CreatedGameWaiting(games: seq<GameRow>, gameId: Id, host: Id)
    ensures FirstWaiting(games + [GameRow(gameId, host, None, "waiting", false, false)], host).Some?
    ensures FirstWaiting(games, host).None? ==>
      FirstWaiting(games + [GameRow(gameId, host, None, "waiting", false, false)], host) == Some(|games|)
    ensures FirstWaiting(games, host).Some? ==>
      FirstWaiting(games + [GameRow(gameId, host, None, "waiting", false, false)], host) == FirstWaiting(games, host)
  {
    var r := games + [GameRow(gameId, host, None, "waiting", false, false)];
    assert r[|games|] in r;
    if FirstWaiting(games, host).Some? {
      var k := FirstWaiting(games, host).value;
      assert r[k] == games[k];
    }
  }
}
