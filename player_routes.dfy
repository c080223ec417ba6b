/**
 * The player routes: `/register` (one insert), `/login` (the lookup by
 * email and the lobby it returns), `/lobby` (the per-viewer lobby) and
 * `/player/status` (a checked status write). Each route's database round
 * trips are numbered from 0 for its `Fault`.
 */
module PlayerRoutes {
  import opened Common
  import opened Store
  import opened Http

  const RegisterFailed := Reply(500, Message("Error registering player"))
  const LoginFailed := Reply(500, Message("Error logging in"))
  const LobbyFailed := Reply(500, Message("Error fetching lobby data"))
  const StatusFailed := Reply(500, Message("Error updating status"))

  /**
   * `/register`: round trips 0 (connect), 1 (`INSERT`) and 2 (close). The
   * insert adds exactly one row with the given email and username and the
   * default status; a failure at 2 answers 500 after the row is in.
   */
  method Register(db: Database, email: string, username: string, fault: Fault) returns (reply: Reply)
    requires db.Valid()
    modifies db`players, db`nextPlayerId
    ensures db.Valid()
    ensures !Survives(fault, 2) ==> reply == RegisterFailed && db.players == old(db.players)
    ensures Survives(fault, 2) ==>
      |db.players| == |old(db.players)| + 1 && db.players[..|old(db.players)|] == old(db.players) &&
      var row := db.players[|old(db.players)|];
      row.email == email && row.username == username && row.status == db.statusDefault &&
      row.wins == 0 && row.losses == 0 && (forall p :: p in old(db.players) ==> p.id != row.id)
    ensures Survives(fault, 2) ==>
      reply == if Fails(fault, 2) then RegisterFailed else Reply(200, Message("Player registered successfully"))
  {
    if !Survives(fault, 2) {
      return RegisterFailed;
    }
    var id := db.InsertPlayer(email, username);
    assert db.players[..|old(db.players)|] == old(db.players);
    if Fails(fault, 2) {
      return RegisterFailed;
    }
    reply := Reply(200, Message("Player registered successfully"));
  }

  /**
   * `/login`: round trips 0 (connect), 1 (lookup by email) and, for a known
   * email, 2 (the lobby). An unknown email answers 401 with no user and no
   * lobby; a known one answers the first matching row and the lobby of
   * everyone else who is not playing.
   */
  method Login(db: Database, email: string, fault: Fault) returns (reply: Reply)
    ensures !Survives(fault, 2) ==> reply == LoginFailed
    ensures Survives(fault, 2) && FirstByEmail(db.players, email).None? ==> reply == Reply(401, Message("Invalid credentials"))
    ensures Survives(fault, 2) && FirstByEmail(db.players, email).Some? ==>
      var user := db.players[FirstByEmail(db.players, email).value];
      reply == if Fails(fault, 2) then LoginFailed
               else Reply(200, LoginOk(user.id, user.username, user.email, LobbyOf(db.players, Some(user.id))))
    ensures reply.status == 200 ==> (reply.body.email == email &&
      forall e :: e in reply.body.lobbyState ==> e.id != reply.body.id)
  {
    if !Survives(fault, 2) {
      return LoginFailed;
    }
    var k := FirstByEmail(db.players, email);
    if k.None? {
      return Reply(401, Message("Invalid credentials"));
    }
    var user := db.players[k.value];
    if Fails(fault, 2) {
      return LoginFailed;
    }
    LobbyExcludesViewer(db.players, user.id);
    reply := Reply(200, LoginOk(user.id, user.username, user.email, LobbyOf(db.players, Some(user.id))));
  }

  /**
   * `/lobby`: round trips 0 (connect), 1 (the query) and 2 (close). The list
   * holds exactly the players, other than the viewer, whose status is set
   * and not 'playing'.
   */
  method Lobby(db: Database, viewer: Id, fault: Fault) returns (reply: Reply)
    ensures !Survives(fault, 3) ==> reply == LobbyFailed
    ensures Survives(fault, 3) ==> reply == Reply(200, LobbyList(LobbyOf(db.players, Some(viewer))))
    ensures reply.status == 200 ==>
      (forall e :: e in reply.body.players ==> e.id != viewer && e.status != Some("playing")) &&
      (forall p :: p in db.players && p.id != viewer && NotPlaying(p) ==> Entry(p) in reply.body.players)
  {
    if !Survives(fault, 3) {
      return LobbyFailed;
    }
    LobbyExcludesViewer(db.players, viewer);
    LobbyExact(db.players, Some(viewer));
    reply := Reply(200, LobbyList(LobbyOf(db.players, Some(viewer))));
  }

  /**
   * `/player/status`: a status outside the four known ones answers 400
   * before any round trip. Then round trips 0 (connect), 1 (the write),
   * 2 (a read of all players whose result is unused) and 3 (close); only
   * the caller's rows change, and a failure at 2 or 3 answers 500 after the
   * write.
   */
  method UpdatePlayerStatus(db: Database, user: Id, status: string, fault: Fault) returns (reply: Reply)
    requires db.Valid()
    modifies db`players
    ensures db.Valid()
    ensures status !in Statuses ==> reply == Reply(400, Message("Invalid status")) && db.players == old(db.players)
    ensures status in Statuses && !Survives(fault, 2) ==> reply == StatusFailed && db.players == old(db.players)
    ensures status in Statuses && Survives(fault, 2) ==>
      db.players == SetPlayer(old(db.players), user, NewStatus(Some(status))) &&
      reply == if Survives(fault, 4) then Reply(200, Message("Status updated successfully")) else StatusFailed
  {
    if status !in Statuses {
      return Reply(400, Message("Invalid status"));
    }
    if !Survives(fault, 2) {
      return StatusFailed;
    }
    db.UpdatePlayer(user, NewStatus(Some(status)));
    if !Survives(fault, 4) {
      return StatusFailed;
    }
    reply := Reply(200, Message("Status updated successfully"));
  }
}
