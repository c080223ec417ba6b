/**
 * The two durable tables of the backend, `players` and `games`, with the SQL
 * statements that the HTTP routes and the socket handlers issue written as
 * functions on rows. A table is a sequence of rows in insertion order; a
 * `SELECT` that the code reads with `results[0]` takes the first match.
 */
module Store {
  import opened Common

  type Id = int

  /** A row of `players`; a missing `status` is SQL NULL. */
  datatype PlayerRow = PlayerRow(id: Id, email: string, username: string,
                                 status: Option<string>, wins: int, losses: int)

  /** A row of `games`; a missing `player2` is SQL NULL. */
  datatype GameRow = GameRow(id: Id, player1: Id, player2: Option<Id>,
                             status: string, ready1: bool, ready2: bool)

  /** The three columns the lobby queries select. */
  datatype LobbyEntry = LobbyEntry(id: Id, username: string, status: Option<string>)

  /**
   * Where a handler's database round trips break: `FailsAt(k)` makes the
   * k-th round trip of that handler throw (0 is opening the connection).
   */
  datatype Fault = Healthy | FailsAt(step: nat)

  predicate Fails(f: Fault, k: nat) { f == FailsAt(k) }

  /** Whether a handler whose round trips are numbered 0..n-1 gets through all of them. */
  predicate Survives(f: Fault, n: nat) { f.Healthy? || f.step >= n }

  /** The statuses the status endpoint accepts. */
  const Statuses: seq<string> := ["idle", "looking", "waiting", "playing"]

  // ------------------------------------------------------------------ lobby

  /** `status != 'playing'`: a NULL status compares as unknown, so the row is not selected. */
  predicate NotPlaying(p: PlayerRow) { p.status.Some? && p.status.value != "playing" }

  /** The lobby condition, with the optional `AND id != ?` of the per-viewer queries. */
  predicate InLobby(p: PlayerRow, exclude: Option<Id>) {
    NotPlaying(p) && (exclude.None? || p.id != exclude.value)
  }

  function Entry(p: PlayerRow): LobbyEntry { LobbyEntry(p.id, p.username, p.status) }

  /** `SELECT id, username, status FROM players WHERE status != 'playing' [AND id != ?]`, in table order. */
  function LobbyOf(players: seq<PlayerRow>, exclude: Option<Id>): seq<LobbyEntry> {
    if |players| == 0 then []
    else
      var rest := LobbyOf(players[1..], exclude);
      if InLobby(players[0], exclude) then [Entry(players[0])] + rest else rest
  }

  /** The lobby lists exactly the rows the query selects, no more rows than the table has. */
  lemma {:induction false} LobbyExact(players: seq<PlayerRow>, exclude: Option<Id>)
    ensures |LobbyOf(players, exclude)| <= |players|
    ensures forall p :: p in players && InLobby(p, exclude) ==> Entry(p) in LobbyOf(players, exclude)
    ensures forall e :: e in LobbyOf(players, exclude) ==>
      exists p :: p in players && InLobby(p, exclude) && e == Entry(p)
  {
    if |players| > 0 {
      LobbyExact(players[1..], exclude);
      assert forall p :: p in players ==> p == players[0] || p in players[1..];
    }
  }

  /** The viewer never appears in their own lobby list. */
  lemma LobbyExcludesViewer(players: seq<PlayerRow>, viewer: Id)
    ensures forall e :: e in LobbyOf(players, Some(viewer)) ==> e.id != viewer
    ensures forall e :: e in LobbyOf(players, Some(viewer)) ==> e.status.Some? && e.status.value != "playing"
  {
    LobbyExact(players, Some(viewer));
    forall e | e in LobbyOf(players, Some(viewer))
      ensures e.id != viewer && e.status.Some? && e.status.value != "playing"
    {
      var p :| p in players && InLobby(p, Some(viewer)) && e == Entry(p);
    }
  }

  // ---------------------------------------------------------------- lookups

  /**
   * `SELECT * FROM players WHERE email = ?` read as `results[0]`: the index
   * of the first match in id order. The query has no ORDER BY, so this order
   * is the model's choice; SQL itself promises none.
   */
  function FirstByEmail(players: seq<PlayerRow>, email: string): (r: Option<nat>)
    ensures r.Some? ==> r.value < |players| && players[r.value].email == email
    ensures r.Some? ==> forall j :: 0 <= j < r.value ==> players[j].email != email
    ensures r.None? ==> forall p :: p in players ==> p.email != email
  {
    if |players| == 0 then None
    else if players[0].email == email then Some(0)
    else match FirstByEmail(players[1..], email)
      case None => None
      case Some(k) => Some(k + 1)
  }

  /** `SELECT ... FROM games WHERE id = ?` read as `results[0]`. */
  function FindGame(games: seq<GameRow>, id: Id): (r: Option<GameRow>)
    ensures r.Some? ==> r.value in games && r.value.id == id
    ensures r.None? <==> forall g :: g in games ==> g.id != id
  {
    if |games| == 0 then None
    else if games[0].id == id then Some(games[0])
    else FindGame(games[1..], id)
  }

  /** The `WHERE player1_id = ? AND status = "waiting"` condition of the by-player lookup. */
  predicate WaitingOf(g: GameRow, player: Id) { g.player1 == player && g.status == "waiting" }

  /**
   * The index of the first game, in id order, that the player hosts and that
   * still waits for an opponent. The query has no ORDER BY; id order is the
   * model's choice.
   */
  function FirstWaiting(games: seq<GameRow>, player: Id): (r: Option<nat>)
    ensures r.Some? ==> r.value < |games| && WaitingOf(games[r.value], player)
    ensures r.Some? ==> forall j :: 0 <= j < r.value ==> !WaitingOf(games[j], player)
    ensures r.None? ==> forall g :: g in games ==> !WaitingOf(g, player)
  {
    if |games| == 0 then None
    else if WaitingOf(games[0], player) then Some(0)
    else match FirstWaiting(games[1..], player)
      case None => None
      case Some(k) => Some(k + 1)
  }

  // --------------------------------------------------------- games updates

  /** The two `UPDATE games ... WHERE id = ?` statements. */
  datatype GameEdit = JoinedBy(joiner: Id) | ReadyFrom(caller: Id)

  /**
   * The new value of a matched row. A join writes `player2_id` and status
   * 'ready'; the ready statement is the `CASE` that raises `player1_ready`
   * when the caller is `player1_id` and `player2_ready` when the caller is
   * `player2_id` (a NULL `player2_id` never matches) and keeps the flag
   * otherwise.
   */
  function Edit(g: GameRow, e: GameEdit): GameRow {
    match e
    case JoinedBy(u) => g.(player2 := Some(u), status := "ready")
    case ReadyFrom(c) =>
      g.(ready1 := if g.player1 == c then true else g.ready1,
         ready2 := if g.player2 == Some(c) then true else g.ready2)
  }

  /** The ready update sets each flag exactly when the caller holds that slot or it was set, and touches nothing else. */
  lemma ReadyFlags(g: GameRow, caller: Id)
    ensures Edit(g, ReadyFrom(caller)).ready1 <==> g.ready1 || g.player1 == caller
    ensures Edit(g, ReadyFrom(caller)).ready2 <==> g.ready2 || g.player2 == Some(caller)
    ensures Edit(g, ReadyFrom(caller)).(ready1 := g.ready1, ready2 := g.ready2) == g
  {
  }

  /** Applying the ready update twice equals applying it once. */
  lemma ReadyIdempotent(g: GameRow, caller: Id)
    ensures Edit(Edit(g, ReadyFrom(caller)), ReadyFrom(caller)) == Edit(g, ReadyFrom(caller))
  {
  }

  /** `UPDATE games SET ... WHERE id = ?`: every row with that id is edited, every other row is kept. */
  function SetGame(games: seq<GameRow>, id: Id, e: GameEdit): (r: seq<GameRow>)
    ensures |r| == |games|
    ensures forall i :: 0 <= i < |games| && games[i].id == id ==> r[i] == Edit(games[i], e)
    ensures forall i :: 0 <= i < |games| && games[i].id != id ==> r[i] == games[i]
  {
    if |games| == 0 then []
    else [if games[0].id == id then Edit(games[0], e) else games[0]] + SetGame(games[1..], id, e)
  }

  /** What the `WHERE id = ?` lookup sees after an update: the edited row for that id, the old answer for any other. */
  lemma {:induction false} FindAfterSet(games: seq<GameRow>, id: Id, e: GameEdit, gid: Id)
    ensures FindGame(SetGame(games, id, e), gid) ==
      if gid == id && FindGame(games, gid).Some? then Some(Edit(FindGame(games, gid).value, e))
      else FindGame(games, gid)
  {
    if |games| > 0 {
      var r := SetGame(games, id, e);
      assert r[1..] == SetGame(games[1..], id, e);
      if games[0].id != gid {
        FindAfterSet(games[1..], id, e, gid);
      }
    }
  }

  /** What the lookup sees after an `INSERT` of a row with a fresh id. */
  lemma {:induction false} FindAfterInsert(games: seq<GameRow>, row: GameRow, gid: Id)
    ensures FindGame(games + [row], gid) ==
      if FindGame(games, gid).Some? then FindGame(games, gid)
      else if row.id == gid then Some(row) else None
  {
    if |games| > 0 {
      assert (games + [row])[1..] == games[1..] + [row];
      if games[0].id != gid {
        FindAfterInsert(games[1..], row, gid);
      }
    }
  }

  /**
   * How the games table may change over time: a game found by id is found
   * again, keeps its host, and keeps a recorded second player.
   */
  ghost predicate Extends(g0: seq<GameRow>, g1: seq<GameRow>) {
    forall gid {:trigger FindGame(g0, gid)} :: FindGame(g0, gid).Some? ==>
      FindGame(g1, gid).Some? &&
      FindGame(g1, gid).value.player1 == FindGame(g0, gid).value.player1 &&
      (FindGame(g0, gid).value.player2.Some? ==> FindGame(g1, gid).value.player2 == FindGame(g0, gid).value.player2)
  }

  /** A game that still waits for an opponent has no second player recorded. */
  ghost predicate WellFormed(games: seq<GameRow>) {
    forall gid {:trigger FindGame(games, gid)} :: FindGame(games, gid).Some? && FindGame(games, gid).value.status == "waiting" ==>
      FindGame(games, gid).value.player2.None?
  }

  /** The ready update never changes who plays a game or its status. */
  lemma ReadyKeepsPlayers(games: seq<GameRow>, id: Id, caller: Id)
    ensures Extends(games, SetGame(games, id, ReadyFrom(caller)))
    ensures WellFormed(games) ==> WellFormed(SetGame(games, id, ReadyFrom(caller)))
  {
    forall gid ensures FindGame(SetGame(games, id, ReadyFrom(caller)), gid) ==
      if gid == id && FindGame(games, gid).Some? then Some(Edit(FindGame(games, gid).value, ReadyFrom(caller)))
      else FindGame(games, gid)
    {
      FindAfterSet(games, id, ReadyFrom(caller), gid);
    }
  }

  /** Recording a joiner on a waiting game keeps every host and every earlier second player. */
  lemma JoinKeepsPlayers(games: seq<GameRow>, id: Id, joiner: Id)
    requires WellFormed(games)
    requires FindGame(games, id).Some? && FindGame(games, id).value.status == "waiting"
    ensures Extends(games, SetGame(games, id, JoinedBy(joiner)))
    ensures WellFormed(SetGame(games, id, JoinedBy(joiner)))
  {
    forall gid ensures FindGame(SetGame(games, id, JoinedBy(joiner)), gid) ==
      if gid == id && FindGame(games, gid).Some? then Some(Edit(FindGame(games, gid).value, JoinedBy(joiner)))
      else FindGame(games, gid)
    {
      FindAfterSet(games, id, JoinedBy(joiner), gid);
    }
  }

  /** Inserting a row under a fresh id keeps every earlier game as it was. */
  lemma InsertKeepsPlayers(games: seq<GameRow>, row: GameRow)
    requires FindGame(games, row.id).None?
    ensures Extends(games, games + [row])
    ensures WellFormed(games) && (row.status == "waiting" ==> row.player2.None?) ==> WellFormed(games + [row])
  {
    forall gid ensures FindGame(games + [row], gid) ==
      if FindGame(games, gid).Some? then FindGame(games, gid)
      else if row.id == gid then Some(row) else None
    {
      FindAfterInsert(games, row, gid);
    }
  }

  // ------------------------------------------------------- players updates

  /** The `UPDATE players ... WHERE id = ?` statements. */
  datatype PlayerEdit = NewStatus(status: Option<string>) | AddWin | AddLoss

  function EditPlayer(p: PlayerRow, e: PlayerEdit): PlayerRow {
    match e
    case NewStatus(s) => p.(status := s)
    case AddWin => p.(wins := p.wins + 1)
    case AddLoss => p.(losses := p.losses + 1)
  }

  /** `UPDATE players SET ... WHERE id = ?`: the rows with that id change, no other row does. */
  function SetPlayer(players: seq<PlayerRow>, id: Id, e: PlayerEdit): (r: seq<PlayerRow>)
    ensures |r| == |players|
    ensures forall i :: 0 <= i < |players| && players[i].id == id ==> r[i] == EditPlayer(players[i], e)
    ensures forall i :: 0 <= i < |players| && players[i].id != id ==> r[i] == players[i]
  {
    if |players| == 0 then []
    else [if players[0].id == id then EditPlayer(players[0], e) else players[0]] + SetPlayer(players[1..], id, e)
  }

  /**
   * A status change moves the player into or out of everyone else's lobby:
   * 'playing' removes every row with that id, any other status shows each of
   * them with the new status; the lobby entries of other players do not change.
   */
  lemma StatusChangesLobby(players: seq<PlayerRow>, id: Id, s: string, viewer: Option<Id>)
    requires viewer != Some(id)
    ensures s == "playing" ==> forall e :: e in LobbyOf(SetPlayer(players, id, NewStatus(Some(s))), viewer) ==> e.id != id
    ensures s != "playing" ==> forall p :: p in players && p.id == id ==>
      LobbyEntry(id, p.username, Some(s)) in LobbyOf(SetPlayer(players, id, NewStatus(Some(s))), viewer)
    ensures forall p :: p in players && p.id != id ==>
      (Entry(p) in LobbyOf(SetPlayer(players, id, NewStatus(Some(s))), viewer) <==> InLobby(p, viewer))
  {
    var r := SetPlayer(players, id, NewStatus(Some(s)));
    var lobby := LobbyOf(r, viewer);
    LobbyExact(r, viewer);
    if s == "playing" {
      forall e | e in lobby ensures e.id != id {
        var q :| q in r && InLobby(q, viewer) && e == Entry(q);
        var i :| 0 <= i < |r| && r[i] == q;
      }
    } else {
      forall p | p in players && p.id == id
        ensures LobbyEntry(id, p.username, Some(s)) in lobby
      {
        var i :| 0 <= i < |players| && players[i] == p;
        assert r[i] in r && InLobby(r[i], viewer);
      }
    }
    forall p | p in players && p.id != id
      ensures Entry(p) in lobby <==> InLobby(p, viewer)
    {
      var i :| 0 <= i < |players| && players[i] == p;
      assert r[i] == p && p in r;
      if Entry(p) in lobby {
        var q :| q in r && InLobby(q, viewer) && Entry(p) == Entry(q);
        assert q.status == p.status;
      }
    }
  }

  // -------------------------------------------------------------- database

  /** The tables at `BEGIN`, restored by `ROLLBACK`. */
  datatype Snapshot = Snapshot(players: seq<PlayerRow>, games: seq<GameRow>)

  /**
   * The database: both tables, their auto-increment counters, the default a
   * new player's `status` column takes, and the snapshot of an open
   * transaction.
   */
  class Database {
    var players: seq<PlayerRow>
    var games: seq<GameRow>
    var nextPlayerId: Id
    var nextGameId: Id
    var open: Option<Snapshot>
    const statusDefault: Option<string>

    /**
     * Auto-increment: every stored id, and every id in the snapshot of an
     * open transaction, is below the next one handed out.
     */
    ghost predicate Valid()
      reads this
    {
      (forall p :: p in players ==> p.id < nextPlayerId) &&
      (forall g :: g in games ==> g.id < nextGameId) &&
      (open.Some? ==> (forall p :: p in open.value.players ==> p.id < nextPlayerId) &&
                      (forall g :: g in open.value.games ==> g.id < nextGameId))
    }

    constructor (statusDefault: Option<string>)
      ensures Valid() && players == [] && games == [] && open.None?
      ensures this.statusDefault == statusDefault
    {
      players := [];
      games := [];
      nextPlayerId := 1;
      nextGameId := 1;
      open := None;
      this.statusDefault := statusDefault;
    }

    /** `INSERT INTO players (email, username)`: the other columns take their defaults. */
    method InsertPlayer(email: string, username: string) returns (id: Id)
      requires Valid()
      modifies this`players, this`nextPlayerId
      ensures Valid()
      ensures id == old(nextPlayerId) && nextPlayerId == id + 1
      ensures players == old(players) + [PlayerRow(id, email, username, statusDefault, 0, 0)]
      ensures forall p :: p in old(players) ==> p.id != id
    {
      id := nextPlayerId;
      players := players + [PlayerRow(id, email, username, statusDefault, 0, 0)];
      nextPlayerId := id + 1;
    }

    /** `INSERT INTO games (player1_id, status)`: no second player, both ready flags clear. */
    method InsertGame(player1: Id, status: string) returns (id: Id)
      requires Valid()
      modifies this`games, this`nextGameId
      ensures Valid()
      ensures id == old(nextGameId) && nextGameId == id + 1
      ensures games == old(games) + [GameRow(id, player1, None, status, false, false)]
      ensures FindGame(old(games), id).None?
    {
      id := nextGameId;
      games := games + [GameRow(id, player1, None, status, false, false)];
      nextGameId := id + 1;
    }

    method UpdateGame(id: Id, e: GameEdit)
      requires Valid()
      modifies this`games
      ensures Valid()
      ensures games == SetGame(old(games), id, e)
    {
      games := SetGame(games, id, e);
      forall g | g in games ensures g.id < nextGameId {
        var i :| 0 <= i < |games| && games[i] == g;
        assert old(games)[i] in old(games);
      }
    }

    method UpdatePlayer(id: Id, e: PlayerEdit)
      requires Valid()
      modifies this`players
      ensures Valid()
      ensures players == SetPlayer(old(players), id, e)
    {
      players := SetPlayer(players, id, e);
      forall p | p in players ensures p.id < nextPlayerId {
        var i :| 0 <= i < |players| && players[i] == p;
        assert old(players)[i] in old(players);
      }
    }

    method Begin()
      requires Valid()
      modifies this`open
      ensures Valid()
      ensures open == Some(Snapshot(players, games))
    {
      open := Some(Snapshot(players, games));
    }

    method Commit()
      requires Valid()
      modifies this`open
      ensures Valid()
      ensures open.None?
    {
      open := None;
    }

    /** `ROLLBACK`: the tables return to the snapshot; the counters are not given back. */
    method Rollback()
      requires Valid()
      modifies this`players, this`games, this`open
      ensures Valid() && open.None?
      ensures old(open).Some? ==> players == old(open).value.players && games == old(open).value.games
      ensures old(open).None? ==> players == old(players) && games == old(games)
    {
      if open.Some? {
        players := open.value.players;
        games := open.value.games;
      }
      open := None;
    }
  }
}
