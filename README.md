# Real-time multiplayer Tetris — a Dafny model

This project models three parts of a two-player Tetris game:

- **The client board engine** (`www/tetris.js`). This is the 20 × 12 arena, the seven pieces, rotation with its wall-kick search, collision, merging, the line sweep with its doubling score, and the moves, drops and respawns of the falling piece. The matrix operations live in module `TetrisMatrix`. Specification functions (`Rotated`, `Collides`, `Merged`, `Swept`) are stated on values. The source's loops are methods proved equal to those functions. The `Tetris` object is the class `TetrisBoard.Tetris`: it holds the arena, the piece, the position, the score and the messages the board has sent on its socket.
- **The server's realtime coordinator** (`node-backend/socketHandlers.js`). This is the in-memory `games` map (game id → player id → socket and slot), the handlers that change it (`joinGameRoom`, `disconnect`), the readiness update and its delayed `gameStart`, the `playerMove` and `updateScore` relays, `gameOver`, `updateStatus` and the lobby broadcast. It is module `SocketHandlers`, class `Coordinator`. The `games` map is kept as a sequence of rooms in insertion order, because `gameOver` picks its winner by insertion order.
- **The HTTP routes** (`node-backend/gameRoutes.js`, `node-backend/playerRoutes.js`). These are modules `GameRoutes` and `PlayerRoutes`. They act on the `players` and `games` tables of module `Store`. Each table is a sequence of rows in insertion (id) order, which is also the order in which the model's SELECTs return rows, with auto-increment counters and a transaction snapshot for `BEGIN`/`ROLLBACK`. The SQL statements become functions on rows (`LobbyOf`, `FindGame`, `SetGame`, `SetPlayer`, …).

Socket.IO is reduced to module `Transport`: the connected sockets, the members of each `game:<id>` room, and a log of every emit together with the set of sockets it reaches. Each database round trip of a handler can fail, except those of the lobby broadcast (see "## Left out"). A `Fault` parameter names the round trip that throws (`FailsAt(k)`), or says that none does (`Healthy`). Each handler runs as one atomic step.

Notes on behaviour the model keeps as the code has it:

- `arenaSweep` never examines row 0 unless a lower row has been cleared first. An arena whose only full row is the top one is left unchanged.
- `playerRotate` never tests the position its last kick moves to. A width-3 or width-4 piece is tried at x, x+1, x−1 and x+2. An `O` piece is tried at x and x+1.
- `playerDrop` respawns the piece *before* the sweep. The sweep can then shift blocks under the new piece.
- In `playerReset`, a blocked spawn zeroes the arena. The retried piece therefore always fits, and the game-over check after it never fires (`SpawnFits`).
- `playerReady` answers slot 2 to any caller that is not the host.
- The client's `gameOver` message carries `this.playerId`, which is never set. The model's sender is an `Option`. The stats update rejects a missing id, so a missing winner writes nothing, and a missing loser writes only the winner's win.

Coordinator behaviour the model keeps as the code has it:

- Every `playerReady` call that reads both flags set schedules one more `gameStart`. Nothing deduplicates it (`pendingStarts` grows by one per call). A scheduled start cannot be cancelled. Once its room is gone it fires to no one.
- `gameOver` reports no error when it finds no opponent. It picks the first bound player, in insertion order, other than the sender, or no one.
- `disconnect` writes nothing to the tables. The departed player's status is not reset.
- `opponentJoined` goes to the whole room, the joiner included.
- A room holds at most two bindings. No explicit check enforces this: it holds because every binding is backed by the game record's two slots (`RoomAtMostTwo`).

## Model

| member | source | states |
|---|---|---|
| `TetrisMatrix.CreateMatrix` | www/tetris.js:44-50 | the result is a w-column, h-row grid whose cells are all 0 |
| `TetrisMatrix.CreateEmptyMatrix` | www/tetris.js:353-355 | the result is a w-column, h-row grid of zeros |
| `TetrisMatrix.CreateEmptyArena` | www/tetris.js:349-351 | the result is the 20-row, 12-column zero arena |
| `TetrisMatrix.CreatePiece` | www/tetris.js:52-96 | every piece is a square n×n matrix with 2 ≤ n ≤ 4 |
| `TetrisMatrix.PieceCells` | www/tetris.js:52-96 | every piece has exactly four non-zero cells, all equal to its colour code, which lies in 1..7 |
| `TetrisMatrix.RotatedAt` | www/tetris.js:164-182 | rotation keeps the size n and is a quarter turn: cell (y, x) comes from (n−1−x, y) when dir > 0 and from (x, n−1−y) otherwise |
| `TetrisMatrix.RotateUndo` | www/tetris.js:164-182 | for dir ≠ 0, rotating by dir and then by −dir restores the matrix |
| `TetrisMatrix.Transpose` | www/tetris.js:165-175 | the nested swap loops transpose the square matrix and keep its multiset of cells |
| `TetrisMatrix.ReverseEachRow` | www/tetris.js:177-178 | every row is reversed in place, and the multiset of cells is kept |
| `TetrisMatrix.Rotate` | www/tetris.js:164-182 | the in-place rotation equals `Rotated(m, dir)`, keeps the square shape and size, and keeps the multiset of cells |
| `TetrisMatrix.ReversedCells` | www/tetris.js:180 | reversing the order of the rows keeps the multiset of cells |
| `TetrisMatrix.Collide` | www/tetris.js:267-280 | the result is true exactly when some non-zero piece cell lands on a missing row, a missing column (in any direction) or a non-zero arena cell |
| `TetrisMatrix.FitsIsInBounds` | www/tetris.js:272-274 | a piece that does not collide lies wholly inside the arena |
| `TetrisMatrix.MergePiece` | www/tetris.js:154-162 | the merge loop writes each non-zero piece cell at pos, which is `Merged(arena, piece, pos)` |
| `TetrisMatrix.MergedElsewhere` | www/tetris.js:154-162 | every arena cell not covered by a non-zero piece cell is unchanged by the merge |
| `TetrisMatrix.MergedBlocksPiece` | www/tetris.js:154-162 | after a merge, the same piece at the same place collides |
| `TetrisMatrix.RowFull` | www/tetris.js:285-289 | the result is true exactly when the row holds no zero |
| `TetrisMatrix.SurvivorsLength` | www/tetris.js:282-298 | the rows kept plus the full rows removed make up the whole arena |
| `TetrisMatrix.SurvivorsRows` | www/tetris.js:282-298 | every kept row comes from the arena and is not full |
| `TetrisMatrix.SweptShape` | www/tetris.js:282-298 | the sweep keeps the height and the width of the grid |
| `TetrisMatrix.SweptNoFullBelowTop` | www/tetris.js:284 | after the sweep, no row other than row 0 is full |
| `TetrisMatrix.SweptIdempotent` | www/tetris.js:282-298 | sweeping a swept arena changes nothing and scores nothing |
| `TetrisMatrix.SweptZeros` | www/tetris.js:282-298 | the empty arena is left alone by the sweep and scores nothing |
| `TetrisMatrix.SpawnFits` | www/tetris.js:205-209 | every piece spawned at y = 0, x = ⌊(12 − n)/2⌋ lies inside the 20 × 12 arena and fits when the arena is empty |
| `TetrisMatrix.KickStepClosed` | www/tetris.js:232 | the kick offset after k kicks is k+1 for even k and −(k+1) for odd k |
| `TetrisMatrix.KickClosed` | www/tetris.js:231-232 | the cumulative kick displacement is 0, +1, −1, +2, −2, … |
| `TetrisMatrix.KicksDistinct` | www/tetris.js:230-238 | the kick search never tests the same x twice |
| `TetrisMatrix.TriesClosed` | www/tetris.js:233 | a width-n piece is tested at n positions when n is even and at n+1 when n is odd |
| `TetrisMatrix.KickAdvance` | www/tetris.js:230-237 | one kick moves x by the current offset, updates the offset, and gives up exactly after `Tries(n)` positions |
| `TetrisBoard.KickOutcomes` | www/tetris.js:230-238 | a first fitting kick is unique and excludes the give-up outcome |
| `TetrisBoard.Tetris.constructor` | www/tetris.js:3-42 | a new board has the zero 20 × 12 arena, the drawn piece at its spawn position, score 0, no ghost piece and nothing sent |
| `TetrisBoard.Tetris.EmitMove` | www/tetris.js:257-265 | one `playerMove` is appended, carrying the current arena, position and piece |
| `TetrisBoard.Tetris.UpdateScore` | www/tetris.js:300-307 | one score message with the current score is appended |
| `TetrisBoard.Tetris.CheckGameOver` | www/tetris.js:369-378 | the result is true iff the piece collides; only then is a `gameOver` message with no player id appended |
| `TetrisBoard.Tetris.ClearArena` | www/tetris.js:213 | every row of the arena is filled with 0 |
| `TetrisBoard.Tetris.Merge` | www/tetris.js:154-162 | the arena becomes `Merged(old arena, piece, pos)` and the board stays valid |
| `TetrisBoard.Tetris.PlayerReset` | www/tetris.js:205-224 | the piece spawns at the top centre; if that spawn collides, the arena is zeroed, the score set to 0 and sent, and the next draw spawned; the result never collides and the game-over flag is unchanged |
| `TetrisBoard.Tetris.Reset` | www/tetris.js:362-367 | the arena is zeroed, the score set to 0 and sent, and the drawn piece spawned without collision |
| `TetrisBoard.Tetris.ArenaSweep` | www/tetris.js:282-298 | the arena becomes `Swept(old arena)`: the k full rows are removed, the others keep their order, and k zero rows go on top; the score grows by 10·(2^k − 1); no row below row 0 is full |
| `TetrisBoard.Tetris.PlayerMove` | www/tetris.js:197-203 | x becomes x+offset unless that collides, when it stays x; y and the piece are unchanged; a non-colliding piece stays non-colliding; one move is sent |
| `TetrisBoard.Tetris.Land` | www/tetris.js:187-191 | a landed piece is merged, a new piece spawned, the arena swept with its points added, and the score sent |
| `TetrisBoard.Tetris.PlayerDrop` | www/tetris.js:184-195 | the piece moves down one row if it fits there, and otherwise lands at its old y; the drop counter ends at 0 and one move is sent |
| `TetrisBoard.Tetris.KickIntoPlace` | www/tetris.js:230-238 | the loop terminates, either at the first tested position that fits or after every tested position collided; y is unchanged |
| `TetrisBoard.Tetris.PlayerRotate` | www/tetris.js:226-240 | the piece ends rotated at its first fitting kick position with one move sent, or, if none fits, with its matrix and x exactly as before and nothing sent |
| `TetrisBoard.Tetris.UpdateArena` | www/tetris.js:335-347 | a received arena replaces the board's arena; a received position and piece together become the ghost piece; anything not received is kept |
| `TetrisBoard.Tetris.UpdateOpponentPiece` | www/tetris.js:325-333 | a received position and piece together become the ghost piece; otherwise it is kept |
| `Store.LobbyExact` | node-backend/playerRoutes.js:76-79 | the lobby lists exactly the rows whose status is set and not 'playing' (and whose id is not the excluded one) |
| `Store.LobbyExcludesViewer` | node-backend/playerRoutes.js:46-49 | the viewer's own lobby never lists the viewer or anyone who is playing |
| `Store.FirstByEmail` | node-backend/playerRoutes.js:37-43 | the result is the first row with that email in the model's id order, or None exactly when no row has it |
| `Store.FindGame` | node-backend/socketHandlers.js:45-56 | the result is a stored game with that id, or None exactly when no game has it |
| `Store.FirstWaiting` | node-backend/gameRoutes.js:102-112 | the result is the first game, in the model's id order, hosted by the player with status 'waiting', or None exactly when there is none |
| `Store.ReadyFlags` | node-backend/socketHandlers.js:86-89 | the ready update sets player1_ready iff the caller is player1_id, and player2_ready iff the caller is player2_id; an unset flag stays unset otherwise; nothing else changes |
| `Store.ReadyIdempotent` | node-backend/socketHandlers.js:86-89 | applying the ready update twice equals applying it once |
| `Store.SetGame` | node-backend/gameRoutes.js:72-75 | an update by id edits exactly the rows with that id and keeps every other row |
| `Store.SetPlayer` | node-backend/playerRoutes.js:96-99 | an update by id changes only the rows with that id; all other rows are unchanged |
| `Store.FindAfterSet` | node-backend/socketHandlers.js:90-95 | reading a game back after an update by id sees the edited row for that id and the old answer for any other id |
| `Store.FindAfterInsert` | node-backend/gameRoutes.js:22-25 | after inserting a row with a fresh id, every earlier lookup answer is kept and the new id finds the new row |
| `Store.ReadyKeepsPlayers` | node-backend/socketHandlers.js:86-89 | the ready update never changes a game's players, and a waiting game still has no second player |
| `Store.JoinKeepsPlayers` | node-backend/gameRoutes.js:72-75 | recording a joiner on a waiting game keeps every host and every earlier second player |
| `Store.InsertKeepsPlayers` | node-backend/gameRoutes.js:22-25 | inserting a new waiting game keeps every earlier game as it was |
| `Store.StatusChangesLobby` | node-backend/playerRoutes.js:96-99 | status 'playing' removes the player from every other viewer's lobby; any other status shows the player with the new status; other players' lobby entries are unchanged |
| `Store.Database.InsertPlayer` | node-backend/playerRoutes.js:21-24 | exactly one row is appended with the given email and username, a fresh id, the default status and zero wins and losses |
| `Store.Database.InsertGame` | node-backend/gameRoutes.js:22-25 | exactly one game is appended under a fresh id, with no second player and both ready flags clear |
| `Store.Database.Rollback` | node-backend/gameRoutes.js:41 | both tables return to the snapshot taken at `BEGIN` |
| `SocketHandlers.RoomIndex` | node-backend/socketHandlers.js:145 | the result is the position of the room with that game id, or None exactly when there is no such room |
| `SocketHandlers.Bind` | node-backend/socketHandlers.js:70 | a bound player's binding is replaced in place; a new player's binding is appended |
| `SocketHandlers.BindKeeps` | node-backend/socketHandlers.js:70 | after binding, keys stay distinct, the new binding is present, and every binding of another player is kept |
| `SocketHandlers.JoinKeeps` | node-backend/socketHandlers.js:67-70 | a join creates the room if absent and keeps every room distinct, non-empty and backed by its game record |
| `SocketHandlers.RoomAtMostTwo` | node-backend/socketHandlers.js:57-70 | a room's keys are a subset of {player1_id, player2_id}, so it holds at most two bindings |
| `SocketHandlers.UnbindKeeps` | node-backend/socketHandlers.js:27-33 | a room loses at most one binding, the first one on the socket; bindings on other sockets are kept; keys stay distinct |
| `SocketHandlers.AfterDisconnectShape` | node-backend/socketHandlers.js:26-37 | after the loop, every remaining room has bindings and comes from an old room; every old room that still had bindings remains |
| `SocketHandlers.AfterDisconnectValid` | node-backend/socketHandlers.js:34-36 | the disconnect loop leaves no empty room and keeps room ids and keys distinct |
| `SocketHandlers.AfterDisconnectDistinct` | node-backend/socketHandlers.js:26-37 | deleting bindings and rooms never makes two rooms share a game id |
| `SocketHandlers.AfterDisconnectAgrees` | node-backend/socketHandlers.js:26-37 | every remaining binding is still backed by the game record |
| `SocketHandlers.AgreeExtends` | node-backend/socketHandlers.js:45-70 | rooms backed by the games table stay backed when the table changes only in ways that keep every game's host and recorded second player |
| `SocketHandlers.NoticesCount` | node-backend/socketHandlers.js:30 | at most one `playerDisconnected` per room, and none exactly when no room held the socket |
| `SocketHandlers.OtherIndex` | node-backend/socketHandlers.js:147 | the result is the first binding, in insertion order, whose player is not the sender, or None exactly when every binding is the sender's |
| `SocketHandlers.WinnerIsOpponent` | node-backend/socketHandlers.js:147 | in a two-player room, the winner is the other player; with no sender id it is the first bound player; a sender alone in the room gets no winner |
| `SocketHandlers.ReadyAfterUpdate` | node-backend/socketHandlers.js:86-97 | after the update, `allReady` holds exactly when each flag was set before or belongs to the caller's slot; the players are unchanged |
| `SocketHandlers.UpdateLobby` | node-backend/socketHandlers.js:193-205 | every connected socket receives the players whose status is not 'playing' |
| `SocketHandlers.LeaveRoom` | node-backend/socketHandlers.js:27-33 | the first binding on the socket is removed, and only then is one `playerDisconnected` with its player and slot sent to the room |
| `SocketHandlers.LeaveRooms` | node-backend/socketHandlers.js:26-37 | the rooms become `AfterDisconnect(rooms, socket)` and the room log gains exactly the notices of `Notices`, room by room in order |
| `SocketHandlers.Coordinator.Login` | node-backend/socketHandlers.js:17-20 | the socket `login` event only broadcasts the lobby |
| `SocketHandlers.Coordinator.JoinGameRoom` | node-backend/socketHandlers.js:42-78 | an unknown game gives 'Game not found', a caller in neither slot gives 'Player not in this game', and a database failure gives 'Server error', all leaving the map untouched; otherwise slot 1 (tested first) or 2 is bound, the room created if absent, and `opponentJoined` sent |
| `SocketHandlers.Coordinator.AddBinding` | node-backend/socketHandlers.js:67-70 | the map becomes `WithBinding(old map, gameId, binding)` |
| `SocketHandlers.Coordinator.Disconnect` | node-backend/socketHandlers.js:23-39 | the map becomes `AfterDisconnect(old map, socket)`, one notice is sent per room that held the socket, then the lobby is broadcast; the map stays valid and backed by the game records |
| `SocketHandlers.Coordinator.PlayerReady` | node-backend/socketHandlers.js:81-118 | the ready update is written; on success the room hears the caller's slot and `allReady` as read back; every call that sees `allReady` sends `allPlayersReady` and schedules one more `gameStart`; an unknown game fails with nothing sent; every game keeps its host and recorded opponent, and a waiting game still has no opponent |
| `SocketHandlers.WriteReady` | node-backend/socketHandlers.js:85-89 | when round trips 0 and 1 succeed, the ready update sets the caller's flag on the game's row and the game is found after it iff before; otherwise nothing is written; either way every game keeps its host and recorded opponent, and a waiting game still has none |
| `SocketHandlers.Coordinator.ReadBack` | node-backend/socketHandlers.js:90-111 | the read-back succeeds iff round trip 2 survives and the row exists; then the slot is 1 exactly for the host, `allReady` is both flags, and the room hears them, with `allPlayersReady` and one scheduled start when both are set |
| `SocketHandlers.Coordinator.AnnounceReady` | node-backend/socketHandlers.js:99-111 | the room hears `playerReady`, then `allPlayersReady` and one new pending start when all are ready |
| `SocketHandlers.Coordinator.CountdownElapsed` | node-backend/socketHandlers.js:105-108 | the oldest pending start fires: its room hears `gameStart` |
| `SocketHandlers.Coordinator.PlayerMove` | node-backend/socketHandlers.js:121-129 | the message is forwarded unchanged to the room minus the sending socket; arena, position and piece are each optional and stay present or absent as sent, so the arena-only message of the key handler (www/game-room.js:161-165) passes through as it is |
| `SocketHandlers.Coordinator.UpdateScore` | node-backend/socketHandlers.js:132-139 | the whole room, sender included, receives the score |
| `SocketHandlers.Coordinator.GameOver` | node-backend/socketHandlers.js:143-190 | a missing room sends and writes nothing; otherwise the winner is the first bound player other than the sender; the stats update (connect, wins, losses, end) stops at the first round trip that throws, a missing id included, so the win is written only with a winner and trips 0–1 intact, and the loss only after it with a sender and trip 2 intact; the error is swallowed and the room hears the result in every case |
| `SocketHandlers.Coordinator.UpdateStatus` | node-backend/socketHandlers.js:158-170 | any status string is written to the player's row, and the lobby is broadcast only if no round trip failed |
| `GameRoutes.CreateGame` | node-backend/gameRoutes.js:16-45 | success appends a game with the creator as player 1, status 'waiting' and no player 2, sets the creator's status to 'waiting' and broadcasts the lobby; any failure answers 500 with both tables as before |
| `GameRoutes.Transact` | node-backend/gameRoutes.js:19-41 | given a connection, the game row and the host's 'waiting' status are committed exactly when round trips 1 to 4 all succeed, the new id unused before; otherwise the rollback leaves both tables as they were |
| `GameRoutes.JoinGame` | node-backend/gameRoutes.js:49-94 | rejects a missing game with 404, a non-waiting game with 400 and the host with 400, in that order and writing nothing; success sets player 2 and status 'ready' and the joiner's status to 'waiting'; every game keeps its host and recorded second player |
| `GameRoutes.WriteJoin` | node-backend/gameRoutes.js:72-75 | the game records its second player and becomes 'ready'; on well-formed tables every game keeps its host and recorded second player, and the tables stay well-formed |
| `GameRoutes.AnnounceJoin` | node-backend/gameRoutes.js:81-85 | the lobby is sent to every socket, then `playerJoined` to the game's room |
| `GameRoutes.GameByPlayer` | node-backend/gameRoutes.js:98-116 | the answer is 200 exactly when the player hosts a waiting game, and it then names the first such game in the model's id order; otherwise 404 |
| `GameRoutes.SecondJoinRefused` | node-backend/gameRoutes.js:64-75 | once a game has been joined, every later join is refused with 400 'Game is not available to join' |
| `GameRoutes.JoinedGameNotWaiting` | node-backend/gameRoutes.js:102-110 | a joined game is no longer found by its host's by-player lookup |
| `GameRoutes.CreatedGameWaiting` | node-backend/gameRoutes.js:102-110 | after creation, the host's by-player lookup finds a waiting game: the new one when the host had none before, and otherwise the older one, first in the model's id order |
| `PlayerRoutes.Register` | node-backend/playerRoutes.js:17-30 | once the insert ran, exactly one row with the given email and username and a fresh id was appended, and nothing else changed |
| `PlayerRoutes.Login` | node-backend/playerRoutes.js:33-70 | an unknown email answers 401 with no user and no lobby; a known one answers the first matching row in the model's id order and the lobby, listed in that order, of everyone else who is not playing |
| `PlayerRoutes.Lobby` | node-backend/playerRoutes.js:73-85 | the answer lists exactly the players other than the viewer whose status is set and not 'playing' |
| `PlayerRoutes.UpdatePlayerStatus` | node-backend/playerRoutes.js:88-114 | a status outside {idle, looking, waiting, playing} answers 400 and writes nothing; a valid one changes only the caller's status |

## Left out

- Drawing and the DOM (`draw`, `drawMatrix`, `drawCell`, `showGameOverMessage`, the score write in `updateScore`) and the `update` animation loop: they are canvas and timing work, not state. `PlayerDrop` models the drop that loop triggers.
- `Math.random` in `playerReset`: the draw is a parameter (`draw`, and `retry` for the second draw after a blocked spawn).
- Socket.IO itself (transport, acknowledgements, `io.on` wiring): recipients are sets of socket ids in `Transport.Io`, and the rooms a socket leaves on closing are emptied before the `disconnect` handler runs.
- Real timers: the 5000 ms `gameStart` delay is a queue of pending starts (`pendingStarts`), fired by `CountdownElapsed`, with no notion of time.
- Interleaving between `await`s and across connections: every handler is one atomic step.
- The mysql2 driver, connections and error texts: tables are sequences of rows, and a `Fault` says which round trip throws. The driver's error message appended to 500 bodies is not modelled.
- Authentication and token signing (`verifyToken`, `jwt.sign`): the caller's id is a parameter, and a login reply carries no token.
- Server wiring, environment configuration and the client glue pages: they hold no state of the core.
- SQL string comparisons under a column collation (`email = ?`, `status != ?`, `status = "waiting"`): the model compares strings exactly, as a binary collation does. Under a case- or accent-insensitive collation, `PlayerRoutes.Login` could return a stored email that differs in case from the one given, and a status such as 'PLAYING' would also hide a player from the lobby, which `Store.StatusChangesLobby` does not cover.
- Row order of the SELECTs (`WHERE email = ?`, `WHERE player1_id = ? AND status = "waiting"`, the lobby queries): none has an ORDER BY, so SQL promises no order, but the model returns rows in id (insertion) order. `GameRoutes.GameByPlayer` and `GameRoutes.CreatedGameWaiting` name the older of two waiting games a host has, where the program may name either; `PlayerRoutes.Login` returns the first of several rows with one email, where the program may return any; and the lobby lists of `PlayerRoutes.Login`, `PlayerRoutes.Lobby` and `SocketHandlers.UpdateLobby` hold exactly the right players, but their order is the model's, not one the program guarantees.
- Loose equality between string and number ids: the model uses one id type, so `==` and `Map` key identity agree.
- `SocketHandlers.UpdateLobby`: its own database round trips always succeed here; in the source a failure there is logged and swallowed, and the broadcast is skipped.
- `TetrisBoard.Tetris.UpdateArena`: requires the received arena to be 20 × 12, which the source does not check; the board's invariant needs it.
- `TetrisBoard.Tetris.PlayerRotate`: requires dir ≠ 0; the game only calls it with 1, and for dir = 0 the rotation back would not undo the rotation.
- `TetrisMatrix.Rotate`: requires a square matrix; every piece is square, and the source's swaps are not a rotation otherwise.
