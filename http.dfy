/**
 * The responses of the Express routes: an HTTP status and the JSON body.
 * Error bodies keep their fixed `message` text; the appended driver error
 * text and the login token are not modelled.
 */
module Http {
  import opened Store

  datatype Body =
    | Message(text: string)
    | GameCreated(gameId: Id)
    | GameJoined(gameId: Id)
    | WaitingGame(gameId: Id)
    | LoginOk(id: Id, username: string, email: string, lobbyState: seq<LobbyEntry>)
    | LobbyList(players: seq<LobbyEntry>)

  datatype Reply = Reply(status: int, body: Body)
}
