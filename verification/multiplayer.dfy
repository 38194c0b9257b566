/**
 The multiplayer library's entities: the server-side player and game, and
 the conversion from the player message of the remote-procedure protocol.
 */
module Multiplayer {

  /** The protocol's player message, with the generated field names. */
  datatype WirePlayer = WirePlayer(playerId: string, playerName: string)

  datatype MultiplayerPlayer = MultiplayerPlayer(id: string, name: string)

  /** A game: its id and its roster. */
  datatype MultiplayerGame = MultiplayerGame(id: string, players: seq<MultiplayerPlayer>)

  /** Builds the server-side player from a protocol message, copying its fields. */
  function FromWire(p: WirePlayer): (r: MultiplayerPlayer)
    ensures r.id == p.playerId
    ensures r.name == p.playerName
  {
    MultiplayerPlayer(p.playerId, p.playerName)
  }

  /** Reading the converted player's fields back gives the message again. */
  lemma FromWireRoundTrip(p: WirePlayer)
    ensures WirePlayer(FromWire(p).id, FromWire(p).name) == p
  {
  }

  /** Distinct messages give distinct players. */
  lemma FromWireInjective(p: WirePlayer, q: WirePlayer)
    ensures FromWire(p) == FromWire(q) <==> p == q
  {
  }

  /** Creates a game under `id` whose roster is the single `creator`. */
  function NewGame(id: string, creator: MultiplayerPlayer): (g: MultiplayerGame)
    ensures |g.players| == 1 && g.players[0] == creator
  {
    MultiplayerGame(id, [creator])
  }

  /** The game's id. */
  function Id(g: MultiplayerGame): string
  {
    g.id
  }

  /** A new game reports the id it was created with. */
  lemma NewGameId(id: string, creator: MultiplayerPlayer)
    ensures Id(NewGame(id, creator)) == id
  {
  }
}
