/**
 The sample server's game store: a hash map from game id to game. Inserting
 overwrites silently, and joining an unknown id does nothing.
 */
module CheckersStore {
  import opened Wrappers
  import opened CheckersTypes

  datatype GameStore = GameStore(games: map<Uuid, Game>)

  /** The store the server starts with. */
  function New(): (s: GameStore)
    ensures |s.games| == 0
  {
    GameStore(map[])
  }

  /** Inserts `g` under its own id, replacing whatever was stored there. */
  function Add(s: GameStore, g: Game): (s': GameStore)
    ensures s'.games.Keys == s.games.Keys + {g.id}
    ensures s'.games[g.id] == g
    ensures forall k :: k in s.games && k != g.id ==> s'.games[k] == s.games[k]
  {
    GameStore(s.games[g.id := g])
  }

  /** Appends `p` to the roster of the game stored under `id`; an unknown id
      leaves the store as it was. */
  function AddPlayerToGame(s: GameStore, id: Uuid, p: Player): (s': GameStore)
    ensures id !in s.games ==> s' == s
    ensures s'.games.Keys == s.games.Keys
    ensures id in s.games ==> s'.games[id] == AddPlayer(s.games[id], p)
    ensures forall k :: k in s.games && k != id ==> s'.games[k] == s.games[k]
  {
    if id in s.games then GameStore(s.games[id := AddPlayer(s.games[id], p)]) else s
  }

  /** Every game is stored under its own id. */
  ghost predicate KeysAreIds(s: GameStore)
  {
    forall k :: k in s.games ==> s.games[k].id == k
  }

  /** No stored game has an empty roster. */
  ghost predicate RostersNonEmpty(s: GameStore)
  {
    forall k :: k in s.games ==> |s.games[k].players| > 0
  }

  /** Adding a game whose id is already stored keeps the set of ids and the
      number of games: the old game is simply gone. */
  lemma AddOverwrites(s: GameStore, g: Game)
    requires g.id in s.games
    ensures Add(s, g).games.Keys == s.games.Keys
    ensures |Add(s, g).games| == |s.games|
    ensures Add(s, g).games[g.id] == g
  {
  }

  lemma AddKeepsInvariants(s: GameStore, g: Game)
    requires KeysAreIds(s) && RostersNonEmpty(s)
    requires |g.players| > 0
    ensures KeysAreIds(Add(s, g)) && RostersNonEmpty(Add(s, g))
  {
  }

  lemma AddPlayerToGameKeepsInvariants(s: GameStore, id: Uuid, p: Player)
    requires KeysAreIds(s) && RostersNonEmpty(s)
    ensures KeysAreIds(AddPlayerToGame(s, id, p)) && RostersNonEmpty(AddPlayerToGame(s, id, p))
  {
  }

  /** The two store calls the server's HTTP handlers make: creating a game
      for a player under a newly generated id, and joining a game by id. */
  datatype Request = Create(newId: Uuid, creator: Player) | Join(gameId: Uuid, player: Player)

  function Handle(s: GameStore, r: Request): GameStore
  {
    match r
    case Create(newId, creator) => Add(s, NewWithPlayer(newId, creator))
    case Join(gameId, player) => AddPlayerToGame(s, gameId, player)
  }

  /** The store after handling `rs` in order. */
  function Replay(s: GameStore, rs: seq<Request>): GameStore
  {
    if rs == [] then s else Handle(Replay(s, rs[..|rs| - 1]), rs[|rs| - 1])
  }

  /** Any run of requests keeps every game under its own id and every roster non-empty. */
  lemma {:induction false} ReplayKeepsInvariants(s: GameStore, rs: seq<Request>)
    requires KeysAreIds(s) && RostersNonEmpty(s)
    ensures KeysAreIds(Replay(s, rs)) && RostersNonEmpty(Replay(s, rs))
  {
    if rs != [] {
      var before := Replay(s, rs[..|rs| - 1]);
      ReplayKeepsInvariants(s, rs[..|rs| - 1]);
      match rs[|rs| - 1]
      case Create(newId, creator) => AddKeepsInvariants(before, NewWithPlayer(newId, creator));
      case Join(gameId, player) => AddPlayerToGameKeepsInvariants(before, gameId, player);
    }
  }

  /** The creator named by the last `Create` for `id` in `rs`, if any. */
  function LastCreator(rs: seq<Request>, id: Uuid): Option<Player>
  {
    if rs == [] then None
    else if rs[|rs| - 1].Create? && rs[|rs| - 1].newId == id then Some(rs[|rs| - 1].creator)
    else LastCreator(rs[..|rs| - 1], id)
  }

  /** Starting from an empty store, a game id is stored exactly when some
      request created it, and the first player of that game is the creator
      named by the latest such request: later creations under the same id
      replace the game, and joins never displace the first player. */
  lemma {:induction false} CreatorIsFirst(rs: seq<Request>, id: Uuid)
    ensures id in Replay(New(), rs).games <==> LastCreator(rs, id).Some?
    ensures id in Replay(New(), rs).games ==>
              |Replay(New(), rs).games[id].players| > 0 &&
              Replay(New(), rs).games[id].players[0] == LastCreator(rs, id).value
  {
    if rs != [] {
      CreatorIsFirst(rs[..|rs| - 1], id);
    }
  }
}
