/**
 The main server's in-memory store: a vector of games, appended to and
 listed whole. It does not look at ids.
 */
module ServerStore {
  import opened Multiplayer

  datatype MemoryStore = MemoryStore(games: seq<MultiplayerGame>)

  /** The empty store. */
  function New(): (s: MemoryStore)
    ensures |s.games| == 0
  {
    MemoryStore([])
  }

  /** Appends `g`; the games already stored keep their places. */
  function AddGame(s: MemoryStore, g: MultiplayerGame): (s': MemoryStore)
    ensures |s'.games| == |s.games| + 1
    ensures s'.games[..|s.games|] == s.games
    ensures s'.games[|s.games|] == g
  {
    MemoryStore(s.games + [g])
  }

  /** All stored games, in the order they were added. */
  function GetGames(s: MemoryStore): seq<MultiplayerGame>
  {
    s.games
  }

  /** Adds the games `gs` one after the other. */
  function AddGames(s: MemoryStore, gs: seq<MultiplayerGame>): MemoryStore
    decreases |gs|
  {
    if gs == [] then s else AddGames(AddGame(s, gs[0]), gs[1..])
  }

  /** Listing after a run of additions gives the earlier games followed by
      the added ones, in the order they were added. */
  lemma {:induction false} AddGamesThenList(s: MemoryStore, gs: seq<MultiplayerGame>)
    ensures GetGames(AddGames(s, gs)) == GetGames(s) + gs
    decreases |gs|
  {
    if gs != [] {
      AddGamesThenList(AddGame(s, gs[0]), gs[1..]);
      assert (s.games + [gs[0]]) + gs[1..] == s.games + gs;
    }
  }

  /** From the empty store, after n additions the listing is exactly those
      n games. */
  lemma ListAfterAdds(gs: seq<MultiplayerGame>)
    ensures GetGames(AddGames(New(), gs)) == gs
    ensures |GetGames(AddGames(New(), gs))| == |gs|
  {
    AddGamesThenList(New(), gs);
  }

  /** The number of stored games whose id is `id`. */
  function CountWithId(games: seq<MultiplayerGame>, id: string): nat
  {
    if games == [] then 0
    else CountWithId(games[..|games| - 1], id) + (if Id(games[|games| - 1]) == id then 1 else 0)
  }

  /** Adding a game always adds one more game with its id: an id already in
      the store is not rejected and the earlier game is not replaced. */
  lemma AddGameKeepsDuplicateIds(s: MemoryStore, g: MultiplayerGame)
    ensures CountWithId(GetGames(AddGame(s, g)), Id(g)) == CountWithId(GetGames(s), Id(g)) + 1
  {
    var gs := AddGame(s, g).games;
    assert gs[..|gs| - 1] == s.games;
  }
}
