/**
 The entities of the sample checkers server: a player, and a game whose
 roster only ever grows by appending.
 */
module CheckersTypes {

  /** A UUID, which the `uuid` crate stores as 128 bits. */
  newtype Uuid = x: int | 0 <= x < 0x1_0000_0000_0000_0000_0000_0000_0000_0000

  datatype Player = Player(id: Uuid, name: string)

  /** A game and its roster, in join order. */
  datatype Game = Game(id: Uuid, players: seq<Player>)

  /** Creates a game whose only player is `creator`. The id comes from a
      random generator in the server; here it is the supplied `newId`, which
      has nothing to do with the player. */
  function NewWithPlayer(newId: Uuid, creator: Player): (g: Game)
    ensures g.id == newId
    ensures |g.players| == 1 && g.players[0] == creator
  {
    Game(newId, [creator])
  }

  /** Appends `p` to the roster. There is no duplicate check. */
  function AddPlayer(g: Game, p: Player): (g': Game)
    ensures g'.id == g.id
    ensures |g'.players| == |g.players| + 1
    ensures g'.players[..|g.players|] == g.players
    ensures g'.players[|g.players|] == p
  {
    g.(players := g.players + [p])
  }

  /** Adds the players `ps` one after the other. */
  function AddPlayers(g: Game, ps: seq<Player>): Game
    decreases |ps|
  {
    if ps == [] then g else AddPlayers(AddPlayer(g, ps[0]), ps[1..])
  }

  /** A run of joins appends exactly the joined players, in order, and keeps the id. */
  lemma {:induction false} AddPlayersAppends(g: Game, ps: seq<Player>)
    ensures AddPlayers(g, ps) == Game(g.id, g.players + ps)
    decreases |ps|
  {
    if ps != [] {
      AddPlayersAppends(AddPlayer(g, ps[0]), ps[1..]);
      assert (g.players + [ps[0]]) + ps[1..] == g.players + ps;
    }
  }

  /** Whatever joins follow the creation, the roster is never empty, the
      creator stays first and the joined players follow in order. */
  lemma CreatorStaysFirst(newId: Uuid, creator: Player, joined: seq<Player>)
    ensures AddPlayers(NewWithPlayer(newId, creator), joined).id == newId
    ensures |AddPlayers(NewWithPlayer(newId, creator), joined).players| == 1 + |joined|
    ensures AddPlayers(NewWithPlayer(newId, creator), joined).players[0] == creator
    ensures AddPlayers(NewWithPlayer(newId, creator), joined).players[1..] == joined
  {
    AddPlayersAppends(NewWithPlayer(newId, creator), joined);
  }

  /** The number of roster entries carrying player id `id`. */
  function Occurrences(players: seq<Player>, id: Uuid): nat
  {
    if players == [] then 0
    else Occurrences(players[..|players| - 1], id) + (if players[|players| - 1].id == id then 1 else 0)
  }

  /** A player id occurs in the roster exactly when some entry carries it. */
  lemma {:induction false} OccurrencesPositive(players: seq<Player>, id: Uuid)
    ensures Occurrences(players, id) > 0 <==> exists i :: 0 <= i < |players| && players[i].id == id
  {
    if players != [] {
      var init := players[..|players| - 1];
      OccurrencesPositive(init, id);
      if exists i :: 0 <= i < |players| && players[i].id == id {
        var i :| 0 <= i < |players| && players[i].id == id;
        if i < |init| {
          assert init[i].id == id;
        }
      } else {
        assert forall i :: 0 <= i < |init| ==> init[i] == players[i];
      }
    }
  }

  /** Joining always adds one more entry for the player's id, even when the
      id is already on the roster. */
  lemma AddPlayerCountsEveryJoin(g: Game, p: Player)
    ensures Occurrences(AddPlayer(g, p).players, p.id) == Occurrences(g.players, p.id) + 1
  {
    var ps := AddPlayer(g, p).players;
    assert ps[..|ps| - 1] == g.players;
  }

  /** A player already on the roster who joins again is on it twice. */
  lemma {:induction false} AddPlayerKeepsDuplicates(g: Game, p: Player)
    requires exists i :: 0 <= i < |g.players| && g.players[i].id == p.id
    ensures Occurrences(AddPlayer(g, p).players, p.id) >= 2
  {
    OccurrencesPositive(g.players, p.id);
    AddPlayerCountsEveryJoin(g, p);
  }
}
