# Multiplayer session stores and board highlighting, modelled in Dafny

This project models three sequential pieces of a chess/checkers code base:

- **The sample checkers server's game registry** (`CheckersTypes`, `CheckersStore`).
  A `Game` holds a UUID and a roster of `Player`s. It is created with one player, and
  joins append to the roster. The `GameStore` is a map from game id to game. `Add` inserts
  a game under its own id and silently overwrites an existing one. `AddPlayerToGame`
  appends to the roster of the game under the given id, and does nothing for an unknown id.
  `Replay` folds a sequence of the two calls the HTTP handlers make: create a game for a
  player under a newly generated id, and join a game by id.
- **The main server's in-memory store and the multiplayer entities** (`Multiplayer`,
  `ServerStore`). A `MultiplayerPlayer` is converted from the protocol's player message. A
  `MultiplayerGame` starts with its creator as its only player. The `MemoryStore` is a plain
  sequence: it appends games without looking at their ids and lists them in insertion order.
- **The board-highlight resource of the graphical client** (`BoardHighlight`). It has 64
  slots, one per cell, laid out row-major in x by the startup system. Each slot holds an
  optional colour, its sprite's visibility and its sprite's material colour. The resource
  also holds a queue of `Highlight`/`Clear`/`ClearAll` requests. The per-frame system
  drains the queue in order. When the plugin is set to clear on each frame, the system then
  queues a single `ClearAll`. An index past the end of the slots panics in the program; the
  model returns `None` for it. Positions are pairs of bytes, so `pos_to_index` can produce
  indices up to 2295. Off the board it also aliases: `(0, 9)` lands on the slot of `(1, 1)`
  (`PosToIndexAliases`).

Inputs the program takes from its environment become parameters:
- the random id of a new game (`newId`);
- the entity the ECS world spawns for each cell (`spawn`);
- the initial material colour of the highlight sprites (`initial`).

Colours and entities are abstract types with equality. The startup system spawns a new
entity for every cell, so each slot owns its own sprite; this is why the sprite's
visibility and material can be kept in the slot.

The registry the code implements is simpler than a concurrent session service with
`Conflict`/`NotFound`/`DuplicatePlayer` results and per-id locks. The model follows the code:
- it has no error results;
- it overwrites on an id collision;
- it ignores joins to unknown ids;
- it accepts duplicate players;
- the in-memory store keeps games with duplicate ids.

## Model

| member | source | states |
|---|---|---|
| CheckersTypes.NewWithPlayer | sample/simple_multiplayer/checkers_server/src/types.rs:17-22 | a new game has the supplied id and exactly one player, the creator |
| CheckersTypes.AddPlayer | sample/simple_multiplayer/checkers_server/src/types.rs:24-26 | a join keeps the id, grows the roster by exactly one, keeps earlier players as a prefix in order, and puts the joiner last |
| CheckersTypes.AddPlayersAppends | sample/simple_multiplayer/checkers_server/src/types.rs:24-26 | a run of joins appends exactly the joined players, in order, and keeps the id |
| CheckersTypes.CreatorStaysFirst | sample/simple_multiplayer/checkers_server/src/types.rs:17-26 | after creation and any joins the roster is non-empty, the creator is first, and the joiners follow in order |
| CheckersTypes.AddPlayerCountsEveryJoin | sample/simple_multiplayer/checkers_server/src/types.rs:24-26 | every join adds one more roster entry for the joiner's id; nothing is rejected |
| CheckersTypes.AddPlayerKeepsDuplicates | sample/simple_multiplayer/checkers_server/src/types.rs:25 | a player id already on the roster is on it at least twice after joining again |
| CheckersStore.New | sample/simple_multiplayer/checkers_server/src/game_store.rs:10-14 | the initial store holds no games |
| CheckersStore.Add | sample/simple_multiplayer/checkers_server/src/game_store.rs:16-18 | after adding, the game's id maps to the game, the ids are the old ids plus that one, and every other entry is unchanged |
| CheckersStore.AddOverwrites | sample/simple_multiplayer/checkers_server/src/game_store.rs:17 | adding under an id already present keeps the id set and the game count, and replaces the old game without a conflict check |
| CheckersStore.AddPlayerToGame | sample/simple_multiplayer/checkers_server/src/game_store.rs:20-24 | an unknown id leaves the store unchanged; a known id gets the player appended to its game, the id set is kept, and no other entry changes |
| CheckersStore.AddKeepsInvariants | sample/simple_multiplayer/checkers_server/src/game_store.rs:16-18 | adding a game with a non-empty roster keeps every game under its own id and every roster non-empty |
| CheckersStore.AddPlayerToGameKeepsInvariants | sample/simple_multiplayer/checkers_server/src/game_store.rs:20-24 | joining keeps every game under its own id and every roster non-empty |
| CheckersStore.ReplayKeepsInvariants | sample/simple_multiplayer/checkers_server/src/game_store.rs:16-24 | any sequence of creates and joins keeps both store invariants |
| CheckersStore.CreatorIsFirst | sample/simple_multiplayer/checkers_server/src/game_store.rs:16-24 | starting empty, an id is stored iff some create used it, and that game's first player is the creator of the latest such create |
| Multiplayer.FromWire | module/multiplayer/src/lib.rs:36-43 | the converted player carries the message's player id as its id and the player name as its name |
| Multiplayer.FromWireRoundTrip | module/multiplayer/src/lib.rs:38-41 | reading the converted player's fields back rebuilds the protocol message |
| Multiplayer.FromWireInjective | module/multiplayer/src/lib.rs:38-41 | two messages convert to the same player iff they are equal |
| Multiplayer.NewGame | module/multiplayer/src/lib.rs:72-77 | a new game's roster is exactly the creator, so it is never empty |
| Multiplayer.NewGameId | module/multiplayer/src/lib.rs:79-81 | the id accessor of a new game returns the id it was created with |
| ServerStore.New | module/server/src/store/memory.rs:26 | the new store has no games |
| ServerStore.AddGame | module/server/src/store/memory.rs:34 | adding appends the game at the end and keeps the earlier games in order |
| ServerStore.AddGamesThenList | module/server/src/store/memory.rs:34-44 | listing after a run of additions gives the earlier games followed by the added ones, in insertion order |
| ServerStore.ListAfterAdds | module/server/src/store/memory.rs:26-44 | from a new store, after n additions the listing is exactly those n games |
| ServerStore.AddGameKeepsDuplicateIds | module/server/src/store/memory.rs:34 | adding always adds one more game with that id; an existing game with the same id stays listed |
| BoardHighlight.PosToIndex | module/game/src/highlight.rs:114 | a board position maps to an index below 64 |
| BoardHighlight.PosToIndexBijection | module/game/src/highlight.rs:114 | on the board, index-to-cell undoes cell-to-index and vice versa, so the mapping is a bijection onto 0..64 |
| BoardHighlight.PosToIndexAliases | module/game/src/highlight.rs:114 | the byte position (0, 9) maps to the same slot as (1, 1) |
| BoardHighlight.Build | module/game/src/highlight.rs:60-63 | the installed resource starts with no slots and no requests |
| BoardHighlight.Setup | module/game/src/highlight.rs:72-112 | startup leaves 64 slots; slot x*8+y holds the entity spawned for cell (x,y), with no colour, hidden, with the initial material; the queue is empty and every slot is consistent |
| BoardHighlight.RequestHighlight | module/game/src/highlight.rs:31 | a highlight request appends exactly one command to the queue and leaves the slots untouched |
| BoardHighlight.RequestClear | module/game/src/highlight.rs:33 | a clear request appends exactly one command to the queue and leaves the slots untouched |
| BoardHighlight.RequestClearAll | module/game/src/highlight.rs:35-39 | clear-all discards every pending request, leaving the queue exactly one clear-all, and leaves the slots untouched |
| BoardHighlight.ClearAllSlots | module/game/src/highlight.rs:156-169 | clearing all leaves every slot without a colour; coloured slots are hidden; slots without a colour are untouched; entities and materials are kept |
| BoardHighlight.Apply | module/game/src/highlight.rs:127-170 | a request panics iff its index is past the end of the slots; otherwise the number of slots is kept |
| BoardHighlight.ApplyHighlight | module/game/src/highlight.rs:129-141 | highlighting a slot that does not hold the colour sets the colour, shows the slot and gives it a material of that colour, keeping its entity; no other slot changes; a slot already holding that colour is left as it was |
| BoardHighlight.ApplyClear | module/game/src/highlight.rs:143-154 | clearing a coloured slot removes the colour and hides the slot, keeping its entity and material; no other slot changes; a slot without a colour is left as it was |
| BoardHighlight.ClearAllIdempotent | module/game/src/highlight.rs:156-169 | applying clear-all twice gives the same slots as applying it once |
| BoardHighlight.ApplyKeepsConsistent | module/game/src/highlight.rs:127-170 | every request keeps each slot visible iff it has a colour, with its material showing that colour |
| BoardHighlight.RunAppend | module/game/src/highlight.rs:125-171 | draining a queue with one more request at its end is draining the queue, then applying that request |
| BoardHighlight.RequestHighlightTakesEffect | module/game/src/highlight.rs:125-141 | a highlight request (queued as at line 31) takes effect in the next frame: if the earlier requests do not panic and the cell is in range, the cell holds the colour, and on a consistent board it is shown with that material; every other slot is as the earlier requests left it |
| BoardHighlight.RequestClearTakesEffect | module/game/src/highlight.rs:143-154 | a clear request (queued as at line 33) takes effect in the next frame: the cell has no colour, and on a consistent board it is hidden; every other slot is as the earlier requests left it |
| BoardHighlight.HighlightSurvivesFrameClear | module/game/src/highlight.rs:173-176 | with clearing on each frame, a highlight queued after the frame's clear-all survives the next frame: its cell holds the colour and every other cell has none |
| BoardHighlight.RunPanicsIff | module/game/src/highlight.rs:125-171 | draining a queue panics iff some queued request falls outside the slots; otherwise the number of slots is kept |
| BoardHighlight.RunOnBoardNeverPanics | module/game/src/highlight.rs:125-171 | on 64 slots, a queue whose requests all name board cells never panics |
| BoardHighlight.RunKeepsConsistent | module/game/src/highlight.rs:125-171 | draining a queue keeps the visible-iff-coloured invariant |
| BoardHighlight.ClearAllDiscardsPending | module/game/src/highlight.rs:35-39 | after clear-all, the next frame leaves every slot without a colour, whatever was queued before |
| BoardHighlight.ApplyRequests | module/game/src/highlight.rs:116-177 | the frame panics iff a queued request is out of bounds; otherwise the slots are those of applying the queue in order, the queue ends empty or exactly one clear-all per the plugin flag, and consistency is kept |

## Left out

- `MemoryStore::get_game` and `MemoryStore::update_game` (module/server/src/store/memory.rs:39, 49) are `todo!()` in the code, so they have no behaviour to model and are omitted.
- Random UUID generation: the id of a new game is a parameter. The uniqueness of generated ids is not modelled.
- The HTTP handlers, JSON serialisation, the malformed-id panic of the join handler and the `Mutex` around the store are transport and concurrency code. `CheckersStore.Replay` models only the sequential order of the store calls they make. The store methods are `async` without awaiting anything, and they are modelled as plain functions.
- Session-service behaviour that the code does not implement is not modelled: `Conflict`, `NotFound`, `DuplicatePlayer` and `Busy` results, per-id locking, a get-session call and timestamps.
- `ServerStore.GetGames` carries no contract of its own: it returns the stored sequence, and it leaves the store unchanged because it is a pure function. Its meaning is stated by `ServerStore.AddGamesThenList` and `ServerStore.ListAfterAdds`.
- Multiplayer.Id: carries no contract of its own: it returns the game's id. The Rust fields are private, so `new` is the only way to build a game, and `Multiplayer.NewGameId` states what the accessor returns for it.
- `MultiplayerMessage` and `MultiplayerMove` have no behaviour and are omitted. The networked tests, the generated protocol client and the command-line client are also omitted.
- The Bevy side of the highlight plugin is reduced to slot state. This covers queries, the `unwrap` on a missing entity, material asset allocation, sprite sizes and transforms, and the float RGB values. Each sprite's visibility and material colour are kept as fields of its slot.
- The checkerboard sprites, the egui panel and the app bootstrap in the client's main file are rendering and UI code. They are omitted.
