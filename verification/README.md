# Multiplayer solitaire server core, in Dafny

This project models the core of a multiplayer solitaire game server written in Rust, and proves
properties of that model. The core has four parts:

- **An Entity-Component-System runtime.** Entities are numeric ids handed out from a counter. Each
  component type has its own storage, a map from entity to component. The world keeps these
  storages in a registry keyed by the component's type, and reads them back through a downcast. A
  scheduler runs the registered systems once per tick, in registration order.
- **Solitaire card rules.** Cards can be flipped and moved between piles, and their movability is
  kept up to date. The model covers the colour and placement rules for tableau and foundation piles,
  card stacks with a capacity, and the score bookkeeping for moves and deck turns.
- **Game-session logic.** This covers the game-phase state machine, the player-count bounds, and
  the round-robin turn queue with its time limit. It also covers the systems that advance phases,
  pass on expired turns, and consume pending actions.
- **The WebSocket server's room roster.** Rooms have a bounded, duplicate-free player list. Each
  connecting player gets the next cursor colour from a 1-to-5 rotation.

To verify the model: `dafny verify *.dfy` (Dafny 4.11).

Files:

- `optional.dfy` (`Optional`): the `Option` type.
- `seqs.dfy` (`Seqs`): the operations the source applies to a `Vec` or a `VecDeque`:
  - `position` followed by `remove`;
  - `retain`.
- `ecs.dfy` (`Ecs`): entities, component storages, the type-erased registry, and the world. It
  also holds a replay of world operations, used to state whole-history properties.
- `scheduler.dfy` (`Scheduler`): the system scheduler.
- `solitaire.dfy` (`Solitaire`): cards, placement rules, card stacks, and the solitaire game state.
- `game.dfy` (`Game`): game phases, game state, the turn manager, and the three game systems.
- `rooms.dfy` (`Rooms`): game rooms and cursor colours.

Modelling choices:

- **The registry.** A component type is a `TypeTag` (a natural number standing for a `TypeId`).
  The registry maps each tag to an `ErasedStorage` that remembers the tag it was created for.
  `Downcast` succeeds only at that tag, which is the role `downcast_ref` plays in the source. The
  world invariant `Valid` says every registry entry was stored under its own tag. Under `Valid`,
  the downcasts the source unwraps with `expect` can never fail.
- **One payload type per world.** A world carries components of one Dafny type `V`. The game
  systems are stated over worlds whose payload is the component type they process.
- **Iterators become sets.** `query` and `iter` walk a hash map in no specified order, so they are
  modelled as the *set* of (entity, component) pairs they yield.
- **Mutation becomes a new value.** A `&mut self` method becomes a function from the old value to
  the new one. A `&mut T` handed out by `get_component_mut` or `query_mut` becomes an update
  function applied to the stored component.
- **Clocks are parameters.** Wherever the source reads `SystemTime::now()`, the model takes a
  `now: nat` parameter, in whole seconds.
- **Systems are labels.** In the scheduler, a system is a label plus a caller-supplied
  `run(system, world, dt)` function. A tick returns the final world and the trace of calls.

`World::remove_entity` is documented as purging the entity's components from every storage. Its body
only drops the id from the entity list; a comment in the body says the component deletion is left
to each storage. The model follows the body. `Ecs.RemoveEntity` leaves every storage unchanged, and
`Ecs.RemovedEntityKeepsComponents` states that a removed entity's components remain readable.

## Model

| member | source | states |
|---|---|---|
| Seqs.IndexOf | src/ecs.rs:267 | `position` finds the first occurrence: the index holds the element and no earlier index does, and there is none exactly when the element is absent |
| Seqs.RemoveAt | src/ecs.rs:268 | `Vec::remove` drops exactly the element at the index: the elements before it keep their places, the ones after move down by one, and the multiset loses just that element |
| Seqs.RemoveFirst | src/websocket_server.rs:86-93 | reports whether the element occurs; when it does, cuts out exactly its first occurrence, keeping the elements before and after in order; otherwise the sequence is unchanged |
| Seqs.RemoveAll | src/game.rs:340-347 | `retain` drops every occurrence of the element, keeps the multiset of the others, never lengthens the sequence, and leaves it unchanged when the element is absent |
| Seqs.RemoveAllConcat | src/game.rs:340-347 | `retain` filters a concatenation part by part, and keeps a single element exactly when it differs from the removed one |
| Ecs.NewStorage | src/ecs.rs:102-107 | a new storage holds nothing |
| Ecs.Insert | src/ecs.rs:118-120 | after inserting, the entity reads the new component; the previous component (if any) is returned; other entities are unaffected; the size grows by one exactly when the entity was absent |
| Ecs.Remove | src/ecs.rs:151-153 | returns the stored component, leaves the entity absent, leaves every other entity as it was, and changes nothing when the entity was absent |
| Ecs.Get | src/ecs.rs:129-131 | returns a component exactly when the entity is stored, and then the stored one |
| Ecs.Contains | src/ecs.rs:162-164 | holds exactly when `get` returns a component |
| Ecs.Len | src/ecs.rs:186-188 | is 0 exactly when nothing is stored |
| Ecs.IsEmpty | src/ecs.rs:194-196 | holds exactly when `len` is 0 |
| Ecs.Iter | src/ecs.rs:170-172 | yields exactly the stored (entity, component) pairs, one per stored entity |
| Ecs.PairsCard | src/ecs.rs:170-172 | the set of pairs drawn from a map has one element per key |
| Ecs.IsEmptyIffNothingStored | src/ecs.rs:186-196 | `is_empty` holds exactly when `len` is 0, which is exactly when no entity is contained |
| Ecs.Erase | src/ecs.rs:316-325 | a storage boxed under type T downcasts back to itself at T and fails at every other type |
| Ecs.NewWorld | src/ecs.rs:232-238 | a new world is valid, has no entities and no storages, and issues id 1 first |
| Ecs.CreateEntity | src/ecs.rs:251-256 | the new id is the counter's value (never 0) and exceeds every live id; it is appended to the roster; the count grows by one; no storage changes |
| Ecs.RemoveEntity | src/ecs.rs:265-277 | succeeds exactly when the entity is live; it removes that one entity and keeps the roster's order; component storages and the id counter are left untouched; an unknown entity changes nothing |
| Ecs.RemovedEntityKeepsComponents | src/ecs.rs:265-277 | after `remove_entity` the entity's components are still stored and readable |
| Ecs.Entities | src/ecs.rs:455-457 | the roster has `entity_count` entries; in a valid world they are distinct and each lies between 1 and the id counter |
| Ecs.EntityCount | src/ecs.rs:463-465 | is the roster's length, and in a valid world stays below the id counter |
| Ecs.RosterOrderedBound | src/ecs.rs:251-277 | in a roster built by creation and removal, the i-th live id is at least i + 1, so fewer ids are live than the counter's value |
| Ecs.GetStorage | src/ecs.rs:287-292 | in a valid world the downcast succeeds exactly when a storage was registered for the type |
| Ecs.GetOrCreateStorage | src/ecs.rs:316-325 | returns the registered storage, or a fresh empty one when none exists; the downcast never fails in a valid world |
| Ecs.PutStorage | src/ecs.rs:320-323 | installs a storage under its own type, keeps the world valid, and leaves every other type's storage and the roster alone |
| Ecs.GetComponent | src/ecs.rs:367-369 | in a valid world, returns a component exactly when the type's storage exists and holds the entity, and then the stored one |
| Ecs.HasComponent | src/ecs.rs:416-419 | holds exactly when `get_component` returns a component |
| Ecs.AddComponent | src/ecs.rs:346-348 | afterwards the entity reads the new component and the previous one is returned; other entities, other types and the roster are unaffected; the type's storage now exists |
| Ecs.ModifyComponent | src/ecs.rs:388-390 | the mutable access applies only to a stored component; with nothing stored, the world is unchanged and no storage is created |
| Ecs.RemoveComponent | src/ecs.rs:402-404 | returns the stored component; afterwards the entity has none of that type; no storage is created or dropped; other entities and types are unaffected |
| Ecs.Query | src/ecs.rs:429-434 | yields exactly the stored (entity, component) pairs of the type, one per stored entity, and nothing when the type was never registered |
| Ecs.QueryMut | src/ecs.rs:444-449 | every stored component of the type is replaced by the update applied to its entity and its old value, which may depend on both; no component is created; other types and the roster are unaffected |
| Ecs.AbsentTypeReadsEmpty | src/ecs.rs:367-369 | a type never registered reads as absent for every entity and queries to nothing |
| Ecs.Step | src/ecs.rs:251-449 | each world operation (entity creation and removal, component add and removal, and the in-place writes of `get_component_mut` and `query_mut`) keeps the world valid, never lowers the id counter or drops a storage, creates a storage only for an add, and accounts for the entity count |
| Ecs.Replay | src/ecs.rs:251-256 | over any history, issued ids are strictly increasing, each lies at or above the counter's starting value and above every id live before it, and live count plus removals equals the starting count plus creations |
| Ecs.FreshWorldIssuesOneTwoThree | src/ecs.rs:232-256 | a new world issues ids 1, 2, 3, … in creation order |
| Ecs.StepStorageExists | src/ecs.rs:316-348 | one operation creates a type's storage exactly when it adds a component of that type; storages are never dropped |
| Ecs.StorageExistsIffEverAdded | src/ecs.rs:316-348 | after any history, a type has a storage exactly when it had one before or some component of that type was added; storages are created lazily and never dropped |
| Ecs.ReplayComponentIsLastWrite | src/ecs.rs:346-449 | after any history, an entity has a component of a type exactly when the last add or remove of that pair was an add (or, with neither, when it had one before); its value is the one last added, rewritten by every later in-place write; without in-place writes it is the value last added; entity removal never touches it |
| Ecs.StepComponent | src/ecs.rs:346-449 | each world operation changes one entity's component of one type as the single-pair reference step says: an add sets it, a removal clears it, `get_component_mut` and `query_mut` rewrite a present value, and nothing else touches it |
| Ecs.ReplayComponentIsPairAfter | src/ecs.rs:346-449 | after any history, an entity's component of a type equals the single-pair reference fold over the history, started from its value before |
| Ecs.PairAfterLastWrite | src/ecs.rs:346-449 | in the single-pair fold, a value is present exactly when the last add or remove was an add, and without in-place writes it is the value last added |
| Ecs.HasComponentIffLastWriteInserted | src/ecs.rs:346-449 | `has_component` after a history that adds or removes the pair holds exactly when the last such write was an add; in-place writes do not change it |
| Scheduler.NewScheduler | src/ecs.rs:527-531 | a new scheduler has no systems |
| Scheduler.AddSystem | src/ecs.rs:547-549 | appends the system after all earlier ones, growing the count by one |
| Scheduler.SystemCount | src/ecs.rs:569-571 | is 0 exactly when no system is registered |
| Scheduler.AddSystemsCountsCalls | src/ecs.rs:547-571 | `system_count` equals the number of `add_system` calls, and the systems are kept in call order |
| Scheduler.RunAll | src/ecs.rs:559-563 | runs each system exactly once in order, each seeing the world the previous one left, all with the same delta |
| Scheduler.Update | src/ecs.rs:559-563 | a tick invokes every registered system once, in registration order, threading one world through them with one delta time |
| Scheduler.RunAllSplits | src/ecs.rs:559-563 | running systems a then b is the same as running a, then running b on the result |
| Scheduler.LoggingTickRecordsOrder | src/ecs.rs:559-563 | systems that each log their name produce the names in registration order, each once |
| Solitaire.RankValue | src/solitaire.rs:272-286 | rank discriminants run 1 to 13, with Ace the only 1 and King the only 13 |
| Solitaire.RankValueInjective | src/solitaire.rs:272-286 | distinct ranks have distinct discriminants |
| Solitaire.NewCard | src/solitaire.rs:79-94 | a new card is face down, in the deck at position 0, neither movable nor selected |
| Solitaire.UpdateMovability | src/solitaire.rs:149-178 | a card is movable exactly when it is face up and in a tableau, the waste pile or a free cell; nothing else changes |
| Solitaire.FlipUp | src/solitaire.rs:97-100 | the card becomes face up with movability recomputed for its location; suit, rank, location and selection are unchanged |
| Solitaire.FlipDown | src/solitaire.rs:103-107 | the card becomes face down, not movable and not selected |
| Solitaire.SetLocation | src/solitaire.rs:114-118 | the card takes the new location and position and movability is recomputed |
| Solitaire.FaceDownNeverMovable | src/solitaire.rs:149-154 | a face-down card is never movable, whatever location it is given |
| Solitaire.GetColor | src/solitaire.rs:184-189 | hearts and diamonds are red; clubs and spades are black |
| Solitaire.CanPlaceOnTableau | src/solitaire.rs:199-205 | holds exactly when one card is red and the other black and the target is one rank higher; so a king is never placed and an ace never receives a card |
| Solitaire.CanPlaceOnEmptyTableau | src/solitaire.rs:211-214 | holds exactly for a card of rank 13 |
| Solitaire.CanPlaceOnFoundation | src/solitaire.rs:223-235 | an empty foundation takes exactly the rank-1 card; on a top it takes exactly a card of the same suit and the next rank, so never an ace and never onto a king |
| Solitaire.TableauPlacementShape | src/solitaire.rs:199-205 | tableau placement needs opposite colours and a rank one lower: it is never symmetric or reflexive, and a king never goes on another card |
| Solitaire.FoundationAndTableauDisagree | src/solitaire.rs:223-235 | a card that may go on a foundation top has the same suit and the next rank, so the top may not go on it in a tableau; an ace never goes on a card |
| Solitaire.LegalFoundationPileIsAscendingSuit | src/solitaire.rs:223-235 | a pile built by legal foundation placements starts at Ace, keeps one suit, ascends by one rank per card, and holds at most 13 cards |
| Solitaire.AscendingSuitPileIsLegal | src/solitaire.rs:223-235 | conversely, a pile that starts at Ace, keeps one suit and ascends by one rank per card is built by legal foundation placements |
| Solitaire.NewStack | src/solitaire.rs:618-648 | a new stack is empty, with capacity 13 for a foundation, 1 for a free cell and unlimited (-1) otherwise |
| Solitaire.PushCard | src/solitaire.rs:650-657 | the push succeeds exactly when the stack is not at a positive capacity; it appends on success and changes nothing on refusal; the capacity bound is preserved |
| Solitaire.PopCard | src/solitaire.rs:663-665 | returns the top card and leaves the rest, or nothing on an empty stack |
| Solitaire.PeekTop | src/solitaire.rs:671-673 | returns a card of the stack, and nothing exactly when it is empty |
| Solitaire.StackIsEmpty | src/solitaire.rs:679-681 | holds exactly when the stack holds no card |
| Solitaire.StackLen | src/solitaire.rs:687-689 | is 0 exactly when `is_empty` holds, and never exceeds a positive capacity the stack respects |
| Solitaire.StackLenCountsPushPop | src/solitaire.rs:650-689 | `len` counts the cards: a successful push adds one, a pop that returns a card removes one, a refused push changes nothing, and an empty pop leaves 0 |
| Solitaire.PeekIsPopWithoutRemoval | src/solitaire.rs:663-673 | `peek_top` returns the card `pop_card` would remove |
| Solitaire.PushThenPop | src/solitaire.rs:650-673 | a successful push is undone by a pop, which returns the pushed card |
| Solitaire.PopThenPush | src/solitaire.rs:650-665 | pushing back a popped card always succeeds and restores the stack |
| Solitaire.NewGameState | src/solitaire.rs:440-455 | a new game has zero score, moves, deck turns and idle time, is neither completed nor won, and offers hints |
| Solitaire.RecordMove | src/solitaire.rs:461-482 | a move adds one to the move count and its points to the score, and resets idle time |
| Solitaire.RecordMovesTotals | src/solitaire.rs:461-482 | after a series of moves, the score has grown by the sum of their points and the move count by their number |
| Solitaire.RecordDeckTurn | src/solitaire.rs:484-493 | each deck turn counts and resets idle time; from the third turn on it costs 2 points, but only when the score is at least 2 |
| Solitaire.DeckTurnsPenalty | src/solitaire.rs:484-493 | k deck turns cost 2 points for each turn beyond the second, capped so the score never goes below 0 |
| Game.TransitionsAreExactlyTheListed | src/game.rs:168-189 | exactly these transitions are allowed: Waiting→Starting, Starting→Playing, Playing↔Paused, Playing→Finished, any phase→Aborted, and Finished or Aborted→Waiting |
| Game.TransitionConsequences | src/game.rs:168-189 | every phase may abort, a finished or aborted game can only restart or abort, and only Starting and Paused lead to Playing |
| Game.CanTransitionTo | src/game.rs:168-189 | aborting is always allowed; staying in a phase is allowed only for Aborted; only a waiting game may start; only a finished or aborted game may go back to waiting |
| Game.NewGameState | src/game.rs:61-73 | a new session waits for players, has none, and uses the default settings (30-second turns) |
| Game.CanStart | src/game.rs:79-83 | a game can start exactly when it waits for players and has between 2 and its maximum; such a start passes the transition check |
| Game.ChangePhase | src/game.rs:89-91 | sets the phase and leaves every other field unchanged |
| Game.AddPlayer | src/game.rs:97-104 | a join succeeds exactly below the maximum and then adds one player; a refusal changes nothing; the count never exceeds the maximum |
| Game.RemovePlayer | src/game.rs:110-117 | a leave succeeds exactly above zero and then removes one player; a refusal changes nothing |
| Game.JoinLeaveRoundTrip | src/game.rs:97-117 | a successful join is undone by a leave, and a successful leave by a join |
| Game.TwoJoinsMakeStartable | src/game.rs:79-104 | a new game with room for two becomes startable at the second join, and not before |
| Game.NewTurnManager | src/game.rs:258-271 | the queue is the given players, the first of them is current, and the turn number is 1 |
| Game.NextTurn | src/game.rs:278-293 | the front player moves to the back, the new front becomes current and is returned, the turn number grows by one, and the set of players is unchanged |
| Game.NextTurnsRotate | src/game.rs:278-293 | after k turns, for k up to the number of players, the queue is the original rotated left by k |
| Game.NextTurnsCurrent | src/game.rs:278-293 | after k turns the player k places on is current, and after a full round the first player is current again |
| Game.FullRoundRestoresOrder | src/game.rs:278-293 | one turn per player restores the original queue order |
| Game.NextTurnsOrderIsRotate | src/game.rs:278-293 | k turns rotate the queue left k times, for every k |
| Game.RotateAdd | src/game.rs:278-293 | a turns followed by b turns rotate the queue as a + b turns do |
| Game.RotateFullRound | src/game.rs:278-293 | one rotation per player restores the queue |
| Game.RotatePeriodic | src/game.rs:278-293 | a further full round of rotations changes nothing |
| Game.RotateRounds | src/game.rs:278-293 | m full rounds plus k rotations give the queue rotated left by k |
| Game.NextTurnsAnyRound | src/game.rs:278-293 | for any number of turns m·n + k (n players, k ≤ n), the queue is the original rotated left by k, and its front is current once a turn was taken |
| Game.RemainingTime | src/game.rs:299-316 | there is no remaining time without a limit; otherwise it is the seconds left: never more than the limit, exactly what is left while the limit runs, and exactly 0 once it has elapsed, with a clock behind the start counting as no time elapsed |
| Game.TimeUpIffLimitElapsed | src/game.rs:322-328 | a turn is up exactly when it has a limit and the whole limit has elapsed |
| Game.IsTimeUp | src/game.rs:322-328 | a turn that is up has 0 remaining, and a turn without a limit is never up |
| Game.RemoveTurnPlayer | src/game.rs:337-355 | reports whether the player was queued; removes every occurrence and keeps every other player with its multiplicity; a removed current player is replaced by the new front; any other current player stays |
| Game.RemoveTurnPlayerKeepsOrder | src/game.rs:337-347 | removal keeps the survivors in their original relative order: a player ahead of another stays ahead, and each stretch between them is filtered in place |
| Game.RemoveTurnPlayerKeepsFront | src/game.rs:337-355 | if the current player was the queue's front, it still is after a removal |
| Game.ManageGame | src/game.rs:464-506 | a startable waiting game moves to Starting, a starting game to Playing, and every other game is untouched; every change passes the transition check, and only the phase changes |
| Game.GameManagementSystem | src/game.rs:460-508 | each game state in the world takes that step; no game state is created or lost, and nothing else changes |
| Game.TurnManagementSystem | src/game.rs:520-557 | every expired turn is passed on and restarted, unexpired turns are untouched, and afterwards no turn is up |
| Game.ActionProcessingSystem | src/game.rs:567-625 | afterwards no entity has a pending action and the query is empty; other component types and the roster are unaffected |
| Rooms.NewRoom | src/websocket_server.rs:66-75 | a new room is empty, waiting, and satisfies the roster invariant |
| Rooms.IsFull | src/websocket_server.rs:95-97 | in a room that keeps the roster invariant, holds exactly when the room has its maximum number of players |
| Rooms.AddPlayer | src/websocket_server.rs:77-84 | a join succeeds exactly when the room is below its maximum and the id is not present; it appends the id; a refusal changes nothing; the room stays duplicate-free and within its maximum |
| Rooms.RemovePlayer | src/websocket_server.rs:86-93 | a leave succeeds exactly when the id is present; it then cuts out the first occurrence and keeps the players before and after it in order; otherwise nothing changes |
| Rooms.RemovePlayerKeepsInvariant | src/websocket_server.rs:86-93 | in a duplicate-free room, the id is gone afterwards, every other player remains, and the invariant holds |
| Rooms.FullIffNewcomerRefused | src/websocket_server.rs:77-97 | a new id is refused exactly when `is_full` holds |
| Rooms.JoinThenLeave | src/websocket_server.rs:77-93 | a successful join followed by a leave of the same id restores the room |
| Rooms.NextColorIndex | src/websocket_server.rs:259-262 | the colour counter stays within 1 to 5 and steps 1→2→3→4→5→1 |
| Rooms.ColorOf | src/websocket_server.rs:191 | every player's colour index is between 1 and 5 |
| Rooms.ColorRepeatsAfterFive | src/websocket_server.rs:259-262 | the sixth player from any point gets the same colour as the first |
| Rooms.ColorOfIsModular | src/websocket_server.rs:191-262 | the k-th connecting player gets colour k mod 5 + 1 |
| Rooms.ColorsCycleEveryFive | src/websocket_server.rs:259-262 | five consecutive players get five different colours, and the sixth repeats the first |

## Left out

- Ecs.CreateEntity: the `u32` id counter is unbounded here. The wrap-around after 2^32 − 1 entities is not modelled, so "ids strictly increase" holds only before that point.
- Solitaire.RecordMove: `score` and `move_count` are unbounded. `u32` overflow on `+=` (a panic in a debug build) is not modelled.
- Solitaire.RecordDeckTurn: `deck_turns` is unbounded. The `u32` overflow of its `+= 1` is not modelled.
- Game.NextTurn: `turn_number` is unbounded. Its `u32` overflow is not modelled.
- Game.TurnManagementSystem: the source reads the clock separately for `is_time_up` and for each `next_turn`. The model uses one reading `now` for the whole update.
- Game.GameManagementSystem: the phase-change log line is not modelled; `println!` output is I/O.
- Game.ActionProcessingSystem: every action-type branch in the source is empty apart from logging. Only the removal of processed actions is modelled, and the `GameAction` payload is left generic.
- `Ecs.Iter` and `Ecs.Query`: the iteration order of the underlying `HashMap` is unspecified, so these are modelled as sets, without an order.
- `ComponentStorage::get_mut`, `iter_mut` and `World::get_storage_mut`: covered by `Ecs.ModifyComponent` and `Ecs.QueryMut` as update functions. Rust borrowing itself is not modelled.
- Card display coordinates, animation (`set_display_position`, `start_animation`, `finish_animation`, `CardAnimationSystem`) and `CardStack::calculate_card_position`: floating-point screen layout, not game logic.
- `SolitaireGameState::check_completion` and `update_idle_time`: they depend on whole-world scans and floating-point time, outside the modelled core.
- `SolitaireManager` (dealing, drawing from the deck, auto-placement, win checks), `CardMovementSystem` and `SolitaireProgressSystem`: game orchestration built on the modelled operations.
- The symbol, display-name and `all()` helpers on `CardSuit`, `CardRank`, `CardLocation`, `SolitaireType`, `GamePhase` and `ActionType`: string tables with no behaviour.
- `GameManager` (`create_game_session`, `join_player`, `start_turn_management`, `record_action`): convenience wrappers that chain the modelled operations.
- The WebSocket server's connection handling, message parsing, broadcasting and locking (`src/websocket_server.rs` beyond `GameRoom` and the colour counter): asynchronous network I/O. `src/network.rs`, `src/simple_websocket_server.rs`, `src/lib.rs` and `src/main.rs` are not part of this model.
- Rooms: the `u8` width of `max_players` and of the colour index is not modelled. The colour counter never leaves 1 to 5, so it cannot overflow.
- Uuid generation and `SystemTime::now()`: their results are parameters (`id`, `now`).
