# Room registry and turn relay of a two-player chess server

This project is a Dafny model of the real-time core of a chess backend. The
core is the Socket.IO connection handler. It keeps one process-wide registry
that maps a room id to a room. A room holds its id, its players in arrival
order, and the chess game bound to it. The first player plays White.

Five handlers read and write that registry:

- `createRoom` opens a room for the requester.
- `joinRoom` admits a second player, or refuses with "room does not exist",
  "room is empty" or "room is full".
- `move` enforces turn order and hands the move to the chess engine. It then
  relays the move, closes the room on an illegal move, or announces the end
  of the game, stores one game record per player and closes the room.
- `disconnect` drops the rooms a leaving connection held alone and tells the
  peers in the rooms it shared.
- `closeRoom` tells the others in the room and drops the room.

Each handler is a pure function. It takes the registry, the requesting player
and the event's arguments. It returns a `Step`: the new registry and the
outbound events in emission order. There are four kinds of event:

- `Reply`: the acknowledgement callback.
- `ToPeers`: emitted to the room minus the sender.
- `ToRoom`: emitted to the whole room.
- `Persist`: a request to store a finished game.

`Recipients` turns an event and the room's members into the set of
connections it reaches. This lets the lemmas state who is notified.

The chess engine is abstract. `Position` and `Move` are uninterpreted types.
An `Engine` is a record of total functions: the start position, `apply`
(which returns `None` for an illegal move), `whiteToMove`, `isGameOver`,
`fen`, `pgn` and `history`. Every handler that needs the engine receives one
as a parameter.

Files:

- `wrappers.dfy`: the `Option` type.
- `engine.dfy`: the abstract rules engine.
- `registry.dfy`: players, rooms, the registry invariant, and `find`.
- `events.dfy`: events, delivery scopes and recipients.
- `handlers.dfy`: the five handlers.
- `session.dfy`: dispatch of one call, and runs of calls from the empty
  registry.
- `properties.dfy`: the lemmas that connect the handlers to the invariant,
  to turn ownership and to who hears what.

The registry invariant is `WellFormed`. It says every entry is keyed by its
own `roomId`, has one or two players, and has a game bound. Every handler
preserves it, and so does every run of calls that starts from the empty
registry.

Environment inputs become parameters:

- The room id from `uuidV4()` is the `id` argument of `CreateRoom`, with
  `requires id !in rooms`.
- Whether the client passed an acknowledgement callback is `hasCallback`.
- The iteration order of the JavaScript `Map` at a disconnect is the `order`
  argument of `Disconnect`. It must list every key exactly once.

Three behaviours of the handlers are worth knowing:

- A disconnect handles every room that contains the connection. The `return`
  at src/socket/index.ts:197 only leaves the `forEach` callback, so the walk
  over the snapshot goes on after a room is deleted. `Disconnect` walks the
  whole snapshot.
- An admitted join calls `callback(roomUpdate)` at src/socket/index.ts:113
  without checking that a callback was given, and `createRoom` calls
  `callback(roomId)` the same way at line 61. Without a callback, the call
  throws after `rooms.set`. The registry changes, but nothing is emitted: no
  answer, and for a join no `opponentJoined`. `JoinRoom` and `CreateRoom`
  model both paths.
- In a room that has only its creator, the creator may move for White. After
  that move, `players[1]` is `undefined` and reading its `.id` throws before
  any state change (line 129). `TurnOwner` returns `None` in that case, and
  `SubmitMove` drops the move without any effect. `LonePlayerStalls` states
  this.

## Model

| member | source | states |
|---|---|---|
| Registry.FindPlayer | src/socket/index.ts:188-190 | the result is absent exactly when no player has the connection id; otherwise it is the first player with that id |
| Handlers.CreateRoom | src/socket/index.ts:46-62 | a fresh id adds exactly one entry, holding only the requester and the start position; every other entry is unchanged; only the requester is answered, and only when a callback was given |
| Handlers.JoinRefusal | src/socket/index.ts:70-82 | there is no refusal exactly when the room exists with one player; otherwise the reason is "room does not exist", then "room is empty", then "room is full", in that order of checks |
| Handlers.JoinRoom | src/socket/index.ts:64-117 | missing, empty and full rooms are refused in that order, with the registry unchanged and at most one reply to the requester; a one-player room gets the requester appended at index 1, with the same id and game, and the other entries unchanged |
| Handlers.TurnOwner | src/socket/index.ts:128-129 | the turn belongs to player 0 when White is to move and to player 1 otherwise; there is no owner when that slot is empty or no game is bound |
| Handlers.SubmitMove | src/socket/index.ts:119-182 | an unknown room or a sender who does not own the turn gives no change and no event; an illegal move removes the room and announces it to the room; a legal move is relayed, and it either only replaces the room's position or ends the game with a broadcast, the records, and removal of the room |
| Handlers.LeaveRoomEffect | src/socket/index.ts:188-201 | one callback run deletes the room's own id exactly when the connection is its sole occupant, and sends one playerDisconnected exactly when the connection shares the room |
| Handlers.Shared | src/socket/index.ts:187-201 | the keys of the walk whose room the connection shares with a second slot |
| Handlers.DisconnectFrom | src/socket/index.ts:185-202 | walking the snapshot deletes exactly the rooms the connection held alone, by their own ids; it emits one playerDisconnected per shared room, in walk order |
| Handlers.Disconnect | src/socket/index.ts:184-203 | the registry afterwards is the old one minus the rooms the connection held alone; the events are one notice per shared room |
| Handlers.CloseRoom | src/socket/index.ts:205-217 | the id is removed whether or not it exists; every other entry is unchanged; an absent id leaves the registry unchanged; one closeRoom notice goes to the others |
| Session.Handle | src/socket/index.ts:46-217 | every handler preserves the invariant (keyed by own id, one or two players, game bound); only createRoom adds a key |
| Session.Run | src/socket/index.ts:36-218 | a sequence of admissible calls preserves the invariant |
| Properties.CreateRoomWaits | src/socket/index.ts:48-61 | a created room keeps the invariant, grows the registry by one, gives the creator the first turn, and answers only the creator |
| Properties.JoinUnchangedIffRefused | src/socket/index.ts:70-111 | a join leaves the registry unchanged if and only if it is refused |
| Properties.JoinRefusalAnswersRequesterOnly | src/socket/index.ts:84-97 | a refusal sends at most one event, a reply with the refusal reason, and it reaches the requester alone |
| Properties.JoinAdmitsSecondPlayer | src/socket/index.ts:103-116 | an admitted join keeps the creator at index 0, appends the joiner, keeps the game and the invariant, and opponentJoined reaches exactly the creator (unless the creator is the joiner) |
| Properties.ArrivalOrderFixesTurns | src/socket/index.ts:53-58 | after a create and a join, the players are in arrival order and the first turn is the creator's when the start position has White to move |
| Properties.MoveEffectIffTurnOwner | src/socket/index.ts:121-134 | a move emits something if and only if the room exists and the sender owns the turn; when it emits nothing, the registry is unchanged |
| Properties.LonePlayerStalls | src/socket/index.ts:128-129 | in a one-player room with Black to move, every move is dropped without effect |
| Properties.IllegalMoveClosesRoom | src/socket/index.ts:137-146 | an illegal move by the turn owner removes only that room and sends one illegalMove that reaches every member |
| Properties.LegalMoveRelayed | src/socket/index.ts:137-148 | a legal move that does not end the game keeps the invariant, keeps the keys and the players, replaces only that room's position, and the relay reaches only the sender's peers |
| Properties.PersistedRecords | src/socket/index.ts:160-173 | the persistence loop requests one store per player, in player order, each for that player's username |
| Properties.GameOverPersistsOncePerPlayer | src/socket/index.ts:150-178 | a game-ending move relays to the peers, broadcasts gameover to every member, stores exactly one record per player in player order, and removes only that room |
| Properties.DisconnectKeepsSharedRooms | src/socket/index.ts:184-203 | a disconnect removes exactly the rooms the connection held alone and keeps every other room, players included, with the invariant intact |
| Properties.DisconnectNoticeCount | src/socket/index.ts:187-201 | the number of notices equals the number of rooms the connection shares |
| Properties.DisconnectNotifiesPeers | src/socket/index.ts:192-201 | each notice is a playerDisconnected naming the leaving player, sent to its peers in a shared room |
| Properties.DisconnectDropsSoleRoom | src/socket/index.ts:192-197 | whatever other rooms the connection is in, a room it holds alone is gone afterwards and no event concerns it |
| Properties.DisconnectNotifiesSharedRoom | src/socket/index.ts:192-201 | whatever other rooms the connection is in, a room it shares stays unchanged and receives exactly one playerDisconnected, addressed to the connection's peers there |
| Properties.DisconnectLonePlayer | src/socket/index.ts:193-197 | when the connection is in no other room, disconnecting the only player of a room removes that room alone and sends nothing |
| Properties.DisconnectFromActiveRoom | src/socket/index.ts:199-201 | when the connection is in no other room, disconnecting either of the two players leaves the registry unchanged and tells only the other player, naming the player as stored in the room |
| Properties.CloseRoomEffect | src/socket/index.ts:205-217 | closing keeps the invariant, removes one entry if it existed, and the notice reaches every member but the requester |
| Properties.ReachableRegistriesWellFormed | src/socket/index.ts:36-218 | every registry reachable from the empty start-up registry satisfies the invariant |
| Properties.FullGameScenario | src/socket/index.ts:46-178 | create, join, a relayed opening and a mating reply leave the registry empty, broadcast gameover to both players and store the two players' records in order |

## Left out

- The `username` handler (src/socket/index.ts:41-44): the display name is a
  field of the `Player` passed to each handler.
- Transport details: `socket.join`, `socket.leave`, `io.in(...).fetchSockets()`,
  the CORS and server setup, and `server.listen` (lines 9-23, 49, 100, 208-213,
  220-222). Events are records, not deliveries.
- Events.Recipients: treats the Socket.IO broadcast group of a room as
  exactly the room's players in the registry. The transport keeps that group
  on its own, and its bookkeeping is not modelled.
- Handlers.SubmitMove: models every `prisma.game.create` call as completing.
  A rejected call would abort the loop at line 160 before `rooms.delete` at
  line 176, and the room would stay. Success and failure of the store are not
  modelled; each call is a `Persist` event.
- Handlers.SubmitMove: the second `isGameOver()` check at line 156 is always
  true once the branch at line 150 is taken, so it is modelled once.
- Chess rules, FEN, PGN and history: the engine is uninterpreted. `apply`
  returning `None` stands for `chess.move` returning a falsy value. Any
  exception the engine could throw is not modelled.
- Logging with `console.log`: it has no effect on state.
- Interleaving of the asynchronous handlers: each handler is one atomic step.
  No per-room locking is modelled.
- Handlers.Disconnect: the iteration order of the JavaScript `Map` is a
  parameter, because Dafny maps have no order. It fixes only the order of the
  emitted notices.
- Malformed arguments (for example, `args` being `undefined` in `joinRoom`)
  would throw in the source and are not modelled. Room ids and moves are
  always given.
- src/index.ts and src/REST/index.ts: HTTP routes, password hashing, token
  signing, cookies and user queries are I/O around libraries not shown here.
  `./socketHandler`, which src/index.ts imports, is not part of this model.
