/**
 The Socket.IO handlers of the game server, one pure transition each: a handler
 takes the registry, the requesting connection and the event's arguments, and
 returns the new registry together with the events it emits, in emission order.
 Each handler is one atomic step; interleaving of the asynchronous handlers is
 not modelled.
 */
module Handlers {
  import opened Wrappers
  import opened RulesEngine
  import opened Registry
  import opened Events

  /** The outcome of one handler: the registry afterwards and the emitted events. */
  datatype Step = Step(rooms: Rooms, events: seq<Event>)

  /**
   `createRoom`: store a new room under the caller-generated `id`, holding the
   requester alone and a game in its start position, then answer the id.
   The callback is invoked unconditionally after the store, so without one the
   room exists but no answer is sent.
   */
  function CreateRoom(rooms: Rooms, engine: Engine, requester: Player, id: RoomId, hasCallback: bool): (r: Step)
    requires id !in rooms
    ensures r.rooms.Keys == rooms.Keys + {id}
    ensures r.rooms[id].roomId == id && r.rooms[id].players == [requester]
    ensures r.rooms[id].chess == Some(engine.start)
    ensures forall k :: k in rooms ==> r.rooms[k] == rooms[k]
    ensures hasCallback ==> r.events == [Reply(requester.id, Created(id))]
    ensures !hasCallback ==> r.events == []
  {
    var room := Room(id, [requester], Some(engine.start));
    var answer := if hasCallback then [Reply(requester.id, Created(id))] else [];
    Step(rooms[id := room], answer)
  }

  /** Why `joinRoom` refuses, checked in the source's order; `None` when it admits. */
  function JoinRefusal(rooms: Rooms, roomId: RoomId): (r: Option<string>)
    ensures r.None? <==> roomId in rooms && |rooms[roomId].players| == 1
    ensures r.Some? ==>
              r.value == (if roomId !in rooms then "room does not exist"
                          else if |rooms[roomId].players| == 0 then "room is empty"
                          else "room is full")
  {
    if roomId !in rooms then Some(RoomMissing)
    else if |rooms[roomId].players| <= 0 then Some(RoomEmpty)
    else if |rooms[roomId].players| >= 2 then Some(RoomFull)
    else None
  }

  /**
   `joinRoom`: refuse a missing, empty or full room, answering only the
   requester (and only if it gave a callback); otherwise append the requester
   as the second player, answer the updated room and tell the others in the
   room that an opponent joined. Without a callback on the admitting path the
   call throws after the store, so the emit is not reached.
   */
  function JoinRoom(rooms: Rooms, requester: Player, roomId: RoomId, hasCallback: bool): (r: Step)
    ensures roomId !in rooms ==>
              && r.rooms == rooms
              && r.events == (if hasCallback then [Reply(requester.id, JoinFailed(RoomMissing))] else [])
    ensures roomId in rooms && |rooms[roomId].players| == 0 ==>
              && r.rooms == rooms
              && r.events == (if hasCallback then [Reply(requester.id, JoinFailed(RoomEmpty))] else [])
    ensures roomId in rooms && |rooms[roomId].players| >= 2 ==>
              && r.rooms == rooms
              && r.events == (if hasCallback then [Reply(requester.id, JoinFailed(RoomFull))] else [])
    ensures roomId in rooms && |rooms[roomId].players| == 1 ==>
              && r.rooms.Keys == rooms.Keys
              && r.rooms[roomId].players == rooms[roomId].players + [requester]
              && r.rooms[roomId].roomId == rooms[roomId].roomId
              && r.rooms[roomId].chess == rooms[roomId].chess
              && (forall k :: k in rooms && k != roomId ==> r.rooms[k] == rooms[k])
              && r.events == (if hasCallback
                              then [Reply(requester.id, Joined(r.rooms[roomId])),
                                    ToPeers(roomId, requester.id, OpponentJoined(r.rooms[roomId]))]
                              else [])
  {
    match JoinRefusal(rooms, roomId)
    case Some(message) =>
      Step(rooms, if hasCallback then [Reply(requester.id, JoinFailed(message))] else [])
    case None =>
      var room := rooms[roomId];
      var update := room.(players := room.players + [requester]);
      var events := if hasCallback
                    then [Reply(requester.id, Joined(update)), ToPeers(roomId, requester.id, OpponentJoined(update))]
                    else [];
      Step(rooms[roomId := update], events)
  }

  /**
   The connection entitled to move in `room`: the player at index 0 when White
   is to move, at index 1 otherwise; `None` when that slot is empty (reading
   its id throws in the source) or no game is bound.
   */
  function TurnOwner(room: Room, engine: Engine): (owner: Option<ConnId>)
    ensures owner.Some? <==>
              room.chess.Some? && (if engine.whiteToMove(room.chess.value) then 0 else 1) < |room.players|
    ensures owner.Some? && engine.whiteToMove(room.chess.value) ==> owner.value == room.players[0].id
    ensures owner.Some? && !engine.whiteToMove(room.chess.value) ==> owner.value == room.players[1].id
  {
    match room.chess
    case None => None
    case Some(p) =>
      var index := if engine.whiteToMove(p) then 0 else 1;
      if index < |room.players| then Some(room.players[index].id) else None
  }

  /** The record stored for each player when a game ends in `final`. */
  function Records(players: seq<Player>, engine: Engine, final: Position): seq<Event>
  {
    seq(|players|, i requires 0 <= i < |players| =>
      Persist(GameRecord(engine.fen(final), engine.history(final), engine.pgn(final), players[i].username)))
  }

  /**
   `move`: ignore an unknown room and a sender who does not own the turn.
   Otherwise hand the move to the engine: an illegal move is announced to the
   whole room and the room is dropped; a legal one is relayed to the peers and,
   if it ends the game, the end is announced to the room, one record per player
   is stored in player order, and the room is dropped.
   */
  function SubmitMove(rooms: Rooms, engine: Engine, requester: Player, roomId: RoomId, move: Move): (r: Step)
    ensures roomId !in rooms ==> r == Step(rooms, [])
    ensures roomId in rooms && TurnOwner(rooms[roomId], engine) != Some(requester.id) ==> r == Step(rooms, [])
    ensures roomId in rooms && TurnOwner(rooms[roomId], engine) == Some(requester.id) ==>
      var p := rooms[roomId].chess.value;
      match engine.apply(p, move)
      case None =>
        && r.rooms == rooms - {roomId}
        && r.events == [ToRoom(roomId, IllegalMove(IllegalMoveText))]
      case Some(next) =>
        if engine.isGameOver(next) then
          && r.rooms == rooms - {roomId}
          && r.events == [ToPeers(roomId, requester.id, MoveMade(move)), ToRoom(roomId, GameOver(next))]
                         + Records(rooms[roomId].players, engine, next)
        else
          && r.rooms == rooms[roomId := rooms[roomId].(chess := Some(next))]
          && r.events == [ToPeers(roomId, requester.id, MoveMade(move))]
  {
    if roomId !in rooms || rooms[roomId].chess.None? then Step(rooms, [])
    else
      var room := rooms[roomId];
      if TurnOwner(room, engine) != Some(requester.id) then Step(rooms, [])
      else
        match engine.apply(room.chess.value, move)
        case None =>
          Step(rooms - {roomId}, [ToRoom(roomId, IllegalMove(IllegalMoveText))])
        case Some(next) =>
          var relay := ToPeers(roomId, requester.id, MoveMade(move));
          if engine.isGameOver(next) then
            Step(rooms - {roomId}, [relay, ToRoom(roomId, GameOver(next))] + Records(room.players, engine, next))
          else
            Step(rooms[roomId := room.(chess := Some(next))], [relay])
  }

  /** No element of `s` occurs twice. */
  predicate Distinct<T(==)>(s: seq<T>)
  {
    forall i, j :: 0 <= i < j < |s| ==> s[i] != s[j]
  }

  /** `keys` lists every key of `rooms` exactly once: one iteration order of the registry. */
  predicate Enumerates(keys: seq<RoomId>, rooms: Rooms)
  {
    && Distinct(keys)
    && (forall k :: k in keys ==> k in rooms)
    && (forall k :: k in rooms ==> k in keys)
  }

  /**
   One run of the `disconnect` callback for a room of the snapshot: a room the
   connection is not in is skipped; a room it holds alone is dropped (by the
   room's own id) without notice; otherwise the others are told which player left.
   */
  function LeaveRoom(rooms: Rooms, room: Room, conn: ConnId): Step
  {
    match FindPlayer(room.players, conn)
    case None => Step(rooms, [])
    case Some(user) =>
      if |room.players| < 2 then Step(rooms - {room.roomId}, [])
      else Step(rooms, [ToPeers(room.roomId, conn, PlayerDisconnected(user))])
  }

  /** The `playerDisconnected` event for a room `conn` is in. */
  function DisconnectNotice(room: Room, conn: ConnId): Event
    requires Member(room.players, conn)
  {
    ToPeers(room.roomId, conn, PlayerDisconnected(FindPlayer(room.players, conn).value))
  }

  /** The keys of `order`, in order, whose snapshot room `conn` shares with at least one other slot. */
  function Shared(snapshot: Rooms, order: seq<RoomId>, conn: ConnId): (s: seq<RoomId>)
    requires forall k :: k in order ==> k in snapshot
    ensures forall k :: k in s <==> k in order && SharesRoom(snapshot[k], conn)
    ensures |s| <= |order|
  {
    if order == [] then []
    else
      var rest := Shared(snapshot, order[1..], conn);
      if SharesRoom(snapshot[order[0]], conn) then [order[0]] + rest else rest
  }

  /** The room ids the callback deletes while walking `order`: rooms `conn` holds alone. */
  function Abandoned(snapshot: Rooms, order: seq<RoomId>, conn: ConnId): set<RoomId>
    requires forall k :: k in order ==> k in snapshot
  {
    set k | k in order && SoleOccupant(snapshot[k], conn) :: snapshot[k].roomId
  }

  /**
   The `forEach` of `disconnect` over the snapshot `snapshot`, visiting its keys
   in the order `order`; `rooms` is the live registry the callbacks update.
   */
  function DisconnectFrom(rooms: Rooms, snapshot: Rooms, order: seq<RoomId>, conn: ConnId): (r: Step)
    requires forall k :: k in order ==> k in snapshot
    ensures r.rooms == rooms - Abandoned(snapshot, order, conn)
    ensures |r.events| == |Shared(snapshot, order, conn)|
    ensures forall i :: 0 <= i < |r.events| ==>
              r.events[i] == DisconnectNotice(snapshot[Shared(snapshot, order, conn)[i]], conn)
    decreases |order|
  {
    if order == [] then Step(rooms, [])
    else
      var room := snapshot[order[0]];
      var head := LeaveRoom(rooms, room, conn);
      var tail := DisconnectFrom(head.rooms, snapshot, order[1..], conn);
      LeaveRoomEffect(rooms, room, conn);
      AbandonedCons(snapshot, order, conn);
      SubtractTwice(rooms, if SoleOccupant(room, conn) then {room.roomId} else {}, Abandoned(snapshot, order[1..], conn));
      var events := head.events + tail.events;
      ghost var shared := Shared(snapshot, order, conn);
      ghost var shared' := Shared(snapshot, order[1..], conn);
      assert |events| == |shared| && forall i :: 0 <= i < |events| ==> events[i] == DisconnectNotice(snapshot[shared[i]], conn) by {
        if SharesRoom(room, conn) {
          assert shared == [order[0]] + shared';
          forall i | 0 <= i < |events| ensures events[i] == DisconnectNotice(snapshot[shared[i]], conn) {
            if i > 0 { assert events[i] == tail.events[i - 1] && shared[i] == shared'[i - 1]; }
          }
        } else {
          assert shared == shared' && events == tail.events;
        }
      }
      Step(tail.rooms, events)
  }

  /**
   One callback run deletes the room's own id exactly when the connection is
   its sole occupant, and notifies the peers exactly when it shares the room.
   */
  lemma LeaveRoomEffect(rooms: Rooms, room: Room, conn: ConnId)
    ensures LeaveRoom(rooms, room, conn).rooms == rooms - (if SoleOccupant(room, conn) then {room.roomId} else {})
    ensures LeaveRoom(rooms, room, conn).events == (if SharesRoom(room, conn) then [DisconnectNotice(room, conn)] else [])
  {
  }

  lemma AbandonedCons(snapshot: Rooms, order: seq<RoomId>, conn: ConnId)
    requires order != [] && forall k :: k in order ==> k in snapshot
    ensures Abandoned(snapshot, order, conn)
         == (if SoleOccupant(snapshot[order[0]], conn) then {snapshot[order[0]].roomId} else {})
            + Abandoned(snapshot, order[1..], conn)
  {
    assert forall k :: k in order <==> k == order[0] || k in order[1..];
  }

  lemma SubtractTwice(m: Rooms, a: set<RoomId>, b: set<RoomId>)
    ensures m - a - b == m - (a + b)
  {
  }

  /**
   `disconnect`: walk a snapshot of every room, in the registry's iteration
   order `order`; drop each room the connection holds alone and notify the
   peers of each room it shares. The player is never removed from a room.
   */
  function Disconnect(rooms: Rooms, requester: Player, order: seq<RoomId>): (r: Step)
    requires Enumerates(order, rooms)
    ensures r.rooms == rooms - (set k | k in rooms && SoleOccupant(rooms[k], requester.id) :: rooms[k].roomId)
    ensures |r.events| == |Shared(rooms, order, requester.id)|
    ensures forall i :: 0 <= i < |r.events| ==>
              r.events[i] == DisconnectNotice(rooms[Shared(rooms, order, requester.id)[i]], requester.id)
  {
    var r := DisconnectFrom(rooms, rooms, order, requester.id);
    assert Abandoned(rooms, order, requester.id)
        == (set k | k in rooms && SoleOccupant(rooms[k], requester.id) :: rooms[k].roomId);
    r
  }

  /** `closeRoom`: tell the other members, then drop the room whether or not it exists. */
  function CloseRoom(rooms: Rooms, requester: Player, roomId: RoomId): (r: Step)
    ensures r.rooms.Keys == rooms.Keys - {roomId}
    ensures forall k :: k in r.rooms ==> r.rooms[k] == rooms[k]
    ensures roomId !in rooms ==> r.rooms == rooms
    ensures r.events == [ToPeers(roomId, requester.id, RoomClosed(roomId))]
  {
    Step(rooms - {roomId}, [ToPeers(roomId, requester.id, RoomClosed(roomId))])
  }
}
