/**
 Properties of the handlers that relate their results to the registry
 invariant, to turn ownership and to who receives which event.
 */
module Properties {
  import opened Wrappers
  import opened RulesEngine
  import opened Registry
  import opened Events
  import opened Handlers
  import opened Session

  // ---------------------------------------------------------------- createRoom

  /** A created room is waiting for an opponent, and its creator owns the first turn. */
  lemma CreateRoomWaits(rooms: Rooms, engine: Engine, requester: Player, id: RoomId, hasCallback: bool)
    requires id !in rooms && WellFormed(rooms)
    requires engine.whiteToMove(engine.start)
    ensures var r := CreateRoom(rooms, engine, requester, id, hasCallback);
            && WellFormed(r.rooms)
            && |r.rooms| == |rooms| + 1
            && TurnOwner(r.rooms[id], engine) == Some(requester.id)
            && forall e :: e in r.events ==> Recipients(e, r.rooms[id].players) == {requester.id}
  {
  }

  // ------------------------------------------------------------------ joinRoom

  /** A join leaves the registry as it was exactly when it is refused. */
  lemma JoinUnchangedIffRefused(rooms: Rooms, requester: Player, roomId: RoomId, hasCallback: bool)
    ensures JoinRoom(rooms, requester, roomId, hasCallback).rooms == rooms
            <==> JoinRefusal(rooms, roomId).Some?
  {
    var r := JoinRoom(rooms, requester, roomId, hasCallback);
    if JoinRefusal(rooms, roomId).None? {
      assert |r.rooms[roomId].players| == 2 != |rooms[roomId].players|;
    }
  }

  /** A refused join answers the requester alone, with the first reason that applies. */
  lemma JoinRefusalAnswersRequesterOnly(rooms: Rooms, requester: Player, roomId: RoomId, hasCallback: bool,
                                         members: seq<Player>)
    requires JoinRefusal(rooms, roomId).Some?
    ensures var r := JoinRoom(rooms, requester, roomId, hasCallback);
            && |r.events| == (if hasCallback then 1 else 0)
            && forall e :: e in r.events ==>
                 && e == Reply(requester.id, JoinFailed(JoinRefusal(rooms, roomId).value))
                 && Recipients(e, members) == {requester.id}
  {
  }

  /**
   An admitted join turns a waiting room into an active one: the creator stays
   first, the joiner is second, the game is the same, the joiner is answered
   with the room and exactly the creator (unless it is the joiner itself) hears
   `opponentJoined`.
   */
  lemma JoinAdmitsSecondPlayer(rooms: Rooms, requester: Player, roomId: RoomId)
    requires WellFormed(rooms) && roomId in rooms && JoinRefusal(rooms, roomId).None?
    ensures var r := JoinRoom(rooms, requester, roomId, true);
            var joined := r.rooms[roomId];
            && WellFormed(r.rooms)
            && joined.players == [rooms[roomId].players[0], requester]
            && joined.chess == rooms[roomId].chess
            && r.events[0] == Reply(requester.id, Joined(joined))
            && r.events[1].notice == OpponentJoined(joined)
            && Recipients(r.events[1], joined.players) == {rooms[roomId].players[0].id} - {requester.id}
  {
    var r := JoinRoom(rooms, requester, roomId, true);
    var joined := r.rooms[roomId];
    IdsOfPair(joined.players);
  }

  /** After a create and a join, the player order is the arrival order and the creator moves first. */
  lemma ArrivalOrderFixesTurns(rooms: Rooms, engine: Engine, creator: Player, joiner: Player, id: RoomId)
    requires id !in rooms
    ensures var created := CreateRoom(rooms, engine, creator, id, true).rooms;
            var joined := JoinRoom(created, joiner, id, true).rooms;
            && joined[id].players == [creator, joiner]
            && TurnOwner(joined[id], engine) == Some(if engine.whiteToMove(engine.start) then creator.id else joiner.id)
  {
  }

  // ---------------------------------------------------------------------- move

  /**
   A move has any effect at all exactly when the room exists and the sender
   owns the turn; otherwise nothing changes and nobody hears of it.
   */
  lemma MoveEffectIffTurnOwner(rooms: Rooms, engine: Engine, requester: Player, roomId: RoomId, move: Move)
    ensures var r := SubmitMove(rooms, engine, requester, roomId, move);
            (r.events == []) <==> (roomId !in rooms || TurnOwner(rooms[roomId], engine) != Some(requester.id))
    ensures var r := SubmitMove(rooms, engine, requester, roomId, move);
            r.events == [] ==> r.rooms == rooms
  {
  }

  /**
   The quirk of a room still waiting for an opponent: once its lone player has
   moved for White, Black's slot is empty and every further move is dropped.
   */
  lemma LonePlayerStalls(rooms: Rooms, engine: Engine, requester: Player, roomId: RoomId, move: Move)
    requires roomId in rooms && |rooms[roomId].players| == 1
    requires rooms[roomId].chess.Some? && !engine.whiteToMove(rooms[roomId].chess.value)
    ensures SubmitMove(rooms, engine, requester, roomId, move) == Step(rooms, [])
  {
  }

  /** An illegal move by the turn owner is announced to every member and ends the room. */
  lemma IllegalMoveClosesRoom(rooms: Rooms, engine: Engine, requester: Player, roomId: RoomId, move: Move)
    requires roomId in rooms && TurnOwner(rooms[roomId], engine) == Some(requester.id)
    requires engine.apply(rooms[roomId].chess.value, move).None?
    ensures var r := SubmitMove(rooms, engine, requester, roomId, move);
            && roomId !in r.rooms
            && (forall k :: k in rooms && k != roomId ==> k in r.rooms && r.rooms[k] == rooms[k])
            && |r.events| == 1
            && r.events[0].notice.IllegalMove?
            && Recipients(r.events[0], rooms[roomId].players) == Ids(rooms[roomId].players)
  {
  }

  /**
   A legal move that does not end the game replaces only that room's position
   and is relayed to the sender's peers only.
   */
  lemma LegalMoveRelayed(rooms: Rooms, engine: Engine, requester: Player, roomId: RoomId, move: Move)
    requires WellFormed(rooms)
    requires roomId in rooms && TurnOwner(rooms[roomId], engine) == Some(requester.id)
    requires engine.apply(rooms[roomId].chess.value, move).Some?
    requires !engine.isGameOver(engine.apply(rooms[roomId].chess.value, move).value)
    ensures var r := SubmitMove(rooms, engine, requester, roomId, move);
            var next := engine.apply(rooms[roomId].chess.value, move).value;
            && WellFormed(r.rooms)
            && r.rooms.Keys == rooms.Keys
            && r.rooms[roomId].players == rooms[roomId].players
            && r.rooms[roomId].chess == Some(next)
            && (forall k :: k in rooms && k != roomId ==> r.rooms[k] == rooms[k])
            && r.events == [ToPeers(roomId, requester.id, MoveMade(move))]
            && Recipients(r.events[0], rooms[roomId].players) == Ids(rooms[roomId].players) - {requester.id}
  {
  }

  lemma {:induction false} PersistedAppend(a: seq<Event>, b: seq<Event>)
    ensures Persisted(a + b) == Persisted(a) + Persisted(b)
    decreases |a|
  {
    if a == [] {
      assert a + b == b;
    } else {
      assert (a + b)[0] == a[0];
      assert (a + b)[1..] == a[1..] + b;
      PersistedAppend(a[1..], b);
    }
  }

  lemma {:induction false} PersistedRecords(players: seq<Player>, engine: Engine, final: Position)
    ensures Persisted(Records(players, engine, final)) == seq(|players|, i requires 0 <= i < |players| => players[i].username)
    decreases |players|
  {
    if players != [] {
      var rs := Records(players, engine, final);
      assert rs[1..] == Records(players[1..], engine, final);
      PersistedRecords(players[1..], engine, final);
    }
  }

  /**
   A legal move that ends the game: the move is relayed to the peers, the end
   is announced to every member, one record is stored per player in player
   order, and the room is gone.
   */
  lemma GameOverPersistsOncePerPlayer(rooms: Rooms, engine: Engine, requester: Player, roomId: RoomId, move: Move)
    requires roomId in rooms && TurnOwner(rooms[roomId], engine) == Some(requester.id)
    requires engine.apply(rooms[roomId].chess.value, move).Some?
    requires engine.isGameOver(engine.apply(rooms[roomId].chess.value, move).value)
    ensures var r := SubmitMove(rooms, engine, requester, roomId, move);
            var players := rooms[roomId].players;
            && roomId !in r.rooms
            && (forall k :: k in rooms && k != roomId ==> k in r.rooms && r.rooms[k] == rooms[k])
            && Recipients(r.events[0], players) == Ids(players) - {requester.id}
            && r.events[1].notice.GameOver?
            && Recipients(r.events[1], players) == Ids(players)
            && Persisted(r.events) == seq(|players|, i requires 0 <= i < |players| => players[i].username)
  {
    var r := SubmitMove(rooms, engine, requester, roomId, move);
    var next := engine.apply(rooms[roomId].chess.value, move).value;
    var head := [ToPeers(roomId, requester.id, MoveMade(move)), ToRoom(roomId, GameOver(next))];
    var records := Records(rooms[roomId].players, engine, next);
    PersistedAppend(head, records);
    assert Persisted(head) == [];
    PersistedRecords(rooms[roomId].players, engine, next);
  }

  // ---------------------------------------------------------------- disconnect

  lemma {:induction false} SharedDistinct(snapshot: Rooms, order: seq<RoomId>, conn: ConnId)
    requires forall k :: k in order ==> k in snapshot
    requires Distinct(order)
    ensures Distinct(Shared(snapshot, order, conn))
    decreases |order|
  {
    if order != [] {
      assert Distinct(order[1..]);
      SharedDistinct(snapshot, order[1..], conn);
      assert order[0] !in order[1..];
    }
  }

  lemma {:induction false} DistinctCard<T>(s: seq<T>)
    requires Distinct(s)
    ensures |set x | x in s| == |s|
    decreases |s|
  {
    if s != [] {
      assert Distinct(s[1..]);
      DistinctCard(s[1..]);
      assert (set x | x in s) == {s[0]} + (set x | x in s[1..]);
      assert s[0] !in s[1..];
    }
  }

  /**
   A disconnect drops exactly the rooms the connection held alone and keeps
   every other room as it was, its players included.
   */
  lemma DisconnectKeepsSharedRooms(rooms: Rooms, requester: Player, order: seq<RoomId>)
    requires WellFormed(rooms) && Enumerates(order, rooms)
    ensures var r := Disconnect(rooms, requester, order);
            && WellFormed(r.rooms)
            && (forall k :: k in r.rooms <==> k in rooms && !SoleOccupant(rooms[k], requester.id))
            && (forall k :: k in r.rooms ==> r.rooms[k] == rooms[k])
  {
    var conn := requester.id;
    var gone := set k | k in rooms && SoleOccupant(rooms[k], conn) :: rooms[k].roomId;
    assert gone == set k | k in rooms && SoleOccupant(rooms[k], conn);
  }

  /** A disconnect sends exactly one event per room the connection shares. */
  lemma DisconnectNoticeCount(rooms: Rooms, requester: Player, order: seq<RoomId>)
    requires Enumerates(order, rooms)
    ensures |Disconnect(rooms, requester, order).events|
            == |set k | k in rooms && SharesRoom(rooms[k], requester.id)|
  {
    var shared := Shared(rooms, order, requester.id);
    SharedDistinct(rooms, order, requester.id);
    DistinctCard(shared);
    assert (set x | x in shared) == set k | k in rooms && SharesRoom(rooms[k], requester.id);
  }

  /**
   Every event of a disconnect is a `playerDisconnected` naming the leaving
   player, sent to its peers in a room it shares.
   */
  lemma DisconnectNotifiesPeers(rooms: Rooms, requester: Player, order: seq<RoomId>)
    requires WellFormed(rooms) && Enumerates(order, rooms)
    ensures forall e :: e in Disconnect(rooms, requester, order).events ==>
              && e.roomId in rooms && SharesRoom(rooms[e.roomId], requester.id)
              && e.notice.PlayerDisconnected? && e.notice.player.id == requester.id
              && Recipients(e, rooms[e.roomId].players) == Ids(rooms[e.roomId].players) - {requester.id}
  {
    var conn := requester.id;
    var r := Disconnect(rooms, requester, order);
    var shared := Shared(rooms, order, conn);
    forall e | e in r.events
      ensures && e.roomId in rooms && SharesRoom(rooms[e.roomId], conn)
              && e.notice.PlayerDisconnected? && e.notice.player.id == conn
    {
      var i :| 0 <= i < |r.events| && r.events[i] == e;
      assert shared[i] in shared;
    }
  }

  /**
   Disconnecting the lone player of a waiting room, when the connection is in
   no other room, removes that room and nothing else, silently.
   */
  lemma DisconnectLonePlayer(rooms: Rooms, requester: Player, order: seq<RoomId>, roomId: RoomId)
    requires WellFormed(rooms) && Enumerates(order, rooms)
    requires roomId in rooms && |rooms[roomId].players| == 1 && rooms[roomId].players[0].id == requester.id
    requires forall k :: k in rooms && k != roomId ==> !Member(rooms[k].players, requester.id)
    ensures Disconnect(rooms, requester, order) == Step(rooms - {roomId}, [])
  {
    var conn := requester.id;
    var r := Disconnect(rooms, requester, order);
    assert (set k | k in rooms && SoleOccupant(rooms[k], conn) :: rooms[k].roomId) == {roomId};
    var shared := Shared(rooms, order, conn);
    SharedDistinct(rooms, order, conn);
    DistinctCard(shared);
    assert (set x | x in shared) == {};
  }

  /**
   Disconnecting either of two players, when the connection is in no other
   room, keeps the registry as it was and tells the other player alone,
   naming the player as the room stored it.
   */
  lemma DisconnectFromActiveRoom(rooms: Rooms, requester: Player, stored: Player, peer: Player,
                                 order: seq<RoomId>, roomId: RoomId)
    requires WellFormed(rooms) && Enumerates(order, rooms)
    requires roomId in rooms && rooms[roomId].players in {[stored, peer], [peer, stored]}
    requires stored.id == requester.id && peer.id != requester.id
    requires forall k :: k in rooms && k != roomId ==> !Member(rooms[k].players, requester.id)
    ensures var r := Disconnect(rooms, requester, order);
            && r.rooms == rooms
            && r.events == [ToPeers(roomId, requester.id, PlayerDisconnected(stored))]
            && Recipients(r.events[0], rooms[roomId].players) == {peer.id}
  {
    var conn := requester.id;
    PairMembership(rooms[roomId].players, stored, peer);
    NoAbandonedRoom(rooms, conn, roomId);
    OnlySharedRoom(rooms, order, conn, roomId);
    DisconnectOneNotice(rooms, requester, order, roomId);
    assert rooms[roomId].roomId == roomId;
  }

  /**
   Whatever other rooms the connection is in, a room it holds alone is gone
   after a disconnect and no event concerns it.
   */
  lemma DisconnectDropsSoleRoom(rooms: Rooms, requester: Player, order: seq<RoomId>, roomId: RoomId)
    requires WellFormed(rooms) && Enumerates(order, rooms)
    requires roomId in rooms && |rooms[roomId].players| == 1 && rooms[roomId].players[0].id == requester.id
    ensures var r := Disconnect(rooms, requester, order);
            && roomId !in r.rooms
            && forall e :: e in r.events ==> e.roomId != roomId
  {
    assert SoleOccupant(rooms[roomId], requester.id);
    DisconnectKeepsSharedRooms(rooms, requester, order);
    DisconnectNotifiesPeers(rooms, requester, order);
  }

  /**
   Whatever other rooms the connection is in, a room it shares survives a
   disconnect unchanged and receives exactly one `playerDisconnected`,
   addressed to the connection's peers there.
   */
  lemma DisconnectNotifiesSharedRoom(rooms: Rooms, requester: Player, order: seq<RoomId>, roomId: RoomId)
    requires WellFormed(rooms) && Enumerates(order, rooms)
    requires roomId in rooms && SharesRoom(rooms[roomId], requester.id)
    ensures var r := Disconnect(rooms, requester, order);
            && roomId in r.rooms && r.rooms[roomId] == rooms[roomId]
            && exists i :: 0 <= i < |r.events|
                 && r.events[i] == DisconnectNotice(rooms[roomId], requester.id)
                 && Recipients(r.events[i], rooms[roomId].players) == Ids(rooms[roomId].players) - {requester.id}
                 && forall j :: 0 <= j < |r.events| && j != i ==> r.events[j].roomId != roomId
  {
    var r := Disconnect(rooms, requester, order);
    SharedRoomKept(rooms, requester, order, roomId);
    var i := SharedRoomNotice(rooms, requester, order, roomId);
    var e := r.events[i];
    assert e.ToPeers? && e.sender == requester.id;
    assert Recipients(e, rooms[roomId].players) == Ids(rooms[roomId].players) - {requester.id};
  }

  /** A room the connection shares survives its disconnect unchanged. */
  lemma SharedRoomKept(rooms: Rooms, requester: Player, order: seq<RoomId>, roomId: RoomId)
    requires WellFormed(rooms) && Enumerates(order, rooms)
    requires roomId in rooms && SharesRoom(rooms[roomId], requester.id)
    ensures var r := Disconnect(rooms, requester, order);
            roomId in r.rooms && r.rooms[roomId] == rooms[roomId]
  {
    DisconnectKeepsSharedRooms(rooms, requester, order);
  }

  /** The index of the one notice a shared room receives. */
  lemma SharedRoomNotice(rooms: Rooms, requester: Player, order: seq<RoomId>, roomId: RoomId) returns (i: nat)
    requires WellFormed(rooms) && Enumerates(order, rooms)
    requires roomId in rooms && SharesRoom(rooms[roomId], requester.id)
    ensures var events := Disconnect(rooms, requester, order).events;
            && i < |events|
            && events[i] == DisconnectNotice(rooms[roomId], requester.id)
            && forall j :: 0 <= j < |events| && j != i ==> events[j].roomId != roomId
  {
    var conn := requester.id;
    var events := Disconnect(rooms, requester, order).events;
    var shared := Shared(rooms, order, conn);
    SharedDistinct(rooms, order, conn);
    assert roomId in shared;
    i :| 0 <= i < |shared| && shared[i] == roomId;
    forall j | 0 <= j < |events| && j != i
      ensures events[j].roomId != roomId
    {
      assert shared[j] in shared;
      assert events[j].roomId == rooms[shared[j]].roomId == shared[j];
    }
  }

  /** With no abandoned room and one shared room, a disconnect is one notice and no change. */
  lemma DisconnectOneNotice(rooms: Rooms, requester: Player, order: seq<RoomId>, roomId: RoomId)
    requires Enumerates(order, rooms) && roomId in rooms && Member(rooms[roomId].players, requester.id)
    requires (set k | k in rooms && SoleOccupant(rooms[k], requester.id) :: rooms[k].roomId) == {}
    requires Shared(rooms, order, requester.id) == [roomId]
    ensures Disconnect(rooms, requester, order) == Step(rooms, [DisconnectNotice(rooms[roomId], requester.id)])
  {
    var r := Disconnect(rooms, requester, order);
    assert r.rooms == rooms - {};
    assert r.events == [r.events[0]];
  }

  /** A connection that occupies only a shared room abandons no room. */
  lemma NoAbandonedRoom(rooms: Rooms, conn: ConnId, roomId: RoomId)
    requires roomId in rooms && SharesRoom(rooms[roomId], conn)
    requires forall k :: k in rooms && k != roomId ==> !Member(rooms[k].players, conn)
    ensures (set k | k in rooms && SoleOccupant(rooms[k], conn) :: rooms[k].roomId) == {}
  {
  }

  /** A connection that occupies exactly one room, a shared one, is notified about in that room alone. */
  lemma OnlySharedRoom(rooms: Rooms, order: seq<RoomId>, conn: ConnId, roomId: RoomId)
    requires Enumerates(order, rooms)
    requires roomId in rooms && SharesRoom(rooms[roomId], conn)
    requires forall k :: k in rooms && k != roomId ==> !Member(rooms[k].players, conn)
    ensures Shared(rooms, order, conn) == [roomId]
  {
    var shared := Shared(rooms, order, conn);
    SharedDistinct(rooms, order, conn);
    DistinctCard(shared);
    assert (set x | x in shared) == {roomId};
    assert shared[0] in shared;
  }

  /** In a room of two distinct players, either one is found as itself and shares the room with the other. */
  lemma PairMembership(players: seq<Player>, requester: Player, peer: Player)
    requires players in {[requester, peer], [peer, requester]} && peer.id != requester.id
    ensures Member(players, requester.id) && |players| == 2
    ensures FindPlayer(players, requester.id) == Some(requester)
    ensures Ids(players) == {requester.id, peer.id}
  {
    IdsOfPair(players);
    if players == [requester, peer] {
      assert players[0].id == requester.id;
    } else {
      assert players[1].id == requester.id;
      assert players[1..] == [requester];
    }
  }

  // ----------------------------------------------------------------- closeRoom

  /** Closing tells the others in the room and removes exactly that id. */
  lemma CloseRoomEffect(rooms: Rooms, requester: Player, roomId: RoomId)
    requires WellFormed(rooms)
    ensures var r := CloseRoom(rooms, requester, roomId);
            && WellFormed(r.rooms)
            && roomId !in r.rooms
            && |r.rooms| == (if roomId in rooms then |rooms| - 1 else |rooms|)
            && (roomId in rooms ==>
                  Recipients(r.events[0], rooms[roomId].players) == Ids(rooms[roomId].players) - {requester.id})
  {
  }

  // ------------------------------------------------------------------ sessions

  /** Every registry reachable from the empty start-up registry satisfies the invariant. */
  lemma ReachableRegistriesWellFormed(engine: Engine, calls: seq<Call>)
    requires AdmissibleRun(map[], engine, calls)
    ensures WellFormed(Run(map[], engine, calls).rooms)
  {
  }

  /**
   A whole game: create, join, a legal opening by the creator relayed to the
   joiner, then a mating reply by the joiner that ends the room and stores one
   record per player.
   */
  lemma FullGameScenario(engine: Engine, a: Player, b: Player, id: RoomId, m1: Move, m2: Move)
    requires a.id != b.id
    requires engine.whiteToMove(engine.start)
    requires engine.apply(engine.start, m1).Some?
    requires !engine.isGameOver(engine.apply(engine.start, m1).value)
    requires !engine.whiteToMove(engine.apply(engine.start, m1).value)
    requires engine.apply(engine.apply(engine.start, m1).value, m2).Some?
    requires engine.isGameOver(engine.apply(engine.apply(engine.start, m1).value, m2).value)
    ensures var s1 := CreateRoom(map[], engine, a, id, true);
            var s2 := JoinRoom(s1.rooms, b, id, true);
            var s3 := SubmitMove(s2.rooms, engine, a, id, m1);
            var s4 := SubmitMove(s3.rooms, engine, b, id, m2);
            && s1.events == [Reply(a.id, Created(id))]
            && s2.rooms[id].players == [a, b]
            && TurnOwner(s2.rooms[id], engine) == Some(a.id)
            && id in s3.rooms
            && s3.events == [ToPeers(id, a.id, MoveMade(m1))]
            && Recipients(s3.events[0], [a, b]) == {b.id}
            && s4.rooms == map[]
            && s4.events[1].notice.GameOver?
            && Recipients(s4.events[1], [a, b]) == {a.id, b.id}
            && Persisted(s4.events) == [a.username, b.username]
  {
    var s1 := CreateRoom(map[], engine, a, id, true);
    var s2 := JoinRoom(s1.rooms, b, id, true);
    var s3 := SubmitMove(s2.rooms, engine, a, id, m1);
    IdsOfPair([a, b]);
    GameOverPersistsOncePerPlayer(s3.rooms, engine, b, id, m2);
    var s4 := SubmitMove(s3.rooms, engine, b, id, m2);
    assert s4.rooms == map[];
  }
}
