/**
 Players, rooms and the process-wide registry that maps a room id to its room,
 together with the invariant every handler keeps.
 */
module Registry {
  import opened Wrappers
  import opened RulesEngine

  /** A connection id; unique per live connection. */
  type ConnId = string

  /** A room id, generated when the room is created. */
  type RoomId = string

  /** A room member: the connection and the display name bound to it, if any. */
  datatype Player = Player(id: ConnId, username: Option<string>)

  /**
   A room: its id, its players in arrival order (index 0 plays White) and the
   game bound to it. The server's `Room` type declares `chess` optional.
   */
  datatype Room = Room(roomId: RoomId, players: seq<Player>, chess: Option<Position>)

  type Rooms = map<RoomId, Room>

  /** The connection ids of a sequence of players. */
  function Ids(players: seq<Player>): set<ConnId>
  {
    set i | 0 <= i < |players| :: players[i].id
  }

  /** The ids of a pair of players. */
  lemma IdsOfPair(players: seq<Player>)
    requires |players| == 2
    ensures Ids(players) == {players[0].id, players[1].id}
  {
    assert players[0].id in Ids(players);
    assert players[1].id in Ids(players);
  }

  /** A registry entry is sound: keyed by its own id, 1 or 2 players, a game bound. */
  predicate WellFormedRoom(key: RoomId, room: Room)
  {
    && room.roomId == key
    && 1 <= |room.players| <= 2
    && room.chess.Some?
  }

  /** The registry invariant. */
  predicate WellFormed(rooms: Rooms)
  {
    forall k :: k in rooms ==> WellFormedRoom(k, rooms[k])
  }

  /** `conn` is the id of one of `players`. */
  predicate Member(players: seq<Player>, conn: ConnId)
  {
    exists i :: 0 <= i < |players| && players[i].id == conn
  }

  /**
   The first player with connection id `conn`, as `Array.prototype.find` returns it.
   */
  function FindPlayer(players: seq<Player>, conn: ConnId): (r: Option<Player>)
    ensures r.None? <==> !Member(players, conn)
    ensures r.Some? ==> exists i :: 0 <= i < |players| && players[i] == r.value && r.value.id == conn
                                    && forall j :: 0 <= j < i ==> players[j].id != conn
  {
    if |players| == 0 then None
    else if players[0].id == conn then Some(players[0])
    else
      var r := FindPlayer(players[1..], conn);
      assert Member(players, conn) ==> Member(players[1..], conn) by {
        if Member(players, conn) {
          var i :| 0 <= i < |players| && players[i].id == conn;
          assert players[1..][i - 1] == players[i];
        }
      }
      if r.Some? then
        var i :| 0 <= i < |players[1..]| && players[1..][i] == r.value && r.value.id == conn
                 && forall j :: 0 <= j < i ==> players[1..][j].id != conn;
        assert players[i + 1] == r.value;
        assert forall j :: 0 <= j < i + 1 ==> players[j].id != conn by {
          forall j | 0 <= j < i + 1 ensures players[j].id != conn {
            if j > 0 { assert players[j] == players[1..][j - 1]; }
          }
        }
        r
      else
        r
  }

  /** `conn` is in the room and nobody else could be: the room has fewer than two players. */
  predicate SoleOccupant(room: Room, conn: ConnId)
  {
    Member(room.players, conn) && |room.players| < 2
  }

  /** `conn` is in a room that has at least two players. */
  predicate SharesRoom(room: Room, conn: ConnId)
  {
    Member(room.players, conn) && |room.players| >= 2
  }
}
