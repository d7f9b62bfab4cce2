/**
 Outbound notifications. A handler does not write to sockets; it returns the
 events it would emit, each tagged with its delivery scope.
 */
module Events {
  import opened Wrappers
  import opened RulesEngine
  import opened Registry

  const RoomMissing: string := "room does not exist"
  const RoomEmpty: string := "room is empty"
  const RoomFull: string := "room is full"
  const IllegalMoveText: string := "Illegal move detected. Room will be closed."

  /** What the requester's acknowledgement callback is called with. */
  datatype Answer =
    | Created(roomId: RoomId)
    | Joined(room: Room)
    | JoinFailed(message: string)

  /** Named events pushed to room members. */
  datatype Notice =
    | OpponentJoined(room: Room)
    | MoveMade(move: Move)
    | IllegalMove(message: string)
    | GameOver(final: Position)
    | PlayerDisconnected(player: Player)
    | RoomClosed(roomId: RoomId)

  /** One completed-game record handed to the store, for one player. */
  datatype GameRecord = GameRecord(fen: string, history: seq<string>, pgn: string, user: Option<string>)

  datatype Event =
    /** The requester's acknowledgement callback. */
    | Reply(to: ConnId, answer: Answer)
    /** Emitted to the room's members except the sender. */
    | ToPeers(roomId: RoomId, sender: ConnId, notice: Notice)
    /** Emitted to every member of the room. */
    | ToRoom(roomId: RoomId, notice: Notice)
    /** A request to store a finished game. */
    | Persist(record: GameRecord)

  /**
   The connections an event reaches, given the members of the room it
   addresses at the moment it is emitted.
   */
  function Recipients(e: Event, members: seq<Player>): set<ConnId>
  {
    match e
    case Reply(to, _) => {to}
    case ToPeers(_, sender, _) => Ids(members) - {sender}
    case ToRoom(_, _) => Ids(members)
    case Persist(_) => {}
  }

  /** The users of the persistence requests among `events`, in emission order. */
  function Persisted(events: seq<Event>): seq<Option<string>>
  {
    if events == [] then []
    else (if events[0].Persist? then [events[0].record.user] else []) + Persisted(events[1..])
  }
}
