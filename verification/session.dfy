/**
 The connection handler as a whole: one inbound event from one connection is
 dispatched to its handler, and a run of such events starts from the empty
 registry the server holds at start-up.
 */
module Session {
  import opened RulesEngine
  import opened Registry
  import opened Events
  import opened Handlers

  /** An inbound event and its arguments. */
  datatype Request =
    /** `createRoom`; `id` is the freshly generated room id. */
    | CreateRoomReq(id: RoomId, hasCallback: bool)
    | JoinRoomReq(roomId: RoomId, hasCallback: bool)
    | MoveReq(roomId: RoomId, move: Move)
    /** Transport-level disconnect; `order` is the registry's iteration order at that moment. */
    | DisconnectReq(order: seq<RoomId>)
    | CloseRoomReq(roomId: RoomId)

  /** An inbound event together with the connection that sent it. */
  datatype Call = Call(from: Player, request: Request)

  /**
   What the environment guarantees about a request's arguments: generated ids
   do not collide, and a disconnect sees every room exactly once.
   */
  predicate Admissible(rooms: Rooms, request: Request)
  {
    match request
    case CreateRoomReq(id, _) => id !in rooms
    case DisconnectReq(order) => Enumerates(order, rooms)
    case _ => true
  }

  /** Dispatch one call; every handler keeps the registry invariant. */
  function Handle(rooms: Rooms, engine: Engine, call: Call): (r: Step)
    requires Admissible(rooms, call.request)
    ensures WellFormed(rooms) ==> WellFormed(r.rooms)
    ensures r.rooms.Keys <= rooms.Keys + (if call.request.CreateRoomReq? then {call.request.id} else {})
  {
    match call.request
    case CreateRoomReq(id, hasCallback) => CreateRoom(rooms, engine, call.from, id, hasCallback)
    case JoinRoomReq(roomId, hasCallback) => JoinRoom(rooms, call.from, roomId, hasCallback)
    case MoveReq(roomId, move) => SubmitMove(rooms, engine, call.from, roomId, move)
    case DisconnectReq(order) => Disconnect(rooms, call.from, order)
    case CloseRoomReq(roomId) => CloseRoom(rooms, call.from, roomId)
  }

  /** Every call of `calls` is admissible in the registry it meets. */
  predicate AdmissibleRun(rooms: Rooms, engine: Engine, calls: seq<Call>)
    decreases |calls|
  {
    calls == [] ||
    (Admissible(rooms, calls[0].request) &&
     AdmissibleRun(Handle(rooms, engine, calls[0]).rooms, engine, calls[1..]))
  }

  /** Handle `calls` one after another; the events are concatenated in order. */
  function Run(rooms: Rooms, engine: Engine, calls: seq<Call>): (r: Step)
    requires AdmissibleRun(rooms, engine, calls)
    ensures WellFormed(rooms) ==> WellFormed(r.rooms)
    decreases |calls|
  {
    if calls == [] then Step(rooms, [])
    else
      var first := Handle(rooms, engine, calls[0]);
      var rest := Run(first.rooms, engine, calls[1..]);
      Step(rest.rooms, first.events + rest.events)
  }
}
