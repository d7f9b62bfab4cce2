/**
 The rules engine the room handlers delegate to (chess.js in the server).
 Positions and moves are uninterpreted; the engine is a record of total
 functions that every handler receives as a parameter, so nothing the model
 proves depends on what chess legality actually is.
 */
module RulesEngine {
  import opened Wrappers

  /** A game state: board, side to move and move history. */
  type Position

  /** A move as the client submits it. */
  type Move

  datatype Engine = Engine(
    /** The position of a freshly constructed game. */
    start: Position,
    /** Plays a move; `None` when the engine rejects it as illegal. */
    apply: (Position, Move) -> Option<Position>,
    /** True when the side to move is White (the first player). */
    whiteToMove: Position -> bool,
    /** True when the position is terminal (mate, stalemate, draw). */
    isGameOver: Position -> bool,
    /** Serialisation of the position in Forsyth-Edwards notation. */
    fen: Position -> string,
    /** Serialisation of the game in portable game notation. */
    pgn: Position -> string,
    /** The moves played so far, in order. */
    history: Position -> seq<string>
  )
}
