/** Failure-carrying results, standing in for the exceptions the Java engine throws. */
module Wrappers {

  datatype Option<+T> = None | Some(value: T)

  datatype Result<+T, +E> = Ok(value: T) | Err(error: E) {
    predicate IsFailure() { Err? }

    function PropagateFailure<U>(): Result<U, E>
      requires Err?
    {
      Err(error)
    }

    function Extract(): T
      requires Ok?
    {
      value
    }
  }

  /** A result with no value: the outcome of a void Java method that may throw. */
  datatype Outcome<+E> = Pass | Fail(error: E) {
    predicate IsFailure() { Fail? }

    function PropagateFailure<U>(): Result<U, E>
      requires Fail?
    {
      Err(error)
    }
  }
}

/**
 * The distinguishable failure kinds of the engine and the strategies. Each tag
 * stands for one thrown exception of the Java code (its message, not its class).
 */
module Errors {

  datatype Error =
    | InvalidEdgeLength      // ReversiModel constructor: edge length below 2
    | GameAlreadyStarted     // startGame on a started game
    | GameNotStarted         // any move or query before startGame
    | GameEnded              // any move or query after the game ended
    | GameNotOver            // getWinner before the game ended
    | InvalidCoords          // coordinates outside the jagged grid
    | InvalidMove            // placement on an occupied or non-capturing cell
    | InvalidPlayer          // a score asked for NONE
    | NoOppositeColor        // oppositeColor(NONE)
    | NoDisc                 // flipDisc on an empty cell
    | NotPlayersTurn         // a strategy asked to move for the wrong colour
    | NoLegalMoves           // a strategy asked to move when no move is legal
    | NoCellsToChoose        // chooseUpperLeft on an empty candidate list
}
