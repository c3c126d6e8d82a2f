/** Fixed configuration of the five-in-a-row engine: board geometry, the cell
    symbols, the search parameters and the heuristic weights. */
module Consts {

  /** Side length of the square board. */
  const BOARD_SIZE: int := 15
  /** Number of stones in a line needed to win. */
  const WIN_CONDITION: int := 5
  /** Row and column of the centre cell (integer halving of the size). */
  const CENTRE: int := BOARD_SIZE / 2

  /** What one grid cell holds. */
  datatype Cell = Empty | Human | Ai

  /** A side that can own a stone: every cell state except Empty. */
  type Player = c: Cell | c != Empty witness Human

  /** The string each cell state stands for: "" for an empty cell, "X" for
      the human's stone and "O" for the engine's. */
  function Symbol(c: Cell): (s: string)
    ensures s == "" <==> c == Empty
    ensures |s| <= 1
  {
    match c
    case Empty => ""
    case Human => "X"
    case Ai => "O"
  }

  /** Default number of plies searched below the root. */
  const AI_DEPTH: int := 2
  /** Chebyshev radius around played stones in which candidates are sought. */
  const NEIGHBOR_RADIUS: int := 2

  const SCORE_FIVE: int := 100_000_000
  const SCORE_OPEN_FOUR: int := 10_000_000
  const SCORE_CLOSED_FOUR: int := 1_000_000
  const SCORE_OPEN_THREE: int := 100_000
  const SCORE_CLOSED_THREE: int := 10_000
  const SCORE_OPEN_TWO: int := 1_000
  const SCORE_CLOSED_TWO: int := 100
  const SCORE_ONE: int := 10

  /** Weight of the opponent's total in the position score. */
  const DEFENSE_MULTIPLIER: real := 1.1

  /** The four line axes: horizontal, vertical, the falling diagonal and the
      rising diagonal. Each is walked in both senses. */
  const DIRECTIONS: seq<(int, int)> := [(0, 1), (1, 0), (1, 1), (1, -1)]
}
