/**
 * Vocabulary shared by the engine: the two sides, moves, and the board value
 * that the search threads through move/undo.
 */
module Chess {

  /** Range of a 32-bit C++ `int`; the search seeds its running best with these. */
  const IntMin: int := -0x8000_0000
  const IntMax: int := 0x7FFF_FFFF

  /** The side to move. */
  datatype Color = White | Black

  function Opponent(c: Color): Color {
    if c == White then Black else White
  }

  /**
   * A move. `start == -1` marks "no move". The C++ struct has three further
   * integer fields of bookkeeping; `extra` holds them when a move sets them
   * explicitly and is empty when they are left at the struct's defaults.
   */
  datatype Move = Move(start: int, target: int, extra: seq<int>)

  /** The board's last move before any move has been played. */
  const NoMove := Move(-1, -1, [])

  /** Sixty-four squares, rank-major, each an encoded piece (0 = empty). */
  type Squares = s: seq<int> | |s| == 64 witness seq(64, _ => 0)

  const NoPieces: Squares := seq(64, _ => 0)

  /** What the board keeps to reverse one move. */
  datatype UndoEntry = UndoEntry(squares: Squares, lastMove: Move)

  /**
   * The shared board: the squares, the last move played (read by the opening
   * book) and the undo record. Its `move`/`undo` operations are not part of
   * this model; they are parameters of the search (see `AlphaBeta.Rules`).
   */
  datatype Board = Board(squares: Squares, lastMove: Move, undoLog: seq<UndoEntry>)
}
