/**
 * The static evaluator: material plus piece-square bonuses summed over the
 * 64 squares, positive for White. The piece encoding and the fourteen
 * piece-square tables live in headers outside this model, so they are
 * parameters (`Params`) rather than constants.
 */
module Evaluator {
  import opened Wrappers
  import opened Chess

  datatype Kind = Pawn | Knight | Bishop | Rook | Queen | King

  /**
   * The integer encoding of a piece: the low three bits hold one of six type
   * codes, and the single-bit mask `White == 2^whiteShift` marks a White
   * piece (a nonzero piece without it is Black).
   */
  datatype Encoding = Encoding(
    pawn: int, knight: int, bishop: int, rook: int, queen: int, king: int,
    whiteShift: nat)

  function Pow2(k: nat): (p: nat)
    ensures p > 0
  {
    if k == 0 then 1 else 2 * Pow2(k - 1)
  }

  /**
   * `(piece & White) > 0`: bit `whiteShift` of the two's-complement value,
   * which floor division and a non-negative remainder read off exactly.
   */
  predicate IsWhitePiece(e: Encoding, piece: int) {
    (piece / Pow2(e.whiteShift)) % 2 == 1
  }

  /**
   * The `switch` on `piece & 0b111` (a Euclidean `% 8` is exactly the low
   * three bits), cases in the source's order. `None` when no case matches:
   * the switch has no `default`.
   */
  function KindOf(e: Encoding, piece: int): Option<Kind> {
    var t := piece % 8;
    if t == e.pawn then Some(Pawn)
    else if t == e.rook then Some(Rook)
    else if t == e.knight then Some(Knight)
    else if t == e.bishop then Some(Bishop)
    else if t == e.queen then Some(Queen)
    else if t == e.king then Some(King)
    else None
  }

  /** Material value of a piece type, in centipawns. */
  function BaseValue(k: Kind): int {
    match k
    case Pawn => 100
    case Knight => 320
    case Bishop => 330
    case Rook => 500
    case Queen => 900
    case King => 2000
  }

  type Table = t: seq<int> | |t| == 64 witness seq(64, _ => 0)

  /** The piece-square tables: one per side and type, two per side for the King. */
  datatype Tables = Tables(
    whitePawn: Table, blackPawn: Table,
    whiteKnight: Table, blackKnight: Table,
    whiteBishop: Table, blackBishop: Table,
    whiteRook: Table, blackRook: Table,
    whiteQueen: Table, blackQueen: Table,
    whiteKingMidgame: Table, blackKingMidgame: Table,
    whiteKingEndgame: Table, blackKingEndgame: Table)

  datatype Params = Params(enc: Encoding, tables: Tables)

  /** Fewer occupied squares than this switches the King to its endgame table. */
  const EndgameThreshold := 6

  /** The table a piece of kind `k` and the given side reads its bonus from. */
  function BonusTable(t: Tables, k: Kind, white: bool, endgame: bool): Table {
    match k
    case Pawn => if white then t.whitePawn else t.blackPawn
    case Knight => if white then t.whiteKnight else t.blackKnight
    case Bishop => if white then t.whiteBishop else t.blackBishop
    case Rook => if white then t.whiteRook else t.blackRook
    case Queen => if white then t.whiteQueen else t.blackQueen
    case King =>
      if endgame then (if white then t.whiteKingEndgame else t.blackKingEndgame)
      else (if white then t.whiteKingMidgame else t.blackKingMidgame)
  }

  /** Signed worth of a piece on square `x`: `+(base + bonus)` for White, `-(base + bonus)` for Black. */
  function PieceValue(t: Tables, k: Kind, white: bool, x: nat, endgame: bool): int
    requires x < 64
  {
    var bonus := BonusTable(t, k, white, endgame)[x];
    if white then BaseValue(k) + bonus else -BaseValue(k) - bonus
  }

  /** Number of nonzero entries, the `counter` of the first pass. */
  function Occupied(s: seq<int>): (n: nat)
    ensures n <= |s|
    ensures n == 0 <==> forall i :: 0 <= i < |s| ==> s[i] == 0
  {
    if s == [] then 0
    else (if s[0] != 0 then 1 else 0) + Occupied(s[1..])
  }

  /**
   * The second pass of `evaluateBoard` from square `x` on, with the running
   * `score` and the `pieceValue` left over from the last occupied square.
   * A nonzero piece whose type bits match no case adds that stale value
   * again, as the source does.
   */
  function Scan(p: Params, sq: Squares, endgame: bool, x: nat, score: int, last: int): int
    requires x <= 64
    decreases 64 - x
  {
    if x == 64 then score
    else if sq[x] == 0 then Scan(p, sq, endgame, x + 1, score, last)
    else
      var v := match KindOf(p.enc, sq[x])
        case Some(k) => PieceValue(p.tables, k, IsWhitePiece(p.enc, sq[x]), x, endgame)
        case None => last;
      Scan(p, sq, endgame, x + 1, score + v, v)
  }

  /** `evaluateBoard`: count the occupied squares, then scan all 64. */
  function Evaluate(p: Params, sq: Squares): int {
    Scan(p, sq, Occupied(sq) < EndgameThreshold, 0, 0, 0)
  }

  // ----- Reference reading: a sum of independent per-square contributions -----

  /** Every occupied square holds a piece whose type bits name one of the six kinds. */
  ghost predicate WellFormed(e: Encoding, sq: Squares) {
    forall x :: 0 <= x < 64 && sq[x] != 0 ==> KindOf(e, sq[x]).Some?
  }

  /** What square `x` adds to the score: nothing if empty, else the piece's signed worth. */
  function Contribution(p: Params, piece: int, x: nat, endgame: bool): int
    requires x < 64
  {
    if piece == 0 then 0
    else match KindOf(p.enc, piece)
      case Some(k) => PieceValue(p.tables, k, IsWhitePiece(p.enc, piece), x, endgame)
      case None => 0
  }

  /** Sum of the contributions of squares `x` to 63. */
  function Material(p: Params, sq: Squares, endgame: bool, x: nat): int
    requires x <= 64
    decreases 64 - x
  {
    if x == 64 then 0 else Contribution(p, sq[x], x, endgame) + Material(p, sq, endgame, x + 1)
  }

  lemma {:induction false} ScanIsMaterial(p: Params, sq: Squares, endgame: bool, x: nat, score: int, last: int)
    requires x <= 64
    requires WellFormed(p.enc, sq)
    ensures Scan(p, sq, endgame, x, score, last) == score + Material(p, sq, endgame, x)
    decreases 64 - x
  {
    if x < 64 {
      if sq[x] == 0 {
        ScanIsMaterial(p, sq, endgame, x + 1, score, last);
      } else {
        var v := Contribution(p, sq[x], x, endgame);
        ScanIsMaterial(p, sq, endgame, x + 1, score + v, v);
      }
    }
  }

  /**
   * On a well-formed board the score is the sum of the squares'
   * contributions, with every King read from the endgame table exactly when
   * fewer than six squares are occupied, and from the midgame table otherwise.
   */
  lemma EvaluateIsMaterial(p: Params, sq: Squares)
    requires WellFormed(p.enc, sq)
    ensures Occupied(sq) < EndgameThreshold ==> Evaluate(p, sq) == Material(p, sq, true, 0)
    ensures Occupied(sq) >= EndgameThreshold ==> Evaluate(p, sq) == Material(p, sq, false, 0)
  {
    ScanIsMaterial(p, sq, Occupied(sq) < EndgameThreshold, 0, 0, 0);
  }

  lemma {:induction false} ScanOfEmpty(p: Params, sq: Squares, endgame: bool, x: nat, score: int, last: int)
    requires x <= 64
    requires forall y :: x <= y < 64 ==> sq[y] == 0
    ensures Scan(p, sq, endgame, x, score, last) == score
    decreases 64 - x
  {
    if x < 64 {
      ScanOfEmpty(p, sq, endgame, x + 1, score, last);
    }
  }

  /** Empty squares contribute nothing: the empty board scores 0. */
  lemma EmptyBoardScoresZero(p: Params)
    ensures Evaluate(p, NoPieces) == 0
  {
    ScanOfEmpty(p, NoPieces, Occupied(NoPieces) < EndgameThreshold, 0, 0, 0);
  }

  // ----- Range: the score fits in a 32-bit int -----

  /** Largest table entry magnitude for which the whole scan stays within 32 bits. */
  const TableBound := 30_000_000

  const PieceBound := 2000 + TableBound

  ghost predicate Bounded(t: Tables) {
    forall k: Kind, white: bool, endgame: bool, x :: 0 <= x < 64 ==>
      -TableBound <= BonusTable(t, k, white, endgame)[x] <= TableBound
  }

  lemma {:induction false} ScanInRange(p: Params, sq: Squares, endgame: bool, x: nat, score: int, last: int)
    requires x <= 64
    requires Bounded(p.tables)
    requires -(x * PieceBound) <= score <= x * PieceBound
    requires -PieceBound <= last <= PieceBound
    ensures -64 * PieceBound <= Scan(p, sq, endgame, x, score, last) <= 64 * PieceBound
    decreases 64 - x
  {
    if x < 64 {
      if sq[x] == 0 {
        ScanInRange(p, sq, endgame, x + 1, score, last);
      } else {
        var v := match KindOf(p.enc, sq[x])
          case Some(k) => PieceValue(p.tables, k, IsWhitePiece(p.enc, sq[x]), x, endgame)
          case None => last;
        assert -PieceBound <= v <= PieceBound;
        ScanInRange(p, sq, endgame, x + 1, score + v, v);
      }
    }
  }

  /**
   * With table entries of magnitude at most `TableBound`, every running
   * score of the scan, and so the result, lies strictly inside the 32-bit
   * range: the accumulation never overflows and never reaches the search's
   * `IntMin`/`IntMax` sentinels.
   */
  lemma EvaluateInRange(p: Params, sq: Squares)
    requires Bounded(p.tables)
    ensures IntMin < Evaluate(p, sq) < IntMax
  {
    ScanInRange(p, sq, Occupied(sq) < EndgameThreshold, 0, 0, 0);
  }
}
