/**
 * A position in which the root selection of `playTurn` gives up although the
 * AI has a legal move: White's only move lets Black reply with a move after
 * which White has no moves. At difficulty 3 that line is worth `IntMin`, which
 * is not strictly above White's seed `IntMin`, so the sentinel comes back.
 */
module ForcedLoss {
  import opened Chess
  import opened Evaluator
  import opened AlphaBeta
  import opened Controller

  const WhiteOnly := Move(12, 28, [])
  const BlackReply := Move(52, 36, [])

  /** The game before any move: White to play. */
  const Start := Board(NoPieces, NoMove, [])

  /** White's only move is `WhiteOnly`, Black's only answer `BlackReply`; then White is stuck. */
  function Line(b: Board, c: Color): seq<seq<Move>> {
    if c == White && b.lastMove == NoMove then [[WhiteOnly]]
    else if c == Black && b.lastMove == WhiteOnly then [[BlackReply]]
    else []
  }

  /** `move` records the move and pushes the previous squares and last move. */
  function Play(b: Board, m: Move): Board {
    Board(b.squares, m, b.undoLog + [UndoEntry(b.squares, b.lastMove)])
  }

  /** `undo` pops the newest undo entry. */
  function TakeBack(b: Board): Board {
    if b.undoLog == [] then b
    else
      var e := b.undoLog[|b.undoLog| - 1];
      Board(e.squares, e.lastMove, b.undoLog[..|b.undoLog| - 1])
  }

  function LineRules(p: Params): (g: Rules)
    ensures Reversible(g)
  {
    var g := Rules(Line, Play, TakeBack, p);
    assert forall b: Board, m: Move :: TakeBack(Play(b, m)) == b by {
      forall b: Board, m: Move ensures TakeBack(Play(b, m)) == b {
        assert (b.undoLog + [UndoEntry(b.squares, b.lastMove)])[..|b.undoLog|] == b.undoLog;
      }
    }
    g
  }

  /**
   * As written: White has a generated move, yet `playTurn`'s search returns
   * the sentinel; the corrected selection returns that move.
   */
  lemma SentinelDespiteLegalMove(p: Params)
    ensures Flatten(Line(Start, White)) == [WhiteOnly]
    ensures RootSearch(LineRules(p), Start, White, 3).move == SearchSentinel(p.enc)
    ensures RootSearchFixed(LineRules(p), Start, White, 3).move == WhiteOnly
  {
    var g := LineRules(p);
    var b1 := Play(Start, WhiteOnly);
    var b2 := Play(b1, BlackReply);
    assert Flatten(Line(Start, White)) == [WhiteOnly];
    assert Flatten(Line(b1, Black)) == [BlackReply];
    assert IsGameOver(Line(b2, White));
    assert Minimax(g, b2, 1, IntMin, IntMax, true).value == IntMin;
    var black := Minimax(g, b1, 2, IntMin, IntMax, false);
    assert black.value == IntMin;
    assert !Improves(White, black.value, SeedValue(White));
    assert g.move(Start, WhiteOnly) == b1;
    var restored := g.undo(black.board);
    assert RootLoop(g, Start, White, 2, [WhiteOnly], SearchSentinel(p.enc), IntMin)
      == RootLoop(g, restored, White, 2, [], SearchSentinel(p.enc), IntMin);
  }
}
