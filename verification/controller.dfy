/**
 * `AIController`: the per-game state (side, difficulty, book flag, book
 * cursor), the root move selection of `playTurn`, and the opening-book
 * probe of `playByBook`. `rand()` is the parameter `r`; the source reduces
 * it modulo the size of the node list it picks from.
 */
module Controller {
  import opened Wrappers
  import opened Chess
  import opened Evaluator
  import opened AlphaBeta
  import opened Book

  // ----- Root move selection -----

  /** The value the root starts from: the worst value for the AI's side. */
  function SeedValue(c: Color): int {
    if c == White then IntMin else IntMax
  }

  /** Strictly better for side `c`: higher for White, lower for Black. */
  predicate Improves(c: Color, v: int, best: int) {
    if c == White then v > best else v < best
  }

  /** The placeholder best move `{-1, -1, -1, -1, PawnVal}`. */
  function SearchSentinel(e: Encoding): Move {
    Move(-1, -1, [-1, -1, e.pawn])
  }

  /** A root decision: the move, its value, and the board as the search leaves it. */
  datatype Choice = Choice(move: Move, value: int, board: Board)

  /**
   * The candidate loop of `playTurn`: each move is made, searched with the
   * full window at the child depth with the opponent to move, undone, and
   * kept only if it strictly improves on the best so far.
   */
  function RootLoop(g: Rules, b: Board, color: Color, child: nat, ms: seq<Move>, best: Move, bestValue: int): Choice
    decreases |ms|
  {
    if ms == [] then Choice(best, bestValue, b)
    else
      var o := Minimax(g, g.move(b, ms[0]), child, IntMin, IntMax, color == Black);
      var restored := g.undo(o.board);
      if Improves(color, o.value, bestValue) then RootLoop(g, restored, color, child, ms[1..], ms[0], o.value)
      else RootLoop(g, restored, color, child, ms[1..], best, bestValue)
  }

  /** The search half of `playTurn`, at `m_depth = m_difficulty`. */
  function RootSearch(g: Rules, b: Board, color: Color, difficulty: nat): Choice
    requires difficulty >= 1
  {
    RootLoop(g, b, color, difficulty - 1, Flatten(g.generate(b, color)), SearchSentinel(g.params.enc), SeedValue(color))
  }

  /** The unpruned values of the root's children, in generation order. */
  function RootValues(g: Rules, b: Board, color: Color, child: nat, ms: seq<Move>): (vals: seq<int>)
    ensures |vals| == |ms|
  {
    seq(|ms|, i requires 0 <= i < |ms| => GameValue(g, g.move(b, ms[i]), child, color == Black))
  }

  /**
   * `vals[k]` is strictly better than every earlier value, and no later
   * value is strictly better than it: the first best in generation order.
   */
  ghost predicate FirstBestAmong(c: Color, vals: seq<int>, k: int) {
    && 0 <= k < |vals|
    && (forall j :: 0 <= j < k ==> Improves(c, vals[k], vals[j]))
    && (forall j :: k < j < |vals| ==> !Improves(c, vals[j], vals[k]))
  }

  lemma {:induction false} RootLoopRestores(g: Rules, b: Board, color: Color, child: nat, ms: seq<Move>, best: Move, bestValue: int)
    requires Reversible(g)
    ensures RootLoop(g, b, color, child, ms, best, bestValue).board == b
    decreases |ms|
  {
    if ms != [] {
      MinimaxFailSoft(g, g.move(b, ms[0]), child, IntMin, IntMax, color == Black);
      var o := Minimax(g, g.move(b, ms[0]), child, IntMin, IntMax, color == Black);
      assert g.undo(o.board) == b;
      if Improves(color, o.value, bestValue) {
        RootLoopRestores(g, b, color, child, ms[1..], ms[0], o.value);
      } else {
        RootLoopRestores(g, b, color, child, ms[1..], best, bestValue);
      }
    }
  }

  /**
   * The candidate loop read over known values: keep the running best unless a
   * value strictly improves on it.
   */
  function PickBest(c: Color, ms: seq<Move>, vals: seq<int>, best: Move, bestValue: int): (p: (Move, int))
    requires |vals| == |ms|
  {
    if ms == [] then (best, bestValue)
    else if Improves(c, vals[0], bestValue) then PickBest(c, ms[1..], vals[1..], ms[0], vals[0])
    else PickBest(c, ms[1..], vals[1..], best, bestValue)
  }

  /** No value strictly improves on `bound`. */
  ghost predicate NoneImproves(c: Color, vals: seq<int>, bound: int) {
    forall i :: 0 <= i < |vals| ==> !Improves(c, vals[i], bound)
  }

  /** When no value strictly improves on the running best, the running best is kept. */
  lemma {:induction false} PickBestKeepsUnbeaten(c: Color, ms: seq<Move>, vals: seq<int>, best: Move, bestValue: int)
    requires |vals| == |ms|
    requires NoneImproves(c, vals, bestValue)
    ensures PickBest(c, ms, vals, best, bestValue) == (best, bestValue)
    decreases |ms|
  {
    if ms != [] {
      PickBestKeepsUnbeaten(c, ms[1..], vals[1..], best, bestValue);
    }
  }

  /**
   * When some value strictly improves on the running best, the result is the
   * first best value (strictly better than every earlier one, beaten by no
   * later one), and it improves on the running best.
   */
  lemma {:induction false} PickBestIsFirstBest(c: Color, ms: seq<Move>, vals: seq<int>, best: Move, bestValue: int)
    returns (k: nat)
    requires |vals| == |ms|
    requires !NoneImproves(c, vals, bestValue)
    ensures FirstBestAmong(c, vals, k) && Improves(c, vals[k], bestValue)
    ensures PickBest(c, ms, vals, best, bestValue) == (ms[k], vals[k])
    decreases |ms|
  {
    var rest, tail, v0 := ms[1..], vals[1..], vals[0];
    if Improves(c, v0, bestValue) {
      if NoneImproves(c, tail, v0) {
        PickBestKeepsUnbeaten(c, rest, tail, ms[0], v0);
        k := 0;
      } else {
        var k' := PickBestIsFirstBest(c, rest, tail, ms[0], v0);
        k := k' + 1;
        assert FirstBestAmong(c, vals, k);
      }
    } else {
      assert !NoneImproves(c, tail, bestValue) by {
        var i :| 0 <= i < |vals| && Improves(c, vals[i], bestValue);
        assert i > 0 && tail[i - 1] == vals[i];
      }
      var k' := PickBestIsFirstBest(c, rest, tail, best, bestValue);
      k := k' + 1;
      assert FirstBestAmong(c, vals, k);
    }
  }

  /**
   * The candidate loop of `playTurn` decides exactly as the same loop over the
   * unpruned minimax values of the candidates.
   */
  lemma {:induction false} RootLoopIsPickBest(g: Rules, b: Board, color: Color, child: nat, ms: seq<Move>, best: Move, bestValue: int)
    requires Reversible(g)
    requires Bounded(g.params.tables)
    ensures var c := RootLoop(g, b, color, child, ms, best, bestValue);
      (c.move, c.value) == PickBest(color, ms, RootValues(g, b, color, child, ms), best, bestValue)
    decreases |ms|
  {
    if ms != [] {
      var vals := RootValues(g, b, color, child, ms);
      assert RootValues(g, b, color, child, ms[1..]) == vals[1..];
      FullWindowIsExact(g, g.move(b, ms[0]), child, color == Black);
      if Improves(color, vals[0], bestValue) {
        RootLoopIsPickBest(g, b, color, child, ms[1..], ms[0], vals[0]);
      } else {
        RootLoopIsPickBest(g, b, color, child, ms[1..], best, bestValue);
      }
    }
  }

  /**
   * The search result of `playTurn`: the board is restored; the move is the
   * sentinel when no candidate's value strictly beats the seed
   * (`IntMin` for White, `IntMax` for Black), and otherwise the first
   * candidate, in generation order, whose unpruned minimax value is best for
   * the AI's side.
   */
  lemma RootSearchPicksFirstBest(g: Rules, b: Board, color: Color, difficulty: nat) returns (k: int)
    requires Reversible(g)
    requires Bounded(g.params.tables)
    requires difficulty >= 1
    ensures var c := RootSearch(g, b, color, difficulty);
      var ms := Flatten(g.generate(b, color));
      var vals := RootValues(g, b, color, difficulty - 1, ms);
      && c.board == b
      && (NoneImproves(color, vals, SeedValue(color)) ==> c.move == SearchSentinel(g.params.enc))
      && (!NoneImproves(color, vals, SeedValue(color)) ==>
            FirstBestAmong(color, vals, k) && Improves(color, vals[k], SeedValue(color))
            && c.move == ms[k] && c.value == vals[k])
  {
    var ms := Flatten(g.generate(b, color));
    RootLoopRestores(g, b, color, difficulty - 1, ms, SearchSentinel(g.params.enc), SeedValue(color));
    var vals := RootValues(g, b, color, difficulty - 1, ms);
    RootLoopIsPickBest(g, b, color, difficulty - 1, ms, SearchSentinel(g.params.enc), SeedValue(color));
    if NoneImproves(color, vals, SeedValue(color)) {
      PickBestKeepsUnbeaten(color, ms, vals, SearchSentinel(g.params.enc), SeedValue(color));
      k := -1;
    } else {
      k := PickBestIsFirstBest(color, ms, vals, SearchSentinel(g.params.enc), SeedValue(color));
    }
  }

  /**
   * Root selection that always keeps the first candidate and then only
   * strictly better ones: the sentinel comes back only when there is no
   * candidate at all.
   */
  function RootSearchFixed(g: Rules, b: Board, color: Color, difficulty: nat): Choice
    requires difficulty >= 1
  {
    var ms := Flatten(g.generate(b, color));
    if ms == [] then Choice(SearchSentinel(g.params.enc), SeedValue(color), b)
    else
      var o := Minimax(g, g.move(b, ms[0]), difficulty - 1, IntMin, IntMax, color == Black);
      RootLoop(g, g.undo(o.board), color, difficulty - 1, ms[1..], ms[0], o.value)
  }

  /**
   * The corrected selection returns the sentinel when no move is
   * generated, and otherwise the first candidate whose unpruned value is best
   * for the AI's side; the board is restored.
   */
  lemma RootSearchFixedPicksFirstBest(g: Rules, b: Board, color: Color, difficulty: nat) returns (k: int)
    requires Reversible(g)
    requires Bounded(g.params.tables)
    requires difficulty >= 1
    ensures var c := RootSearchFixed(g, b, color, difficulty);
      var ms := Flatten(g.generate(b, color));
      var vals := RootValues(g, b, color, difficulty - 1, ms);
      && c.board == b
      && (ms == [] ==> c.move == SearchSentinel(g.params.enc))
      && (ms != [] ==> FirstBestAmong(color, vals, k) && c.move == ms[k] && c.value == vals[k])
  {
    var ms := Flatten(g.generate(b, color));
    k := -1;
    if ms != [] {
      var child := difficulty - 1;
      var vals := RootValues(g, b, color, child, ms);
      var rest, tail := ms[1..], vals[1..];
      assert RootValues(g, b, color, child, rest) == tail;
      FullWindowIsExact(g, g.move(b, ms[0]), child, color == Black);
      RootLoopRestores(g, b, color, child, rest, ms[0], vals[0]);
      RootLoopIsPickBest(g, b, color, child, rest, ms[0], vals[0]);
      if NoneImproves(color, tail, vals[0]) {
        PickBestKeepsUnbeaten(color, rest, tail, ms[0], vals[0]);
        k := 0;
      } else {
        var k' := PickBestIsFirstBest(color, rest, tail, ms[0], vals[0]);
        k := k' + 1;
        assert FirstBestAmong(color, vals, k);
      }
    }
  }

  // ----- Controller state -----

  /** `AIController`: side, difficulty, working depth, book flag and book cursor. */
  datatype AI = AI(color: Color, difficulty: nat, depth: nat, useBook: bool, cursor: seq<BookNode>)

  /** The constructor: book on, cursor at the book's root, depth = difficulty. */
  function Init(color: Color, difficulty: nat, book: seq<BookNode>): (ai: AI)
    ensures ai.useBook && ai.cursor == book
    ensures ai.color == color && ai.difficulty == difficulty && ai.depth == difficulty
  {
    AI(color, difficulty, difficulty, true, book)
  }

  /** `turnReady`: the AI never waits for input. */
  function TurnReady(ai: AI): (ready: bool)
    ensures ready
  {
    true
  }

  /** One turn's outcome: the move played and the state and board afterwards. */
  datatype Turn = Turn(move: Move, ai: AI, board: Board)

  /** The `{-1, -1}` a book probe returns when the matched line has ended. */
  const BookEnded := Move(-1, -1, [])

  /** A book node played as a move `{start, target}`, other fields at their defaults. */
  function BookMove(n: BookNode): Move {
    Move(n.start, n.target, [])
  }

  /**
   * What `playTurn` needs of its caller: a positive difficulty, and a
   * non-empty cursor when the book is consulted for the game's first move
   * (`rand() % m_book->size()` divides by the cursor's size).
   */
  predicate Playable(ai: AI, b: Board) {
    && ai.difficulty >= 1
    && (ai.useBook && b.lastMove.start == -1 ==> |ai.cursor| > 0)
  }

  /** `playTurn`: try the book while it is on; search when it gives no move. */
  function PlayTurn(g: Rules, ai: AI, b: Board, r: nat): (t: Turn)
    requires Playable(ai, b)
    ensures t.ai.color == ai.color && t.ai.difficulty == ai.difficulty
    ensures t.ai.useBook ==> ai.useBook
    ensures !ai.useBook ==> t.ai.cursor == ai.cursor
    decreases if ai.useBook then 1 else 0, 1
  {
    var probe := if ai.useBook then PlayByBook(g, ai, b, r) else Turn(BookEnded, ai, b);
    if probe.move.start != -1 then probe
    else
      var c := RootSearch(g, probe.board, probe.ai.color, probe.ai.difficulty);
      Turn(c.move, probe.ai.(depth := probe.ai.difficulty), c.board)
  }

  /**
   * `playByBook`. First move of the game: a random node of the cursor. Else
   * look up the opponent's last move among the cursor's nodes: on a miss,
   * switch the book off and play by search; on a match, step into its
   * children, switch the book off if there are none, and otherwise play a
   * random child and step into its children.
   */
  function PlayByBook(g: Rules, ai: AI, b: Board, r: nat): (t: Turn)
    requires ai.useBook && Playable(ai, b)
    ensures t.ai.color == ai.color && t.ai.difficulty == ai.difficulty
    decreases 1, 0
  {
    if b.lastMove.start == -1 then
      var n := ai.cursor[r % |ai.cursor|];
      Turn(BookMove(n), ai.(cursor := n.children), b)
    else
      match FindMatch(ai.cursor, b.lastMove.start, b.lastMove.target, Opponent(ai.color))
      case None => PlayTurn(g, ai.(useBook := false), b, r)
      case Some(j) =>
        var kids := ai.cursor[j].children;
        if |kids| == 0 then Turn(BookEnded, ai.(useBook := false, cursor := kids), b)
        else
          var n := kids[r % |kids|];
          Turn(BookMove(n), ai.(cursor := n.children), b)
  }

  // ----- Properties of a turn -----

  /** No recorded book move uses the "no move" start square -1. */
  ghost predicate Recorded(nodes: seq<BookNode>)
    decreases nodes
  {
    forall i :: 0 <= i < |nodes| ==> nodes[i].start != -1 && Recorded(nodes[i].children)
  }

  /** With the book off, a turn is the root search on the given board. */
  lemma SearchWhenBookOff(g: Rules, ai: AI, b: Board, r: nat)
    requires Playable(ai, b)
    requires !ai.useBook
    ensures var t := PlayTurn(g, ai, b, r);
      var c := RootSearch(g, b, ai.color, ai.difficulty);
      t.move == c.move && t.board == c.board && !t.ai.useBook && t.ai.depth == ai.difficulty
  {
  }

  /**
   * The game's first move comes from the book: a node of the cursor, with
   * the cursor advanced to that node's children and no search made.
   */
  lemma BookOpening(g: Rules, ai: AI, b: Board, r: nat)
    requires Playable(ai, b)
    requires ai.useBook && b.lastMove.start == -1
    requires Recorded(ai.cursor)
    ensures var t := PlayTurn(g, ai, b, r);
      exists i :: 0 <= i < |ai.cursor| && t.move == BookMove(ai.cursor[i])
        && t.ai.cursor == ai.cursor[i].children && t.ai.useBook && t.board == b
  {
    var i := r % |ai.cursor|;
    assert ai.cursor[i].start != -1;
  }

  /**
   * A reply in book: the opponent's last move matches (start, target,
   * opponent's side) a node of the cursor that has children; the move played
   * is one of those children, the cursor moves to its children, no search.
   */
  lemma BookReply(g: Rules, ai: AI, b: Board, r: nat, j: nat)
    requires Playable(ai, b)
    requires ai.useBook && b.lastMove.start != -1
    requires Recorded(ai.cursor)
    requires FindMatch(ai.cursor, b.lastMove.start, b.lastMove.target, Opponent(ai.color)) == Some(j)
    requires |ai.cursor[j].children| > 0
    ensures Matches(ai.cursor[j], b.lastMove.start, b.lastMove.target, Opponent(ai.color))
    ensures var t := PlayTurn(g, ai, b, r);
      var kids := ai.cursor[j].children;
      exists i :: 0 <= i < |kids| && t.move == BookMove(kids[i])
        && t.ai.cursor == kids[i].children && t.ai.useBook && t.board == b
  {
    var kids := ai.cursor[j].children;
    var i := r % |kids|;
    assert Recorded(kids);
    assert kids[i].start != -1;
  }

  /**
   * A matched line with no continuation: the probe returns `{-1, -1}` and
   * switches the book off, and the turn is played by search.
   */
  lemma BookExhausted(g: Rules, ai: AI, b: Board, r: nat, j: nat)
    requires Playable(ai, b)
    requires ai.useBook && b.lastMove.start != -1
    requires FindMatch(ai.cursor, b.lastMove.start, b.lastMove.target, Opponent(ai.color)) == Some(j)
    requires |ai.cursor[j].children| == 0
    ensures PlayByBook(g, ai, b, r).move == BookEnded
    ensures var t := PlayTurn(g, ai, b, r);
      t.move == RootSearch(g, b, ai.color, ai.difficulty).move && !t.ai.useBook
  {
  }

  /**
   * A book miss switches the book off and returns the search result. When
   * that result is the sentinel, `playTurn` searches a second time; with
   * `undo` reversing `move`, the second search sees the same board and
   * agrees with the first.
   */
  lemma BookMiss(g: Rules, ai: AI, b: Board, r: nat)
    requires Reversible(g)
    requires Playable(ai, b)
    requires ai.useBook && b.lastMove.start != -1
    requires FindMatch(ai.cursor, b.lastMove.start, b.lastMove.target, Opponent(ai.color)).None?
    ensures var t := PlayTurn(g, ai, b, r);
      t.move == RootSearch(g, b, ai.color, ai.difficulty).move && !t.ai.useBook && t.board == b
  {
    var c := RootSearch(g, b, ai.color, ai.difficulty);
    RootLoopRestores(g, b, ai.color, ai.difficulty - 1, Flatten(g.generate(b, ai.color)),
      SearchSentinel(g.params.enc), SeedValue(ai.color));
    var off := ai.(useBook := false);
    var inner := PlayTurn(g, off, b, r);
    assert inner == Turn(c.move, off.(depth := off.difficulty), c.board);
    assert PlayByBook(g, ai, b, r) == inner;
  }

  /** Every `move` made during a turn is undone: the board comes back unchanged. */
  lemma PlayTurnRestoresBoard(g: Rules, ai: AI, b: Board, r: nat)
    requires Reversible(g)
    requires Playable(ai, b)
    ensures PlayTurn(g, ai, b, r).board == b
  {
    RootLoopRestores(g, b, ai.color, ai.difficulty - 1, Flatten(g.generate(b, ai.color)),
      SearchSentinel(g.params.enc), SeedValue(ai.color));
    if ai.useBook && b.lastMove.start != -1
      && FindMatch(ai.cursor, b.lastMove.start, b.lastMove.target, Opponent(ai.color)).None?
    {
      BookMiss(g, ai, b, r);
    }
  }

  /** A cursor inside the book stays inside the book after a turn. */
  lemma {:induction false} CursorStaysInBook(g: Rules, ai: AI, b: Board, r: nat, book: seq<BookNode>)
    requires Playable(ai, b)
    requires Reachable(book, ai.cursor)
    ensures Reachable(book, PlayTurn(g, ai, b, r).ai.cursor)
  {
    if ai.useBook {
      if b.lastMove.start == -1 {
        ReachableStep(book, ai.cursor, r % |ai.cursor|);
      } else {
        match FindMatch(ai.cursor, b.lastMove.start, b.lastMove.target, Opponent(ai.color))
        case None =>
        case Some(j) =>
          ReachableStep(book, ai.cursor, j);
          var kids := ai.cursor[j].children;
          if |kids| > 0 {
            ReachableStep(book, kids, r % |kids|);
          }
      }
    }
  }
}
