/** Positions where the move chosen by the search, or the value of a board,
    is determined, and one showing a move accepted after the game is won.
    Each board is described square by square, row by row. */
module Scenarios {
  import opened TicTacToe
  import opened Search

  /** `b` holds the squares `c`, read row by row. */
  predicate Shows(b: Board, c: seq<Cell>)
    requires |c| == 9
  {
    && b[0][0] == c[0] && b[0][1] == c[1] && b[0][2] == c[2]
    && b[1][0] == c[3] && b[1][1] == c[4] && b[1][2] == c[5]
    && b[2][0] == c[6] && b[2][1] == c[7] && b[2][2] == c[8]
  }

  // ---------------------------------------------------------------------------
  // X X .
  // O O .
  // . . .    X to move, and only (0, 2) wins at once.

  /** In this position (0, 2) is the one move that wins on the spot. */
  lemma OnlyOneWinningMove(b: Board, a: Move)
    requires Shows(b, [X, X, Empty, O, O, Empty, Empty, Empty, Empty])
    requires a in Actions(b)
    ensures WinsNow(b, a) <==> a == (0, 2)
  {
    CountBySquares(b, X);
    CountBySquares(b, O);
    SuccessorChangesOnlyTheMove(b, a);
    var r := Successor(b, a);
    if a == (0, 2) {
      WinnerIsDecidingLine(r, X);
      assert DecidingLine(r, 0);
    } else {
      NoWinnerWithoutUniformLine(r);
    }
  }

  /** The search completes the top row. */
  method CompletesTheRow(b: Board) returns (move: Option<Move>)
    requires Shows(b, [X, X, Empty, O, O, Empty, Empty, Empty, Empty])
    ensures move == Some((0, 2))
  {
    NoWinnerWithoutUniformLine(b);
    assert b[0][2] == Empty;
    OnlyOneWinningMove(b, (0, 2));
    assert HasImmediateWin(b);
    move := Minimax(b);
    OnlyOneWinningMove(b, move.value);
  }

  // ---------------------------------------------------------------------------
  // O X .
  // X O O
  // . X .    X to move; O threatens the main diagonal at (2, 2) and X has no
  //          winning move of its own.

  /** The threatened position is not over, and X is to move. */
  lemma ThreatNotOver(b: Board)
    requires Shows(b, [O, X, Empty, X, O, O, Empty, X, Empty])
    ensures !Terminal(b) && Player(b) == X
  {
    CountBySquares(b, X);
    CountBySquares(b, O);
    NoWinnerWithoutUniformLine(b);
    assert b[0][2] == Empty;
  }

  /** In the threatened position X has three moves. */
  lemma ThreatMoves(b: Board)
    requires Shows(b, [O, X, Empty, X, O, O, Empty, X, Empty])
    ensures forall a | a in Actions(b) :: a == (0, 2) || a == (2, 0) || a == (2, 2)
  {
  }

  /** O X ? / X O O / ? X . with one of the two ? taken by X: O, to move,
      completes the main diagonal at (2, 2). */
  lemma ODiagonalWins(r: Board)
    requires r[0][0] == O && r[0][1] == X
    requires r[1][0] == X && r[1][1] == O && r[1][2] == O
    requires r[2][1] == X && r[2][2] == Empty
    requires (r[0][2] == X && r[2][0] == Empty) || (r[0][2] == Empty && r[2][0] == X)
    ensures MinVal(r) == -1
  {
    CountBySquares(r, X);
    CountBySquares(r, O);
    NoWinnerWithoutUniformLine(r);
    assert Player(r) == O && !Terminal(r);
    SuccessorChangesOnlyTheMove(r, (2, 2));
    ODiagonalHeld(Successor(r, (2, 2)));
    ImmediateWinIsOptimalForO(r, (2, 2));
  }

  /** O X ? / X O O / ? X O with one of the two ? taken by X: O holds the main
      diagonal and no other line is uniform. */
  lemma ODiagonalHeld(w: Board)
    requires w[0][0] == O && w[0][1] == X
    requires w[1][0] == X && w[1][1] == O && w[1][2] == O
    requires w[2][1] == X && w[2][2] == O
    requires (w[0][2] == X && w[2][0] == Empty) || (w[0][2] == Empty && w[2][0] == X)
    ensures WinnerOf(w) == Some(O)
  {
    RowsAndColumnsClear(w);
    WinnerIsDecidingLine(w, O);
    assert DecidingLine(w, 6);
  }

  /** X at (0, 2) leaves the diagonal to O. */
  lemma TopRightLoses(b: Board)
    requires Shows(b, [O, X, Empty, X, O, O, Empty, X, Empty])
    ensures (0, 2) in Actions(b) && MinVal(Successor(b, (0, 2))) == -1
  {
    ThreatNotOver(b);
    SuccessorChangesOnlyTheMove(b, (0, 2));
    ODiagonalWins(Successor(b, (0, 2)));
  }

  /** X at (2, 0) leaves the diagonal to O. */
  lemma BottomLeftLoses(b: Board)
    requires Shows(b, [O, X, Empty, X, O, O, Empty, X, Empty])
    ensures (2, 0) in Actions(b) && MinVal(Successor(b, (2, 0))) == -1
  {
    ThreatNotOver(b);
    SuccessorChangesOnlyTheMove(b, (2, 0));
    ODiagonalWins(Successor(b, (2, 0)));
  }

  /** O X O / X O O / . X X: X, to move, completes the bottom row. */
  lemma XCompletesBottomRow(t: Board)
    requires Shows(t, [O, X, O, X, O, O, Empty, X, X])
    ensures MaxVal(t) == 1
  {
    CountBySquares(t, X);
    CountBySquares(t, O);
    NoWinnerWithoutUniformLine(t);
    assert Player(t) == X && !Terminal(t);
    SuccessorChangesOnlyTheMove(t, (2, 0));
    BottomRowWins(Successor(t, (2, 0)));
    ImmediateWinIsOptimalForX(t, (2, 0));
  }

  /** O X O / X O O / X X X: X holds the bottom row. */
  lemma BottomRowWins(w: Board)
    requires Shows(w, [O, X, O, X, O, O, X, X, X])
    ensures WinnerOf(w) == Some(X)
  {
    WinnerIsDecidingLine(w, X);
    assert DecidingLine(w, 4);
  }

  /** O X X / X O O / O X X: a full board without a line, a draw. */
  lemma FullBoardDraws(f: Board)
    requires Shows(f, [O, X, X, X, O, O, O, X, X])
    ensures Terminal(f) && MinVal(f) == 0
  {
    CountBySquares(f, Empty);
    FullIffNoEmptyCount(f);
    NoWinnerWithoutUniformLine(f);
    ValuesOfTerminal(f);
  }

  /** O X . / X O O / O X X: X's only move fills the board without a line. */
  lemma XFillsTheBoard(t: Board)
    requires Shows(t, [O, X, Empty, X, O, O, O, X, X])
    ensures MaxVal(t) == 0
  {
    CountBySquares(t, X);
    CountBySquares(t, O);
    NoWinnerWithoutUniformLine(t);
    assert t[0][2] == Empty;
    SuccessorChangesOnlyTheMove(t, (0, 2));
    FullBoardDraws(Successor(t, (0, 2)));
    var best := MaxValReached(t);
    assert t[best.0][best.1] == Empty;
  }

  // After X blocks at (2, 2):
  // O X .
  // X O O
  // . X X    O to move.

  /** The position after the block is not over, and O is to move. */
  lemma BlockedNotOver(s: Board)
    requires Shows(s, [O, X, Empty, X, O, O, Empty, X, X])
    ensures !Terminal(s) && Player(s) == O
  {
    CountBySquares(s, X);
    CountBySquares(s, O);
    NoWinnerWithoutUniformLine(s);
    assert s[0][2] == Empty;
  }

  /** After the block O has two replies. */
  lemma BlockedReplies(s: Board)
    requires Shows(s, [O, X, Empty, X, O, O, Empty, X, X])
    ensures forall a | a in Actions(s) :: a == (0, 2) || a == (2, 0)
  {
  }

  /** If O replies at (0, 2), X completes the bottom row. */
  lemma ReplyTopRightLoses(s: Board)
    requires Shows(s, [O, X, Empty, X, O, O, Empty, X, X])
    ensures (0, 2) in Actions(s) && MaxVal(Successor(s, (0, 2))) == 1
  {
    BlockedNotOver(s);
    SuccessorChangesOnlyTheMove(s, (0, 2));
    XCompletesBottomRow(Successor(s, (0, 2)));
  }

  /** If O replies at (2, 0), X's last move fills the board without a line. */
  lemma ReplyBottomLeftDraws(s: Board)
    requires Shows(s, [O, X, Empty, X, O, O, Empty, X, X])
    ensures (2, 0) in Actions(s) && MaxVal(Successor(s, (2, 0))) == 0
  {
    BlockedNotOver(s);
    SuccessorChangesOnlyTheMove(s, (2, 0));
    XFillsTheBoard(Successor(s, (2, 0)));
  }

  /** With O to move after the block, the best O can force is a draw. */
  lemma BlockedDraws(s: Board)
    requires Shows(s, [O, X, Empty, X, O, O, Empty, X, X])
    ensures MinVal(s) == 0
  {
    BlockedNotOver(s);
    BlockedReplies(s);
    var best := MinValReached(s);
    ReplyTopRightLoses(s);
    ReplyBottomLeftDraws(s);
    MinValBounds(s, (2, 0));
  }

  /** After X takes (2, 2), O cannot force a win. */
  lemma BlockHolds(b: Board)
    requires Shows(b, [O, X, Empty, X, O, O, Empty, X, Empty])
    ensures (2, 2) in Actions(b) && MinVal(Successor(b, (2, 2))) == 0
  {
    ThreatNotOver(b);
    SuccessorChangesOnlyTheMove(b, (2, 2));
    BlockedDraws(Successor(b, (2, 2)));
  }

  /** The search blocks: the only move that does not lose is (2, 2), and the
      shortcut, which looks only for X's own wins, does not fire. */
  method BlocksTheDiagonal(b: Board) returns (move: Option<Move>)
    requires Shows(b, [O, X, Empty, X, O, O, Empty, X, Empty])
    ensures move == Some((2, 2))
  {
    ThreatNotOver(b);
    move := Minimax(b);
    ThreatMoves(b);
    BlockHolds(b);
    MaxValBounds(b, (2, 2));
    if move.value == (0, 2) {
      TopRightLoses(b);
    } else if move.value == (2, 0) {
      BottomLeftLoses(b);
    }
  }

  // ---------------------------------------------------------------------------
  // X X X
  // O O .
  // . . .    X has already won, yet (1, 2) is still a legal move for O.

  /** `result` only asks for an empty square, so O can still complete its own
      row on a board X has won; the new board holds lines of both marks, and
      the check order reports X, whose row comes first. */
  lemma MoveAfterTheWin(b: Board)
    requires Shows(b, [X, X, X, O, O, Empty, Empty, Empty, Empty])
    ensures Terminal(b) && (1, 2) in Actions(b) && Player(b) == O
    ensures Uniform(Successor(b, (1, 2)), Row(0)) && Uniform(Successor(b, (1, 2)), Row(1))
    ensures WinnerOf(Successor(b, (1, 2))) == Some(X)
  {
    CountBySquares(b, X);
    CountBySquares(b, O);
    assert Uniform(b, CheckOrder[0]);
    var r := Successor(b, (1, 2));
    SuccessorChangesOnlyTheMove(b, (1, 2));
    WinnerIsDecidingLine(r, X);
    assert DecidingLine(r, 0);
  }
}
