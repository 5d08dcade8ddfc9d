/** The board of 3×3 tic-tac-toe, the state queries on it and the transition
    function: everything the search relies on. */
module TicTacToe {

  /** What one square holds; `Empty` plays the part of the empty marker. */
  datatype Cell = Empty | X | O

  datatype Option<T> = None | Some(value: T)

  /** A row or column number. */
  type Index = i: int | 0 <= i < 3

  /** A 3×3 grid, read as board[row][column]. Boards are values: a new board
      never shares rows with the board it was made from. */
  type Board = b: seq<seq<Cell>> | |b| == 3 && forall i | 0 <= i < 3 :: |b[i]| == 3
    witness [[Empty, Empty, Empty], [Empty, Empty, Empty], [Empty, Empty, Empty]]

  /** A proposed move (row, column). Any pair can be proposed; only those
      naming an empty square are legal. */
  type Move = (int, int)

  /** What `Result` returns: the new board, or the invalid-action error. */
  datatype MoveResult = Ok(board: Board) | InvalidAction

  // ---------------------------------------------------------------------------
  // Counting marks

  /** 1 when the square holds `c`, else 0. */
  function Tally(v: Cell, c: Cell): nat {
    if v == c then 1 else 0
  }

  /** How many squares of `row` hold `c`. */
  function Occurrences(row: seq<Cell>, c: Cell): (n: nat)
    ensures n <= |row|
    ensures n == |row| <==> forall k | 0 <= k < |row| :: row[k] == c
  {
    if row == [] then 0 else Tally(row[0], c) + Occurrences(row[1..], c)
  }

  /** Writing `v` into square `k` of a row changes the count of `c` by what left
      and what arrived. */
  lemma {:induction false} OccurrencesAfterWrite(row: seq<Cell>, k: nat, v: Cell, c: Cell)
    requires k < |row|
    ensures Occurrences(row[k := v], c) == Occurrences(row, c) - Tally(row[k], c) + Tally(v, c)
  {
    if k == 0 {
      assert row[k := v][1..] == row[1..];
    } else {
      assert row[k := v][1..] == row[1..][k - 1 := v];
      OccurrencesAfterWrite(row[1..], k - 1, v, c);
    }
  }

  /** A row holds no `c` exactly when every square differs from `c`. */
  lemma {:induction false} OccurrencesZero(row: seq<Cell>, c: Cell)
    ensures Occurrences(row, c) == 0 <==> forall k | 0 <= k < |row| :: row[k] != c
  {
    if row != [] {
      OccurrencesZero(row[1..], c);
      assert forall k | 1 <= k < |row| :: row[k] == row[1..][k - 1];
    }
  }

  /** The number of squares of the board holding `c`, summed row by row. */
  function Count(b: Board, c: Cell): (n: nat)
    ensures n <= 9
  {
    Occurrences(b[0], c) + Occurrences(b[1], c) + Occurrences(b[2], c)
  }

  /** A row of three holds as many `c` as its squares that do. */
  lemma OccurrencesOfThree(row: seq<Cell>, c: Cell)
    requires |row| == 3
    ensures Occurrences(row, c) == Tally(row[0], c) + Tally(row[1], c) + Tally(row[2], c)
  {
    assert row[1..][0] == row[1];
    assert row[1..][1..][0] == row[2];
    assert row[1..][1..][1..] == [];
  }

  /** The count of a mark is the number of the nine squares holding it. */
  lemma CountBySquares(b: Board, c: Cell)
    ensures Count(b, c)
         == Tally(b[0][0], c) + Tally(b[0][1], c) + Tally(b[0][2], c)
          + Tally(b[1][0], c) + Tally(b[1][1], c) + Tally(b[1][2], c)
          + Tally(b[2][0], c) + Tally(b[2][1], c) + Tally(b[2][2], c)
  {
    OccurrencesOfThree(b[0], c);
    OccurrencesOfThree(b[1], c);
    OccurrencesOfThree(b[2], c);
  }

  /** Placing `v` on square (i, j) changes the count of `c` by what left and
      what arrived. */
  lemma CountAfterWrite(b: Board, i: Index, j: Index, v: Cell, c: Cell)
    ensures Count(b[i := b[i][j := v]], c) == Count(b, c) - Tally(b[i][j], c) + Tally(v, c)
  {
    OccurrencesAfterWrite(b[i], j, v, c);
  }

  /** No square is empty. */
  predicate Full(b: Board) {
    forall i, j | 0 <= i < 3 && 0 <= j < 3 :: b[i][j] != Empty
  }

  /** The board is full exactly when it has no empty square left to count. */
  lemma FullIffNoEmptyCount(b: Board)
    ensures Full(b) <==> Count(b, Empty) == 0
  {
    OccurrencesZero(b[0], Empty);
    OccurrencesZero(b[1], Empty);
    OccurrencesZero(b[2], Empty);
  }

  // ---------------------------------------------------------------------------
  // Initial state, turn and legal moves

  /** The starting position: all nine squares empty. */
  function InitialState(): (b: Board)
    ensures Count(b, Empty) == 9 && Count(b, X) == 0 && Count(b, O) == 0
  {
    [[Empty, Empty, Empty], [Empty, Empty, Empty], [Empty, Empty, Empty]]
  }

  /** The mark to play next: X goes first, so X moves whenever it has not placed
      more marks than O. Defined on every board, terminal ones included. */
  function Player(b: Board): (p: Cell)
    ensures p != Empty
    ensures p == X <==> Count(b, X) <= Count(b, O)
  {
    if Count(b, X) <= Count(b, O) then X else O
  }

  /** X opens the game. */
  lemma InitialPlayerIsX()
    ensures Player(InitialState()) == X
  {
  }

  /** The starting position is balanced: the first half of the proof that
      turns alternate on every board reached by play (`TurnsAlternate` is
      the other). */
  lemma InitialStateBalanced()
    ensures TurnBalanced(InitialState())
  {
  }

  /** All legal moves: the coordinates of the empty squares. */
  function Actions(b: Board): (acts: set<Move>)
    ensures forall a :: a in acts <==> 0 <= a.0 < 3 && 0 <= a.1 < 3 && b[a.0][a.1] == Empty
  {
    set i, j | 0 <= i < 3 && 0 <= j < 3 && b[i][j] == Empty :: (i, j)
  }

  /** There is no legal move exactly when no square is empty. */
  lemma NoActionsIffFull(b: Board)
    ensures Actions(b) == {} <==> Full(b)
    ensures Actions(b) == {} <==> Count(b, Empty) == 0
  {
    FullIffNoEmptyCount(b);
    if !Full(b) {
      var i, j :| 0 <= i < 3 && 0 <= j < 3 && b[i][j] == Empty;
      assert (i, j) in Actions(b);
    }
  }

  // ---------------------------------------------------------------------------
  // The transition

  /** The board after the player to move marks the empty square `a`. */
  function Successor(b: Board, a: Move): (r: Board)
    requires a in Actions(b)
    ensures Count(r, Empty) == Count(b, Empty) - 1
  {
    CountAfterWrite(b, a.0, a.1, Player(b), Empty);
    b[a.0 := b[a.0][a.1 := Player(b)]]
  }

  /** The new board equals the old one except on the square moved to, which
      now holds the mover's mark; the mover's count goes up by one and the
      other mark's count stays. */
  lemma SuccessorChangesOnlyTheMove(b: Board, a: Move)
    requires a in Actions(b)
    ensures forall i, j | 0 <= i < 3 && 0 <= j < 3 ::
      Successor(b, a)[i][j] == if (i, j) == a then Player(b) else b[i][j]
    ensures Count(Successor(b, a), Player(b)) == Count(b, Player(b)) + 1
    ensures forall c | c != Empty && c != Player(b) :: Count(Successor(b, a), c) == Count(b, c)
  {
    var p := Player(b);
    CountAfterWrite(b, a.0, a.1, p, p);
    forall c | c != Empty && c != p
      ensures Count(Successor(b, a), c) == Count(b, c)
    {
      CountAfterWrite(b, a.0, a.1, p, c);
    }
  }

  /** The move (i, j) made on a copy of `board`: refused unless it is a legal
      move; otherwise the copy gets the mover's mark at (i, j). The caller's
      board is a value and is never changed. */
  method Result(board: Board, action: Move) returns (r: MoveResult)
    ensures r.InvalidAction? <==> action !in Actions(board)
    ensures r.Ok? ==> r.board == Successor(board, action)
  {
    if action !in Actions(board) {
      return InvalidAction;
    }
    var (i, j) := action;
    var newBoard := board;
    newBoard := newBoard[i := newBoard[i][j := Player(board)]];
    return Ok(newBoard);
  }

  /** "X has placed as many marks as O, or one more": the balance of every
      board reached by play from the initial state. */
  predicate TurnBalanced(b: Board) {
    Count(b, O) <= Count(b, X) <= Count(b, O) + 1
  }

  /** Every move lowers the number of empty squares by one and, on a balanced
      board, keeps the balance and hands the turn to the other mark. */
  lemma TurnsAlternate(b: Board, a: Move)
    requires a in Actions(b)
    ensures Count(Successor(b, a), Empty) == Count(b, Empty) - 1
    ensures TurnBalanced(b) ==> TurnBalanced(Successor(b, a))
    ensures TurnBalanced(b) ==> Player(Successor(b, a)) != Player(b)
  {
    var r := Successor(b, a);
    SuccessorChangesOnlyTheMove(b, a);
    if Player(b) == X {
      assert Count(r, X) == Count(b, X) + 1 && Count(r, O) == Count(b, O);
    } else {
      assert Count(r, O) == Count(b, O) + 1 && Count(r, X) == Count(b, X);
    }
  }

  // ---------------------------------------------------------------------------
  // Lines and the winner

  /** The eight lines of three squares. */
  datatype Line = Row(i: Index) | Column(j: Index) | Diagonal | AntiDiagonal

  /** The order in which the winner is looked for: row 0, column 0, row 1,
      column 1, row 2, column 2, the main diagonal, the anti-diagonal. */
  const CheckOrder: seq<Line> :=
    [Row(0), Column(0), Row(1), Column(1), Row(2), Column(2), Diagonal, AntiDiagonal]

  /** The three squares of a line, starting with the one reported as its mark. */
  function Marks(b: Board, l: Line): (m: seq<Cell>)
    ensures |m| == 3
  {
    match l
    case Row(i) => [b[i][0], b[i][1], b[i][2]]
    case Column(j) => [b[0][j], b[1][j], b[2][j]]
    case Diagonal => [b[0][0], b[1][1], b[2][2]]
    case AntiDiagonal => [b[0][2], b[1][1], b[2][0]]
  }

  /** A line held entirely by one mark. */
  predicate Uniform(b: Board, l: Line) {
    var m := Marks(b, l);
    m[0] == m[1] == m[2] && m[0] != Empty
  }

  /** Line n of the check order is the first uniform one. */
  predicate DecidingLine(b: Board, n: nat) {
    && n < |CheckOrder|
    && Uniform(b, CheckOrder[n])
    && forall k | 0 <= k < n :: !Uniform(b, CheckOrder[k])
  }

  /** The mark of the first uniform line at or after position k of the check
      order, if there is one. */
  function WinnerFrom(b: Board, k: nat): (w: Option<Cell>)
    requires k <= |CheckOrder|
    ensures w.Some? ==> w.value != Empty
    ensures w.None? <==> forall n | k <= n < |CheckOrder| :: !Uniform(b, CheckOrder[n])
    decreases |CheckOrder| - k
  {
    if k == |CheckOrder| then None
    else if Uniform(b, CheckOrder[k]) then Some(Marks(b, CheckOrder[k])[0])
    else WinnerFrom(b, k + 1)
  }

  /** The winner: the mark of the first uniform line in the check order. */
  function WinnerOf(b: Board): (w: Option<Cell>)
    ensures w.Some? ==> w.value != Empty
    ensures w.None? <==> forall n | 0 <= n < |CheckOrder| :: !Uniform(b, CheckOrder[n])
  {
    WinnerFrom(b, 0)
  }

  /** From position k on, the search reports the mark of the first uniform line
      it meets, and reports nothing else. */
  lemma {:induction false} WinnerFromFirstUniform(b: Board, k: nat, m: Cell)
    requires k <= |CheckOrder|
    ensures WinnerFrom(b, k) == Some(m) <==>
      exists n | k <= n < |CheckOrder| ::
        && Uniform(b, CheckOrder[n])
        && (forall n' | k <= n' < n :: !Uniform(b, CheckOrder[n']))
        && Marks(b, CheckOrder[n])[0] == m
    decreases |CheckOrder| - k
  {
    if k < |CheckOrder| && !Uniform(b, CheckOrder[k]) {
      assert WinnerFrom(b, k) == WinnerFrom(b, k + 1);
      WinnerFromFirstUniform(b, k + 1, m);
      if WinnerFrom(b, k) == Some(m) {
        var n :| && k + 1 <= n < |CheckOrder|
                 && Uniform(b, CheckOrder[n])
                 && (forall n' | k + 1 <= n' < n :: !Uniform(b, CheckOrder[n']))
                 && Marks(b, CheckOrder[n])[0] == m;
        assert forall n' | k <= n' < n :: !Uniform(b, CheckOrder[n']);
      }
    }
  }

  /** The winner is m exactly when the first uniform line in the check order
      is held by m; so on a board with lines of both marks, the order decides. */
  lemma WinnerIsDecidingLine(b: Board, m: Cell)
    ensures WinnerOf(b) == Some(m) <==>
      exists n: nat :: DecidingLine(b, n) && Marks(b, CheckOrder[n])[0] == m
  {
    WinnerFromFirstUniform(b, 0, m);
  }

  /** A move made on a game still in progress can only complete lines of the
      mover's own mark: every other line was already there, and none was
      held by one mark. */
  lemma OnlyMoverHoldsALine(b: Board, a: Move, l: Line)
    requires !Terminal(b) && a in Actions(b)
    requires l in CheckOrder && Uniform(Successor(b, a), l)
    ensures Marks(Successor(b, a), l)[0] == Player(b)
  {
    SuccessorChangesOnlyTheMove(b, a);
    var n :| 0 <= n < |CheckOrder| && CheckOrder[n] == l;
    assert !Uniform(b, CheckOrder[n]);
  }

  /** So on a board reached by play, which stops at a finished game, at most
      one mark holds a line, and the check order never has to choose. */
  lemma MoverIsOnlyWinner(b: Board, a: Move)
    requires !Terminal(b) && a in Actions(b)
    ensures WinnerOf(Successor(b, a)).Some? ==> WinnerOf(Successor(b, a)) == Some(Player(b))
    ensures forall l | l in CheckOrder && Uniform(Successor(b, a), l) ::
      Marks(Successor(b, a), l)[0] == Player(b)
  {
    var r := Successor(b, a);
    forall l | l in CheckOrder && Uniform(r, l)
      ensures Marks(r, l)[0] == Player(b)
    {
      OnlyMoverHoldsALine(b, a, l);
    }
    if WinnerOf(r).Some? {
      var m := WinnerOf(r).value;
      WinnerIsDecidingLine(r, m);
      var n: nat :| DecidingLine(r, n) && Marks(r, CheckOrder[n])[0] == m;
      OnlyMoverHoldsALine(b, a, CheckOrder[n]);
    }
  }

  /** CheckOrder interleaves rows and columns before the two diagonals. */
  lemma CheckOrderAt(i: Index)
    ensures CheckOrder[2 * i] == Row(i) && CheckOrder[2 * i + 1] == Column(i)
  {
  }

  /** The winner, found by scanning rows and columns in turn and then the two
      diagonals, stopping at the first line held by one mark. */
  method Winner(board: Board) returns (w: Option<Cell>)
    ensures w == WinnerOf(board)
  {
    for i := 0 to 3
      invariant WinnerOf(board) == WinnerFrom(board, 2 * i)
    {
      CheckOrderAt(i);
      if board[i][0] == board[i][1] == board[i][2] && board[i][0] != Empty {
        return Some(board[i][0]);
      }
      if board[0][i] == board[1][i] == board[2][i] && board[0][i] != Empty {
        return Some(board[0][i]);
      }
    }
    if board[0][0] == board[1][1] == board[2][2] && board[0][0] != Empty {
      return Some(board[0][0]);
    }
    if board[0][2] == board[1][1] == board[2][0] && board[0][2] != Empty {
      return Some(board[0][2]);
    }
    return None;
  }

  // ---------------------------------------------------------------------------
  // End of game

  /** The game is over once someone has won or the board is full. */
  predicate Terminal(b: Board)
    ensures Terminal(b) <==>
      (exists n | 0 <= n < |CheckOrder| :: Uniform(b, CheckOrder[n])) || Count(b, Empty) == 0
  {
    FullIffNoEmptyCount(b);
    WinnerOf(b).Some? || Full(b)
  }

  /** The game is over exactly when there is a winner or no legal move. */
  lemma TerminalIffNoMoveOrWinner(b: Board)
    ensures Terminal(b) <==> WinnerOf(b).Some? || Actions(b) == {}
    ensures !Terminal(b) ==> Actions(b) != {} && Count(b, Empty) > 0
  {
    NoActionsIffFull(b);
  }

  /** The outcome as a number: 1 if X has won, -1 if O has won, 0 otherwise. */
  function Utility(b: Board): (u: int)
    ensures -1 <= u <= 1
    ensures u == 1 <==> WinnerOf(b) == Some(X)
    ensures u == -1 <==> WinnerOf(b) == Some(O)
    ensures u == 0 <==> WinnerOf(b).None?
  {
    if WinnerOf(b) == Some(X) then 1
    else if WinnerOf(b) == Some(O) then -1
    else 0
  }

  /** With no row or column held by one mark, none of the first six lines of
      the check order is uniform. */
  lemma RowsAndColumnsClear(b: Board)
    requires !Uniform(b, Row(0)) && !Uniform(b, Row(1)) && !Uniform(b, Row(2))
    requires !Uniform(b, Column(0)) && !Uniform(b, Column(1)) && !Uniform(b, Column(2))
    ensures forall k | 0 <= k < 6 :: !Uniform(b, CheckOrder[k])
  {
    forall k | 0 <= k < 6 ensures !Uniform(b, CheckOrder[k]) {
      CheckOrderAt(k / 2);
    }
  }

  /** With none of the eight lines held by one mark, there is no winner. */
  lemma NoWinnerWithoutUniformLine(b: Board)
    requires !Uniform(b, Row(0)) && !Uniform(b, Row(1)) && !Uniform(b, Row(2))
    requires !Uniform(b, Column(0)) && !Uniform(b, Column(1)) && !Uniform(b, Column(2))
    requires !Uniform(b, Diagonal) && !Uniform(b, AntiDiagonal)
    ensures WinnerOf(b).None?
  {
  }

  /** The starting position is not over. */
  lemma InitialStateNotTerminal()
    ensures !Terminal(InitialState())
  {
    var b := InitialState();
    assert b[0][0] == Empty;
    NoWinnerWithoutUniformLine(b);
  }
}
