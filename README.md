# Tic-tac-toe engine in Dafny

A model of the engine of a 3×3 tic-tac-toe player (`tictactoe.py`): the board,
the state queries (`player`, `actions`, `winner`, `terminal`, `utility`), the
transition `result`, and the exhaustive `minimax` search with its helpers
`max_value` / `min_value` and its one-ply winning-move shortcut.

Files:

- `game.dfy`, module `TicTacToe`: cells, boards, mark counting, the initial
  state, `Player`, `Actions`, the transition (`Successor` as a function and
  `Result` as the method that copies the board and writes the move), the
  eight lines in the order the winner is searched for, `WinnerOf` and the
  loop `Winner` proved against it, `Terminal` and `Utility`.
- `search.dfy`, module `Search`: the minimax values `MaxVal` / `MinVal` as
  functions; the methods `MaxValue` / `MinValue` that fold max / min over the
  moves as the source's loops do and are proved equal to them; `SelectMax` /
  `SelectMin`, the final max / min over `(value, action)` tuples; and
  `Minimax`, proved to return an optimal legal move (or `None` on a finished
  game), including when the shortcut fires.
- `scenarios.dfy`, module `Scenarios`: two positions where the move the search
  returns is pinned down: one where X can win at once, and one where X must
  block O's diagonal. Each board is given square by square (`Shows`), and the
  search is followed down the game tree far enough to fix its choice.

Modelling choices:

- A board is a value of type `Board`, a `seq<seq<Cell>>` whose shape is
  3×3 by its type; `Cell = Empty | X | O`, with `Empty` in the place of the
  source's `None`. Since boards are values, `result` never changes its input
  and rows are never shared between boards.
- A move is any `(int, int)` pair; `Actions` is a `set` of them.
- `result` raising `ValueError("Invalid action")` becomes the `InvalidAction`
  variant of `MoveResult`.
- `winner` is a loop with early returns, so it is the method `Winner`,
  proved equal to the function `WinnerOf`, which searches `CheckOrder` (row 0,
  column 0, row 1, column 1, row 2, column 2, main diagonal, anti-diagonal).
  Functions cannot call methods, so `Terminal`, `Utility` and the value
  functions use `WinnerOf`.
- `max_value` / `min_value` are recursive methods; each loops over the set of
  moves, calling `Result` and the other method. The `-math.inf` / `math.inf`
  seed is replaced by the value of the first move taken from the set, so the
  fold runs over a non-empty set, which a game in progress always has.
- Their specifications `MaxVal` / `MinVal` take `Highest` / `Lowest` of the set
  of reply values. These are the largest / smallest of outcomes drawn from
  {-1, 0, 1}. `MaxValIsBestMove` / `MinValIsBestMove` prove that this is the
  true maximum / minimum over the moves.
- The termination measure of the search is the number of empty squares,
  which every move lowers by one (`Successor`'s contract).
- The shortcut loop uses one variable `goal` (1 for X, -1 for O) where the
  source repeats the loop once per mark.

Where the code and the comments around it differ, the model follows the code:

- The shortcut is commented "Block the winning move directly"
  (tictactoe.py:147). In fact it only looks for the mover's own winning
  move. Blocking comes from the full search, as `Scenarios.BlocksTheDiagonal`
  shows.
- `result` accepts a move on a board that is already won but still has an
  empty square: it only checks that the action is in `actions(board)`.
- On the board `X X . / . . . / . . .` it is O's turn, since X has placed more
  marks than O. The winning-move scenario therefore uses
  `X X . / O O . / . . .`, where X is to move.
- On a board where lines of both marks are complete, the mark reported is
  that of the first complete line in the check order
  (`WinnerIsDecidingLine`). Such a board is not reached when play stops at a
  finished game: a move on a game in progress completes only lines of the
  mover's mark (`MoverIsOnlyWinner`). `result` alone does reach one, since
  it accepts O at (1, 2) on `X X X / O O . / . . .`
  (`Scenarios.MoveAfterTheWin`).

## Model

| member | source | states |
|---|---|---|
| TicTacToe.InitialState | tictactoe.py:12-19 | the starting board has nine empty squares and no X or O |
| TicTacToe.InitialPlayerIsX | tictactoe.py:17-30 | X moves first on the starting board |
| TicTacToe.InitialStateBalanced | tictactoe.py:12-30 | on the starting board X has as many marks as O, the balance `TurnsAlternate` carries through every move |
| TicTacToe.InitialStateNotTerminal | tictactoe.py:78-83 | the starting board is not a finished game |
| TicTacToe.Occurrences | tictactoe.py:27-28 | the count of a mark in a row is at most the row's length, and equals it exactly when every square holds that mark |
| TicTacToe.OccurrencesAfterWrite | tictactoe.py:51-52 | writing one square changes a row's count of a mark by what left and what arrived |
| TicTacToe.OccurrencesZero | tictactoe.py:83 | a row has no square holding a mark exactly when its count of that mark is zero |
| TicTacToe.CountAfterWrite | tictactoe.py:27-28 | placing a mark on one square changes the board's count of each mark by what left and what arrived |
| TicTacToe.Count | tictactoe.py:27-28 | the board's count of a mark, summed over the rows, is at most 9 |
| TicTacToe.CountBySquares | tictactoe.py:27-28 | the board's count of a mark is the number of its nine squares that hold the mark |
| TicTacToe.Full | tictactoe.py:83 | no square of the board is empty; `FullIffNoEmptyCount` ties it to the count of empty squares |
| TicTacToe.FullIffNoEmptyCount | tictactoe.py:83 | the board is full exactly when its count of empty squares is zero |
| TicTacToe.Player | tictactoe.py:22-30 | the player to move is never Empty, and is X exactly when X has placed no more marks than O |
| TicTacToe.Actions | tictactoe.py:33-38 | (i, j) is a legal move exactly when 0 <= i, j < 3 and square (i, j) is empty |
| TicTacToe.NoActionsIffFull | tictactoe.py:38 | there is no legal move exactly when the board is full, i.e. has no empty square |
| TicTacToe.Successor | tictactoe.py:50-52 | a move lowers the number of empty squares by exactly one |
| TicTacToe.SuccessorChangesOnlyTheMove | tictactoe.py:50-52 | the new board equals the old one except at the move, which holds the mover's mark; the mover's count rises by one and the other mark's count stays |
| TicTacToe.Result | tictactoe.py:41-54 | the move is refused with InvalidAction exactly when it is not a legal move; otherwise the new board is the successor |
| TicTacToe.TurnsAlternate | tictactoe.py:27-30 | on a board where X has as many marks as O or one more, a move keeps that balance and hands the turn to the other mark |
| TicTacToe.WinnerFrom | tictactoe.py:62-75 | from a position of the check order, the search reports a mark (never Empty), and reports none exactly when no later line is held by one mark |
| TicTacToe.Marks | tictactoe.py:62-73 | the three squares of a row, a column or a diagonal, of which the first is the one the source reports as the winner |
| TicTacToe.Uniform | tictactoe.py:63-72 | a line is held by one mark: its three squares are equal and not empty, the test made for each of the eight lines |
| TicTacToe.WinnerOf | tictactoe.py:57-75 | the winner is never Empty, and there is none exactly when no line is held by one mark |
| TicTacToe.WinnerFromFirstUniform | tictactoe.py:62-73 | from a position of the check order, the mark reported is that of the first uniform line at or after it |
| TicTacToe.WinnerIsDecidingLine | tictactoe.py:62-73 | the winner is m exactly when the first uniform line in the order row 0, column 0, row 1, column 1, row 2, column 2, diagonal, anti-diagonal is held by m |
| TicTacToe.OnlyMoverHoldsALine | tictactoe.py:46-52 | after a legal move on a game in progress, every line held by one mark is held by the mark of the player who moved |
| TicTacToe.MoverIsOnlyWinner | tictactoe.py:46-73 | after a legal move on a game in progress, the winner, if any, is the player who moved, whatever the check order, and no line of the other mark is complete |
| TicTacToe.RowsAndColumnsClear | tictactoe.py:62-67 | with no row or column held by one mark, none of the first six lines the scan looks at is uniform |
| TicTacToe.NoWinnerWithoutUniformLine | tictactoe.py:62-75 | with none of the eight lines held by one mark there is no winner |
| TicTacToe.Winner | tictactoe.py:57-75 | the scan of rows and columns, then the diagonals, with early return, computes the winner |
| TicTacToe.TerminalIffNoMoveOrWinner | tictactoe.py:78-83 | the game is over exactly when there is a winner or no legal move; a game in progress has a legal move and an empty square |
| TicTacToe.Terminal | tictactoe.py:78-83 | the game is over exactly when some line is held by one mark or no square is empty |
| TicTacToe.Utility | tictactoe.py:86-98 | the utility is in {-1, 0, 1}; it is 1 exactly when X has won, -1 exactly when O has won, 0 exactly when there is no winner |
| Search.Highest | tictactoe.py:111-117 | the result is a value in [-1, 1]; on a non-empty set of outcomes in [-1, 1] it is the maximum (see HighestLowestAreExtremes) |
| Search.Lowest | tictactoe.py:124-130 | the result is a value in [-1, 1]; on a non-empty set of outcomes in [-1, 1] it is the minimum (see HighestLowestAreExtremes) |
| Search.HighestLowestAreExtremes | tictactoe.py:111-130 | on a non-empty set of outcomes in [-1, 1], Highest is its maximum and Lowest its minimum |
| Search.MaxVal | tictactoe.py:107-117 | the maximiser's value of every board is in [-1, 1] |
| Search.MinVal | tictactoe.py:120-130 | the minimiser's value of every board is in [-1, 1] |
| Search.ValuesOfTerminal | tictactoe.py:108-122 | on a finished game both values are its utility |
| Search.MaxValBounds | tictactoe.py:114-115 | no move of the maximiser's is worth more than the maximiser's value |
| Search.MaxValReached | tictactoe.py:111-117 | on a game in progress some legal move is worth exactly the maximiser's value |
| Search.MinValBounds | tictactoe.py:127-128 | no move of the minimiser's is worth less than the minimiser's value |
| Search.MinValReached | tictactoe.py:124-130 | on a game in progress some legal move is worth exactly the minimiser's value |
| Search.MaxValIsBestMove | tictactoe.py:111-117 | on a game in progress, v is the maximiser's value exactly when some move reaches v and no move's reply value exceeds it |
| Search.MinValIsBestMove | tictactoe.py:124-130 | on a game in progress, v is the minimiser's value exactly when some move reaches v and no move's reply value is below it |
| Search.ImmediateWinIsOptimalForX | tictactoe.py:140-143 | a move whose result has utility 1 has value 1, which is the maximiser's value of the board |
| Search.ImmediateWinIsOptimalForO | tictactoe.py:144-147 | a move whose result has utility -1 has value -1, which is the minimiser's value of the board |
| Search.MaxValue | tictactoe.py:107-117 | the loop folding max over the moves computes the maximiser's value |
| Search.MinValue | tictactoe.py:120-130 | the loop folding min over the moves computes the minimiser's value |
| Search.TupleLe | tictactoe.py:151-153 | the order in which `max` / `min` compare (value, (i, j)) tuples: by value, then by row, then by column |
| Search.TupleLeTransitive | tictactoe.py:151-153 | the tuple order is transitive |
| Search.TupleLeIsTotal | tictactoe.py:151-153 | any two tuples are comparable, and two tuples each at most the other are equal |
| Search.SelectMax | tictactoe.py:151 | the move returned is legal and its (value, move) tuple is the largest, values being what O can force afterwards |
| Search.SelectMin | tictactoe.py:153 | the move returned is legal and its (value, move) tuple is the smallest, values being what X can force afterwards |
| Search.LargestTupleIsOptimal | tictactoe.py:150-151 | for X, the move with the largest (value, move) tuple is optimal and breaks ties by the largest (i, j) |
| Search.SmallestTupleIsOptimal | tictactoe.py:152-153 | for O, the move with the smallest (value, move) tuple is optimal and breaks ties by the smallest (i, j) |
| Search.WinsNow | tictactoe.py:140-147 | the move's result has utility 1 when X is to move and -1 when O is to move |
| Search.Minimax | tictactoe.py:102-155 | None exactly when the game is over; otherwise a legal move that is optimal for the player to move; an immediate win when one exists; otherwise, among the best moves, the largest (i, j) for X and the smallest for O |
| Scenarios.OnlyOneWinningMove | tictactoe.py:139-143 | in X X . / O O . / . . . the one move that wins on the spot is (0, 2) |
| Scenarios.CompletesTheRow | tictactoe.py:139-143 | on every board showing X X . / O O . / . . . the search returns (0, 2) |
| Scenarios.ODiagonalWins | tictactoe.py:120-130 | in O X X / X O O / . X . and in O X . / X O O / X X ., O to move completes the diagonal: value -1 |
| Scenarios.XCompletesBottomRow | tictactoe.py:107-117 | in O X O / X O O / . X X, X to move completes the bottom row: value 1 |
| Scenarios.XFillsTheBoard | tictactoe.py:107-117 | in O X . / X O O / O X X, X's only move fills the board without a line: value 0 |
| Scenarios.BlockedDraws | tictactoe.py:120-130 | in O X . / X O O / . X X with O to move, the best O can force is a draw |
| Scenarios.BlockHolds | tictactoe.py:149-151 | in O X . / X O O / . X ., after X takes (2, 2) the minimiser's value is 0 |
| Scenarios.TopRightLoses | tictactoe.py:149-151 | in O X . / X O O / . X ., X at (0, 2) lets O win: value -1 |
| Scenarios.BottomLeftLoses | tictactoe.py:149-151 | in O X . / X O O / . X ., X at (2, 0) lets O win: value -1 |
| Scenarios.BlocksTheDiagonal | tictactoe.py:139-155 | on every board showing O X . / X O O / . X . the search returns the block (2, 2), though the shortcut does not fire |
| Scenarios.MoveAfterTheWin | tictactoe.py:46-73 | on X X X / O O . / . . ., already won by X, O may still play (1, 2); the new board has complete rows of both marks and its winner is X, whose row is checked first |

## Left out

- The `-math.inf` / `math.inf` seeds of `max_value` / `min_value` (tictactoe.py:111, 124) are floats used only to start the fold. The model starts the fold from the first move instead, so it never mixes floats with the integer outcomes.
- Search.Minimax: which winning move the shortcut returns when there are several is not stated, because the source takes the first one met in Python's set iteration order. The contract says only that the move wins on the spot.
- Python's exception mechanism: `result`'s `ValueError` is the `InvalidAction` value. The `ValueError` that `max()` / `min()` raise on an empty generator never happens: `SelectMax` / `SelectMin` require a legal move, and `Minimax` calls them only on a game in progress.
- Malformed boards (wrong shape, values other than X, O and None) are excluded by the `Board` type. A list that aliases rows is not modelled either, since boards are values.
- That perfect play from the starting board is a draw is not proved. It would need the whole game tree evaluated inside the verifier.
- The replay property (the same moves from the starting board give the same board) holds because `Successor` is a function. It is not stated as a separate lemma.
- The interactive runner and user interface are not part of this model.
