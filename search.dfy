/** Exhaustive minimax search: X maximises the outcome, O minimises it. */
module Search {
  import opened TicTacToe

  // ---------------------------------------------------------------------------
  // The minimax values, as functions

  /** The largest outcome of a set of outcomes drawn from {-1, 0, 1}. */
  function Highest(s: set<int>): (m: int)
    ensures -1 <= m <= 1
  {
    if 1 in s then 1 else if 0 in s then 0 else -1
  }

  /** The smallest outcome of a set of outcomes drawn from {-1, 0, 1}. */
  function Lowest(s: set<int>): (m: int)
    ensures -1 <= m <= 1
  {
    if -1 in s then -1 else if 0 in s then 0 else 1
  }

  /** On a non-empty set of outcomes, Highest is the maximum and Lowest the
      minimum. */
  lemma HighestLowestAreExtremes(s: set<int>, w: int)
    requires w in s && forall x | x in s :: -1 <= x <= 1
    ensures Highest(s) in s && forall x | x in s :: x <= Highest(s)
    ensures Lowest(s) in s && forall x | x in s :: Lowest(s) <= x
  {
  }

  /** The outcome X can force from `b` when X is the one to choose: the
      utility of a finished game, else the best over all moves of what O can
      then force. */
  ghost function MaxVal(b: Board): (v: int)
    ensures -1 <= v <= 1
    decreases Count(b, Empty), 1
  {
    if Terminal(b) then Utility(b)
    else
      Highest(set a | a in Actions(b) :: MinVal(Successor(b, a)))
  }

  /** The outcome O can force from `b` when O is the one to choose. */
  ghost function MinVal(b: Board): (v: int)
    ensures -1 <= v <= 1
    decreases Count(b, Empty), 0
  {
    if Terminal(b) then Utility(b)
    else
      Lowest(set a | a in Actions(b) :: MaxVal(Successor(b, a)))
  }

  /** On a finished game both values are the utility. */
  lemma ValuesOfTerminal(b: Board)
    requires Terminal(b)
    ensures MaxVal(b) == Utility(b) && MinVal(b) == Utility(b)
  {
  }

  /** No move of X's is worth more than the maximiser's value. */
  lemma MaxValBounds(b: Board, m: Move)
    requires !Terminal(b) && m in Actions(b)
    ensures MinVal(Successor(b, m)) <= MaxVal(b)
  {
    var replies := set a | a in Actions(b) :: MinVal(Successor(b, a));
    assert MinVal(Successor(b, m)) in replies;
    HighestLowestAreExtremes(replies, MinVal(Successor(b, m)));
  }

  /** Some move of X's is worth the maximiser's value. */
  lemma MaxValReached(b: Board) returns (best: Move)
    requires !Terminal(b)
    ensures best in Actions(b) && MinVal(Successor(b, best)) == MaxVal(b)
  {
    TerminalIffNoMoveOrWinner(b);
    var w :| w in Actions(b);
    var replies := set a | a in Actions(b) :: MinVal(Successor(b, a));
    assert MinVal(Successor(b, w)) in replies;
    HighestLowestAreExtremes(replies, MinVal(Successor(b, w)));
    best :| best in Actions(b) && MinVal(Successor(b, best)) == Highest(replies);
  }

  /** No move of O's is worth less than the minimiser's value. */
  lemma MinValBounds(b: Board, m: Move)
    requires !Terminal(b) && m in Actions(b)
    ensures MinVal(b) <= MaxVal(Successor(b, m))
  {
    var replies := set a | a in Actions(b) :: MaxVal(Successor(b, a));
    assert MaxVal(Successor(b, m)) in replies;
    HighestLowestAreExtremes(replies, MaxVal(Successor(b, m)));
  }

  /** Some move of O's is worth the minimiser's value. */
  lemma MinValReached(b: Board) returns (best: Move)
    requires !Terminal(b)
    ensures best in Actions(b) && MaxVal(Successor(b, best)) == MinVal(b)
  {
    TerminalIffNoMoveOrWinner(b);
    var w :| w in Actions(b);
    var replies := set a | a in Actions(b) :: MaxVal(Successor(b, a));
    assert MaxVal(Successor(b, w)) in replies;
    HighestLowestAreExtremes(replies, MaxVal(Successor(b, w)));
    best :| best in Actions(b) && MaxVal(Successor(b, best)) == Lowest(replies);
  }

  /** On a game in progress, v is the maximiser's value exactly when some move
      reaches v and no move does better. */
  lemma MaxValIsBestMove(b: Board, v: int)
    requires !Terminal(b)
    ensures v == MaxVal(b) <==>
      && (exists a | a in Actions(b) :: MinVal(Successor(b, a)) == v)
      && (forall a | a in Actions(b) :: MinVal(Successor(b, a)) <= v)
  {
    var best := MaxValReached(b);
    forall a | a in Actions(b) ensures MinVal(Successor(b, a)) <= MaxVal(b) {
      MaxValBounds(b, a);
    }
  }

  /** On a game in progress, v is the minimiser's value exactly when some move
      reaches v and no move does better. */
  lemma MinValIsBestMove(b: Board, v: int)
    requires !Terminal(b)
    ensures v == MinVal(b) <==>
      && (exists a | a in Actions(b) :: MaxVal(Successor(b, a)) == v)
      && (forall a | a in Actions(b) :: v <= MaxVal(Successor(b, a)))
  {
    var best := MinValReached(b);
    forall a | a in Actions(b) ensures MinVal(b) <= MaxVal(Successor(b, a)) {
      MinValBounds(b, a);
    }
  }

  /** A move that wins on the spot is as good for X as the whole search: its
      value is 1, the top of the range. */
  lemma ImmediateWinIsOptimalForX(b: Board, a: Move)
    requires !Terminal(b) && a in Actions(b)
    requires Utility(Successor(b, a)) == 1
    ensures MinVal(Successor(b, a)) == MaxVal(b) == 1
  {
    MaxValBounds(b, a);
  }

  /** A move that wins on the spot is as good for O as the whole search: its
      value is -1, the bottom of the range. */
  lemma ImmediateWinIsOptimalForO(b: Board, a: Move)
    requires !Terminal(b) && a in Actions(b)
    requires Utility(Successor(b, a)) == -1
    ensures MaxVal(Successor(b, a)) == MinVal(b) == -1
  {
    MinValBounds(b, a);
  }

  // ---------------------------------------------------------------------------
  // The minimax values, computed

  /** The maximiser's value of `board`, folding max over its moves. */
  method MaxValue(board: Board) returns (v: int)
    ensures v == MaxVal(board)
    decreases Count(board, Empty), 1
  {
    if Terminal(board) {
      return Utility(board);
    }
    TerminalIffNoMoveOrWinner(board);
    var todo := Actions(board);
    var action :| action in todo;
    var next := Result(board, action);
    v := MinValue(next.board);
    ghost var best := action;
    todo := todo - {action};
    while todo != {}
      invariant todo <= Actions(board)
      invariant best in Actions(board) && v == MinVal(Successor(board, best))
      invariant forall a | a in Actions(board) - todo :: MinVal(Successor(board, a)) <= v
      decreases |todo|
    {
      action :| action in todo;
      next := Result(board, action);
      var w := MinValue(next.board);
      if v < w {
        v, best := w, action;
      }
      todo := todo - {action};
    }
    MaxValIsBestMove(board, v);
  }

  /** The minimiser's value of `board`, folding min over its moves. */
  method MinValue(board: Board) returns (v: int)
    ensures v == MinVal(board)
    decreases Count(board, Empty), 0
  {
    if Terminal(board) {
      return Utility(board);
    }
    TerminalIffNoMoveOrWinner(board);
    var todo := Actions(board);
    var action :| action in todo;
    var next := Result(board, action);
    v := MaxValue(next.board);
    ghost var best := action;
    todo := todo - {action};
    while todo != {}
      invariant todo <= Actions(board)
      invariant best in Actions(board) && v == MaxVal(Successor(board, best))
      invariant forall a | a in Actions(board) - todo :: v <= MaxVal(Successor(board, a))
      decreases |todo|
    {
      action :| action in todo;
      next := Result(board, action);
      var w := MaxValue(next.board);
      if w < v {
        v, best := w, action;
      }
      todo := todo - {action};
    }
    MinValIsBestMove(board, v);
  }

  // ---------------------------------------------------------------------------
  // Choosing the move

  /** The order of (value, move) tuples: by value, then by row, then by column. */
  predicate TupleLe(p: (int, Move), q: (int, Move)) {
    || p.0 < q.0
    || (p.0 == q.0 && p.1.0 < q.1.0)
    || (p.0 == q.0 && p.1.0 == q.1.0 && p.1.1 <= q.1.1)
  }

  /** The tuple order is transitive. */
  lemma TupleLeTransitive(p: (int, Move), q: (int, Move), r: (int, Move))
    requires TupleLe(p, q) && TupleLe(q, r)
    ensures TupleLe(p, r)
  {
  }

  /** Any two tuples are comparable, and two tuples each at most the other
      are equal: with transitivity, the tuple order is a total order. */
  lemma TupleLeIsTotal(p: (int, Move), q: (int, Move))
    ensures TupleLe(p, q) || TupleLe(q, p)
    ensures TupleLe(p, q) && TupleLe(q, p) ==> p == q
  {
  }

  /** The largest (value, move) tuple over all moves, the value of a move being
      what O can force after it. */
  method SelectMax(board: Board) returns (move: Move)
    requires Actions(board) != {}
    ensures move in Actions(board)
    ensures forall a | a in Actions(board) ::
      TupleLe((MinVal(Successor(board, a)), a), (MinVal(Successor(board, move)), move))
  {
    var todo := Actions(board);
    var action :| action in todo;
    var next := Result(board, action);
    var value := MinValue(next.board);
    move := action;
    todo := todo - {action};
    while todo != {}
      invariant todo <= Actions(board)
      invariant move in Actions(board) && value == MinVal(Successor(board, move))
      invariant forall a | a in Actions(board) - todo ::
        TupleLe((MinVal(Successor(board, a)), a), (value, move))
      decreases |todo|
    {
      action :| action in todo;
      next := Result(board, action);
      var w := MinValue(next.board);
      if TupleLe((value, move), (w, action)) {
        forall a | a in Actions(board) - todo
          ensures TupleLe((MinVal(Successor(board, a)), a), (w, action))
        {
          TupleLeTransitive((MinVal(Successor(board, a)), a), (value, move), (w, action));
        }
        value, move := w, action;
      }
      todo := todo - {action};
    }
  }

  /** The smallest (value, move) tuple over all moves, the value of a move being
      what X can force after it. */
  method SelectMin(board: Board) returns (move: Move)
    requires Actions(board) != {}
    ensures move in Actions(board)
    ensures forall a | a in Actions(board) ::
      TupleLe((MaxVal(Successor(board, move)), move), (MaxVal(Successor(board, a)), a))
  {
    var todo := Actions(board);
    var action :| action in todo;
    var next := Result(board, action);
    var value := MaxValue(next.board);
    move := action;
    todo := todo - {action};
    while todo != {}
      invariant todo <= Actions(board)
      invariant move in Actions(board) && value == MaxVal(Successor(board, move))
      invariant forall a | a in Actions(board) - todo ::
        TupleLe((value, move), (MaxVal(Successor(board, a)), a))
      decreases |todo|
    {
      action :| action in todo;
      next := Result(board, action);
      var w := MaxValue(next.board);
      if TupleLe((w, action), (value, move)) {
        forall a | a in Actions(board) - todo
          ensures TupleLe((w, action), (MaxVal(Successor(board, a)), a))
        {
          TupleLeTransitive((w, action), (value, move), (MaxVal(Successor(board, a)), a));
        }
        value, move := w, action;
      }
      todo := todo - {action};
    }
  }

  /** The move `a` ends the game at once in favour of the player to move. */
  predicate WinsNow(b: Board, a: Move)
    requires a in Actions(b)
  {
    Utility(Successor(b, a)) == if Player(b) == X then 1 else -1
  }

  /** Some move ends the game at once in favour of the player to move. */
  ghost predicate HasImmediateWin(b: Board) {
    exists a | a in Actions(b) :: WinsNow(b, a)
  }

  /** The move `a` is worth what perfect play is worth for the player to move. */
  ghost predicate Optimal(b: Board, a: Move)
    requires a in Actions(b)
  {
    if Player(b) == X then MinVal(Successor(b, a)) == MaxVal(b)
    else MaxVal(Successor(b, a)) == MinVal(b)
  }

  /** Among the moves of best value, `m` is the largest (i, j) for X and the
      smallest for O: the pick of the final max or min over (value, move). */
  ghost predicate TieBroken(b: Board, m: Move)
    requires m in Actions(b)
  {
    if Player(b) == X then
      forall a | a in Actions(b) :: TupleLe((MinVal(Successor(b, a)), a), (MinVal(Successor(b, m)), m))
    else
      forall a | a in Actions(b) :: TupleLe((MaxVal(Successor(b, m)), m), (MaxVal(Successor(b, a)), a))
  }

  /** For X, the move with the largest (value, move) tuple is optimal. */
  lemma LargestTupleIsOptimal(b: Board, m: Move)
    requires !Terminal(b) && Player(b) == X && m in Actions(b)
    requires forall a | a in Actions(b) :: TupleLe((MinVal(Successor(b, a)), a), (MinVal(Successor(b, m)), m))
    ensures Optimal(b, m) && TieBroken(b, m)
  {
    var top := MaxValReached(b);
    assert TupleLe((MinVal(Successor(b, top)), top), (MinVal(Successor(b, m)), m));
    MaxValBounds(b, m);
  }

  /** For O, the move with the smallest (value, move) tuple is optimal. */
  lemma SmallestTupleIsOptimal(b: Board, m: Move)
    requires !Terminal(b) && Player(b) == O && m in Actions(b)
    requires forall a | a in Actions(b) :: TupleLe((MaxVal(Successor(b, m)), m), (MaxVal(Successor(b, a)), a))
    ensures Optimal(b, m) && TieBroken(b, m)
  {
    var bottom := MinValReached(b);
    assert TupleLe((MaxVal(Successor(b, m)), m), (MaxVal(Successor(b, bottom)), bottom));
    MinValBounds(b, m);
  }

  /** The optimal move for the player to move, or None once the game is over.
      A move that wins on the spot is taken without searching further;
      otherwise the search picks the best (value, move) tuple. */
  method Minimax(board: Board) returns (move: Option<Move>)
    ensures move.None? <==> Terminal(board)
    ensures move.Some? ==> move.value in Actions(board) && Optimal(board, move.value)
    ensures move.Some? && HasImmediateWin(board) ==> WinsNow(board, move.value)
    ensures move.Some? && !HasImmediateWin(board) ==> TieBroken(board, move.value)
  {
    if Terminal(board) {
      return None;
    }
    TerminalIffNoMoveOrWinner(board);
    var currentPlayer := Player(board);

    // A move that wins at once.
    var goal := if currentPlayer == X then 1 else -1;
    var todo := Actions(board);
    while todo != {}
      invariant todo <= Actions(board)
      invariant forall a | a in Actions(board) - todo :: !WinsNow(board, a)
      decreases |todo|
    {
      var action :| action in todo;
      var next := Result(board, action);
      if Utility(next.board) == goal {
        assert WinsNow(board, action);
        assert HasImmediateWin(board);
        if currentPlayer == X {
          ImmediateWinIsOptimalForX(board, action);
        } else {
          ImmediateWinIsOptimalForO(board, action);
        }
        return Some(action);
      }
      todo := todo - {action};
    }

    // Otherwise the full search.
    assert !HasImmediateWin(board);
    var best;
    if currentPlayer == X {
      best := SelectMax(board);
      LargestTupleIsOptimal(board, best);
    } else {
      best := SelectMin(board);
      SmallestTupleIsOptimal(board, best);
    }
    return Some(best);
  }
}
