/** The rules scans and the exhaustive minimax search of minimax.py.
    X is the human player (the minimiser), O the computer (the maximiser). */
module Engine {
  import opened Board

  // ---------------------------------------------------------------------------
  // The eight lines, as a reference for the scans below
  // ---------------------------------------------------------------------------

  /** The cells of line l, in the order the scans visit the lines:
      row 0, column 0, row 1, column 1, row 2, column 2, main diagonal, anti-diagonal. */
  function Line(l: nat): (t: (nat, nat, nat))
    requires l < 8
    ensures t.0 < 9 && t.1 < 9 && t.2 < 9
  {
    if l == 0 then (0, 1, 2)
    else if l == 1 then (0, 3, 6)
    else if l == 2 then (3, 4, 5)
    else if l == 3 then (1, 4, 7)
    else if l == 4 then (6, 7, 8)
    else if l == 5 then (2, 5, 8)
    else if l == 6 then (0, 4, 8)
    else (2, 4, 6)
  }

  /** Line l holds mark m in all three of its cells. */
  predicate Complete(g: Grid, l: nat, m: Cell)
    requires l < 8
  {
    m != Empty && g[Line(l).0] == m && g[Line(l).1] == m && g[Line(l).2] == m
  }

  /** Line l is not won by either side. */
  predicate Open(g: Grid, l: nat)
    requires l < 8
  {
    !Complete(g, l, X) && !Complete(g, l, O)
  }

  /** Mark m owns some line of the board. */
  predicate HasLine(g: Grid, m: Cell)
  {
    exists l :: 0 <= l < 8 && Complete(g, l, m)
  }

  /** The mark of the first complete line from line l on, or Empty if every
      line from l on is open. */
  function FirstWinner(g: Grid, l: nat): Cell
    requires l <= 8
    decreases 8 - l
  {
    if l == 8 then Empty
    else if !Open(g, l) then g[Line(l).0]
    else FirstWinner(g, l + 1)
  }

  /** FirstWinner is Empty exactly when every line from l on is open, and
      otherwise the mark of a complete line with only open lines before it. */
  lemma {:induction false} FirstWinnerFinds(g: Grid, l: nat)
    requires l <= 8
    ensures FirstWinner(g, l) == Empty <==> forall l' :: l <= l' < 8 ==> Open(g, l')
    ensures FirstWinner(g, l) != Empty ==>
      exists l' :: l <= l' < 8 && Complete(g, l', FirstWinner(g, l)) && forall l'' :: l <= l'' < l' ==> Open(g, l'')
    decreases 8 - l
  {
    if l < 8 {
      FirstWinnerFinds(g, l + 1);
    }
  }

  /** Row i is line 2 * i and column i is line 2 * i + 1, so the first winner
      from line 2 * i on is decided by row i, then column i, then the rest. */
  lemma RowThenColumn(g: Grid, i: nat)
    requires i < 3
    ensures FirstWinner(g, 2 * i) ==
      if Matches(g, Index(i, 0), Index(i, 1), Index(i, 2)) then g[Index(i, 0)]
      else if Matches(g, Index(0, i), Index(1, i), Index(2, i)) then g[Index(0, i)]
      else FirstWinner(g, 2 * i + 2)
  {
    assert FirstWinner(g, 2 * i) == if !Open(g, 2 * i) then g[Line(2 * i).0] else FirstWinner(g, 2 * i + 1);
    assert FirstWinner(g, 2 * i + 1) == if !Open(g, 2 * i + 1) then g[Line(2 * i + 1).0] else FirstWinner(g, 2 * i + 2);
    if i == 0 {
      assert Line(0) == (0, 1, 2) && Line(1) == (0, 3, 6);
    } else if i == 1 {
      assert Line(2) == (3, 4, 5) && Line(3) == (1, 4, 7);
    } else {
      assert Line(4) == (6, 7, 8) && Line(5) == (2, 5, 8);
    }
  }

  // ---------------------------------------------------------------------------
  // check_winner and is_game_over
  // ---------------------------------------------------------------------------

  /** Three cells hold the same mark: Python's `a == b == c is not None`. */
  predicate Matches(g: Grid, a: nat, b: nat, c: nat)
    requires a < 9 && b < 9 && c < 9
  {
    g[a] == g[b] && g[b] == g[c] && g[c] != Empty
  }

  /** The scan of check_winner from loop index i on: row i, then column i, then
      the remaining rows and columns, then the two diagonals. The answer is the
      mark of the first complete line it meets, or Empty (None) if there is none. */
  function CheckWinnerFrom(g: Grid, i: nat): Cell
    requires i <= 3
    decreases 3 - i
  {
    if i < 3 then
      if Matches(g, Index(i, 0), Index(i, 1), Index(i, 2)) then g[Index(i, 0)]
      else if Matches(g, Index(0, i), Index(1, i), Index(2, i)) then g[Index(0, i)]
      else CheckWinnerFrom(g, i + 1)
    else if Matches(g, Index(0, 0), Index(1, 1), Index(2, 2)) then g[Index(0, 0)]
    else if Matches(g, Index(0, 2), Index(1, 1), Index(2, 0)) then g[Index(0, 2)]
    else Empty
  }

  /** The scan of check_winner from loop index i finds the first complete
      line from row i on, in the order of Line. */
  lemma {:induction false} CheckWinnerFromIsFirst(g: Grid, i: nat)
    requires i <= 3
    ensures CheckWinnerFrom(g, i) == FirstWinner(g, 2 * i)
    decreases 3 - i
  {
    if i < 3 {
      RowThenColumn(g, i);
      CheckWinnerFromIsFirst(g, i + 1);
    }
  }

  /** check_winner: the mark of the first complete line in scan order, or
      Empty (None) when no line is complete. */
  function CheckWinner(g: Grid): Cell
  {
    CheckWinnerFrom(g, 0)
  }

  /** The winner is Empty exactly when neither mark owns a line; otherwise it
      owns a line, and every line scanned before that one is open. */
  lemma CheckWinnerFindsLine(g: Grid)
    ensures CheckWinner(g) == Empty <==> !HasLine(g, X) && !HasLine(g, O)
    ensures CheckWinner(g) != Empty ==>
      exists l :: 0 <= l < 8 && Complete(g, l, CheckWinner(g)) && forall l' :: 0 <= l' < l ==> Open(g, l')
  {
    CheckWinnerFromIsFirst(g, 0);
    FirstWinnerFinds(g, 0);
  }

  /** The scan of is_game_over from loop index i on: any row or column from i
      on, either diagonal, or a board with no empty cell. */
  function IsGameOverFrom(g: Grid, i: nat): bool
    requires i <= 3
    decreases 3 - i
  {
    if i < 3 then
      if Matches(g, Index(i, 0), Index(i, 1), Index(i, 2)) || Matches(g, Index(0, i), Index(1, i), Index(2, i)) then true
      else IsGameOverFrom(g, i + 1)
    else if Matches(g, Index(0, 0), Index(1, 1), Index(2, 2)) || Matches(g, Index(0, 2), Index(1, 1), Index(2, 0)) then true
    else Full(g)
  }

  /** The scan of is_game_over from loop index i finds a complete line from
      row i on, or else a full board. */
  lemma {:induction false} IsGameOverFromIsWinOrFull(g: Grid, i: nat)
    requires i <= 3
    ensures IsGameOverFrom(g, i) <==> FirstWinner(g, 2 * i) != Empty || Full(g)
    decreases 3 - i
  {
    if i < 3 {
      RowThenColumn(g, i);
      IsGameOverFromIsWinOrFull(g, i + 1);
    }
  }

  /** is_game_over: some line is complete or no cell is empty. */
  function IsGameOver(g: Grid): bool
  {
    IsGameOverFrom(g, 0)
  }

  /** The game is over exactly when there is a winner or the board is full. */
  lemma GameOverIffWinnerOrFull(g: Grid)
    ensures IsGameOver(g) <==> CheckWinner(g) != Empty || Full(g)
  {
    CheckWinnerFromIsFirst(g, 0);
    IsGameOverFromIsWinOrFull(g, 0);
  }

  /** A board still in play has an empty cell, so the search below always
      has a child to look at. */
  lemma InPlayHasEmptyCell(g: Grid)
    requires !IsGameOver(g)
    ensures !Full(g) && Empties(g) > 0
  {
    GameOverIffWinnerOrFull(g);
    FullIffNoEmpties(g);
  }

  // ---------------------------------------------------------------------------
  // The game value that minimax computes
  // ---------------------------------------------------------------------------

  /** Integer stand-ins for float('-inf') and float('inf'): below and above every score. */
  const NegInf: int := -2
  const PosInf: int := 2

  /** The mark the side to move places: O when maximising, X when minimising. */
  function Mover(maximizing: bool): Cell
  {
    if maximizing then O else X
  }

  /** The starting value of max_eval or min_eval. */
  function Sentinel(maximizing: bool): int
  {
    if maximizing then NegInf else PosInf
  }

  function Max(a: int, b: int): int { if a >= b then a else b }
  function Min(a: int, b: int): int { if a <= b then a else b }

  /** One step of the running max_eval (maximising) or min_eval (minimising). */
  function Combine(maximizing: bool, acc: int, v: int): int
  {
    if maximizing then Max(acc, v) else Min(acc, v)
  }

  /** The score of a finished game: -1 if X won, +1 if O won, 0 for a draw. */
  function TerminalScore(g: Grid): int
  {
    if CheckWinner(g) == X then -1
    else if CheckWinner(g) == O then 1
    else 0
  }

  /** What the fold over cells k.. may start from: a real score, or the
      sentinel while an empty cell is still ahead of it. */
  predicate Pending(g: Grid, maximizing: bool, k: nat, acc: int)
  {
    k <= 9 && (-1 <= acc <= 1 || (acc == Sentinel(maximizing) && Empty in g[k..]))
  }

  /** The game value of a board with `maximizing` telling whose turn it is.
      Depth plays no part in it. */
  function Value(g: Grid, maximizing: bool): (r: int)
    ensures -1 <= r <= 1
    decreases Empties(g), 1, 0
  {
    if IsGameOver(g) then TerminalScore(g)
    else
      GameOverIffWinnerOrFull(g);
      Best(g, maximizing, 0, Sentinel(maximizing))
  }

  /** The loop of minimax from cell k on, in row-major order: each empty cell
      is tried with the mover's mark and the running max_eval (or min_eval)
      `acc` combined with the value of that child. */
  function Best(g: Grid, maximizing: bool, k: nat, acc: int): (r: int)
    requires Pending(g, maximizing, k, acc)
    ensures -1 <= r <= 1
    decreases Empties(g), 0, 9 - k
  {
    if k == 9 then acc
    else if g[k] == Empty then
      MarkEmptyCell(g, k, Mover(maximizing));
      var v := Value(g[k := Mover(maximizing)], !maximizing);
      Best(g, maximizing, k + 1, Combine(maximizing, acc, v))
    else Best(g, maximizing, k + 1, acc)
  }

  /** The value of the child reached by the mover marking cell e. */
  function Child(g: Grid, maximizing: bool, e: nat): int
    requires e < 9
  {
    Value(g[e := Mover(maximizing)], !maximizing)
  }

  /** One cell of the fold: an empty cell folds in its child's value, a
      marked cell is skipped. */
  lemma BestStep(g: Grid, maximizing: bool, k: nat, acc: int)
    requires Pending(g, maximizing, k, acc) && k < 9
    ensures g[k] == Empty ==>
      var acc' := Combine(maximizing, acc, Child(g, maximizing, k));
      Pending(g, maximizing, k + 1, acc') && Best(g, maximizing, k, acc) == Best(g, maximizing, k + 1, acc')
    ensures g[k] != Empty ==>
      Pending(g, maximizing, k + 1, acc) && Best(g, maximizing, k, acc) == Best(g, maximizing, k + 1, acc)
  {
  }

  /** a is at least as good as b for the side to move. */
  predicate AtLeastAsGood(maximizing: bool, a: int, b: int)
  {
    if maximizing then a >= b else a <= b
  }

  /** The fold from cell k is at least as good as its start and as every
      child from k on, and it is its start or one of those children. */
  lemma {:induction false} BestIsExtreme(g: Grid, maximizing: bool, k: nat, acc: int)
    requires Pending(g, maximizing, k, acc)
    ensures AtLeastAsGood(maximizing, Best(g, maximizing, k, acc), acc)
    ensures forall e :: k <= e < 9 && g[e] == Empty ==>
      AtLeastAsGood(maximizing, Best(g, maximizing, k, acc), Child(g, maximizing, e))
    ensures Best(g, maximizing, k, acc) == acc ||
      exists e :: k <= e < 9 && g[e] == Empty && Best(g, maximizing, k, acc) == Child(g, maximizing, e)
    decreases 9 - k
  {
    if k < 9 {
      BestStep(g, maximizing, k, acc);
      if g[k] == Empty {
        var v := Child(g, maximizing, k);
        var acc' := Combine(maximizing, acc, v);
        BestIsExtreme(g, maximizing, k + 1, acc');
        if Best(g, maximizing, k, acc) == acc' && acc' != acc {
          assert acc' == Child(g, maximizing, k);
        }
      } else {
        BestIsExtreme(g, maximizing, k + 1, acc);
      }
    }
  }

  /** On a board still in play, the value for the maximiser is the largest
      value of the children it can move to, and for the minimiser the smallest. */
  lemma ValueIsBestChild(g: Grid, maximizing: bool)
    requires !IsGameOver(g)
    ensures forall e :: 0 <= e < 9 && g[e] == Empty ==>
      AtLeastAsGood(maximizing, Value(g, maximizing), Child(g, maximizing, e))
    ensures exists e :: 0 <= e < 9 && g[e] == Empty && Value(g, maximizing) == Child(g, maximizing, e)
  {
    BestIsExtreme(g, maximizing, 0, Sentinel(maximizing));
  }

  /** On a finished board the value is -1 when only X owns a line, +1 when
      only O does, and 0 when nobody does, which is then a full board. */
  lemma ValueAtGameOver(g: Grid, maximizing: bool)
    requires IsGameOver(g)
    ensures HasLine(g, X) && !HasLine(g, O) ==> Value(g, maximizing) == -1
    ensures HasLine(g, O) && !HasLine(g, X) ==> Value(g, maximizing) == 1
    ensures !HasLine(g, X) && !HasLine(g, O) ==> Full(g) && Value(g, maximizing) == 0
  {
    GameOverIffWinnerOrFull(g);
    CheckWinnerFindsLine(g);
    var w := CheckWinner(g);
    if w != Empty {
      assert HasLine(g, w);
    }
  }

  // ---------------------------------------------------------------------------
  // The search itself
  // ---------------------------------------------------------------------------

  /** minimax: on a finished board the score of the outcome; otherwise the
      maximising or the minimising search over the children. It returns the
      game value of the board and leaves the board as it found it. */
  method Minimax(board: array<Cell>, depth: nat, maximizing: bool) returns (score: int)
    requires board.Length == 9
    modifies board
    ensures board[..] == old(board[..])
    ensures score == Value(old(board[..]), maximizing)
    decreases Empties(board[..]), 1
  {
    if IsGameOver(board[..]) {
      if CheckWinner(board[..]) == X {
        return -1;
      } else if CheckWinner(board[..]) == O {
        return 1;
      } else {
        return 0;
      }
    }
    if maximizing {
      score := MaxEval(board, depth);
    } else {
      score := MinEval(board, depth);
    }
  }

  /** The maximising branch of minimax (O to move): write O into each empty
      cell in row-major order, search on with X to move, clear the cell, and
      keep the largest score, starting from -inf. */
  method MaxEval(board: array<Cell>, depth: nat) returns (maxEval: int)
    requires board.Length == 9 && !IsGameOver(board[..])
    modifies board
    ensures board[..] == old(board[..])
    ensures maxEval == Value(old(board[..]), true)
    decreases Empties(board[..]), 0
  {
    ghost var g := board[..];
    GameOverIffWinnerOrFull(g);
    maxEval := NegInf;
    for i := 0 to 3
      invariant board[..] == g
      invariant Pending(g, true, 3 * i, maxEval)
      invariant Best(g, true, 3 * i, maxEval) == Value(g, true)
    {
      for j := 0 to 3
        invariant board[..] == g
        invariant Pending(g, true, 3 * i + j, maxEval)
        invariant Best(g, true, 3 * i + j, maxEval) == Value(g, true)
      {
        var k := Index(i, j);
        BestStep(g, true, k, maxEval);
        if board[k] == Empty {
          board[k] := O;
          MarkEmptyCell(g, k, O);
          var eval := Minimax(board, depth + 1, false);
          board[k] := Empty;
          maxEval := Max(maxEval, eval);
        }
      }
    }
  }

  /** The minimising branch of minimax (X to move): write X into each empty
      cell in row-major order, search on with O to move, clear the cell, and
      keep the smallest score, starting from +inf. */
  method MinEval(board: array<Cell>, depth: nat) returns (minEval: int)
    requires board.Length == 9 && !IsGameOver(board[..])
    modifies board
    ensures board[..] == old(board[..])
    ensures minEval == Value(old(board[..]), false)
    decreases Empties(board[..]), 0
  {
    ghost var g := board[..];
    GameOverIffWinnerOrFull(g);
    minEval := PosInf;
    for i := 0 to 3
      invariant board[..] == g
      invariant Pending(g, false, 3 * i, minEval)
      invariant Best(g, false, 3 * i, minEval) == Value(g, false)
    {
      for j := 0 to 3
        invariant board[..] == g
        invariant Pending(g, false, 3 * i + j, minEval)
        invariant Best(g, false, 3 * i + j, minEval) == Value(g, false)
      {
        var k := Index(i, j);
        BestStep(g, false, k, minEval);
        if board[k] == Empty {
          board[k] := X;
          MarkEmptyCell(g, k, X);
          var eval := Minimax(board, depth + 1, true);
          board[k] := Empty;
          minEval := Min(minEval, eval);
        }
      }
    }
  }
}
