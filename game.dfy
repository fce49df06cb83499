/** The match state of game_board.py: the board, the two score counters, the
    phase flags and the end-of-match message, with the moves of both sides. */
module Game {
  import opened Board
  import Engine

  /** winner_message: empty before a match ends, then one of three texts. */
  datatype Message = NoMessage | PlayerWins | BotWins | Tie

  // ---------------------------------------------------------------------------
  // The choice make_computer_move makes
  // ---------------------------------------------------------------------------

  /** The minimax score of the computer marking cell e: the value of that
      board with the player to move. */
  function MoveScore(g: Grid, e: nat): int
    requires e < 9
  {
    Engine.Child(g, true, e)
  }

  /** The running best_score for a running best_move. */
  function ScoreOf(g: Grid, move: Option<nat>): int
    requires move.Some? ==> move.value < 9
  {
    match move
    case None => Engine.NegInf
    case Some(m) => MoveScore(g, m)
  }

  /** The loop of make_computer_move from cell k on, in row-major order: each
      empty cell is scored, and a score strictly above the best so far makes
      that cell the new best move. */
  function BestFrom(g: Grid, k: nat, bestScore: int, bestMove: Option<nat>): Option<nat>
    requires k <= 9
    decreases 9 - k
  {
    if k == 9 then bestMove
    else if g[k] == Empty && MoveScore(g, k) > bestScore then BestFrom(g, k + 1, MoveScore(g, k), Some(k))
    else BestFrom(g, k + 1, bestScore, bestMove)
  }

  /** One cell of that loop. */
  lemma BestFromStep(g: Grid, k: nat, bestScore: int, bestMove: Option<nat>)
    requires k < 9
    ensures BestFrom(g, k, bestScore, bestMove) ==
      if g[k] == Empty && MoveScore(g, k) > bestScore then BestFrom(g, k + 1, MoveScore(g, k), Some(k))
      else BestFrom(g, k + 1, bestScore, bestMove)
  {
  }

  /** The cell make_computer_move marks, if any. */
  function BestMove(g: Grid): Option<nat>
  {
    BestFrom(g, 0, Engine.NegInf, None)
  }

  /** What the best move so far says about cells 0 .. k-1: none of them is
      empty if there is none, and otherwise it is the first empty cell among
      them with the highest score. */
  ghost predicate Chosen(g: Grid, k: nat, move: Option<nat>)
  {
    k <= 9 &&
    match move
    case None => forall e :: 0 <= e < k ==> g[e] != Empty
    case Some(m) =>
      m < k && g[m] == Empty &&
      (forall e :: 0 <= e < k && g[e] == Empty ==> MoveScore(g, e) <= MoveScore(g, m)) &&
      (forall e :: 0 <= e < m && g[e] == Empty ==> MoveScore(g, e) < MoveScore(g, m))
  }

  /** The loop keeps Chosen from cell k to the end of the board. */
  lemma {:induction false} BestFromKeepsChosen(g: Grid, k: nat, move: Option<nat>)
    requires Chosen(g, k, move)
    ensures Chosen(g, 9, BestFrom(g, k, ScoreOf(g, move), move))
    decreases 9 - k
  {
    if k < 9 {
      if g[k] == Empty && MoveScore(g, k) > ScoreOf(g, move) {
        BestFromKeepsChosen(g, k + 1, Some(k));
      } else {
        BestFromKeepsChosen(g, k + 1, move);
      }
    }
  }

  /** The computer moves exactly when some cell is empty; the cell it marks is
      empty, scores at least as high as every empty cell, and strictly higher
      than every empty cell before it in row-major order. */
  lemma BestMoveIsFirstBest(g: Grid)
    ensures BestMove(g) == None <==> Full(g)
    ensures BestMove(g).Some? ==>
      var m := BestMove(g).value;
      m < 9 && g[m] == Empty &&
      (forall e :: 0 <= e < 9 && g[e] == Empty ==> MoveScore(g, e) <= MoveScore(g, m)) &&
      (forall e :: 0 <= e < m && g[e] == Empty ==> MoveScore(g, e) < MoveScore(g, m))
  {
    BestFromKeepsChosen(g, 0, None);
  }

  /** On a board still in play, the computer's move reaches the game value
      of the board with the computer to move. */
  lemma BestMoveAchievesValue(g: Grid)
    requires !Engine.IsGameOver(g)
    ensures BestMove(g).Some? && BestMove(g).value < 9
    ensures MoveScore(g, BestMove(g).value) == Engine.Value(g, true)
  {
    BestMoveIsFirstBest(g);
    Engine.ValueIsBestChild(g, true);
    var e :| 0 <= e < 9 && g[e] == Empty && Engine.Value(g, true) == Engine.Child(g, true, e);
    assert MoveScore(g, e) <= MoveScore(g, BestMove(g).value);
  }

  /** The flat position of a (row, column) move. */
  function Flat(move: Option<(nat, nat)>): Option<nat>
    requires move.Some? ==> move.value.0 < 3 && move.value.1 < 3
  {
    match move
    case None => None
    case Some((i, j)) => Some(Index(i, j))
  }

  // ---------------------------------------------------------------------------
  // The match state
  // ---------------------------------------------------------------------------

  class GameBoard {
    var board: array<Cell>
    var playerScore: nat
    var botScore: nat
    var gameStarted: bool
    var gameOver: bool
    var winnerMessage: Message

    /** The board has nine cells. */
    ghost predicate Valid()
      reads this
    {
      board.Length == 9
    }

    /** After handle_game_over with winner w, from scores player0 and bot0:
        the winner's counter went up by one, the message names the outcome and
        the match is over. */
    ghost predicate Concluded(w: Cell, player0: nat, bot0: nat)
      reads this
    {
      gameOver &&
      playerScore == player0 + (if w == X then 1 else 0) &&
      botScore == bot0 + (if w == O then 1 else 0) &&
      winnerMessage == (if w == X then PlayerWins else if w == O then BotWins else Tie)
    }

    /** After a mark is placed: if the game is now over, handle_game_over has
        run; otherwise scores, flag and message are as they were. */
    ghost predicate Settled(player0: nat, bot0: nat, over0: bool, message0: Message)
      requires Valid()
      reads this, board
    {
      if Engine.IsGameOver(board[..]) then Concluded(Engine.CheckWinner(board[..]), player0, bot0)
      else playerScore == player0 && botScore == bot0 && gameOver == over0 && winnerMessage == message0
    }

    /** A new match state: an empty board, both scores zero, not started, not over. */
    constructor ()
      ensures Valid() && fresh(board)
      ensures forall k :: 0 <= k < 9 ==> board[k] == Empty
      ensures playerScore == 0 && botScore == 0
      ensures !gameStarted && !gameOver && winnerMessage == NoMessage
    {
      board := new Cell[9](_ => Empty);
      playerScore := 0;
      botScore := 0;
      gameStarted := false;
      gameOver := false;
      winnerMessage := NoMessage;
    }

    /** is_valid_move: the cell at (row, col) is empty. */
    function IsValidMove(row: int, col: int): (ok: bool)
      requires Valid() && 0 <= row < 3 && 0 <= col < 3
      reads this, board
      ensures ok <==> board[..][Index(row, col)] == Empty
    {
      board[Index(row, col)] == Empty
    }

    /** check_winner, the copy in GameBoard: the same scan as in the search,
        over the board of this match. */
    method CheckWinner() returns (w: Cell)
      requires Valid()
      ensures w == Engine.CheckWinner(board[..])
    {
      for i := 0 to 3
        invariant Engine.CheckWinnerFrom(board[..], i) == Engine.CheckWinner(board[..])
      {
        if board[Index(i, 0)] == board[Index(i, 1)] && board[Index(i, 1)] == board[Index(i, 2)] && board[Index(i, 2)] != Empty {
          return board[Index(i, 0)];
        }
        if board[Index(0, i)] == board[Index(1, i)] && board[Index(1, i)] == board[Index(2, i)] && board[Index(2, i)] != Empty {
          return board[Index(0, i)];
        }
      }
      if board[Index(0, 0)] == board[Index(1, 1)] && board[Index(1, 1)] == board[Index(2, 2)] && board[Index(2, 2)] != Empty {
        return board[Index(0, 0)];
      }
      if board[Index(0, 2)] == board[Index(1, 1)] && board[Index(1, 1)] == board[Index(2, 0)] && board[Index(2, 0)] != Empty {
        return board[Index(0, 2)];
      }
      return Empty;
    }

    /** is_game_over, the copy in GameBoard: the same scan as in the search,
        with the full-board test as a nested loop that stops at the first
        empty cell. */
    method IsGameOver() returns (over: bool)
      requires Valid()
      ensures over == Engine.IsGameOver(board[..])
    {
      for i := 0 to 3
        invariant Engine.IsGameOverFrom(board[..], i) == Engine.IsGameOver(board[..])
      {
        if (board[Index(i, 0)] == board[Index(i, 1)] && board[Index(i, 1)] == board[Index(i, 2)] && board[Index(i, 2)] != Empty) ||
           (board[Index(0, i)] == board[Index(1, i)] && board[Index(1, i)] == board[Index(2, i)] && board[Index(2, i)] != Empty)
        {
          return true;
        }
      }
      if (board[Index(0, 0)] == board[Index(1, 1)] && board[Index(1, 1)] == board[Index(2, 2)] && board[Index(2, 2)] != Empty) ||
         (board[Index(0, 2)] == board[Index(1, 1)] && board[Index(1, 1)] == board[Index(2, 0)] && board[Index(2, 0)] != Empty)
      {
        return true;
      }
      for i := 0 to 3
        invariant forall k :: 0 <= k < 3 * i ==> board[k] != Empty
      {
        for j := 0 to 3
          invariant forall k :: 0 <= k < 3 * i + j ==> board[k] != Empty
        {
          if board[Index(i, j)] == Empty {
            return false;
          }
        }
      }
      return true;
    }

    /** handle_game_over: the winner's counter goes up by one and the message
        names the winner, or the message says tie when nobody won; the match
        is then over. */
    method HandleGameOver()
      requires Valid()
      modifies this
      ensures Valid() && board == old(board) && gameStarted == old(gameStarted)
      ensures Concluded(Engine.CheckWinner(board[..]), old(playerScore), old(botScore))
    {
      var winner := CheckWinner();
      if winner != Empty {
        if winner == X {
          playerScore := playerScore + 1;
          winnerMessage := PlayerWins;
        } else {
          // winner is O: a winning line holds a mark, so the source's third
          // case cannot happen
          botScore := botScore + 1;
          winnerMessage := BotWins;
        }
      } else {
        winnerMessage := Tie;
      }
      gameOver := true;
    }

    /** make_player_move: on an empty cell of a match still going, write X
        there and end the match if that finished the game; otherwise nothing. */
    method MakePlayerMove(row: int, col: int)
      requires Valid() && 0 <= row < 3 && 0 <= col < 3
      modifies this, board
      ensures Valid() && board == old(board) && gameStarted == old(gameStarted)
      ensures old(board[Index(row, col)]) != Empty || old(gameOver) ==> unchanged(this) && board[..] == old(board[..])
      ensures old(board[Index(row, col)]) == Empty && !old(gameOver) ==>
        board[..] == old(board[..])[Index(row, col) := X] &&
        Settled(old(playerScore), old(botScore), old(gameOver), old(winnerMessage))
    {
      if IsValidMove(row, col) && !gameOver {
        board[Index(row, col)] := X;
        var over := IsGameOver();
        if over {
          HandleGameOver();
        }
      }
    }

    /** One trial of make_computer_move: mark the empty cell k with O, run
        the search with the player to move, and clear the cell again. The
        score is the value of the board with k marked; the board comes back
        as it was. */
    method TryCell(k: nat) returns (score: int)
      requires Valid() && k < 9 && board[k] == Empty
      modifies board
      ensures board[..] == old(board[..])
      ensures score == MoveScore(old(board[..]), k)
    {
      MarkEmptyCell(board[..], k, O);
      board[k] := O;
      score := Engine.Minimax(board, 0, false);
      board[k] := Empty;
    }

    /** The scoring loop of make_computer_move: every empty cell is marked O,
        scored by the search with the player to move and cleared again; the
        cell kept is the first whose score is strictly above all before it.
        The board comes back as it was. */
    method ChooseMove() returns (bestMove: Option<(nat, nat)>)
      requires Valid()
      modifies board
      ensures board[..] == old(board[..])
      ensures bestMove.Some? ==> bestMove.value.0 < 3 && bestMove.value.1 < 3
      ensures Flat(bestMove) == BestMove(old(board[..]))
    {
      var bestScore := Engine.NegInf;
      bestMove := None;
      ghost var g := board[..];
      for i := 0 to 3
        invariant board[..] == g
        invariant bestMove.Some? ==> bestMove.value.0 < 3 && bestMove.value.1 < 3
        invariant BestFrom(g, 3 * i, bestScore, Flat(bestMove)) == BestMove(g)
      {
        for j := 0 to 3
          invariant board[..] == g
          invariant bestMove.Some? ==> bestMove.value.0 < 3 && bestMove.value.1 < 3
          invariant BestFrom(g, 3 * i + j, bestScore, Flat(bestMove)) == BestMove(g)
        {
          var k := Index(i, j);
          BestFromStep(g, k, bestScore, Flat(bestMove));
          if board[k] == Empty {
            var score := TryCell(k);
            if score > bestScore {
              bestScore := score;
              bestMove := Some((i, j));
            }
          }
        }
      }
    }

    /** make_computer_move: while the match is going, mark the cell the
        scoring loop chose with O and end the match if that finished the
        game. With no empty cell, nothing changes. */
    method MakeComputerMove()
      requires Valid()
      modifies this, board
      ensures Valid() && board == old(board) && gameStarted == old(gameStarted)
      ensures old(gameOver) || Full(old(board[..])) ==> unchanged(this) && board[..] == old(board[..])
      ensures !old(gameOver) && !Full(old(board[..])) ==>
        BestMove(old(board[..])).Some? &&
        var m := BestMove(old(board[..])).value;
        m < 9 && old(board[m]) == Empty &&
        board[..] == old(board[..])[m := O] &&
        Settled(old(playerScore), old(botScore), old(gameOver), old(winnerMessage))
    {
      BestMoveIsFirstBest(board[..]);
      if !gameOver {
        var bestMove := ChooseMove();
        if bestMove.Some? {
          var (row, col) := bestMove.value;
          board[Index(row, col)] := O;
          var over := IsGameOver();
          if over {
            HandleGameOver();
          }
        }
      }
    }

    /** update_scores: X adds one to the player's counter, O to the computer's,
        anything else changes nothing. */
    method UpdateScores(winner: Cell)
      modifies this
      ensures playerScore == old(playerScore) + (if winner == X then 1 else 0)
      ensures botScore == old(botScore) + (if winner == O then 1 else 0)
      ensures board == old(board) && gameStarted == old(gameStarted)
      ensures gameOver == old(gameOver) && winnerMessage == old(winnerMessage)
    {
      if winner == X {
        playerScore := playerScore + 1;
      } else if winner == O {
        botScore := botScore + 1;
      }
    }

    /** reset_scores: both counters back to zero, nothing else touched. */
    method ResetScores()
      modifies this
      ensures playerScore == 0 && botScore == 0
      ensures board == old(board) && gameStarted == old(gameStarted)
      ensures gameOver == old(gameOver) && winnerMessage == old(winnerMessage)
    {
      playerScore := 0;
      botScore := 0;
    }
  }
}
