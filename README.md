# Tic-Tac-Toe with a minimax opponent

This project models the rules and the search engine of a Tic-Tac-Toe game in
which a human (mark X, the minimiser) plays a computer (mark O, the maximiser).
The computer picks its moves by an exhaustive minimax search. The search
writes trial marks into the live board and clears them again afterwards.

- `board.dfy` (module `Board`) holds the cells and the 3x3 grid. The game's
  list of three rows is a flat array of nine cells in row-major order, so
  row i, column j is cell `3 * i + j`. `Empty` plays the part of Python's
  `None`.
- `engine.dfy` (module `Engine`) models `minimax.py`. It has two parts:
  - `CheckWinner` and `IsGameOver` are functions that scan the board in the
    same order as the source. They are proved against a reference list of
    the eight lines (`Line`, `FirstWinner`, `HasLine`).
  - `Value` / `Best` is the game value, a recursive specification that
    folds over the empty cells in row-major order. `Minimax` (with its
    maximising and minimising branches `MaxEval` and `MinEval`) is the
    in-place backtracking search. It is proved to return `Value` of the
    board it was given and to leave that board exactly as it found it.
- `game.dfy` (module `Game`) models the `GameBoard` class of
  `game_board.py`:
  - Its fields are the board, the two score counters, the
    started/over flags and the end-of-match message.
  - Its methods update them in place.
  - The move the computer makes is specified by `BestMove`, a fold that
    keeps the first cell whose score is strictly above all earlier ones.
    `BestMove` is proved to pick the first cell with the highest score,
    and that score is the game value for the computer.

The floating-point infinities that start the running maximum and minimum
are the integers -2 and +2. These lie outside every real score (-1, 0, 1).
The search is proved never to return them.

## Model

| member | source | states |
|---|---|---|
| Engine.CheckWinnerFindsLine | minimax.py:18-30 | check_winner returns None exactly when neither mark owns a row, column or diagonal; otherwise the mark it returns owns a complete line, and every line scanned before that one is open |
| Engine.CheckWinnerFromIsFirst | minimax.py:19-30 | the scan from loop index i (row i, column i, later rows and columns, then the two diagonals) returns the mark of the first complete line in that order |
| Engine.FirstWinnerFinds | minimax.py:19-30 | the first-complete-line reference is Empty exactly when every remaining line is open, and otherwise names the mark of a complete line with only open lines before it |
| Engine.RowThenColumn | minimax.py:19-23 | one loop iteration tests row i and then column i, which are lines 2i and 2i+1 of the reference order |
| Engine.GameOverIffWinnerOrFull | minimax.py:2-15 | is_game_over is true exactly when check_winner finds a winner or no cell is empty |
| Engine.IsGameOverFromIsWinOrFull | minimax.py:3-15 | the is_game_over scan from loop index i is true exactly when a line from row i on is complete or the board is full |
| Engine.InPlayHasEmptyCell | minimax.py:12-13 | a board on which the game is not over has at least one empty cell |
| Engine.Value | minimax.py:33-65 | the game value of every board, for either side to move, is -1, 0 or +1, so the infinite starting values never escape |
| Engine.ValueAtGameOver | minimax.py:35-41 | on a finished board the value is -1 when only X owns a line, +1 when only O does, and 0 when nobody does, which is then a full board |
| Engine.ValueIsBestChild | minimax.py:43-65 | on a board in play the maximiser's value is at least every child's value with O placed, the minimiser's at most every child's value with X placed, and it equals the value of some empty-cell child |
| Engine.BestIsExtreme | minimax.py:45-53 | the running max_eval/min_eval after the loop from cell k is at least as good as its start and as every empty child from k on, and is its start or one of those children |
| Board.MarkEmptyCell | minimax.py:48-51 | marking an empty cell leaves one empty cell fewer, and clearing it again gives back the board as it was; this is the termination measure of the recursion |
| Engine.Minimax | minimax.py:33-65 | minimax returns the game value of the board it was given and leaves every cell of that board as it was |
| Engine.MaxEval | minimax.py:43-53 | the maximising branch tries O in each empty cell in row-major order, restores it, and returns the largest child value, starting from -inf |
| Engine.MinEval | minimax.py:54-65 | the minimising branch tries X in each empty cell in row-major order, restores it, and returns the smallest child value, starting from +inf |
| Game.BestFromKeepsChosen | game_board.py:66-80 | the selection loop keeps "the best move so far is the first empty cell with the highest score among the cells scanned" from any point to the end of the board |
| Game.BestMoveIsFirstBest | game_board.py:66-80 | the computer has a move exactly when some cell is empty; the chosen cell is empty, scores at least as high as every empty cell, and strictly higher than every empty cell before it in row-major order |
| Game.BestMoveAchievesValue | game_board.py:66-80 | on a board in play, the chosen cell's score is the game value of the board with the computer to move |
| Game.GameBoard.constructor | game_board.py:7-16 | a new match has an empty board, both scores zero, not started, not over, and no message |
| Game.GameBoard.IsValidMove | game_board.py:46-47 | a move is valid exactly when its cell is empty |
| Game.GameBoard.CheckWinner | game_board.py:108-125 | the GameBoard copy of check_winner returns the same answer as the minimax.py version on every board |
| Game.GameBoard.IsGameOver | game_board.py:128-145 | the GameBoard copy of is_game_over, with its full-board test as a loop that stops at the first empty cell, agrees with the minimax.py version on every board |
| Game.GameBoard.HandleGameOver | game_board.py:89-105 | the winner's counter goes up by one (the player's for X, the computer's for O), the message names the winner or says tie, and the match is over; the board and the other counter are untouched |
| Game.GameBoard.MakePlayerMove | game_board.py:50-56 | on an occupied cell or a finished match nothing changes; otherwise X is written into exactly that cell, and handle_game_over has run exactly when the game is now over |
| Game.GameBoard.TryCell | game_board.py:69-75 | one trial puts O in an empty cell, scores it with minimax(board, 0, False) and clears it; the score is that cell's game value and the board comes back as it was |
| Game.GameBoard.ChooseMove | game_board.py:62-80 | the scoring loop leaves the board as it was and picks the first cell with a strictly greater score, which is BestMove of the board |
| Game.GameBoard.MakeComputerMove | game_board.py:59-86 | on a finished match or a full board nothing changes; otherwise exactly one previously empty cell, the chosen one, gets O, all other cells keep their values, and handle_game_over has run exactly when the game is now over |
| Game.GameBoard.UpdateScores | game_board.py:184-188 | X adds one to the player's counter, O to the computer's, and anything else changes nothing |
| Game.GameBoard.ResetScores | game_board.py:191-193 | both counters are set to zero and nothing else changes |

## Left out

- Drawing: every pygame method of `GameBoard` (grid, symbols, labels, buttons, start screen, scores) is I/O and is not modelled.
- main.py is not part of this model. It holds the event loop, the mouse-to-cell mapping and the screen updates, which are all I/O.
- Float infinities: `float('-inf')` and `float('inf')` are the integers -2 and +2. Only their order with respect to the real scores -1, 0 and 1 matters.
- Board size: `rows` and `cols` are fixed at 3, because the win checks use indices 0..2 only. The list of rows is one flat array of nine cells.
- Game.GameBoard.MakePlayerMove: requires row and col in 0..2. Python would raise IndexError past the end and would wrap negative indices. The caller in main.py only computes in-range cells.
- Game.GameBoard.IsValidMove: requires row and col in 0..2, for the same reason.
- Game.GameBoard.UpdateScores: the winner is a cell value (X, O or Empty), not an arbitrary Python object. Any value other than X and O changes nothing either way.
- `winner_message` strings are the enumeration `Message`. The empty string is `NoMessage`.
- The third branch of handle_game_over (game_board.py:99-100) is unreachable. A winner is always X or O, so the model has no such branch.
- `depth` is passed along by the search but never read. The model keeps the parameter, and it plays no part in `Value`.
- The split of `minimax` into `MaxEval` and `MinEval` methods only gives each branch of the source its own proof. They run the same statements as the two branches of `minimax`.
- `TryCell` and `ChooseMove` are the trial step and the scoring loop of `make_computer_move`, split out the same way.
- The alternation of turns (X and O counts differ by at most one) is left to the caller. The source does not enforce it, and the model does not either.
