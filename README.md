# Tic-tac-toe rules and alpha-beta minimax, in Dafny

This project models `tictactoe.py`, an optimal tic-tac-toe player, in two
modules:

- `TicTacToe` (tictactoe.dfy) models the board rules. A board is a 3x3 grid
  of `Empty`, `X` and `O`. The rules are the initial empty board, the mark to
  move (`player`), the legal moves (`actions`), the board after a move
  (`result`), the winner, the end of the game (`terminal`) and the score of a
  finished board (`utility`).
- `Search` (search.dfy) models the search engine. `max_value` and `min_value`
  are mutually recursive and use alpha-beta pruning. `minimax` values every
  move with the full window, records each value with its move in a
  dictionary, and returns the move stored under the best value.

Where the source works step by step, the model does too. `player`'s counting
loop, the collection loop of `actions`, the copy-and-assign of `result`,
`winner`'s column loop, the loops of `max_value`/`min_value` with their
`break`, and `minimax`'s table loops are methods. Each loop carries
invariants, and each method is proved against a specification function:

- `Turn` is the mark to move.
- `EmptyCells` is the row-major list of empty cells.
- `Successor` is the board after a move.
- `HasLine` says whether a mark fills a line.
- `MaxScore`/`MinScore` are the unpruned minimax values. `MaxOver`/`MinOver`
  are the maximum and minimum over a list of moves.

The main theorems are these:

- Alpha-beta soundness. `MaxValue` and `MinValue` are fail-soft with respect
  to the exact value for every window. A result at or below `alpha` is an
  upper bound, a result at or above `beta` is a lower bound, and a result
  strictly inside the window is exact. With the full window the result is
  exact.
- `minimax` returns a legal move whose value is the best for the mover. Of
  the best moves it is the last one in enumeration order.
- On the board with X at (0,0) and (0,1) and O at (1,0) and (1,1), X to
  move, every other move fails to win, so `minimax` returns (0,2).

A value of a move is `ActionValue`: `MinScore` of its successor for X,
`MaxScore` for O.

The source's `-math.inf`/`math.inf` are the integers `NegInf = -2` and
`PosInf = 2`. Every score lies strictly between them, so the comparisons
come out as they do with the infinities.

The source returns the string "Game is already over" from `player` and
`actions` on a finished board. The model returns `Err(GameOver)` of an
`Outcome` type instead. `result` on an occupied cell raises `ValueError` in
the source and returns `Err(InvalidAction)` in the model.

## Model

| member | source | states |
|---|---|---|
| TicTacToe.InitialState | tictactoe.py:13-19 | every one of the nine cells of the initial board is empty |
| TicTacToe.InitialCounts | tictactoe.py:17-19 | the initial board has no X, no O and nine empty cells |
| TicTacToe.InitialStateFacts | tictactoe.py:43-46 | on the initial board X is to move (the counts are equal), the game is not over, nine moves are legal, and the board is balanced |
| TicTacToe.CountTotal | tictactoe.py:35-40 | every cell holds exactly one of the three values, so the X, O and empty counts add up to nine |
| TicTacToe.Player | tictactoe.py:22-46 | on a finished board the result is the game-over error without counting; otherwise it is O exactly when X has more marks than O, and X otherwise |
| TicTacToe.EmptyCells | tictactoe.py:58-67 | a pair is in the list of legal moves exactly when it is in range and its cell is empty |
| TicTacToe.EmptyCellsFacts | tictactoe.py:58-67 | the legal moves have no duplicates, there are as many as there are empty cells, and there are none exactly when the board is full |
| TicTacToe.Actions | tictactoe.py:49-67 | on a finished board the result is the game-over error; otherwise it is exactly the in-range empty cells, each once, in row-major order |
| TicTacToe.SuccessorFacts | tictactoe.py:79-84 | the new board holds the mover's mark at the chosen cell and equals the old one at every other cell; with an empty target it has one empty cell fewer, one more mark of the mover and as many of the other mark |
| TicTacToe.SuccessorFewerEmpty | tictactoe.py:82-83 | marking an empty cell lowers the empty count by exactly one, the measure on which the search terminates |
| TicTacToe.Result | tictactoe.py:70-86 | an occupied cell gives the invalid-action error; an empty cell on an unfinished board gives the board with the mover's mark there; an empty cell on a finished board gives the game-over error |
| TicTacToe.LinesContain | tictactoe.py:98-112 | the list of two diagonals, three columns and three rows contains [m, m, m] exactly when m fills one of the eight lines |
| TicTacToe.Winner | tictactoe.py:89-117 | the result is X exactly when X fills a line, O exactly when X does not and O does, and none exactly when neither does, so X takes precedence |
| TicTacToe.TerminalIff | tictactoe.py:120-131 | the game is over exactly when X or O fills a line or no legal move is left |
| TicTacToe.OpenBoardHasMove | tictactoe.py:184-190 | a board that is not over has a legal move, so the search loops run at least once |
| TicTacToe.Utility | tictactoe.py:134-143 | the score is one of -1, 0 and 1 |
| TicTacToe.UtilityIff | tictactoe.py:134-143 | the score is 1 exactly when X fills a line, -1 exactly when only O does, and 0 exactly when neither does |
| TicTacToe.Alternation | tictactoe.py:43-46 | on a balanced board (X has as many marks as O or one more) every legal move keeps the board balanced and hands the turn to the other mark |
| Search.MaxScore | tictactoe.py:180-196 | the unpruned maximiser value of a board lies in -1..1 |
| Search.MinScore | tictactoe.py:198-214 | the unpruned minimiser value of a board lies in -1..1 |
| Search.MaxOver | tictactoe.py:189-190 | the maximum over no moves is the stand-in for minus infinity, and over some moves lies in -1..1 |
| Search.MinOver | tictactoe.py:207-208 | the minimum over no moves is the stand-in for plus infinity, and over some moves lies in -1..1 |
| Search.MaxOverBounds | tictactoe.py:189-190 | every move's minimiser value is at most the maximum over the moves |
| Search.MaxOverAttained | tictactoe.py:189-190 | some move's minimiser value equals the maximum over a non-empty list of moves |
| Search.MinOverBounds | tictactoe.py:207-208 | every move's maximiser value is at least the minimum over the moves |
| Search.MinOverAttained | tictactoe.py:207-208 | some move's maximiser value equals the minimum over a non-empty list of moves |
| Search.MaxOverPrefix | tictactoe.py:193-194 | the maximum over the moves explored before a cut-off is at most the maximum over all moves |
| Search.MinOverPrefix | tictactoe.py:211-212 | the minimum over the moves explored before a cut-off is at least the minimum over all moves |
| Search.MaxOverSnoc | tictactoe.py:190 | exploring one more move takes the larger of the running maximum and that move's minimiser value |
| Search.MinOverSnoc | tictactoe.py:208 | exploring one more move takes the smaller of the running minimum and that move's maximiser value |
| Search.MaxStep | tictactoe.py:190-194 | one iteration of the maximiser's loop keeps the loop's fail-soft invariant, or breaks with a value at or above beta that bounds the exact value from below |
| Search.MinStep | tictactoe.py:208-212 | one iteration of the minimiser's loop keeps the loop's fail-soft invariant, or breaks with a value at or below alpha that bounds the exact value from above |
| Search.MaxValue | tictactoe.py:180-196 | a finished board gets its utility; the result lies in -1..1 and is fail-soft with respect to the unpruned value for every window (alpha < beta); with the full window it equals the unpruned value |
| Search.MaxValueLoop | tictactoe.py:187-196 | the loop's result lies in -1..1 and is an upper bound of the exact maximum over the moves when at or below alpha, a lower bound when at or above beta, and that maximum when strictly between |
| Search.MinValue | tictactoe.py:198-214 | a finished board gets its utility; the result lies in -1..1 and is fail-soft with respect to the unpruned minimiser value for every window; with the full window it equals that value |
| Search.MinValueLoop | tictactoe.py:205-214 | the loop's result lies in -1..1 and is fail-soft with respect to the exact minimum over the moves |
| Search.MinValueOfMove | tictactoe.py:190 | the minimiser's pruned value of the board a legal move leads to is fail-soft with respect to that board's exact value |
| Search.MaxValueOfMove | tictactoe.py:208 | the maximiser's pruned value of the board a legal move leads to is fail-soft with respect to that board's exact value |
| Search.ActionValueIsGameValue | tictactoe.py:161-177 | on a balanced board the value the search gives a move is the exact value of the board it leads to for the mark that is to move there |
| Search.MaxKey | tictactoe.py:166 | the result is a key of the dictionary and no key is larger |
| Search.MinKey | tictactoe.py:175 | the result is a key of the dictionary and no key is smaller |
| Search.TableStep | tictactoe.py:164 | recording the next move under its value, overwriting an earlier move with that value, keeps the dictionary the last move seen for each value seen |
| Search.TableMax | tictactoe.py:166-168 | the move under the largest key of the complete dictionary has the largest value, and no later move has that value |
| Search.TableMin | tictactoe.py:175-177 | the move under the smallest key of the complete dictionary has the smallest value, and no later move has that value |
| Search.TableNotEmpty | tictactoe.py:162-166 | on a board that is not over the complete dictionary has a key, so taking its maximum or minimum is defined |
| Search.ChoiceIsOptimal | tictactoe.py:161-177 | a legal move valued at least as highly (for X) or as lowly (for O) as every other move, with no later move of equal value, has the unpruned value of the board and is the last optimal move |
| Search.MaxTableChoice | tictactoe.py:166-168 | the move under the largest key of X's dictionary is a legal move of X's best value, equal to the board's unpruned value, and the last such move |
| Search.MinTableChoice | tictactoe.py:175-177 | the move under the smallest key of O's dictionary is a legal move of O's best value, equal to the board's unpruned value, and the last such move |
| Search.TabulateMinValues | tictactoe.py:162-164 | after X's loop the dictionary maps each move's exact value to the last move with that value, and its key view lists each key once |
| Search.TabulateMaxValues | tictactoe.py:171-173 | after O's loop the dictionary maps each move's exact value to the last move with that value, and its key view lists each key once |
| Search.MaximizingChoice | tictactoe.py:161-168 | X's branch returns a legal move whose value is the board's unpruned maximiser value, at least that of every legal move, and the last move of that value |
| Search.MinimizingChoice | tictactoe.py:170-177 | O's branch returns a legal move whose value is the board's unpruned minimiser value, at most that of every legal move, and the last move of that value |
| Search.Minimax | tictactoe.py:146-177 | on a board that is not over the result is a legal move, optimal for the mark to move (the maximum of all move values for X, the minimum for O, equal to the unpruned value), and the last optimal move in enumeration order |
| Search.ForcedWinCounts | tictactoe.py:35-46 | the example board (X at (0,0) and (0,1), O at (1,0) and (1,1)) has two marks of each kind |
| Search.ForcedWinMove | tictactoe.py:82-83 | on the example board X is to move, and X's move at (0,2) completes the top row and scores 1 |
| Search.ForcedWin | tictactoe.py:161-168 | the example board is not over, its value is a win for X, and (0,2) attains it |
| Search.NoLine | tictactoe.py:93-117 | a board in which each of the eight lines holds some cell other than a mark has no line of that mark |
| Search.SameBoard | tictactoe.py:78-84 | two boards that agree cell by cell are the same board |
| Search.OWins | tictactoe.py:138-141 | a board where O has a line and X has none is worth -1 to both searches |
| Search.MinAtMost | tictactoe.py:207-208 | on a board that is not over, the minimiser's value is at most the maximiser's value after any one legal move |
| Search.MaxAttainedBy | tictactoe.py:189-190 | on a board that is not over, some legal move gives the maximiser its value |
| Search.BottomRowLoses | tictactoe.py:161-164 | on the example board, X's move anywhere on the bottom row is worth -1, because O completes the middle row |
| Search.BlockingIs | tictactoe.py:82-83 | X's move at (1,2) on the example board gives the listed board, balanced and with O to move |
| Search.BlockedIs | tictactoe.py:82-83 | O's reply at (0,2) gives the listed board, balanced and with X to move |
| Search.BlockedOpen | tictactoe.py:120-131 | after that reply the game is not over and only the bottom row is open |
| Search.BlockedEdgeLoses | tictactoe.py:207-208 | after that reply, X's move at (2,1) or (2,2) is worth -1, because O completes the anti-diagonal at (2,0) |
| Search.CornerTakenIs | tictactoe.py:82-83 | X's move at (2,0) after the reply gives the listed board, balanced and with O to move |
| Search.LastCellLeftIs | tictactoe.py:82-83 | O's answer at (2,1) gives the listed board, balanced and with X to move |
| Search.LastCellOpen | tictactoe.py:120-131 | on that board the game is not over and (2,2) is the only open cell |
| Search.LastCellFilled | tictactoe.py:120-143 | filling (2,2) there ends the game in a draw, worth 0 |
| Search.LastCellDraws | tictactoe.py:184-196 | the maximiser's value of that board is 0 |
| Search.BlockedCornerDraws | tictactoe.py:202-214 | after X's move at (2,0), the minimiser's value is at most 0 |
| Search.BlockedDraws | tictactoe.py:184-196 | after O's reply at (0,2), X can do no better than a draw |
| Search.MiddleRightDraws | tictactoe.py:161-164 | on the example board, X's move at (1,2) is worth at most 0 |
| Search.OnlyWinningMove | tictactoe.py:161-168 | on the example board every legal move other than (0,2) is worth less than 1 |
| Search.ForcedWinChoice | tictactoe.py:161-168 | a legal move of the example board whose value is the board's value is (0,2) |
| Search.ForcedWinMinimax | tictactoe.py:146-168 | `minimax` on the example board returns (0,2) |

## Left out

- Sets versus sequences. The source collects the legal moves in a Python
  `set`, whose iteration order is unspecified. The model lists them in
  row-major order. So `Minimax`'s tie-break, the last optimal move, is stated
  for that order. Which optimal move the source returns depends on the
  iteration order of its set.
- The infinities. `math.inf` is replaced by the integers -2 and 2. No
  floating-point arithmetic happens in the source.
- Writing the sentinel into a cell. On an empty cell of a board that is
  already won, the source's `result` writes the string "Game is already
  over" into the cell. The model's `Result` reports `Err(GameOver)`
  instead, because a cell holds only `Empty`, `X` or `O`. The search never
  calls `result` on a finished board.
- `Minimax` on a finished board. The source would take the second branch
  and iterate over the characters of the sentinel string, which fails. The
  model requires a board that is not over.
- Indices. `Result` requires both coordinates in 0..2. The source would wrap
  a negative index Python-style and fail on an index of 3 or more.
- Copying. `copy.deepcopy` of the board is ordinary value copying. Boards
  are immutable sequences, so the input board is unchanged by construction.
- Python's `max` and `min` over the dictionary keys. These walk the
  dictionary's key view, which lists the keys in insertion order. The model
  represents the dictionary as a map together with that key sequence.
- Utility on unfinished boards. The source returns 0 from `utility` on an
  unfinished board with no line, and so does the model. A precondition
  check that fails loudly there would be a design change, and the code is
  followed here.
- Errors from `player` and `actions`. A design where these fail loudly on a
  finished board would also be a design change; the code returns the
  sentinel, which the model writes as `Err(GameOver)`.
- The value of the empty board (a draw under optimal play) and the playing
  out of a whole game. Deciding these means evaluating the full game tree,
  which the verifier cannot do in reasonable time. The model evaluates a
  board with five empty cells instead. `ForcedWin` and `OnlyWinningMove`
  show that (0,2) is the only winning move there, and `ForcedWinMinimax`
  shows that `Minimax` returns it.
- Any user interface or program that drives the module. It does input and
  output and is not part of this model.
