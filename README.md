# Tic-tac-toe board logic and minimax opponent, in Dafny

This project models the browser tic-tac-toe game in `script.js` without its page handling. It covers:

- The board. It has nine cells. An empty cell holds the number of its position; an occupied cell holds `'X'` or `'O'`.
- The eight winning lines, in their fixed order.
- `checkWin`, `emptySquares` and the tie test.
- The moves made by `turn` and `turnClick`, and the two-player rule that picks `'X'` or `'O'` from the turn counter.
- The computer's move: either a random empty square (easy mode) or a full-depth minimax search (expert mode). The search runs on the live board. It writes a mark, recurses and restores the cell.

There are four modules:

- `BoardModel` (`board.dfy`). Cells are `Num(n)` or `Mark(p)`.
  - `WinOf` is the specification of `checkWin`, and `CheckWin` is its loop with the early `break`, proved equal to `WinOf`.
  - `EmptySquares` is the filter from `emptySquares`, and `IsTie` is the tie test.
  - `WellNumbered` is the invariant the game relies on: every empty cell `i` holds `i`. Because of it, numbers read off the board can be used as positions.
- `MoveSelector` (`move_selector.dfy`).
  - `MinimaxOf` is the value the search computes, stated as a recursive function.
  - `Minimax` and `ScoreMoves` are the in-place search on an array. They are proved to leave the array as they found it, and `Minimax` is proved to return `MinimaxOf`.
  - `PickBest` is the selection loop over the scored moves. It touches no array and returns a position in the list of moves, which `FirstBestUnique` shows to be the one `FirstBest` defines.
  - `RandomPick` is the easy-mode choice.
- `Session` (`session.dfy`). The class `Game` holds the page's state: `originalBoard`, `turnCount` and the chosen `mode`. Its members are the constructor `Start` (`startGame`) and the methods `ResetGame`, `Turn`, `BestSpot` and `TurnClick` (`resetGame`, `turn`, `bestSpot`, `turnClick`). `TurnClick` uses two branch helpers, `TwoPlayerMove` and `ComputerGameMove`.
- `Scenarios` (`scenarios.dfy`). Concrete positions and what the search does on them.

The computer plays `'X'`; the human plays `'O'` and moves first.

Minimax scores are fixed: -10 when the side to move holds a line, 20 when the computer holds one, and 0 on a full board. They do not depend on depth.

When the computer is to move, the search tests the computer's lines twice and never tests the human's. `Scenarios.SearchLeavesLastCellThreatOpen` proves what follows from that on the position below. The empty cells are 0 and 8, and cell 8 completes two lines for the human, 2-5-8 and 6-7-8:

    _ X O
    X X O
    O O _

The search scores both empty cells 0. It picks cell 0, and the human then wins on cell 8. This is the behaviour of the code as written, and the model keeps it.

`emptySquares` is called with the board being searched but reads the global board. The model passes the board explicitly. The two agree because the search only ever runs on the game's own board (`Session.Game.BestSpot` calls `Minimax(originalBoard, ...)`).

## Model

| member | source | states |
|---|---|---|
| BoardModel.FreshBoard | script.js:68 | the new board has nine cells and cell i holds the number i |
| BoardModel.FreshBoardFacts | script.js:68 | the new board is well numbered, has no marks, and neither X nor O holds a line |
| BoardModel.FreshBoardEmptySquares | script.js:68 | on the new board the empty squares are 0 to 8 in order |
| BoardModel.HumanPlayer | script.js:3 | the human plays 'O' |
| BoardModel.AiPlayer | script.js:4 | the computer plays 'X'; minimax's second terminal test and the side switch read it |
| BoardModel.WinningCombos | script.js:5-14 | the three rows, three columns and two diagonals, in the source's order |
| BoardModel.WellNumbered | script.js:68 | the invariant kept by the fresh board and by writes into empty cells: every empty cell i holds the number i, which is what lets the old value of a cell stand for its index (line 210) |
| BoardModel.LineHeldCells | script.js:5-14 | each winning line has three cells, and holding the line means holding those three |
| BoardModel.WinOf | script.js:123-134 | a reported win names a line fully held by the player, and no earlier line in the list is held; nothing is reported exactly when the player holds no line |
| BoardModel.Covers | script.js:128 | the `every` test of checkWin: each cell of line k is among the collected positions of the player |
| BoardModel.FirstWinFrom | script.js:127-132 | scanning the lines from position k stops at the first one the player holds, or reports none when no later line is held |
| BoardModel.Plays | script.js:124-125 | the collected positions are exactly the cells holding the player's mark |
| BoardModel.CheckWin | script.js:123-134 | the loop with its early break returns exactly the first held line, as WinOf defines it |
| BoardModel.FewMarksNoWin | script.js:123-134 | a player with fewer than three marks holds no line |
| BoardModel.OtherMarkAddsNoLine | script.js:110 | writing one player's mark never gives the other player a line |
| BoardModel.EmptySquares | script.js:166-168 | the number of empty squares is the board size minus the marks of both players; every value comes from an empty cell and every empty cell contributes its value |
| BoardModel.EmptySquaresAreEmptyCells | script.js:166-168 | on a well-numbered board each empty square is the position of an empty cell holding that position, the list is strictly ascending, and a cell is empty exactly when its position is listed |
| BoardModel.EmptySquaresInRange | script.js:166-168 | on a well-numbered board each empty square is the position of an empty cell holding that position |
| BoardModel.EmptySquaresAscending | script.js:166-168 | on a well-numbered board the filter lists the empty squares in strictly ascending order |
| BoardModel.WellNumberedPrefix | script.js:166-168 | dropping the last cell keeps a board well numbered, so the filter's invariant holds cell by cell |
| BoardModel.EmptySquaresExactly | script.js:166-168 | on a well-numbered board the empty squares equal any ascending list of exactly the unmarked positions |
| BoardModel.AscendingUnique | script.js:166-168 | two strictly ascending lists with the same elements are equal, so the empty squares are determined by which cells are empty |
| BoardModel.CountPlace | script.js:110 | writing a mark into an empty cell adds one to that player's count and leaves the other player's count alone |
| BoardModel.CountAtLeast | script.js:123-134 | a player holding every cell of a set of positions owns at least that many cells |
| BoardModel.LineNeedsThree | script.js:123-134 | a player holding a winning line owns at least three cells, since the line's three cells are distinct |
| BoardModel.PlaceShrinks | script.js:208-219 | marking an empty cell removes exactly one empty square and keeps the board well numbered, so each recursive search runs on a board with one fewer empty cell |
| BoardModel.IsTie | script.js:185 | the tie test holds exactly when every cell holds a mark |
| MoveSelector.Other | script.js:213-219 | the recursive search is made with the other side to move, never the same one |
| MoveSelector.Terminal | script.js:200-206 | the three tests that end the search: the side to move holds a line, the computer holds a line, or no empty square is left |
| MoveSelector.MinimaxOf | script.js:197-245 | the value minimax computes: its score is -10, 0 or 20 and a chosen cell is always an empty cell named by its index; MinimaxScore and MinimaxChoice give its terminal scores and its choice |
| MoveSelector.ChildScore | script.js:208-219 | the score of one child search, after the mover marks an empty cell and the other side is to move; it is -10, 0 or 20 |
| MoveSelector.Improves | script.js:230-238 | the strict comparison of the two selection loops: greater than the best so far for the computer, less than it for the human |
| MoveSelector.FirstBest | script.js:226-243 | the chosen position is in range, no score beats it, and it strictly beats every earlier score, which is the strict-comparison scan |
| MoveSelector.FirstBestUnique | script.js:226-243 | those two properties single out one position, the one FirstBest returns |
| MoveSelector.ScoresOf | script.js:207-224 | the recorded scores match the empty squares one for one, each being the search's value after marking that cell |
| MoveSelector.MinimaxScore | script.js:197-206 | every score is -10, 0 or 20 (MinimaxOf's range, restated for the search's proof to call on each child); no cell is chosen exactly at a terminal position; the side to move holding a line gives -10, otherwise the computer holding one gives 20, otherwise a full board gives 0 |
| MoveSelector.MinimaxChoice | script.js:207-245 | on a non-terminal well-numbered board the chosen cell is empty and its score is its child's score; no empty cell does better for the side to move (higher for the computer, lower for the human); every empty cell before it does strictly worse |
| MoveSelector.ChoiceAmongSpots | script.js:207-245 | the first-best position among the child scores of the empty squares is an empty cell that is best and strictly better than every earlier empty cell |
| MoveSelector.ImmediateWin | script.js:200-203 | when neither side holds a line yet, if marking an empty cell gives the computer a line, that child scores 20, the computer's search scores 20, and it chooses that cell or an earlier one |
| MoveSelector.WinOnFirstEmptyCell | script.js:200-245 | when neither side holds a line yet, if the first empty cell completes a line for the computer, the computer's search chooses it with score 20 |
| MoveSelector.OnlyMove | script.js:207-245 | with a single empty cell on a non-terminal board, the search plays it and takes its child's score |
| MoveSelector.TieGoesToFirstOfTwo | script.js:226-243 | when neither side holds a line yet, with two empty cells whose children score the same, the search chooses the first |
| MoveSelector.Minimax | script.js:197-245 | the array is the same on return, and the result equals MinimaxOf of the board as it was |
| MoveSelector.ScoreMoves | script.js:207-224 | each empty cell is marked, searched with the other side to move, and restored to its old number, so the array is the same on return; each record holds the cell's old number (its position) and the child's score |
| MoveSelector.PickBest | script.js:226-243 | starting from the sentinel 10000 or -10000 with a strict comparison, the selected move is in range, is not beaten, and strictly beats every earlier move |
| MoveSelector.RandomPick | script.js:175-176 | a cell is returned exactly when some square is empty, and it is one of the empty squares |
| MoveSelector.RandomPickIsEmptyCell | script.js:175-176 | for every draw within range the pick is the position of an empty cell |
| Session.OutcomeAfter | script.js:112-119 | a win is reported exactly when the mover holds a line, and it is the first such line; a tie is reported exactly when there is no win and every cell is marked |
| Session.SpotFor | script.js:171-181 | bestSpot's choice, the random pick in easy mode and the minimax index otherwise; whatever it returns, in either mode, is the position of an empty cell |
| Session.AfterReply | script.js:99-104 | the computer's reply in turnClick changes at most one cell, from a number to X; it changes nothing on a full board and always marks a cell when the board is not full and bestSpot offers one; the board stays well numbered |
| Session.ParityCounts | script.js:90-95 | after an accepted two-player move, X owns ceil(t/2) cells and O owns floor(t/2) cells, where t is the new turn count |
| Session.Game.BoardValid | script.js:68 | the live board has nine cells and every empty cell holds its own index |
| Session.Game.Valid | script.js:90-95 | the game invariant: the board is valid, and in two-player mode X owns ceil(turnCount/2) cells and O owns floor(turnCount/2), which is what the parity rule produces |
| Session.Game.Start | script.js:47-63 | a new game records the mode, starts from the new board with turn count 0, and satisfies the game invariant |
| Session.Game.ResetGame | script.js:66-69 | the board is replaced by a new one, the counter is 0, and the mode is kept |
| Session.Game.Turn | script.js:109-120 | exactly the chosen cell is overwritten with the mark, the board stays well numbered, and the outcome is a win for the mover, else a tie, else neither |
| Session.Game.BestSpot | script.js:171-181 | the board is unchanged; the result is the random pick in easy mode and the minimax choice for the computer otherwise |
| Session.Game.TurnClick | script.js:85-106 | a click is accepted exactly when the cell still holds a number, and a rejected click changes nothing; in two-player mode the mark is X on an even count and O on an odd one and the count goes up by one; against the computer the human's O is written, which removes one empty square, then the computer replies unless the board is full; the game invariant is preserved |
| Session.Game.TwoPlayerMove | script.js:89-96 | the two-player branch writes X on an even count and O on an odd one, increments the count, and keeps the mark counts in step with it |
| Session.Game.ComputerGameMove | script.js:99-104 | the human's O is written, then the computer's chosen cell is marked X unless the board is full or no cell was chosen |
| Scenarios.NoLine | script.js:123-134 | a player who misses a cell of each of the eight lines holds no line |
| Scenarios.TopRowIsLineZero | script.js:123-134 | the top row filled by one player is reported as line 0 |
| Scenarios.TopRowThreatFacts | script.js:123-168 | on the position X X _ / O _ _ / _ _ _, neither side holds a line, and cell 2 completes the top row for the computer |
| Scenarios.ComputerCompletesTopRow | script.js:197-245 | on that position the computer's search chooses cell 2 with score 20 |
| Scenarios.LastHumanMoveScoresZero | script.js:197-206 | when neither side holds a line yet, with one empty cell left and the human to move, if the last move gives the computer no line, the position scores 0 even when it completes a human line |
| Scenarios.ZeroTakenCells | script.js:166-168 | on the board after the computer takes cell 0, the only empty square is 8 |
| Scenarios.ZeroTakenLines | script.js:123-134 | on that board no side holds a line, and the human's move at 8 gives the computer no line and completes both 6-7-8 and 2-5-8 for the human, reported as line 2 (6-7-8), the first in the list |
| Scenarios.EightTakenCells | script.js:166-168 | on the board after the computer takes cell 8, the only empty square is 0 |
| Scenarios.EightTakenLines | script.js:123-134 | on that board no side holds a line, and the human's move at 0 gives the computer no line |
| Scenarios.ThreatCells | script.js:166-168 | on the threat position the empty squares are 0 and 8 |
| Scenarios.ThreatLines | script.js:123-134 | on the threat position neither side holds a line |
| Scenarios.SearchLeavesLastCellThreatOpen | script.js:197-245 | on the threat position the computer's search chooses cell 0 with score 0, after which the human's move on cell 8 is reported as a win on line 2 (6-7-8) |

## Left out

- Page handling: the `document` queries, `innerText`, styles, and adding or removing click listeners. This also leaves out the display parts of `gameOver`, `declareWinner`, `returnToMenu` and `checkTie` (lines 137-163 and 186-190). These are display, not game logic.
- `Math.random` and `Math.floor` (line 176): the draw is a parameter `k`, and any index into the empty squares may be passed.
- `startGame`'s mode strings and `twoPlayerMode` flag (lines 47-63): these become the `Mode` value held by `Game` and chosen at `Game.Start`.
- Game-over sequencing. After a human win, the page removes the click listeners, but `turnClick` still lets the computer reply when the board is not full (line 101). The model keeps that reply. It does not model the blocked clicks that follow, because they depend on listener state.
- `Session.Game.TurnClick`: when `bestSpot` finds no cell the source calls `turn(undefined, ...)`, which fails in the page code. The model writes nothing in that case. This can happen only when the search starts on a terminal position.
- Square ids: the source reads them as strings from the page. Here they are integers from 0 to 8.
- `Session.Game.TurnClick` requires the draw `k` to be in range for the board after the human's move; out-of-range draws are not modelled, since `Math.floor(Math.random() * n)` is always below n.
- Perfect play from the empty board, and the computer blocking a human threat, are not proved. Unfolding the full game tree on a concrete board is beyond what the verifier can do here. `Scenarios` proves smaller positions instead, including one where the search misses a block.
