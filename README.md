# Tic-tac-toe game engine

A model of the game logic of the React tic-tac-toe app in
`tic-tac-toe/src/index.js`, with the markup taken away. Two modules:

- `BoardAnalysis` (`BoardAnalysis.dfy`) analyses one board.
  - A board is nine cells, each `Empty` (JavaScript's `null`), `X` or `O`.
  - `calculateWinner` becomes the specification function `Evaluate` and the method `CalculateWinner`. The method scans the eight hard-coded lines in order and returns on the first complete one.
  - `boardDiff` becomes the specification function `Diff` and the method `BoardDiff`. The method scans the indices in ascending order and pushes one entry per changed cell. Each entry holds the `(i mod 3, i div 3)` position and the new value.
- `TicTacToe` (`Game.dfy`) holds the game timeline.
  - The class `Game` has the four state entries as fields: `history`, `stepNumber`, `xIsNext` and `increasingOrder`.
  - It has the constructor and the three commands `HandleClick`, `JumpTo` and `ReverseOrdering`. Each `setState` becomes plain field assignment.
  - `HandleClick` copies the current board into a fresh array and sets cell `i` in place.
  - `Valid()` is the timeline invariant `WellFormed`:
    - the history is non-empty and starts with the empty board;
    - the cursor is in range;
    - `xIsNext` matches the parity of `stepNumber`;
    - each snapshot is its undecided predecessor with one empty cell taken by the marker whose turn it was.
  - What `render` derives (the displayed board, its analysis and the move list) is modelled by the pure functions `ViewOf`, `Moves` and `EntryAt`. `Game.Render` exposes them.

The main results:
- The move list describes step `m` in ascending order and step `|history| - 1 - m` in descending order (`MovesDescribeSteps`). So toggling the order exactly reverses the list (`ToggleReversesMoves`).
- In descending order the code diffs each board against the one after it in the reversed list. That is still the change into that step, so no entry's last move depends on the order.
- The method `CentreCornerScenario` is a client of `Game`. It plays centre, then corner, then centre again, and shows from the contracts alone that the third click is ignored.

Modelling choices that follow the code as written:
- The board is fixed at 3×3 with the eight lines written out. There is no N×N line generation.
- `xIsNext` is a stored field and `handleClick` toggles it. The invariant proves that it always equals the parity of `stepNumber`.
- `jumpTo` does no range check itself. The model requires `step < |history|`, which is all the move-list buttons can pass.

## Model

The predicates `LineComplete` (index.js:189, a line filled with one marker), `Full` (index.js:193, the `every` check) and the function `Shown` (index.js:94-100, the history as recorded or reversed) have no contracts of their own; the lemmas and functions below that use them state what they mean.

| member | source | states |
|---|---|---|
| `BoardAnalysis.FirstCompleteLine` | tic-tac-toe/src/index.js:187-192 | the line found is complete, and no line scanned before it is; with no line found, no line from the start position on is complete |
| `BoardAnalysis.Evaluate` | tic-tac-toe/src/index.js:176-197 | winning cells are non-empty exactly when there is a winner; a winner implies done; done holds exactly when there is a winner or the board is full |
| `BoardAnalysis.CalculateWinner` | tic-tac-toe/src/index.js:176-197 | the loop with early return over the eight lines, then the full-board check, computes exactly `Evaluate` |
| `BoardAnalysis.EvaluateFirstLine` | tic-tac-toe/src/index.js:187-191 | if line k is complete and no earlier line is, the result is done, with the winner in line k's first cell and cells `[a, b, c]` of line k |
| `BoardAnalysis.EvaluateWinnerIffLine` | tic-tac-toe/src/index.js:187-191 | there is a winner exactly when some line is complete; the three reported cells then all hold the winner |
| `BoardAnalysis.EvaluateNoLine` | tic-tac-toe/src/index.js:193-196 | with no complete line, a full board gives (done, none, []) and any other board gives (not done, none, []) |
| `BoardAnalysis.EmptyBoardUndecided` | tic-tac-toe/src/index.js:53 | the all-empty starting board is undecided, with no winner and no cells |
| `BoardAnalysis.TopRowWin` | tic-tac-toe/src/index.js:177-191 | after X at 0, O at 3, X at 1, O at 4 and X at 2, X wins on cells [0, 1, 2] |
| `BoardAnalysis.MixedTopRowUndecided` | tic-tac-toe/src/index.js:187-196 | X, O, X along the top row is neither a win nor a draw |
| `BoardAnalysis.Pos` | tic-tac-toe/src/index.js:166-167 | the `(x, y)` position of an index is column `i mod 3`, row `i div 3`, both below the side length 3 |
| `BoardAnalysis.Diff` | tic-tac-toe/src/index.js:162-174 | the result of `boardDiff`: at most one entry per cell, and empty exactly when the two boards are equal; its full content is stated by `DiffContents` |
| `BoardAnalysis.BoardDiff` | tic-tac-toe/src/index.js:162-174 | the index loop that pushes entries computes exactly `Diff` |
| `BoardAnalysis.ChangedIndicesSpec` | tic-tac-toe/src/index.js:168-172 | the scanned indices kept are exactly those where the boards differ, strictly ascending |
| `BoardAnalysis.DiffContents` | tic-tac-toe/src/index.js:162-173 | an entry (position of i, curr[i]) is in the diff exactly when curr[i] differs from prev[i]; every entry names a changed cell and its new value; entries are in ascending index order |
| `BoardAnalysis.DiffIdentical` | tic-tac-toe/src/index.js:168-172 | identical boards give an empty diff |
| `BoardAnalysis.DiffSymmetricPositions` | tic-tac-toe/src/index.js:168-172 | swapping the arguments gives the same number of entries with the same positions in the same order |
| `BoardAnalysis.DiffSingleChange` | tic-tac-toe/src/index.js:168-172 | a board changed in one cell i to v has the single-entry diff [(position of i, v)] |
| `TicTacToe.Marker` | tic-tac-toe/src/index.js:68 | the marker placed (`'X'` when `xIsNext`, else `'O'`) is never the empty cell |
| `TicTacToe.InitialWellFormed` | tic-tac-toe/src/index.js:51-58 | the constructor's state (one empty board, step 0, X next) satisfies the timeline invariant |
| `TicTacToe.ClickWellFormed` | tic-tac-toe/src/index.js:62-75 | truncating after the cursor and appending the current board with an empty cell taken by the mover keeps the invariant, with the cursor advanced and the turn passed |
| `TicTacToe.JumpWellFormed` | tic-tac-toe/src/index.js:78-83 | setting the cursor to any recorded step, with `xIsNext` from its parity, keeps the invariant |
| `TicTacToe.ConsecutiveDiffSingle` | tic-tac-toe/src/index.js:62-75 | in a well-formed history each step differs from the one before in exactly one cell, which was empty and now holds the marker of the player whose turn it was |
| `TicTacToe.CurrIndex` | tic-tac-toe/src/index.js:94-101 | the current index in display order is in range and picks `history[stepNumber]` from the displayed (possibly reversed) history |
| `TicTacToe.FirstChange` | tic-tac-toe/src/index.js:112-113 | the reported last move (`diff[0]`) exists exactly when the two boards differ |
| `TicTacToe.EntryAt` | tic-tac-toe/src/index.js:105-125 | the callback of `history.map`: the jump target is a recorded step, the label is "game start" exactly for target 0 and "move #n" with n the target otherwise, and the entry is highlighted exactly at the current display index; its last move is stated by `MovesDescribeSteps` |
| `TicTacToe.Moves` | tic-tac-toe/src/index.js:104-125 | the move list has one entry per step and every button jumps to a recorded step, so every jump satisfies `JumpTo`'s requirement; its content entry by entry is stated by `MovesDescribeSteps` |
| `TicTacToe.MovesDescribeSteps` | tic-tac-toe/src/index.js:104-125 | the move list has one entry per step; in either order each entry jumps to its original step, is "game start" only for step 0 and "move #p" otherwise, is highlighted exactly for the current step, and reports the first change into its step as last move |
| `TicTacToe.ToggleReversesMoves` | tic-tac-toe/src/index.js:94-125 | the descending move list is exactly the ascending one reversed, entry values included |
| `TicTacToe.ViewOf` | tic-tac-toe/src/index.js:92-102 | in either order the board shown is `history[stepNumber]`, the result shown is its analysis, and the move list is `Moves` of the state |
| `TicTacToe.WellFormedLastMoves` | tic-tac-toe/src/index.js:104-124 | in a well-formed game every entry except the start reports a last move, and its value is the marker of the player who made that move |
| `TicTacToe.Game.constructor` | tic-tac-toe/src/index.js:49-59 | one empty board, step 0, X to move, ascending order; the invariant holds |
| `TicTacToe.Game.HandleClick` | tic-tac-toe/src/index.js:61-76 | on a decided board or an occupied cell nothing changes; otherwise the history becomes its prefix up to the cursor plus the current board with cell i set to the mover's marker, the cursor moves to the new last step and the turn passes; the display order never changes; the invariant is kept |
| `TicTacToe.Game.JumpTo` | tic-tac-toe/src/index.js:78-83 | the cursor becomes the step and `xIsNext` becomes its parity; the history and the order are unchanged; the invariant is kept |
| `TicTacToe.Game.ReverseOrdering` | tic-tac-toe/src/index.js:85-89 | only the display order flips |
| `TicTacToe.Game.Render` | tic-tac-toe/src/index.js:91-131 | the board shown is the one at the cursor, with its analysis; there is one move-list entry per step, an entry is highlighted exactly when it jumps to the current step, and the move list is `Moves` of the state, so `MovesDescribeSteps` and `ToggleReversesMoves` apply to it |

## Left out

- The `Square` and `Board` components, JSX, styles, winning-cell highlighting, the `<ol>` attributes and button wiring (index.js:5-46, 126-158). These are presentation.
- `ReactDOM.render` and the CSS import. These are bootstrapping.
- React's asynchronous, merging `setState`. Each command is a synchronous assignment to the fields.
- `Math.sqrt` in `boardDiff`. The board side is the constant 3 and boards are always nine cells.
- The `"(x,y)"` string of a diff entry's position and the status line ("Winner: …", "Cat's Game", "Next player: …"). A position is a pair of naturals and a button label is the datatype `Label` (`GameStart` or `GoToMove(n)`). String building is not modelled.
- JavaScript truthiness and loose `!=`. Cells are a datatype compared with real equality. A `null` winner is `Empty`.
- `diff[0]` on an empty diff (JavaScript `undefined`) is modelled as `None`. In a well-formed game it never happens (`WellFormedLastMoves`).
- `TicTacToe.Game.HandleClick`: requires `i` to be a board index (0..8), which is all the board's squares can pass. Clicks outside the board are not modelled.
- `TicTacToe.Game.JumpTo`: requires `step < |history|`, which is all the move-list buttons can pass. An out-of-range jump is not modelled.
