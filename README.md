# Tic-tac-toe game engine

A Dafny model of the state engine of a React tic-tac-toe game with move
history and time travel (`src/index.js`). The model covers:

- **Board** (`board.dfy`): a square is `Empty`, `X` or `O`; a board is nine
  squares in row-major order. `calculateWinner` scans a fixed table of eight
  triples (rows, columns, diagonals) and returns the mark and triple of the
  first line whose three squares hold the same non-empty mark, or nothing.
  It is modelled twice: `Winner`, a recursive scan over the table whose
  contract and lemmas characterise the result (None exactly when no line
  wins, otherwise the mark and triple of the first winning line in scan
  order), and `CalculateWinner`, the loop of the source with early return,
  proved equal to it. The table is the function `Line`.
- **Engine** (`engine.dfy`): the `Game` component as a class whose fields are
  the component's state: `history` (a sequence of entries, each a board plus
  the square filled to reach it), the cursor `stepNumber`, the stored turn
  flag `xIsNext` and the move-list order flag `isAscending`. `HandleClick`,
  `JumpTo`, `Restart` and `ToggleOrder` update those fields; `Status` is the
  status line computed while rendering. The object invariant `Valid()` says
  the history is one the game can build (it starts with the empty board and
  every later entry is one accepted move, X first and then alternating), the
  cursor lies inside it and `xIsNext` is the cursor's parity. Lemmas about
  valid histories give the mark counts of every board, the bound of ten
  entries, that a won board is the newest entry and belongs to the last
  mover, and how the status line relates to the board.
- **Scenarios** (`scenarios.dfy`): client code that plays whole games through
  the class: a top-row win for X, a drawn game followed by a jump back to
  the start, and a move made after time travel.

Behaviour kept exactly as the code has it:

- The draw test compares the full history length with 10; it does not look
  at the cursor. After any nine-move game, drawn or won on the last move
  (for example moves 0, 1, 2, 3, 4, 5, 7, 6, 8, where X completes the
  diagonal 0, 4, 8), jumping back to an earlier entry shows "Draw", although
  that board has empty squares and a click on one is accepted
  (`DrawIgnoresCursor`, `Scenarios.DrawThenJumpBack`).
- `jumpTo` and `handleClick` do no range checks; their callers only pass an
  index of an existing history entry, or a square 0..8. The model states
  these as preconditions.
- `xIsNext` is a stored field that `handleClick` negates and `jumpTo` sets
  from the parity of the target; the invariant ties it to `stepNumber`.

## Model

| member | source | states |
|---|---|---|
| `Board.Line` | src/index.js:228-237 | each of the eight triples is three distinct, equally spaced squares: the first three lie in one row, the next three in one column, the last two are the diagonals through the centre |
| `Board.Hit` | src/index.js:241 | the scan's answer for line k is a triple of board squares and the mark on its first square; the line wins exactly when that mark is non-empty and the other two squares hold it |
| `Board.WinnerMarkOnFirstLine` | src/index.js:238-243 | whichever line is the first winning one in scan order, the winner is its mark and triple |
| `Board.EmptyBoard` | src/index.js:104 | the starting board has nine squares, all empty |
| `Board.WinnerFrom` | src/index.js:238-244 | scanning from line k returns nothing exactly when no line from k on wins; a returned mark is never empty |
| `Board.ScanStopsAtFirst` | src/index.js:238-243 | scanning from line k returns the mark and triple of the first winning line at or after k |
| `Board.Winner` | src/index.js:227-245 | the winner is None exactly when none of the eight lines wins; a returned mark is never empty |
| `Board.WinnerIsFirstLine` | src/index.js:238-243 | for the first winning line in scan order (rows, columns, diagonals), the winner is that line's mark and triple |
| `Board.WinningLineOf` | src/index.js:240-241 | a returned winner is the first winning line in scan order, and its three squares all hold the returned, non-empty mark |
| `Board.CalculateWinner` | src/index.js:227-245 | the loop over the table with early return computes exactly `Winner` |
| `Board.FirstWinningLineExists` | src/index.js:238-243 | if any line wins, a first winning line in scan order exists at or before it |
| `Board.NewWinnerIsMover` | src/index.js:136-139 | a move into a board without a winner can only produce a winner holding the mark just placed |
| `Engine.InitialHistory` | src/index.js:103-105 | the starting history is a valid history of one entry, an all-empty board with no move |
| `Engine.MarkFor` | src/index.js:139 | the mover's mark is never empty, and when the turn flag follows the parity of the moves made it is the mark the next move places (X on odd-numbered moves, O on even) |
| `Engine.Accepts` | src/index.js:136 | a click on square i is taken exactly when the square is empty and none of the eight lines wins |
| `Engine.StatusOf` | src/index.js:186-194 | the status is "Winner" exactly when some line of the cursor board wins, and its mark is the non-empty mark on the first winning line in scan order; "Draw" only when the history has ten entries; otherwise "Next player" with the mark of `xIsNext` |
| `Engine.MoveKeepsHistoryValid` | src/index.js:133-146 | cutting a valid history after the cursor and appending an accepted move gives a valid history |
| `Engine.MarkCounts` | src/index.js:139-146 | the board after k moves holds (k+1)/2 X marks, k/2 O marks and 9-k empty squares |
| `Engine.MarkBalance` | src/index.js:139-146 | on every board X has as many marks as O or one more, and as many exactly on even entries (X to move) |
| `Engine.HistoryAtMostTen` | src/index.js:136-145 | a history the game can build has at most ten entries |
| `Engine.NoWinnerBeforeLast` | src/index.js:136-137 | every entry a later move was made from has no winner |
| `Engine.WinnerIsLastMover` | src/index.js:136-139 | a won board is the newest entry, is not the start, and its winner is the player who made the last move |
| `Engine.WonStatusBlocksMoves` | src/index.js:186-189 | under a "Winner" status the cursor is on the newest entry, the mark is the last mover's, and no square is accepted |
| `Engine.NextPlayerHasMove` | src/index.js:190-194 | under a "Next player" status some square of the cursor board is accepted |
| `Engine.DrawAtEndMeansFullBoard` | src/index.js:190-191 | with the cursor on the newest entry, "Draw" holds exactly when the board is full and has no winner |
| `Engine.DrawIgnoresCursor` | src/index.js:158-191 | with ten entries, every earlier cursor position shows "Draw" although a square of that board is accepted |
| `Engine.Game.constructor` | src/index.js:100-109 | a new game has one empty board, cursor 0, X to move, ascending order, and satisfies the invariant |
| `Engine.Game.Current` | src/index.js:158-159 | the board under the cursor has nine squares |
| `Engine.Game.Status` | src/index.js:186-194 | a "Winner" status names the player who moved last, on the newest entry; a "Next player" status leaves some square playable |
| `Engine.Game.ToggleOrder` | src/index.js:114-118 | flips `isAscending` and leaves history, cursor and turn flag unchanged |
| `Engine.Game.Restart` | src/index.js:120-128 | whatever the state, back to one empty board, cursor 0, X to move, ascending order |
| `Engine.Game.HandleClick` | src/index.js:132-148 | a click on a won board or a taken square changes nothing; otherwise the history is cut after the cursor and one entry is appended holding the cursor board with the mover's mark at square i and recording move i, the cursor moves onto it and the turn flips; the invariant is kept |
| `Engine.Game.JumpTo` | src/index.js:150-155 | sets the cursor to the step and the turn from its parity, keeps the whole history, and the current board becomes that entry's |
| `Scenarios.TopRowWin` | src/index.js:132-148 | moves 0, 4, 1, 3, 2 give "Winner: X" with triple 0, 1, 2 |
| `Scenarios.DrawThenJumpBack` | src/index.js:186-194 | moves 0, 1, 2, 4, 3, 5, 7, 6, 8 give "Draw", and after jumping to step 0 the empty board still shows "Draw" |
| `Scenarios.BranchAfterJump` | src/index.js:133-145 | two moves, a jump to the start and a move at square 8 leave a history of two entries ending with X at square 8 |

## Left out

- The presentation components `Restart`, `ToggleButton`, `Square` and `Board`
  (src/index.js:5-97): they render markup and forward clicks.
- The move list built in `Game.render` (descriptions, bold current step,
  reversal when descending) and the highlighting of the winning squares:
  display only. `isAscending` is modelled as state but nothing in the model
  reads it.
- `ReactDOM.render`, the CSS import and the `console.log` in `restart`: I/O
  and framework glue.
- `setState`'s asynchronous merge: every method is a synchronous update of
  the fields it names.
- Out-of-range arguments to `jumpTo` and `handleClick`, which the code does
  not guard against (in JavaScript they would read `undefined` and corrupt
  the state): excluded by preconditions.
