# Five-in-a-row drop game — a Dafny model

This project models the game logic of `connectFive.js`: a drop game played on a square grid
(5 by 5 in the game, `boardSize` on line 1) in which X and O take turns dropping a mark into a
column, the mark lands on the lowest empty square of that column, and the first run of five equal
marks in a row, column or diagonal wins. The game keeps the boards of the current line of play
(`history`) and a cursor (`currentMove`), so a player can jump back to an earlier position and play
on from there; a move made after jumping back discards the later boards.

The model is functional: a board is an immutable `seq<Cell>` read row by row (square (row, col) at
index `row * n + col`), every operation is a pure function, and the game state is a
`Game(history, currentMove)` value that each update returns anew.

Modules, one per part of the game:

- `Wrappers` (wrappers.dfy): `Option` and `Result`.
- `Board` (board.dfy): `Cell = Empty | X | O`, the board, `createBoard`, square access, counting marks.
- `Lines` (lines.dfy): the lines `calculateWinner` lists, in its order, and what they are on the grid.
- `Winner` (winner.dfy): the winner scan and its soundness and completeness against a geometric
  definition of "five in a row".
- `Move` (move.dfy): the pure part of `handleClick`, which picks the column, finds the landing square
  by gravity and refuses the move on a full column or a won board.
- `Game` (game.dfy): the history and cursor updates of `handleClick`, `jumpTo` and `resetGame`, and
  the invariants of every state the game can reach.

The grid width is a parameter `n` of every operation. The game itself always uses `n = BoardSize = 5`.
Proving the properties for every `n` also proves them for the game's grid. The win length stays 5, as
the game hard-codes it.

Conventions:

- JavaScript's `null` square is `Empty`. A read outside the array (`undefined`) also acts as an empty
  square (`CellOf`). "Truthy" in the game means `!= Empty` here.
- `calculateWinner` returns `Empty` where the game returns `null`.
- Clicked indices are natural numbers, so Dafny's `%` agrees with JavaScript's `%` on them.

## Model

| member | source | states |
|---|---|---|
| Board.CreateBoard | connectFive.js:3-6 | the new board has exactly n*n squares and none of them is marked |
| Board.Placed | connectFive.js:86-87 | the copy has the given mark at (row, col); every other square of the grid is unchanged; the size is unchanged |
| Board.MarkingOccupies | connectFive.js:86-87 | putting a mark on an empty square raises the number of marked squares by exactly one |
| Lines.LineAtIsRun | connectFive.js:33-40 | each listed line is five consecutive squares in its direction; the down-left line starts at column n-1-j and steps one row down and one column left |
| Lines.ListedIffFits | connectFive.js:32-38 | the loop guards admit a line exactly when all five of its squares lie on the grid |
| Lines.AllLinesMembers | connectFive.js:29-43 | a line is in the list exactly when some loop position and direction passes its guard and pushes it |
| Lines.AllLinesAreRuns | connectFive.js:29-43 | the list holds exactly the runs of five that lie on the grid, in the four directions, in both directions of the iff |
| Lines.AllLinesOnBoard | connectFive.js:29-43 | every listed line has five indices, each in [0, n*n) |
| Winner.FirstWinner | connectFive.js:44-50 | the result is non-empty exactly when some line wins; it is then the mark of the first winning line, and no earlier line wins |
| Winner.CalculateWinner | connectFive.js:28-51 | the result is non-empty exactly when some listed line has five equal marks; it is then the mark of such a line |
| Winner.WinnerSound | connectFive.js:44-48 | a reported winner owns five squares in a row lying on the grid |
| Winner.WinnerComplete | connectFive.js:44-50 | any five equal marks in a row on the grid make the result non-empty |
| Winner.NoWinnerIffNoFive | connectFive.js:44-50 | the result is empty exactly when no player has five in a row anywhere on the grid |
| Winner.SoleOwnerWins | connectFive.js:44-48 | when all five-in-a-rows on a board belong to one player, that player is the result, whatever the scan order |
| Winner.NoFiveOnEmptyBoard | connectFive.js:3-6 | a board without marks has no five-in-a-row |
| Winner.NewFiveThroughMark | connectFive.js:46 | a line that wins only after one square is marked passes through that square and belongs to the mark written there |
| Move.LowestEmptyRow | connectFive.js:70-78 | scanning up from a row, the row found is empty and all rows between it and the start are marked; with no row found, every row scanned is marked |
| Move.ColumnOf | connectFive.js:68 | the column of a clicked square is a column of the grid |
| Move.Drop | connectFive.js:66-87 | the move fails with ColumnFull exactly when the column is full; it fails with GameAlreadyWon exactly when the column has room but the board has a winner; otherwise the board gets the mark at the column's landing row |
| Move.DropTargetUnique | connectFive.js:70-78 | a column has at most one landing row |
| Move.DropTargetIffNotFull | connectFive.js:70-83 | a column has a landing row exactly when it is not full |
| Move.DropChangesOneSquare | connectFive.js:86-87 | a successful drop changes exactly one index, the landing square, which gets the mark, so one more square is marked |
| Move.DropKeepsSettled | connectFive.js:70-87 | if no mark floated above an empty square before the drop, none does after it |
| Game.MarkFor | connectFive.js:63-87 | move number k places X when k is even and O when it is odd, never an empty square; `NextMark` is the mark for the cursor's move number |
| Game.CurrentSquares | connectFive.js:64 | the snapshot at the cursor is a full board |
| Game.NewGame | connectFive.js:54-55 | the game starts with one snapshot with no marks and the cursor on it, a reachable state |
| Game.Commit | connectFive.js:88-90 | snapshots 0..cursor are kept, later ones are dropped, the new board is appended and the cursor is on it, so the length is the old cursor + 2 |
| Game.HandleClick | connectFive.js:66-93 | the state is unchanged exactly when the column is full or the current board has a winner; otherwise the history is cut after the cursor and extended by the current board with the next mark at the column's landing row, and the cursor moves onto it |
| Game.JumpTo | connectFive.js:95-98 | only the cursor moves, to m; the history is unchanged and a reachable state stays reachable |
| Game.ResetGame | connectFive.js:100-102 | whatever the state was, the result has one snapshot with no marks and the cursor at 0, a reachable state |
| Game.HandleClickKeepsValid | connectFive.js:66-90 | a click keeps the state reachable: the first snapshot is empty, each snapshot is a legal move from the previous one, and no mark floats |
| Game.HandleClickMarksOneSquare | connectFive.js:86-87 | a click that changes the state marks exactly one more square on the shown board |
| Game.WonGameIgnoresClicks | connectFive.js:80-83 | once the shown board has a winner, every click leaves the state unchanged |
| Game.JumpBackRestores | connectFive.js:88-98 | after a click, jumping back to the old cursor shows the old board, and the same player is to move |
| Game.ClickAfterJumpDiscardsFuture | connectFive.js:88-98 | a click after jumping back to m either changes nothing in the history or keeps snapshots 0..m and drops all later ones |
| Game.SnapshotCounts | connectFive.js:63-90 | in a reachable state snapshot k has k marks: (k+1)/2 X marks and k/2 O marks |
| Game.NextMarkFromBoard | connectFive.js:63 | in a reachable state X is to move exactly when the shown board has as many X marks as O marks |
| Game.HistoryBounded | connectFive.js:80-90 | a reachable history has at most n*n + 1 snapshots |
| Game.GameHistoryBounded | connectFive.js:1-90 | on the game's 5-by-5 grid a reachable history holds at most 26 snapshots |
| Winner.FiveKeptOrThroughMark | connectFive.js:46-87 | a five-in-a-row after one square is marked was already there before, or passes through that square |
| Game.WinnerIsOwner | connectFive.js:44-48 | in a reachable state at most one player has five in a row on any snapshot, and the winner reported is the owner of any five-in-a-row |

## Left out

- Rendering: `renderSquare`, `renderBoard`, the status line and the move list of `render`, and the
  DOM lookups and event listeners in `Game` and `resetGame` (connectFive.js:8-26, 56-61, 103-129).
  These build browser elements and hold no game logic. The move-list buttons only call `jumpTo`
  with indices of existing snapshots. `JumpTo` takes that as its precondition.
- `WebGL/webgl-demo.js`: it only sets a clear colour through the browser's graphics API.
- The mutable closure variables `history` and `currentMove` become an explicit `Game` value that
  every update takes and returns.
- Error kinds: the game has a single silent early return for "column full or already won". `Drop`
  names the two causes (`ColumnFull`, `GameAlreadyWon`), and `HandleClick` turns both back into
  "state unchanged". The column test comes first, as the `||` on line 81 evaluates it first.
- `LowestEmptyRow` returns the landing row. The game keeps the landing square's index, `row * n + col`,
  in a variable named `lowestAvailableRow`. `Drop` applies the same index through `Placed`.
- Board access errors and an error for an out-of-range jump are not modelled, because the game has
  none: reads outside the array behave as empty squares, and `jumpTo` does no bounds check.
- Placing a mark on an occupied square is not an error case. The game only ever writes the
  landing square of a column, which `DropTarget` shows is empty.
- A win length other than 5 is not modelled, because the game hard-codes five squares per line.
