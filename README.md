# Tic-tac-toe board and minimax engine, modelled in Dafny

This project models the core of a console tic-tac-toe game written in Java:

- the 3×3 `Board`, a grid of characters in which `' '` marks an empty cell;
- the `MinMaxAI` player, which searches the whole game tree with minimax
  and then commits one move.

The search works on the shared board. It places a mark, recurses and takes
the mark back. Scores depend on depth: a win at depth `d` scores `10 - d`,
a loss scores `-10 + d` and a draw scores `0`. The top level commits the
first cell, in row-major order, with the strictly greatest score.

## Layout

- `grid.dfy`, module `Grid`: the grid as a value (`seq<seq<char>>`). It
  defines `Place`, the empty-cell count, `Full`, the eight lines in scan
  order, `Won`, `HasWin` and `Winner`, with lemmas about them.
- `board.dfy`, module `Boards`: class `Board` over a `const cells:
  array2<char>`. The constructor and `PlaceMove`/`RestoreMove` write the
  array in place. `IsFull`, `CheckWin` and `GetWinner` are loops with early
  returns. Each operation is tied to module `Grid` through the ghost
  function `Contents()`.
- `search.dfy`, module `Search`: minimax as ghost functions. `Score` models
  `evaluate` and `Terminal` models `isFinalCondition`. `Minimax`/`Scan`
  follow `minMax`'s nested loops cell by cell. `BestMove`/`BestFrom` follow
  `play`'s loop and its strict `>` comparison. Lemmas state what these
  compute.
- `players.dfy`, module `Players`: class `MinMaxAI` with the constant
  `symbol`. Its methods `Evaluate`, `IsFinalCondition`, `MinMax` and `Play`
  work on a `Board`. `MinMax` and `Play` are proved to leave the board as
  the functions of module `Search` say. Their loops carry invariants of the
  form "fold of the cells still to scan, applied to the running best, equals
  the total".
- `scenarios.dfy`, module `Scenarios`: two worked boards, a top row
  `[a, a, empty]` and a filled board with no line. The top-row case is
  also played on a real `Board` through `PlaceMove` and `MinMaxAI.Play`.

`Board.java` as given does not define `restoreMove` or `getWinner`, but
`MinMaxAI.java` and `Game.java` call them. This model infers them from how
they are used:

- `RestoreMove(r, c)` writes `' '` back into the cell.
- `GetWinner()` scans rows, then columns, then the main diagonal, then the
  anti-diagonal, in the same order and with the same tests as `checkWin`.
  It returns the mark of the first complete line, or `'\0'` (`NoMark`) when
  there is none.

`Player.java` only holds an immutable symbol. It is folded into `MinMaxAI`
as the constant field `symbol`. `getOpponentSymbol` is the function
`Search.Opponent`, applied to that symbol.

The model follows the Java code where it accepts more than a defensive
design would:

- `placeMove` does not check that the cell is empty. `PlaceMove` therefore
  requires only that the cell is on the board.
- Restoring an already-empty cell is not refused either: it writes `' '`.

## Model

| member | source | states |
|---|---|---|
| `Boards.Board.constructor` | src/game/Board.java:16-23 | the new board's grid equals `EmptyGrid()`: all nine cells are `' '` |
| `Boards.Board.IsInBounds` | src/game/Board.java:43-45 | true iff the coordinates index the 3×3 array: `0 <= row < Length0` and `0 <= col < Length1` |
| `Boards.Board.IsOccupied` | src/game/Board.java:32-34 | true iff cell (row, col) is not `' '`; it requires the coordinates to be on the board, because the source indexes the array directly |
| `Boards.Board.IsValid` | src/game/Board.java:54-56 | true iff the cell is on the board and empty; defined on any coordinates (false off the board), because the bounds test comes first |
| `Boards.Board.PlaceMove` | src/game/Board.java:65-67 | the new grid is `Place(old grid, row, col, symbol)`: that cell holds the symbol, and no other cell changes |
| `Grid.Place` | src/game/Board.java:65-67 | the result is well formed, holds `m` at (row, col), and agrees with the input on every other cell |
| `Boards.Board.RestoreMove` | src/game/player/MinMaxAI.java:81 | (inferred) the new grid is the old one with (row, col) set back to `' '`, and no other cell changes |
| `Grid.RestoreUndoesPlace` | src/game/player/MinMaxAI.java:77-81 | placing any mark on an empty cell and then restoring that cell gives back the original grid |
| `Boards.Board.IsFull` | src/game/Board.java:86-95 | true iff no cell of the grid is `' '` (`Full(Contents())`) |
| `Grid.CountEmpty` | src/game/Board.java:86-95 | the empty count of a row is at most its length, and it is zero iff no entry is `' '` |
| `Grid.FullIffNoEmptyCell` | src/game/Board.java:86-95 | a grid is full iff its count of empty cells is 0; neither depends on a winner |
| `Boards.Board.CheckWin` | src/game/Board.java:102-124 | true iff some row, column, the main diagonal or the anti-diagonal holds three equal marks other than `' '` |
| `Grid.LineAt` | src/game/Board.java:102-124 | every cell of each of the eight lines `checkWin` tests lies on the board |
| `Boards.Board.GetWinner` | src/game/Board.java:104-123 | (inferred, mirroring `checkWin`) returns `Winner(Contents())`: the mark of the first complete line in scan order, or `'\0'` |
| `Grid.WinnerIsFirstWonLine` | src/game/Board.java:104-123 | when line j is complete and no earlier line in scan order is, the winner is line j's mark (rows before columns before diagonals) |
| `Grid.WinnerOnlyFromWonLine` | src/game/Board.java:102-124 | a winner other than `'\0'` is the mark of some complete line; with no complete line, the winner is `'\0'` |
| `Grid.WinnerIffHasWin` | src/game/Board.java:102-124 | on a board where no cell holds `'\0'`, `getWinner() != '\0'` iff `checkWin()` |
| `Search.Opponent` | src/game/player/MinMaxAI.java:53-55 | the opponent's symbol differs from the engine's, is `'X'` or `'O'`, and is `'O'` exactly when the engine holds `'X'` (so `'X'` for every other symbol) |
| `Players.MinMaxAI.constructor` | src/game/player/MinMaxAI.java:15-17 | the engine keeps the symbol it is given |
| `Players.MinMaxAI.Evaluate` | src/game/player/MinMaxAI.java:27-35 | returns `Score(grid, depth, symbol)`: `10 - depth` if the winner is the engine's symbol, `-10 + depth` for any other mark other than `'\0'`, else `0` |
| `Search.ScoreSign` | src/game/player/MinMaxAI.java:27-35 | for depth below 10: the score is positive iff the engine won, negative iff another mark won, and zero iff nobody won |
| `Players.MinMaxAI.IsFinalCondition` | src/game/player/MinMaxAI.java:43-46 | true iff the board is full or `getWinner()` is not `'\0'` (`Terminal`) |
| `Search.NonTerminalHasMove` | src/game/player/MinMaxAI.java:43-46 | a board that is not final has at least one empty cell, so the search loop always finds a move |
| `Grid.PlaceDecreasesEmptyCount` | src/game/player/MinMaxAI.java:76-79 | placing a mark on an empty cell lowers the empty-cell count by exactly one; this count is the termination measure of `minMax` |
| `Players.MinMaxAI.MinMax` | src/game/player/MinMaxAI.java:66-93 | returns the minimax value `Minimax(grid, depth, isMaximizing, symbol)` of the grid on entry, and the board is left exactly as it was on entry |
| `Search.ScanFacts` | src/game/player/MinMaxAI.java:71-92 | the loop's fold bounds the running best and the value of every remaining empty cell from above (maximizing) or below (minimizing), and equals one of them |
| `Search.MinimaxExtremum` | src/game/player/MinMaxAI.java:66-93 | on a board that is not final, the value is the maximum (maximizing) or minimum (minimizing) of the values of the moves on the empty cells, and one move attains it |
| `Search.MinimaxBounds` | src/game/player/MinMaxAI.java:66-93 | with `0 <= depth` and depth plus empty cells at most 9, the value lies in `[depth - 10, 10 - depth]`, and in `[depth - 9, 9 - depth]` while the game goes on; the `Integer` extremes are never returned |
| `Search.MoveScoreBounds` | src/game/player/MinMaxAI.java:112-114 | a candidate move scores in `[-10, 10]`, and at most 9 unless it ends the game |
| `Search.BestStep` | src/game/player/MinMaxAI.java:116-120 | one step of `play`'s scan keeps the running candidate the first best empty cell among those scanned |
| `Search.BestFromFacts` | src/game/player/MinMaxAI.java:109-123 | scanning the rest of the board from a correct running candidate gives the first best empty cell of the whole board |
| `Search.BestMoveSpec` | src/game/player/MinMaxAI.java:102-125 | if the board has an empty cell, the chosen cell is empty and has the greatest score, and every empty cell before it in row-major order scores strictly less |
| `Players.MinMaxAI.Play` | src/game/player/MinMaxAI.java:102-126 | on a board with an empty cell, the new grid is the old one with the engine's symbol on the cell `BestMove` picks; that cell was empty and it is the only cell that changes |
| `Search.ImmediateWinScoresTen` | src/game/player/MinMaxAI.java:29-30 | a candidate move scores 10 iff it completes a line for the engine at once |
| `Search.ImmediateWinIsTaken` | src/game/player/MinMaxAI.java:113-119 | if some empty cell wins at once for the engine, the committed cell wins at once too |
| `Scenarios.CompletesTopRow` | src/game/player/MinMaxAI.java:102-126 | with row 0 = `[a, a, ' ']` and the rest empty, the engine holding `a` picks (0, 2), and `a` has won after that move |
| `Scenarios.PlayTopRow` | src/game/player/MinMaxAI.java:102-126 | on a new board after `placeMove(0,0,a)` and `placeMove(0,1,a)`, the engine holding `a` plays and afterwards cells (0,0), (0,1), (0,2) hold `a` and `getWinner()` is `a` |
| `Scenarios.DrawnBoardIsATie` | src/game/Board.java:86-95 | a filled board with no complete line is full, its winner is `'\0'`, it is final, and it scores 0 |

## Left out

- `Board.printBoard`, and the two console messages inside `play`: output only.
- `Console.java`, `Main.java`, `HumanPlayer.java`: console input and the menu.
- `RandomAIPlayer.java`: it samples with a time-seeded `Random` and may not
  terminate.
- `Game.java`: the turn loop, its time-seeded coin flip, and the
  interactive players. The model does not capture that the loop asks
  `getWinner` before `isFull` after each move.
- `Player.java`: folded into `MinMaxAI` as the constant `symbol`.
- The engine's symbol has type `Mark`, which excludes `' '`. The Java
  constructor takes any `char`, but `Player.java` documents the symbol as
  `'X'` or `'O'` (src/game/player/Player.java:10, :16), and `Game.java`
  only builds `MinMaxAI('O')` (src/game/Game.java:29). With `' '` the
  engine's own placements would write nothing, so the empty-cell count,
  the termination measure used here, would not drop on its plies.
- Index errors are modelled as preconditions. This covers `placeMove` or
  `isOccupied` off the board, and `play` on a full board (there `bestRow`
  and `bestCol` stay `-1`). These calls would throw
  `ArrayIndexOutOfBoundsException` in Java.
- `Integer.MIN_VALUE` and `Integer.MAX_VALUE` are kept as constants on
  unbounded `int`. Depth is at most 9 and scores stay within `[-10, 10]`,
  so no 32-bit overflow can happen.
- Java's `char[][]` is an array of row arrays that could in principle alias
  each other. The model uses one `array2<char>`, so rows cannot alias.
- The claim that two optimal engines playing from an empty board always
  draw is not proved. It needs the value of the whole game tree, which is
  beyond what the verifier can unfold.
- Determinism of the engine's choice is not a separate lemma. It follows
  from `Play`'s postcondition, which fixes the new grid as a function of the
  old grid and the symbol.
- Grid.WinnerIffHasWin: stated only for boards with no `'\0'` cell. On a
  board whose complete line is made of `'\0'` marks, `checkWin` answers true
  but `getWinner` answers `'\0'`.
