# Tic-tac-toe minimax engine: a Dafny model

This project models the engine of a console tic-tac-toe game in which the
computer (X, cell value 1) plays the human (O, cell value -1) with an
exhaustive minimax search. The engine exists twice, in `src/Game.java` and in
a JavaScript port `src/Game.js`. The Java version is the reference. The port
is modelled where it departs from the Java code.

- `board.dfy` (module `Board`) holds the 3x3 grid. It is nine ints in
  row-major order, with cell (r, c) at index 3r + c. The module defines
  `placeMove` as `Board.PlaceMove`, `getAvailableMoves` as
  `Board.AvailableMoves`, `xHasWon`/`oHasWon` as `Board.HasWon` (one win test
  parameterised by the mark), and `gameIsOver` as `Board.GameIsOver`.
  - `Board.PlaceMove` is proved to write exactly one cell
    (`Board.PlaceMoveWritesOneCell`), and resetting that cell undoes it
    (`Board.PlaceThenUndo`).
  - The other three are proved against independent references: the set of
    empty cells and their count, "three in a line", and "no empty cell".

  The module also proves that alternating legal play never gives both sides a
  line.
- `search.dfy` (module `Search`) holds `minimax`, `getBestMove` and
  `callMinimax`.
  - `minimax` is a pure recursive function, `Search.Minimax`, with its loop
    over the available moves as `Search.Trials`. It returns its value together
    with the root nodes it appends to the shared node list.
  - `getBestMove` is `Search.BestMove` (and the loop `Search.GetBestMove`), and
    `callMinimax` is `Search.CallMinimax`.
  - `minimax` is proved to equal the maximum or minimum of its children's
    values.
  - Its root nodes are proved to carry the running extremum.
  - `getBestMove` is proved to take the first node of largest value.
  - The computer's whole turn is proved to take the first available move of
    best value.
- `inplace.dfy` (module `InPlace`) holds the search as the source runs it: on
  one mutable grid, placing and resetting a mark on each trial. It is proved
  to restore the grid and to compute exactly `Search.Minimax`.
- `jsport.dfy` (module `JsPort`) holds the port's departures:
  - the column test that reads `cells[2][1]`, inside the port's win test
    `JsPort.ThereIsAWin` and its `gameIsOver`, `JsPort.JsGameIsOver`;
  - the splice-in-a-forward-loop clearing of the move and node lists
    (`JsPort.SpliceLoop`), which keeps the entries at odd positions, and the
    resulting `getAvailableMoves` (`JsPort.JsGetAvailableMoves`) and node list
    after `callMinimax` (`JsPort.JsCallMinimaxNodes`);
  - the `Number.MIN_VALUE` sentinel, both where the root maximiser starts its
    running maximum (`JsPort.JsRootNodes`) and where `getBestMove` starts its
    scan (`JsPort.JsGetBestMove`).

  JavaScript numbers are modelled as exact reals. This loses nothing, because
  the port applies only `Math.max`, `Math.min` and `<` to them.

  The port's `placeMove` and its row and diagonal tests are the same as the
  Java ones and are not repeated.
- `scenarios.dfy` (module `Scenarios`) holds concrete positions and what the
  search gives on them.

Behaviour of the code that the model keeps as written:

- **Draw before win.** `minimax` tests "no available move" before it tests
  for a win (`src/Game.java:103-111`). A full board that holds a line therefore
  scores 0 (`Scenarios.FullBoardWithLineScoresDraw`). With the win tests placed
  first it would score 1 for the side holding the line.
- **Running extremum.** At depth 0 each root node records the running maximum
  (or minimum) of the values seen so far, not the child's own value
  (`src/Game.java:117-119`, `128-130`).
  `Search.FirstArgMaxOfRunningMax` shows this does not change the move that
  `getBestMove` picks.
- **Strict comparison.** `getBestMove` compares with a strict `<`, so ties go
  to the earliest node in row-major order.
- **No preference for a faster win.** The search scores every win 1, however
  many plies away it is. On O O . / X X . / . . . with X to move, it takes
  (0, 2), which blocks O and threatens two lines, rather than completing the
  middle row at (1, 2). Both moves win (`Scenarios.BlockingMoveAlsoWins`).

## Model

| member | source | states |
|---|---|---|
| `Board.PlaceMoveWritesOneCell` | src/Game.java:48-50 | After placeMove the cell of m holds the mark and the other eight cells keep their contents. |
| `Board.PlaceThenUndo` | src/Game.java:115-121 | Marking an empty cell and then resetting it to 0 (one trial of the search) gives back the board it started from. |
| `Board.PlaceOnEmptyDecrements` | src/Game.java:113-116 | Marking an empty cell leaves exactly one fewer empty cell, so the recursion depth is bounded by the number of empty cells. |
| `Board.AvailableMovesSpec` | src/Game.java:52-64 | Every listed move is in range and names an empty cell. Every empty cell is listed. The moves are in strictly increasing row-major order, so none repeats. The length is the number of empty cells. |
| `Board.NoMovesIffFull` | src/Game.java:52-64 | The available list is empty if and only if no cell is empty. |
| `Board.FirstAvailable` | src/Game.java:56-62 | The first available move is the first empty cell in row-major order. |
| `Board.HasWonIffThreeInALine` | src/Game.java:66-94 | xHasWon (mark 1) and oHasWon (mark -1) hold exactly when the mark fills some row, some column or one of the two diagonals. |
| `Board.GameIsOverIff` | src/Game.java:96-98 | gameIsOver holds exactly when X has a line, O has a line or the board is full. |
| `Board.PlacingNeverHelpsOpponent` | src/Game.java:48-50 | Placing one mark never completes a line for the other side. |
| `Board.NeverTwoWinners` | src/Game.java:66-98 | If each move goes to an empty cell, marks alternate, and play stops once gameIsOver holds, xHasWon and oHasWon never hold together. |
| `Search.Minimax` | src/Game.java:100-135 | The value is always -1, 0 or 1, and calls below the root append no nodes. |
| `Search.MinimaxOnFinishedGame` | src/Game.java:103-111 | On a finished game nothing is appended. A full board scores 0 even if it holds a line. Otherwise an X line scores 1. Otherwise there is an O line and the score is -1. |
| `Search.MinimaxIsExtremeOfChildren` | src/Game.java:112-135 | On an open game the value is the maximum (maximiser) or minimum (minimiser) of the children's values, one child per available move with the mover's mark placed. |
| `Search.RootCallRecordsRunningExtreme` | src/Game.java:112-134 | A root call on an open game appends one node per available move, in row-major order. Node k carries the extremum of the first k+1 child values. |
| `Search.ValueIgnoresDepth` | src/Game.java:100-135 | The depth argument only controls node recording. The value is the same at every depth. |
| `Search.FirstArgMax` | src/Game.java:141-147 | The position returned holds the maximum, and every earlier position holds a strictly smaller value. |
| `Search.GetBestMove` | src/Game.java:138-149 | The scan with a strict `<` from Integer.MIN_VALUE returns the move of the first node of largest value. At least one node is required. |
| `Search.FirstArgMaxOfRunningMax` | src/Game.java:117-119 | The first maximum of the running maxima is at the same position as the first maximum of the values themselves. |
| `Search.CallMinimax` | src/Game.java:151-154 | The grid is unchanged. The node list holds only this search's nodes: none when the game is over or the depth is positive, otherwise one per available move, in order, each with an outcome value. |
| `Search.ComputerMove` | src/Game.java:138-154 | After callMinimax(0, true) and getBestMove, the move is available, its value is the board's minimax value, and no available move has a larger value. |
| `Search.ComputerMoveIsFirstBest` | src/Game.java:141-147 | Every available move before the chosen one has a strictly smaller value. |
| `Search.ComputerMoveIsFirstWith` | src/Game.java:138-154 | Conversely, the first available move of largest value is the one chosen, and its value is the board's minimax value. |
| `Search.RepeatedSearchPicksSameMove` | src/Game.java:151-154 | Because callMinimax clears the list first, searching again on the unchanged grid gives the same state and the same move. |
| `Search.ImmediateWinIsTaken` | src/Game.java:100-149 | Suppose X can complete a line without filling the board. Then the position is worth 1, and the chosen move is worth 1. |
| `Search.UniformChildren` | src/Game.java:112-135 | If every move leads to a position of value v, the position has value v. |
| `Search.CompletingMoveWins` | src/Game.java:106-108 | A move that completes an X line with a cell to spare has value 1. |
| `InPlace.MinimaxInPlace` | src/Game.java:100-135 | The search on one mutable grid leaves the grid exactly as it found it and returns what `Search.Minimax` returns. |
| `InPlace.TrialsInPlace` | src/Game.java:112-134 | The loop over the available moves restores the grid and returns the pure loop's value and nodes. |
| `InPlace.TrialInPlace` | src/Game.java:113-121 | One trial leaves the grid as it was. The new running extremum is the old one combined (max or min) with the i-th child's value. At the root the node (i-th move, new extremum) is appended; below the root nothing is. |
| `InPlace.SearchChild` | src/Game.java:114-121 | Marking the empty cell, searching one ply deeper and writing 0 back leaves the grid as it was and yields the minimax value of the marked board. |
| `JsPort.ThereIsAWinIff` | src/Game.js:94-107 | The port's win test holds exactly when v fills a row or a diagonal, or when some column is uniform and the bottom-middle cell holds v. |
| `JsPort.AgreesWithoutUniformColumn` | src/Game.js:109-115 | On a board with no uniform column the port's xHasWon and oHasWon agree with the Java ones. |
| `JsPort.LoneBottomMiddleMarkWins` | src/Game.js:99 | A board whose only mark is X in the bottom-middle cell is reported as a win for X, though X has no line. |
| `JsPort.LeftColumnWinMissed` | src/Game.js:99 | A board where X fills the left column and the bottom-middle cell is empty is not reported as a win. |
| `JsPort.SpliceLoopKeepsOddEntries` | src/Game.js:76-78 | Started just past a kept prefix p, the splice loop keeps p and the odd-positioned entries of the rest. |
| `JsPort.SpliceClear` | src/Game.js:75-79 | Clearing by splicing in a forward loop leaves the entries at odd positions, floor(n/2) of them. |
| `JsPort.JsGetAvailableMoves` | src/Game.js:74-88 | The port's list is the stale odd entries followed by the empty cells in row-major order. Its length is floor(n/2) plus the number of empty cells. |
| `JsPort.ShortStaleListVanishes` | src/Game.js:74-88 | With at most one stale entry the port's list is exactly the Java list. |
| `JsPort.JsGameIsOverIff` | src/Game.js:117-119 | The port's game is over on a win by its own test, or on a full board only while fewer than two entries are stale. |
| `JsPort.FullBoardNotOverWithStaleList` | src/Game.js:75-79 | On a full, drawn board with two stale entries the Java gameIsOver holds and the port's does not. |
| `JsPort.JsTerminalScore` | src/Game.js:129-137 | The port's early returns give an outcome value, and 0 on a full board whenever fewer than two entries are stale. |
| `JsPort.JsTerminalMatchesJava` | src/Game.js:129-137 | With a fresh list and no uniform column, the port's early return is the Java minimax value of the finished game. |
| `JsPort.JsGetBestMove` | src/Game.js:165-176 | The scan from Number.MIN_VALUE returns the move of the first node of largest value when some value exceeds Number.MIN_VALUE, and the move of the first node otherwise. At least one node is required. |
| `JsPort.JsPickIsFirstMax` | src/Game.js:166-174 | On lists whose values are all at least Number.MIN_VALUE, the kind the root search pushes, the port's pick is exactly the first node of largest value, as in Java. |
| `JsPort.JsPickUnique` | src/Game.js:168-174 | At most one position satisfies the port's pick. |
| `JsPort.JsRunningMax` | src/Game.js:139-146 | Entry k of the maximiser's fold is at least the start value and every one of the first k+1 child values, and is the start value or one of them, so it is their running maximum. |
| `JsPort.JsRootNodes` | src/Game.js:127-148 | The root maximiser pushes one node per move, in order, each valued at least Number.MIN_VALUE. |
| `JsPort.NoWinPicksFirstMove` | src/Game.js:127-148 | When no root child value exceeds Number.MIN_VALUE (losses and draws alike), every node records Number.MIN_VALUE and getBestMove takes the first move. |
| `JsPort.LossBeforeDrawPicksLoss` | src/Game.js:127-145 | With child values -1 then 0, the port plays the losing first move while the Java root plays the draw. |
| `JsPort.JsCallMinimaxNodes` | src/Game.js:183-188 | The port's callMinimax leaves the odd-positioned nodes of the previous search in front of the new search's nodes. |
| `JsPort.StaleNodeOutranksNewSearch` | src/Game.js:184-186 | A surviving winning node of an earlier search comes first and ties with the new search's winning move, so the port's getBestMove returns the old move (1, 1). On the new nodes alone it would return (0, 2). |
| `Scenarios.CompletesTopRow` | src/Game.java:100-149 | On X X . / O O . / . . . with X to move, the game is open, the value is 1 and the move is (0, 2). |
| `Scenarios.BlockingMoveAlsoWins` | src/Game.java:138-149 | On O O . / X X . / . . . both (0, 2) and (1, 2) are worth 1, and the computer takes (0, 2), the first in row-major order. |
| `Scenarios.DoubleThreatWins` | src/Game.java:123-135 | After X blocks at (0, 2), every O reply leaves X a line to complete, so the minimiser's value is 1. |
| `Scenarios.ReplyLosesTo` | src/Game.java:112-122 | On each position after O's reply, X to move has a winning completion with a cell to spare. |
| `Scenarios.FullBoardDraw` | src/Game.java:96-105 | X O X / X O O / O X X is over, neither side has a line, and it scores 0. |
| `Scenarios.FullBoardWithLineScoresDraw` | src/Game.java:103-108 | X X X / O O X / X O O holds an X line but scores 0, because the draw test comes first. |

## Left out

- Console rendering, input parsing and the game loop (`showBoard`, `showHint`, `startGame`, `main`) are left out. They are I/O: Scanner, readline, stdout, promises and sleep. Inside the loop, the computer's search (callMinimax(0, true) followed by getBestMove) is modelled as `Search.ComputerMove`, and the placement of the chosen move is `Board.PlaceMove` with mark X.
- The random opening move is left out. It is nondeterministic and lies outside the search.
- The static fields shared by the Java methods become explicit values: a board argument and the `Search.Game` record of grid and node list.
- Moves outside the grid are a precondition (`InRange`). In the Java code such a move throws an index exception (`src/Game.java:49`). In the port a row outside 0..2 throws a TypeError, and an in-range row with a column outside 0..2 adds an element or property to the row array (`src/Game.js:71`). Neither behaviour is modelled.
- `Search.GetBestMove` and `JsPort.JsGetBestMove` require at least one node. On an empty list the source's `nodes.get(0)` or `nodes[0].getMove()` fails. The Java version also requires node values of at least Integer.MIN_VALUE, which holds for the outcome values -1, 0 and 1.
- Java's 32-bit `Integer` arithmetic is not modelled. Every value the search computes lies in {-1, 0, 1}, and Integer.MIN_VALUE / MAX_VALUE appear only as sentinels.
- The port's `minimax` recursion (`src/Game.js:138-162`) is modelled only at its early returns and at the root maximiser's fold, given the children's values (`JsPort.JsRootNodes`). Those values are not computed. Below the root the maximiser starts from `Number.MIN_VALUE` and the minimiser from `Number.MAX_VALUE`. The loop also runs over the stale-prefixed move list. A stale entry that names an occupied cell is overwritten by the trial's mark and then reset to 0 (`src/Game.js:141`, `147`), so the port's search can erase a mark already on the board. This erasure is not modelled.
- The value of the empty board and the move chosen on it are not proved. It would take reasoning over the whole game tree.

## Findings

| source | as written | input that shows it | evidently intended | confidence | as-written member | corrected member |
|---|---|---|---|---|---|---|
| src/Game.js:99 | The column test compares `cells[2][1]` with v, whatever the column. | X alone in the bottom-middle cell is a win for X. X filling the left column with the bottom-middle cell empty is not a win. | Compare `cells[2][i]`, as `src/Game.java:71` does. | not executed | `JsPort.LoneBottomMiddleMarkWins` | `Board.HasWonIffThreeInALine` |
| src/Game.js:75-79 | `splice(i, 1)` in a forward loop removes only every other entry of the available list. | A full, drawn board with two stale entries left in the list: that call of gameIsOver returns false. The next call, with one stale entry left, returns true. | Empty the list, as `src/Game.java:53-55` does. | not executed | `JsPort.FullBoardNotOverWithStaleList` | `Board.AvailableMovesSpec` |
| src/Game.js:184-186 | The same loop leaves half of the previous search's nodes in the list. | Previous nodes (0,0):MIN_VALUE and (1,1):1, new nodes (0,1):MIN_VALUE and (0,2):1. The move returned is (1,1), which is not among the new moves. | Clear the node list, as `src/Game.java:152` does. | not executed | `JsPort.StaleNodeOutranksNewSearch` | `Search.CallMinimax` |
| src/Game.js:127 | The root maximiser's running maximum starts at `Number.MIN_VALUE`, the smallest positive double. `Math.max` at line 143 then lifts a loss (-1) and a draw (0) alike to it. | Root moves whose children score -1 then 0: both nodes record MIN_VALUE, and getBestMove takes the first, losing move. | Start below every value, as Integer.MIN_VALUE does at `src/Game.java:101`. | not executed | `JsPort.LossBeforeDrawPicksLoss` | `Search.FirstArgMaxOfRunningMax` |
