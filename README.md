# Tic Tac Toe player: board model and alpha-beta search

A Dafny model of `tictactoe.py`, a Tic Tac Toe player that computes optimal
moves. It has two layers.

* **Board model** (`game.dfy`, module `Game`). A board is a value: three
  rows of three cells. Each cell is `Empty` or holds the mark of `X` or `O`.
  The module has these queries:
  * `InitialState` gives the empty board.
  * `Player` says whose turn it is. It has the shortcut for the initial
    board, then counts the marks.
  * `Actions` gives the set of empty cells.
  * `Result` applies a move. It refuses a move that is off the board or on
    an occupied cell.
  * `Winner` scans rows, columns and diagonals, X before O.
  * `Terminal` and `Utility` are the end-of-game test and its score.

  Each loop of the source is a method proved against a specification
  function: `Player` against `Turn`, `Actions` against `EmptyCells`,
  `Winner` against `WinnerOf`/`HasLine`, and `Terminal` against
  `IsTerminal`. Lemmas then prove what the source promises about those
  functions.
* **Search engine** (`search.dfy`, module `Search`). `MaxValue` and
  `MinValue` are the two mutually recursive alpha-beta procedures nested in
  `minimax`. `Minimax` calls them with the full window. Both procedures are
  proved against `Value`, the plain minimax value with no pruning. That
  value is defined over the set of children, so it does not depend on the
  order in which moves are tried. The contract proved is the fail-soft
  alpha-beta bound: a result inside the window is exact. With the full
  window the result equals `Value`. The move `Minimax` returns is legal and
  leads to a child worth as much as the board, so no legal move is better
  for the side to move. X maximises and O minimises.

Recursion ends because each move fills one empty cell. `Count(b, Empty)`
is the `decreases` measure.

## Model

| member | source | states |
|---|---|---|
| `Game.InitialState` | tictactoe.py:13-19 | every cell of the starting board is empty |
| `Game.InitialCounts` | tictactoe.py:26-27 | the initial board has nine empty cells and no marks, and the counting rule gives X, so the `board == initial_state()` shortcut agrees with counting |
| `Game.Player` | tictactoe.py:22-41 | the scan returns O exactly when X has more marks than O, and X otherwise; on a board reached by legal play it returns X exactly when the counts are equal |
| `Game.CountPartition` | tictactoe.py:32-38 | every cell is empty, X or O, so the three counts add up to nine |
| `Game.Actions` | tictactoe.py:45-56 | the loop collects exactly the set of coordinates of the empty cells |
| `Game.EmptyCellsSpec` | tictactoe.py:45-56 | a pair is a legal move iff it lies in 0..2 on both axes and names an empty cell; there are as many legal moves as empty cells, that is nine less the marks |
| `Game.InitialActions` | tictactoe.py:45-56 | the initial board has nine legal moves |
| `Game.Result` | tictactoe.py:63-66 | a move is refused exactly when a coordinate lies outside 0..2 or the target cell is not empty |
| `Game.ResultFrame` | tictactoe.py:63-69 | a move succeeds exactly on a legal move, and the new board equals the old one everywhere except the target cell, which holds the mark of the player to move |
| `Game.ResultCells` | tictactoe.py:67-69 | a move takes its cell out of the empty cells and adds it to the mover's cells; the other player's cells do not change |
| `Game.ResultAlternates` | tictactoe.py:39-41 | a legal move uses up one empty cell, adds one mark of the mover, keeps "X count minus O count is 0 or 1", and passes the turn to the other player |
| `Game.Child` | tictactoe.py:67-69 | the board after a legal move has one empty cell fewer, which is the measure that ends the search |
| `Game.Winner` | tictactoe.py:71-93 | the scan returns X iff X has a complete row, column or diagonal; O iff O has one and X has none; None iff neither has one |
| `Game.Terminal` | tictactoe.py:97-109 | the winner test and then the count of empty cells give true exactly when somebody has won or no cell is empty |
| `Game.TerminalIffNoMoves` | tictactoe.py:97-109 | the game is over exactly when there is a winner or no legal move is left |
| `Game.Utility` | tictactoe.py:112-122 | the utility is 1 iff X has a line, -1 iff O has a line and X has none, 0 iff nobody has a line, so it lies in -1..1 |
| `Game.FullBoardDraw` | tictactoe.py:97-122 | every full board on which neither player has a complete line is terminal, has no winner, has no legal move, and scores 0 |
| `Game.FullBoardDrawExample` | tictactoe.py:97-122 | the full board X O X / X O O / O X X has no complete line, so it is a terminal draw with utility 0 |
| `Search.Value` | tictactoe.py:132-170 | the unpruned minimax value: the utility of a finished game, otherwise the best child value for the side at the node (maximiser or minimiser); it lies in -1..1 |
| `Search.ValueOfMoves` | tictactoe.py:138-170 | the value of a board in play is at least as good as every child's value for the side to move, and some legal move attains it |
| `Search.CutOff` | tictactoe.py:144-145 | a child value at least as good as `v` bounds the node's value by `v`, which justifies the `break` |
| `Search.Exhausted` | tictactoe.py:158-170 | a best-so-far at least as good as every child's value bounds the node's value |
| `Search.MaxValue` | tictactoe.py:152-170 | a finished board gives (None, utility); otherwise a legal move and a value in -1..1 that is exact inside (alpha, beta), an upper bound at or below alpha, and a lower bound at or above beta; the full window gives the unpruned value; inside the window the returned move's child has that value |
| `Search.MinValue` | tictactoe.py:132-150 | the dual of MaxValue for the minimising side, with the same fail-soft bounds and the same full-window equality |
| `Search.Minimax` | tictactoe.py:124-177 | None iff the board is terminal; otherwise a legal move whose child is worth the board's minimax value, X maximising and O minimising, so no legal move is better |
| `Search.ImmediateWin` | tictactoe.py:158-162 | a legal move that completes a line for the side to move makes the board worth that win |

## Left out

- The `math.inf` and `-math.inf` bounds are floats used only as bounds. Here they are the integers `PosInf = 2` and `NegInf = -2`, outside every utility.
- `copy.deepcopy`: boards are immutable values, so a move builds a new board. Aliasing and in-place update of the copy are not modelled.
- The `Exception("Move not allowed")` of `result` is the `MoveNotAllowed` variant of `MoveResult`. The search only makes legal moves, through `Child`.
- The iteration order of the Python set of actions is not fixed. `MaxValue` and `MinValue` take the next move by an arbitrary choice, so every contract holds for every order.
- Search.Minimax: does not say which of several equally good moves is returned, because that depends on the set's iteration order; only legality and optimal value are stated.
- Search.MaxValue: requires `alpha < beta`. Every call in the source meets it: the root window is (-inf, inf), and a bound is only moved while the best value stays strictly inside the window.
- Search.MinValue: requires `alpha < beta`, for the same reason as MaxValue.
- Search.Value: is ghost, because it picks the best child value from a set. The executable search is `MaxValue`/`MinValue`.
- Boards that legal play cannot reach (O ahead of X, or X more than one mark ahead) are not rejected, as in the source. The search contracts hold for every board. Only the turn-alternation facts assume the count invariant (`Balanced`).
- `utility` is meant for finished boards, and `player` for boards reached by legal play. The code defines both on every board, and so does the model.
