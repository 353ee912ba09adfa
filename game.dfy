/** The board layer of the Tic Tac Toe player: a 3x3 grid of cells and the
    queries on it (whose turn it is, the legal moves, applying a move, the
    winner, the terminal test and the utility of a finished game). */
module Game {

  /** The two marks; X always moves first. */
  datatype Piece = X | O

  /** A cell is empty or carries the mark of one player. */
  datatype Cell = Empty | Mark(piece: Piece)

  datatype Option<T> = None | Some(value: T)

  /** Applying a move either yields the new board or is refused. */
  datatype MoveResult = Moved(board: Board) | MoveNotAllowed

  /** A move is a (row, column) pair; it may lie off the board. */
  type Move = (int, int)

  predicate IsGrid(g: seq<seq<Cell>>) {
    |g| == 3 && forall i | 0 <= i < 3 :: |g[i]| == 3
  }

  /** A board is a value: three rows of three cells. */
  type Board = g: seq<seq<Cell>> | IsGrid(g)
    witness [[Empty, Empty, Empty], [Empty, Empty, Empty], [Empty, Empty, Empty]]

  /** Both coordinates of the move lie in 0..2. */
  predicate InRange(m: Move) {
    0 <= m.0 < 3 && 0 <= m.1 < 3
  }

  /** `initial_state`: the board with every cell empty. */
  function InitialState(): (b: Board)
    ensures forall i, j | 0 <= i < 3 && 0 <= j < 3 :: b[i][j] == Empty
  {
    [[Empty, Empty, Empty], [Empty, Empty, Empty], [Empty, Empty, Empty]]
  }

  // ---------------------------------------------------------------------
  // Counting marks

  /** The coordinates of the cells that hold `c`. */
  function CellsWith(b: Board, c: Cell): set<Move> {
    set i, j | 0 <= i < 3 && 0 <= j < 3 && b[i][j] == c :: (i, j)
  }

  /** The cells in row-major order, the order in which every scan of the
      board visits them. */
  function Cells(b: Board): (s: seq<Cell>)
    ensures |s| == 9
  {
    b[0] + b[1] + b[2]
  }

  /** Cell (i, j) sits at position 3 * i + j of the row-major order. */
  lemma CellAt(b: Board, i: nat, j: nat)
    requires i < 3 && j < 3
    ensures Cells(b)[3 * i + j] == b[i][j]
  {
  }

  /** How many cells of `s` hold `c`. */
  function Occurrences(s: seq<Cell>, c: Cell): (n: nat)
    ensures n <= |s|
  {
    if s == [] then 0
    else Occurrences(s[..|s| - 1], c) + (if s[|s| - 1] == c then 1 else 0)
  }

  /** The number of cells of the board that hold `c`. */
  function Count(b: Board, c: Cell): nat {
    Occurrences(Cells(b), c)
  }

  /** Visiting one more cell adds one to the count when it holds `c`. */
  lemma OccurrencesStep(s: seq<Cell>, c: Cell, n: nat)
    requires n < |s|
    ensures Occurrences(s[..n + 1], c) == Occurrences(s[..n], c) + (if s[n] == c then 1 else 0)
  {
    assert s[..n + 1][..n] == s[..n];
  }

  /** The cells holding `c` met by a row-major scan before reaching (i, j). */
  ghost function CellsBefore(b: Board, c: Cell, i: int, j: int): set<Move> {
    set r, k | 0 <= r < 3 && 0 <= k < 3 && (r < i || (r == i && k < j)) && b[r][k] == c :: (r, k)
  }

  /** One step of the row-major scan adds at most the cell it visits. */
  lemma CellsBeforeStep(b: Board, c: Cell, i: int, j: int)
    requires 0 <= i < 3 && 0 <= j < 3
    ensures CellsBefore(b, c, i, j + 1)
         == CellsBefore(b, c, i, j) + (if b[i][j] == c then {(i, j)} else {})
  {
  }

  /** ... so it adds one to their number exactly when that cell holds `c`. */
  lemma CellsBeforeCount(b: Board, c: Cell, i: int, j: int)
    requires 0 <= i < 3 && 0 <= j < 3
    ensures |CellsBefore(b, c, i, j + 1)|
         == |CellsBefore(b, c, i, j)| + (if b[i][j] == c then 1 else 0)
  {
    CellsBeforeStep(b, c, i, j);
    assert (i, j) !in CellsBefore(b, c, i, j);
  }

  /** The ends of the scan: nothing before the first cell, a row's end is
      the next row's start, and everything before row 3. */
  lemma CellsBeforeEnds(b: Board, c: Cell)
    ensures CellsBefore(b, c, 0, 0) == {}
    ensures forall i | 0 <= i < 3 :: CellsBefore(b, c, i, 3) == CellsBefore(b, c, i + 1, 0)
    ensures CellsBefore(b, c, 3, 0) == CellsWith(b, c)
  {
    forall i | 0 <= i < 3
      ensures CellsBefore(b, c, i, 3) == CellsBefore(b, c, i + 1, 0)
    {
    }
  }

  /** A scan step inside a row keeps the count and the set of cells met
      in step. */
  lemma PrefixStep(b: Board, c: Cell, i: nat, j: nat)
    requires i < 3 && 0 < j <= 3
    requires Occurrences(Cells(b)[..3 * i + j - 1], c) == |CellsBefore(b, c, i, j - 1)|
    ensures Occurrences(Cells(b)[..3 * i + j], c) == |CellsBefore(b, c, i, j)|
  {
    var n := 3 * i + j - 1;
    OccurrencesStep(Cells(b), c, n);
    CellsBeforeCount(b, c, i, j - 1);
    CellAt(b, i, j - 1);
    assert n + 1 == 3 * i + j;
  }

  /** The end of one row is the start of the next. */
  lemma PrefixRow(b: Board, c: Cell, i: nat)
    requires 0 < i < 3
    requires Occurrences(Cells(b)[..3 * (i - 1) + 3], c) == |CellsBefore(b, c, i - 1, 3)|
    ensures Occurrences(Cells(b)[..3 * i], c) == |CellsBefore(b, c, i, 0)|
  {
    CellsBeforeEnds(b, c);
    assert CellsBefore(b, c, i - 1, 3) == CellsBefore(b, c, i, 0);
  }

  /** The count over the cells before (i, j) in row-major order is the
      number of cells holding `c` that the scan meets before (i, j). */
  lemma {:induction false} PrefixCount(b: Board, c: Cell, i: nat, j: nat)
    requires i < 3 && j <= 3
    ensures Occurrences(Cells(b)[..3 * i + j], c) == |CellsBefore(b, c, i, j)|
    decreases i, j
  {
    if j > 0 {
      PrefixCount(b, c, i, j - 1);
      PrefixStep(b, c, i, j);
    } else if i > 0 {
      PrefixCount(b, c, i - 1, 3);
      PrefixRow(b, c, i);
    } else {
      CellsBeforeEnds(b, c);
    }
  }

  /** The counter of marks agrees with the set of marked coordinates. */
  lemma CountCells(b: Board, c: Cell)
    ensures Count(b, c) == |CellsWith(b, c)|
  {
    PrefixCount(b, c, 2, 3);
    CellsBeforeEnds(b, c);
    assert Cells(b)[..9] == Cells(b);
  }

  /** Every cell of a sequence is empty, an X or an O. */
  lemma {:induction false} OccurrencesPartition(s: seq<Cell>)
    ensures Occurrences(s, Empty) + Occurrences(s, Mark(X)) + Occurrences(s, Mark(O)) == |s|
  {
    if s != [] {
      OccurrencesPartition(s[..|s| - 1]);
      match s[|s| - 1]
      case Empty =>
      case Mark(p) => assert p == X || p == O;
    }
  }

  /** Every cell of the board is empty, an X or an O. */
  lemma CountPartition(b: Board)
    ensures Count(b, Empty) + Count(b, Mark(X)) + Count(b, Mark(O)) == 9
  {
    OccurrencesPartition(Cells(b));
  }

  // ---------------------------------------------------------------------
  // Whose turn it is

  /** The counting rule: O moves exactly when X has more marks than O. */
  function Turn(b: Board): Piece {
    if Count(b, Mark(X)) > Count(b, Mark(O)) then O else X
  }

  /** The count invariant of every board reached by legal play from the
      initial board: X has as many marks as O, or one more. */
  predicate Balanced(b: Board) {
    Count(b, Mark(O)) <= Count(b, Mark(X)) <= Count(b, Mark(O)) + 1
  }

  /** On the initial board every cell is empty and X is to move, so the
      shortcut `player` takes for it agrees with the counting rule. */
  lemma InitialCounts()
    ensures Count(InitialState(), Empty) == 9
    ensures Count(InitialState(), Mark(X)) == 0 && Count(InitialState(), Mark(O)) == 0
    ensures Balanced(InitialState()) && Turn(InitialState()) == X
  {
    var b := InitialState();
    assert CellsWith(b, Mark(X)) == {};
    assert CellsWith(b, Mark(O)) == {};
    CountCells(b, Mark(X));
    CountCells(b, Mark(O));
    CountPartition(b);
  }

  /** `player`: the shortcut for the initial board, then two counters
      filled by a scan of every cell. */
  method Player(b: Board) returns (p: Piece)
    ensures p == Turn(b)
    ensures p == O <==> Count(b, Mark(X)) > Count(b, Mark(O))
    ensures Balanced(b) ==> (p == X <==> Count(b, Mark(X)) == Count(b, Mark(O)))
  {
    if b == InitialState() {
      InitialCounts();
      return X;
    }
    var minPlayer, maxPlayer := 0, 0;
    ghost var cells := Cells(b);
    for i := 0 to 3
      invariant maxPlayer == Occurrences(cells[..3 * i], Mark(X))
      invariant minPlayer == Occurrences(cells[..3 * i], Mark(O))
    {
      for j := 0 to 3
        invariant maxPlayer == Occurrences(cells[..3 * i + j], Mark(X))
        invariant minPlayer == Occurrences(cells[..3 * i + j], Mark(O))
      {
        CellAt(b, i, j);
        OccurrencesStep(cells, Mark(X), 3 * i + j);
        OccurrencesStep(cells, Mark(O), 3 * i + j);
        if b[i][j] == Mark(X) {
          maxPlayer := maxPlayer + 1;
        } else if b[i][j] == Mark(O) {
          minPlayer := minPlayer + 1;
        }
      }
    }
    assert cells[..9] == cells;
    if maxPlayer > minPlayer {
      return O;
    }
    return X;
  }

  // ---------------------------------------------------------------------
  // Legal moves

  /** The legal moves: the coordinates of the empty cells. */
  function EmptyCells(b: Board): set<Move> {
    CellsWith(b, Empty)
  }

  /** The legal moves are exactly the on-board coordinates of empty cells,
      as many as there are empty cells, that is nine less the marks. */
  lemma EmptyCellsSpec(b: Board)
    ensures forall m :: m in EmptyCells(b) <==> InRange(m) && b[m.0][m.1] == Empty
    ensures |EmptyCells(b)| == Count(b, Empty)
    ensures |EmptyCells(b)| == 9 - Count(b, Mark(X)) - Count(b, Mark(O))
  {
    CountCells(b, Empty);
    CountPartition(b);
  }

  /** `actions`: a scan of every cell, adding each empty one to a set. */
  method Actions(b: Board) returns (s: set<Move>)
    ensures s == EmptyCells(b)
  {
    s := {};
    CellsBeforeEnds(b, Empty);
    for i := 0 to 3
      invariant s == CellsBefore(b, Empty, i, 0)
    {
      for j := 0 to 3
        invariant s == CellsBefore(b, Empty, i, j)
      {
        CellsBeforeStep(b, Empty, i, j);
        if b[i][j] == Empty {
          s := s + {(i, j)};
        }
      }
    }
  }

  lemma InitialActions()
    ensures |EmptyCells(InitialState())| == 9
  {
    CountCells(InitialState(), Empty);
    InitialCounts();
  }

  // ---------------------------------------------------------------------
  // Applying a move

  /** `result`: a move off the board or onto an occupied cell is refused;
      otherwise the new board is the old one with the target cell holding
      the mark of the player to move. The argument is a value, so it is
      never changed. */
  function Result(b: Board, m: Move): (r: MoveResult)
    ensures r.MoveNotAllowed? <==> !InRange(m) || b[m.0][m.1] != Empty
  {
    var (i, j) := m;
    if !(0 <= i < 3) || !(0 <= j < 3) || b[i][j] != Empty then MoveNotAllowed
    else Moved(b[i := b[i][j := Mark(Turn(b))]])
  }

  /** A move succeeds exactly on the legal moves, and the board it yields
      differs from the old one only in the target cell, which now holds the
      mark of the player to move. */
  lemma ResultFrame(b: Board, m: Move)
    ensures Result(b, m).Moved? <==> m in EmptyCells(b)
    ensures Result(b, m).Moved? ==> forall i, j | 0 <= i < 3 && 0 <= j < 3 ::
      Result(b, m).board[i][j] == if (i, j) == m then Mark(Turn(b)) else b[i][j]
  {
  }

  /** A move takes its cell out of the empty cells and adds it to the
      cells of the player who moved; no other cell changes kind. */
  lemma ResultCells(b: Board, m: Move, c: Cell)
    requires Result(b, m).Moved?
    ensures CellsWith(Result(b, m).board, c)
         == if c == Empty then CellsWith(b, c) - {m}
            else if c == Mark(Turn(b)) then CellsWith(b, c) + {m}
            else CellsWith(b, c)
  {
    ResultFrame(b, m);
  }

  /** Legal play uses up one empty cell (the measure of the search), keeps
      the count invariant and hands the turn to the other player. */
  lemma ResultAlternates(b: Board, m: Move)
    requires Result(b, m).Moved?
    ensures EmptyCells(Result(b, m).board) == EmptyCells(b) - {m}
    ensures Count(Result(b, m).board, Empty) == Count(b, Empty) - 1
    ensures Count(Result(b, m).board, Mark(Turn(b))) == Count(b, Mark(Turn(b))) + 1
    ensures Balanced(b) ==> Balanced(Result(b, m).board)
    ensures Balanced(b) ==> Turn(Result(b, m).board) != Turn(b)
  {
    ResultCells(b, m, Empty);
    ResultCells(b, m, Mark(X));
    ResultCells(b, m, Mark(O));
    var r := Result(b, m).board;
    CountCells(b, Empty);
    CountCells(b, Mark(X));
    CountCells(b, Mark(O));
    CountCells(r, Empty);
    CountCells(r, Mark(X));
    CountCells(r, Mark(O));
  }

  /** The board reached by a legal move. */
  function Child(b: Board, m: Move): (c: Board)
    requires m in EmptyCells(b)
    ensures Count(c, Empty) == Count(b, Empty) - 1
  {
    ResultFrame(b, m);
    ResultAlternates(b, m);
    Result(b, m).board
  }

  // ---------------------------------------------------------------------
  // The winner

  /** The eight lines of the grid, in scan order: three rows, three
      columns, the main diagonal and the anti-diagonal. */
  function Line(k: nat): (l: (Move, Move, Move))
    requires k < 8
    ensures InRange(l.0) && InRange(l.1) && InRange(l.2)
  {
    if k < 3 then ((k, 0), (k, 1), (k, 2))
    else if k < 6 then ((0, k - 3), (1, k - 3), (2, k - 3))
    else if k == 6 then ((0, 0), (1, 1), (2, 2))
    else ((0, 2), (1, 1), (2, 0))
  }

  predicate Completes(b: Board, p: Piece, k: nat)
    requires k < 8
  {
    var (c0, c1, c2) := Line(k);
    b[c0.0][c0.1] == Mark(p) && b[c1.0][c1.1] == Mark(p) && b[c2.0][c2.1] == Mark(p)
  }

  /** `p` fills some whole row, column or diagonal. */
  predicate HasLine(b: Board, p: Piece) {
    exists k: nat | k < 8 :: Completes(b, p, k)
  }

  /** The winner as the scan reports it: X whenever X has a line, else O
      when O has one, else nobody. */
  function WinnerOf(b: Board): Option<Piece> {
    if HasLine(b, X) then Some(X)
    else if HasLine(b, O) then Some(O)
    else None
  }

  /** `winner`: for X and then O, scan the rows, the columns and the two
      diagonals, returning at the first complete line. */
  method Winner(b: Board) returns (w: Option<Piece>)
    ensures w == Some(X) <==> HasLine(b, X)
    ensures w == Some(O) <==> HasLine(b, O) && !HasLine(b, X)
    ensures w == None <==> !HasLine(b, X) && !HasLine(b, O)
    ensures w == WinnerOf(b)
  {
    var players := [X, O];
    for q := 0 to 2
      invariant forall q' | 0 <= q' < q :: !HasLine(b, players[q'])
    {
      var p := players[q];
      assert p == X || !HasLine(b, players[0]);
      for row := 0 to 3
        invariant forall k | 0 <= k < row :: !Completes(b, p, k)
      {
        if b[row][0] == Mark(p) && b[row][1] == Mark(p) && b[row][2] == Mark(p) {
          assert Completes(b, p, row);
          return Some(p);
        }
      }
      for col := 0 to 3
        invariant forall k | 0 <= k < 3 + col :: !Completes(b, p, k)
      {
        if b[0][col] == Mark(p) && b[1][col] == Mark(p) && b[2][col] == Mark(p) {
          assert Completes(b, p, 3 + col);
          return Some(p);
        }
      }
      if b[0][0] == Mark(p) && b[1][1] == Mark(p) && b[2][2] == Mark(p) {
        assert Completes(b, p, 6);
        return Some(p);
      }
      if b[0][2] == Mark(p) && b[1][1] == Mark(p) && b[2][0] == Mark(p) {
        assert Completes(b, p, 7);
        return Some(p);
      }
      assert forall k: nat | k < 8 :: !Completes(b, p, k);
    }
    assert !HasLine(b, players[0]) && !HasLine(b, players[1]);
    return None;
  }

  // ---------------------------------------------------------------------
  // End of the game

  /** The game is over when somebody has won or no cell is empty. */
  predicate IsTerminal(b: Board) {
    WinnerOf(b).Some? || Count(b, Empty) == 0
  }

  /** `terminal`: the winner first, then a count of the empty cells. */
  method Terminal(b: Board) returns (t: bool)
    ensures t == IsTerminal(b)
  {
    var w := Winner(b);
    if w != None {
      return true;
    }
    var emptyCount := 0;
    ghost var cells := Cells(b);
    for i := 0 to 3
      invariant emptyCount == Occurrences(cells[..3 * i], Empty)
    {
      for j := 0 to 3
        invariant emptyCount == Occurrences(cells[..3 * i + j], Empty)
      {
        CellAt(b, i, j);
        OccurrencesStep(cells, Empty, 3 * i + j);
        if b[i][j] == Empty {
          emptyCount := emptyCount + 1;
        }
      }
    }
    assert cells[..9] == cells;
    return emptyCount == 0;
  }

  /** The game is over exactly when somebody has won or no legal move is
      left. */
  lemma TerminalIffNoMoves(b: Board)
    ensures IsTerminal(b) <==> WinnerOf(b).Some? || EmptyCells(b) == {}
  {
    CountCells(b, Empty);
  }

  /** `utility`: 1 when X has won, -1 when O has won, 0 otherwise. */
  function Utility(b: Board): (u: int)
    ensures u == 1 <==> HasLine(b, X)
    ensures u == -1 <==> HasLine(b, O) && !HasLine(b, X)
    ensures u == 0 <==> !HasLine(b, X) && !HasLine(b, O)
    ensures -1 <= u <= 1
  {
    if WinnerOf(b) == Some(X) then 1
    else if WinnerOf(b) == Some(O) then -1
    else 0
  }

  /** A full board without a complete line: the game is over, nobody has
      won, no move is left and the utility is a draw. */
  lemma FullBoardDraw(b: Board)
    requires Count(b, Empty) == 0 && !HasLine(b, X) && !HasLine(b, O)
    ensures IsTerminal(b) && WinnerOf(b) == None && Utility(b) == 0 && EmptyCells(b) == {}
  {
    EmptyCellsSpec(b);
  }

  /** One such board: X O X / X O O / O X X. */
  lemma FullBoardDrawExample()
    ensures var b: Board := [[Mark(X), Mark(O), Mark(X)],
                             [Mark(X), Mark(O), Mark(O)],
                             [Mark(O), Mark(X), Mark(X)]];
      IsTerminal(b) && WinnerOf(b) == None && Utility(b) == 0 && EmptyCells(b) == {}
  {
    var b: Board := [[Mark(X), Mark(O), Mark(X)],
                     [Mark(X), Mark(O), Mark(O)],
                     [Mark(O), Mark(X), Mark(X)]];
    forall k: nat | k < 8 ensures !Completes(b, X, k) && !Completes(b, O, k) {
    }
    assert EmptyCells(b) == {};
    EmptyCellsSpec(b);
    FullBoardDraw(b);
  }
}
