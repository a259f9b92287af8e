/** The 3x3 tic-tac-toe grid as a value: its cells, a move on it, the empty
    cells left, and the eight lines that win. The Board class and the search
    engine are specified in terms of these functions. */
module Grid {

  /** Side length of the board. */
  const Size: nat := 3

  /** The character of a cell nobody has played in. */
  const Empty: char := ' '

  /** What the winner query answers when no line is complete. */
  const NoMark: char := '\0'

  /** A mark a player puts on the board: any character but the empty one. */
  type Mark = c: char | c != ' ' witness 'X'

  /** Cells in row-major order: g[row][col]. */
  type Grid = seq<seq<char>>

  ghost predicate WellFormed(g: Grid)
  {
    |g| == Size && forall r :: 0 <= r < Size ==> |g[r]| == Size
  }

  predicate InBounds(row: int, col: int)
  {
    0 <= row < Size && 0 <= col < Size
  }

  /** The grid of a new board. */
  function EmptyGrid(): (g: Grid)
    ensures WellFormed(g)
    ensures forall r, c :: InBounds(r, c) ==> g[r][c] == Empty
  {
    [[Empty, Empty, Empty], [Empty, Empty, Empty], [Empty, Empty, Empty]]
  }

  /** Two grids that agree on every cell are the same grid. */
  lemma GridEq(g: Grid, h: Grid)
    requires WellFormed(g) && WellFormed(h)
    requires forall r, c :: InBounds(r, c) ==> g[r][c] == h[r][c]
    ensures g == h
  {
    forall r | 0 <= r < Size
      ensures g[r] == h[r]
    {
      assert forall c :: 0 <= c < Size ==> g[r][c] == h[r][c] by {
        forall c | 0 <= c < Size ensures g[r][c] == h[r][c] {
          assert InBounds(r, c);
        }
      }
    }
  }

  /** The grid after writing m into cell (row, col). */
  function Place(g: Grid, row: int, col: int, m: char): (h: Grid)
    requires WellFormed(g) && InBounds(row, col)
    ensures WellFormed(h)
    ensures h[row][col] == m
    ensures forall r, c :: InBounds(r, c) && (r != row || c != col) ==> h[r][c] == g[r][c]
  {
    g[row := g[row][col := m]]
  }

  /** Writing the empty character back over a mark placed on an empty cell
      gives back the original grid (the mutate/undo pairing). */
  lemma RestoreUndoesPlace(g: Grid, row: int, col: int, m: char)
    requires WellFormed(g) && InBounds(row, col) && g[row][col] == Empty
    ensures Place(Place(g, row, col, m), row, col, Empty) == g
  {
    GridEq(Place(Place(g, row, col, m), row, col, Empty), g);
  }

  /** Number of empty characters in one row. */
  function CountEmpty(s: seq<char>): (n: nat)
    ensures n <= |s|
    ensures n == 0 <==> forall i :: 0 <= i < |s| ==> s[i] != Empty
  {
    if s == [] then 0
    else
      assert forall i :: 1 <= i < |s| ==> s[i] == s[1..][i - 1];
      (if s[0] == Empty then 1 else 0) + CountEmpty(s[1..])
  }

  /** Number of empty cells of the grid. */
  function EmptyCount(g: Grid): (n: nat)
    requires WellFormed(g)
    ensures n <= Size * Size
  {
    CountEmpty(g[0]) + CountEmpty(g[1]) + CountEmpty(g[2])
  }

  /** No cell is empty. */
  ghost predicate Full(g: Grid)
    requires WellFormed(g)
  {
    forall r, c :: InBounds(r, c) ==> g[r][c] != Empty
  }

  /** A grid is full exactly when it has no empty cell left, whatever the
      marks on it say about a winner. */
  lemma FullIffNoEmptyCell(g: Grid)
    requires WellFormed(g)
    ensures Full(g) <==> EmptyCount(g) == 0
  {
    if EmptyCount(g) == 0 {
      forall r, c | InBounds(r, c) ensures g[r][c] != Empty {
        assert CountEmpty(g[r]) == 0;
      }
    }
    if Full(g) {
      forall r | 0 <= r < Size ensures CountEmpty(g[r]) == 0 {
        forall c | 0 <= c < Size ensures g[r][c] != Empty {
          assert InBounds(r, c);
        }
      }
    }
  }

  lemma {:induction false} CountEmptyUpdate(s: seq<char>, i: int, m: Mark)
    requires 0 <= i < |s| && s[i] == Empty
    ensures CountEmpty(s[i := m]) == CountEmpty(s) - 1
  {
    if i == 0 {
      assert s[i := m][1..] == s[1..];
    } else {
      assert s[i := m][1..] == s[1..][i - 1 := m];
      CountEmptyUpdate(s[1..], i - 1, m);
    }
  }

  /** Placing a mark on an empty cell leaves one empty cell fewer: this is
      why the search terminates. */
  lemma PlaceDecreasesEmptyCount(g: Grid, row: int, col: int, m: Mark)
    requires WellFormed(g) && InBounds(row, col) && g[row][col] == Empty
    ensures EmptyCount(Place(g, row, col, m)) == EmptyCount(g) - 1
  {
    CountEmptyUpdate(g[row], col, m);
  }

  datatype Cell = Cell(row: int, col: int)

  /** Three cells in a straight line. */
  datatype Line = Line(first: Cell, second: Cell, third: Cell)

  const LineCount: nat := 8

  /** The eight lines in the order the board scans them: rows 0..2, then
      columns 0..2, then the main diagonal, then the anti-diagonal. */
  function LineAt(k: int): (l: Line)
    requires 0 <= k < LineCount
    ensures InBounds(l.first.row, l.first.col)
    ensures InBounds(l.second.row, l.second.col)
    ensures InBounds(l.third.row, l.third.col)
  {
    if k < 3 then Line(Cell(k, 0), Cell(k, 1), Cell(k, 2))
    else if k < 6 then Line(Cell(0, k - 3), Cell(1, k - 3), Cell(2, k - 3))
    else if k == 6 then Line(Cell(0, 0), Cell(1, 1), Cell(2, 2))
    else Line(Cell(0, 2), Cell(1, 1), Cell(2, 0))
  }

  function At(g: Grid, p: Cell): char
    requires WellFormed(g) && InBounds(p.row, p.col)
  {
    g[p.row][p.col]
  }

  /** Line k holds three equal marks that are not the empty character. */
  ghost predicate Won(g: Grid, k: int)
    requires WellFormed(g) && 0 <= k < LineCount
  {
    var l := LineAt(k);
    At(g, l.first) != Empty && At(g, l.first) == At(g, l.second) && At(g, l.first) == At(g, l.third)
  }

  /** The mark on line k (meaningful when the line is won). */
  function MarkOf(g: Grid, k: int): char
    requires WellFormed(g) && 0 <= k < LineCount
  {
    At(g, LineAt(k).first)
  }

  /** Some row, column or diagonal is won. */
  ghost predicate HasWin(g: Grid)
    requires WellFormed(g)
  {
    exists k :: 0 <= k < LineCount && Won(g, k)
  }

  /** The mark of the first won line among lines k..7, or NoMark. */
  ghost function WinnerFrom(g: Grid, k: int): char
    requires WellFormed(g) && 0 <= k <= LineCount
    decreases LineCount - k
  {
    if k == LineCount then NoMark
    else if Won(g, k) then MarkOf(g, k)
    else WinnerFrom(g, k + 1)
  }

  /** The winner query: the mark of the first won line in scan order. */
  ghost function Winner(g: Grid): char
    requires WellFormed(g)
  {
    WinnerFrom(g, 0)
  }

  lemma {:induction false} WinnerFromFirstWon(g: Grid, k: int, j: int)
    requires WellFormed(g) && 0 <= k <= j < LineCount && Won(g, j)
    requires forall i :: k <= i < j ==> !Won(g, i)
    ensures WinnerFrom(g, k) == MarkOf(g, j)
    decreases j - k
  {
    if k < j {
      WinnerFromFirstWon(g, k + 1, j);
    }
  }

  /** When several lines are won, the winner is the mark of the earliest one
      in scan order (rows before columns before diagonals). */
  lemma WinnerIsFirstWonLine(g: Grid, j: int)
    requires WellFormed(g) && 0 <= j < LineCount && Won(g, j)
    requires forall i :: 0 <= i < j ==> !Won(g, i)
    ensures Winner(g) == MarkOf(g, j)
  {
    WinnerFromFirstWon(g, 0, j);
  }

  lemma {:induction false} WinnerFromSound(g: Grid, k: int)
    requires WellFormed(g) && 0 <= k <= LineCount
    ensures WinnerFrom(g, k) == NoMark || exists i :: k <= i < LineCount && Won(g, i) && MarkOf(g, i) == WinnerFrom(g, k)
    ensures (forall i :: k <= i < LineCount ==> !Won(g, i)) ==> WinnerFrom(g, k) == NoMark
    ensures (forall i :: k <= i < LineCount ==> MarkOf(g, i) != NoMark) && (exists i :: k <= i < LineCount && Won(g, i))
            ==> WinnerFrom(g, k) != NoMark
    decreases LineCount - k
  {
    if k < LineCount {
      WinnerFromSound(g, k + 1);
    }
  }

  /** The winner query answers the mark of a won line or NoMark, and it
      answers NoMark whenever no line is won. */
  lemma WinnerOnlyFromWonLine(g: Grid)
    requires WellFormed(g)
    ensures Winner(g) != NoMark ==> exists k :: 0 <= k < LineCount && Won(g, k) && MarkOf(g, k) == Winner(g)
    ensures !HasWin(g) ==> Winner(g) == NoMark
  {
    WinnerFromSound(g, 0);
  }

  /** On a board where no cell holds NoMark (so '\0' is never a mark), the
      winner query reports a winner exactly when some line is won. */
  lemma WinnerIffHasWin(g: Grid)
    requires WellFormed(g)
    requires forall r, c :: InBounds(r, c) ==> g[r][c] != NoMark
    ensures Winner(g) != NoMark <==> HasWin(g)
  {
    forall i | 0 <= i < LineCount ensures MarkOf(g, i) != NoMark {
      var p := LineAt(i).first;
      assert InBounds(p.row, p.col);
    }
    WinnerFromSound(g, 0);
  }
}
