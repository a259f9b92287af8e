/** The mutable board: a 3x3 array of characters written in place by moves
    and read by the queries. Each operation is tied to the grid model in
    module Grid through Contents(). */
module Boards {
  import opened Grid

  class Board {
    /** The cells; ' ' marks an empty one. */
    const cells: array2<char>

    ghost predicate Valid()
    {
      cells.Length0 == Size && cells.Length1 == Size
    }

    /** The grid the array currently holds. */
    ghost function Contents(): (g: Grid)
      requires Valid()
      reads cells
      ensures WellFormed(g)
      ensures forall r, c :: InBounds(r, c) ==> g[r][c] == cells[r, c]
    {
      [[cells[0, 0], cells[0, 1], cells[0, 2]],
       [cells[1, 0], cells[1, 1], cells[1, 2]],
       [cells[2, 0], cells[2, 1], cells[2, 2]]]
    }

    /** A new board: every one of the nine cells is empty. */
    constructor ()
      ensures Valid() && fresh(cells)
      ensures Contents() == EmptyGrid()
    {
      cells := new char[Size, Size];
      new;
      for i := 0 to Size
        invariant forall r, c :: 0 <= r < i && 0 <= c < Size ==> cells[r, c] == Empty
      {
        for j := 0 to Size
          invariant forall r, c :: 0 <= r < i && 0 <= c < Size ==> cells[r, c] == Empty
          invariant forall c :: 0 <= c < j ==> cells[i, c] == Empty
        {
          cells[i, j] := Empty;
        }
      }
      GridEq(Contents(), EmptyGrid());
    }

    /** The coordinates name a cell of the array. */
    function IsInBounds(row: int, col: int): (b: bool)
      requires Valid()
      ensures b <==> 0 <= row < cells.Length0 && 0 <= col < cells.Length1
    {
      (row >= 0 && row < Size) && (col >= 0 && col < Size)
    }

    /** The cell holds a mark. Only defined on the board, since it indexes
        the array directly. */
    function IsOccupied(row: int, col: int): (b: bool)
      requires Valid() && InBounds(row, col)
      reads cells
      ensures b <==> Contents()[row][col] != Empty
    {
      cells[row, col] != Empty
    }

    /** A move there is allowed: the cell is on the board and empty. Safe on
        any coordinates, because the bounds test comes first. */
    function IsValid(row: int, col: int): (b: bool)
      requires Valid()
      reads cells
      ensures b <==> InBounds(row, col) && Contents()[row][col] == Empty
    {
      IsInBounds(row, col) && !IsOccupied(row, col)
    }

    /** Writes the symbol into the cell; every other cell keeps its mark. */
    method PlaceMove(row: int, col: int, symbol: char)
      requires Valid() && InBounds(row, col)
      modifies cells
      ensures Contents() == Place(old(Contents()), row, col, symbol)
    {
      cells[row, col] := symbol;
      GridEq(Contents(), Place(old(Contents()), row, col, symbol));
    }

    /** Sets the cell back to empty; every other cell keeps its mark. */
    method RestoreMove(row: int, col: int)
      requires Valid() && InBounds(row, col)
      modifies cells
      ensures Contents() == Place(old(Contents()), row, col, Empty)
    {
      cells[row, col] := Empty;
      GridEq(Contents(), Place(old(Contents()), row, col, Empty));
    }

    /** No cell is empty (whether or not anybody has won). */
    method IsFull() returns (full: bool)
      requires Valid()
      ensures full == Full(Contents())
    {
      for i := 0 to Size
        invariant forall r, c :: 0 <= r < i && 0 <= c < Size ==> cells[r, c] != Empty
      {
        for j := 0 to Size
          invariant forall c :: 0 <= c < j ==> cells[i, c] != Empty
        {
          if cells[i, j] == Empty {
            return false;
          }
        }
      }
      return true;
    }

    /** Some row, column or diagonal holds three equal marks. */
    method CheckWin() returns (won: bool)
      requires Valid()
      ensures won == HasWin(Contents())
    {
      ghost var g := Contents();
      for i := 0 to Size
        invariant forall k :: 0 <= k < i ==> !Won(g, k)
      {
        if IsOccupied(i, 0) && cells[i, 0] == cells[i, 1] && cells[i, 0] == cells[i, 2] {
          assert Won(g, i);
          return true;
        }
      }
      for i := 0 to Size
        invariant forall k :: 0 <= k < Size + i ==> !Won(g, k)
      {
        if IsOccupied(0, i) && cells[0, i] == cells[1, i] && cells[0, i] == cells[2, i] {
          assert Won(g, Size + i);
          return true;
        }
      }
      if IsOccupied(0, 0) && cells[0, 0] == cells[1, 1] && cells[0, 0] == cells[2, 2] {
        assert Won(g, 6);
        return true;
      }
      won := IsOccupied(0, 2) && cells[0, 2] == cells[1, 1] && cells[0, 2] == cells[2, 0];
      assert won == Won(g, 7);
    }

    /** The mark of the first complete line, scanning rows, then columns,
        then the main diagonal, then the anti-diagonal; NoMark if none. */
    method GetWinner() returns (winner: char)
      requires Valid()
      ensures winner == Winner(Contents())
    {
      ghost var g := Contents();
      for i := 0 to Size
        invariant WinnerFrom(g, i) == Winner(g)
      {
        if IsOccupied(i, 0) && cells[i, 0] == cells[i, 1] && cells[i, 0] == cells[i, 2] {
          assert Won(g, i);
          return cells[i, 0];
        }
      }
      for i := 0 to Size
        invariant WinnerFrom(g, Size + i) == Winner(g)
      {
        if IsOccupied(0, i) && cells[0, i] == cells[1, i] && cells[0, i] == cells[2, i] {
          assert Won(g, Size + i);
          return cells[0, i];
        }
      }
      if IsOccupied(0, 0) && cells[0, 0] == cells[1, 1] && cells[0, 0] == cells[2, 2] {
        assert Won(g, 6);
        return cells[0, 0];
      }
      if IsOccupied(0, 2) && cells[0, 2] == cells[1, 1] && cells[0, 2] == cells[2, 0] {
        assert Won(g, 7);
        return cells[0, 2];
      }
      assert !Won(g, 7);
      return NoMark;
    }
  }
}
