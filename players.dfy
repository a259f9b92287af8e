/** The minimax player: searches the shared board by placing a mark,
    recursing and taking the mark back, then commits one move. */
module Players {
  import opened Grid
  import opened Boards
  import opened Search

  class MinMaxAI {
    /** The engine's own mark. */
    const symbol: Mark

    constructor (symbol: Mark)
      ensures this.symbol == symbol
    {
      this.symbol := symbol;
    }

    /** The score of the board `depth` plies below the move under evaluation. */
    method Evaluate(board: Board, depth: int) returns (score: int)
      requires board.Valid()
      ensures score == Score(board.Contents(), depth, symbol)
    {
      var winner := board.GetWinner();
      if winner == symbol {
        return 10 - depth;
      } else if winner != NoMark {
        return -10 + depth;
      }
      return 0;
    }

    /** The game on the board is over. */
    method IsFinalCondition(board: Board) returns (isFinal: bool)
      requires board.Valid()
      ensures isFinal == Terminal(board.Contents())
    {
      var winner := board.GetWinner();
      var full := board.IsFull();
      return full || winner != NoMark;
    }

    /** The minimax value of the board, searched by trying every empty cell
        in row-major order and taking each try back before the next; the
        board is left as it was found. */
    method MinMax(board: Board, depth: int, isMaximizing: bool) returns (value: int)
      requires board.Valid()
      modifies board.cells
      ensures board.Contents() == old(board.Contents())
      ensures value == Minimax(old(board.Contents()), depth, isMaximizing, symbol)
      decreases EmptyCount(board.Contents())
    {
      var isFinal := IsFinalCondition(board);
      if isFinal {
        value := Evaluate(board, depth);
        return;
      }

      ghost var g := board.Contents();
      var bestValue := if isMaximizing then MinValue else MaxValue;
      var symbolToTry := if isMaximizing then symbol else Opponent(symbol);

      for i := 0 to Size
        invariant board.Contents() == g
        invariant Scan(g, depth, isMaximizing, symbol, i, 0, bestValue) == Minimax(g, depth, isMaximizing, symbol)
      {
        for j := 0 to Size
          invariant board.Contents() == g
          invariant Scan(g, depth, isMaximizing, symbol, i, j, bestValue) == Minimax(g, depth, isMaximizing, symbol)
        {
          if !board.IsOccupied(i, j) {
            board.PlaceMove(i, j, symbolToTry);
            PlaceDecreasesEmptyCount(g, i, j, symbolToTry);

            var evaluatedValue := MinMax(board, depth + 1, !isMaximizing);

            board.RestoreMove(i, j);
            RestoreUndoesPlace(g, i, j, symbolToTry);

            if isMaximizing {
              bestValue := Max(bestValue, evaluatedValue);
            } else {
              bestValue := Min(bestValue, evaluatedValue);
            }
          }
        }
      }

      value := bestValue;
    }

    /** Commits the move BestMove chooses: the first empty cell in row-major
        order whose minimax value is the greatest. Exactly that one cell,
        empty before, now holds the engine's mark. */
    method Play(board: Board)
      requires board.Valid() && !Full(board.Contents())
      modifies board.cells
      ensures var g := old(board.Contents()); var b := BestMove(g, symbol);
        && InBounds(b.row, b.col) && g[b.row][b.col] == Empty
        && board.Contents() == Place(g, b.row, b.col, symbol)
        && forall r, c :: InBounds(r, c) ==>
             (board.Contents()[r][c] != g[r][c] <==> r == b.row && c == b.col)
    {
      ghost var g := board.Contents();
      var bestValue := MinValue;
      var bestRow := -1;
      var bestCol := -1;

      for i := 0 to Size
        invariant board.Contents() == g
        invariant BestFrom(g, symbol, i, 0, Choice(bestValue, bestRow, bestCol)) == BestMove(g, symbol)
      {
        for j := 0 to Size
          invariant board.Contents() == g
          invariant BestFrom(g, symbol, i, j, Choice(bestValue, bestRow, bestCol)) == BestMove(g, symbol)
        {
          if !board.IsOccupied(i, j) {
            board.PlaceMove(i, j, symbol);
            var evaluatedValue := MinMax(board, 0, false);
            board.RestoreMove(i, j);
            RestoreUndoesPlace(g, i, j, symbol);

            if evaluatedValue > bestValue {
              bestValue := evaluatedValue;
              bestRow := i;
              bestCol := j;
            }
          }
        }
      }

      BestMoveSpec(g, symbol);
      board.PlaceMove(bestRow, bestCol, symbol);
    }
  }
}
