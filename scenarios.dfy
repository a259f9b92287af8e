/** Worked scenarios on the board and search specifications. */
module Scenarios {
  import opened Grid
  import opened Search
  import opened Boards
  import opened Players

  /** Row 0 holds [a, a, empty]; the rest of the board is empty. */
  function TwoInTopRow(a: Mark): (g: Grid)
    ensures WellFormed(g)
  {
    [[a, a, Empty], [Empty, Empty, Empty], [Empty, Empty, Empty]]
  }

  /** Any other cell leaves every line incomplete. */
  lemma OnlyTopRightWins(a: Mark, r: int, c: int)
    requires InBounds(r, c) && TwoInTopRow(a)[r][c] == Empty && !(r == 0 && c == 2)
    ensures Winner(Place(TwoInTopRow(a), r, c, a)) == NoMark
  {
    var h := Place(TwoInTopRow(a), r, c, a);
    forall k | 0 <= k < LineCount ensures !Won(h, k) {
      assert r != 0;
    }
    WinnerOnlyFromWonLine(h);
  }

  /** The engine holding a completes the top row, and then a has won. */
  lemma CompletesTopRow(a: Mark)
    requires a != NoMark
    ensures var b := BestMove(TwoInTopRow(a), a);
      b.row == 0 && b.col == 2 && Winner(Place(TwoInTopRow(a), 0, 2, a)) == a
  {
    var g := TwoInTopRow(a);
    var h := Place(g, 0, 2, a);
    assert Won(h, 0);
    WinnerIsFirstWonLine(h, 0);
    ImmediateWinIsTaken(g, a, 0, 2);
    var b := BestMove(g, a);
    if !(b.row == 0 && b.col == 2) {
      OnlyTopRightWins(a, b.row, b.col);
    }
  }

  /** The same scenario on the mutable board: a new board, two moves by a
      in the top row, then the engine holding a plays the third cell. */
  method PlayTopRow(a: Mark) returns (board: Board)
    requires a != NoMark
    ensures board.Valid()
    ensures board.cells[0, 0] == a && board.cells[0, 1] == a && board.cells[0, 2] == a
    ensures Winner(board.Contents()) == a
  {
    board := new Board();
    board.PlaceMove(0, 0, a);
    board.PlaceMove(0, 1, a);
    assert board.Contents() == TwoInTopRow(a);
    var engine := new MinMaxAI(a);
    CompletesTopRow(a);
    engine.Play(board);
    assert board.Contents() == Place(TwoInTopRow(a), 0, 2, a);
  }

  /** X O X / X O O / O X X: every cell is marked and no line is complete. */
  function DrawnBoard(): (g: Grid)
    ensures WellFormed(g)
  {
    [['X', 'O', 'X'], ['X', 'O', 'O'], ['O', 'X', 'X']]
  }

  /** A filled board without a complete line is full, has no winner, and so
      ends the game as a draw scoring 0. */
  lemma DrawnBoardIsATie(me: Mark)
    requires me != NoMark
    ensures Full(DrawnBoard()) && Winner(DrawnBoard()) == NoMark
    ensures Terminal(DrawnBoard()) && Score(DrawnBoard(), 0, me) == 0
  {
    var g := DrawnBoard();
    forall k | 0 <= k < LineCount ensures !Won(g, k) {
    }
    WinnerOnlyFromWonLine(g);
  }
}
