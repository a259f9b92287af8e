/** The minimax engine as functions on grids: the score of a finished game,
    the value of a position under optimal play by both sides, and the move
    the engine commits. The engine's methods in module Players are proved to
    compute exactly these functions. */
module Search {
  import opened Grid

  /** The initial extremes of the search (Java's Integer.MIN_VALUE and
      Integer.MAX_VALUE); no score ever reaches them. */
  const MinValue: int := -2147483648
  const MaxValue: int := 2147483647

  /** The other player's symbol. Players hold 'X' or 'O'; for any other
      mark the answer is 'X'. */
  function Opponent(me: Mark): (o: Mark)
    ensures o != me
    ensures o == 'O' || o == 'X'
    ensures o == 'O' <==> me == 'X'
  {
    if me == 'X' then 'O' else 'X'
  }

  /** The symbol placed on a maximizing ply (the engine's) or a minimizing
      ply (the opponent's). */
  function Mover(maximizing: bool, me: Mark): Mark
  {
    if maximizing then me else Opponent(me)
  }

  function Max(a: int, b: int): int { if a >= b then a else b }
  function Min(a: int, b: int): int { if a <= b then a else b }

  /** The score of a finished game found `depth` plies below the move under
      evaluation: a win sooner is better, a loss later is less bad. */
  ghost function Score(g: Grid, depth: int, me: Mark): int
    requires WellFormed(g)
  {
    var winner := Winner(g);
    if winner == me then 10 - depth
    else if winner != NoMark then -10 + depth
    else 0
  }

  /** The game is over: no empty cell is left or some line is won. */
  ghost predicate Terminal(g: Grid)
    requires WellFormed(g)
  {
    Full(g) || Winner(g) != NoMark
  }

  /** The minimax value of g, when `maximizing` says whose turn it is. */
  ghost function Minimax(g: Grid, depth: int, maximizing: bool, me: Mark): int
    requires WellFormed(g)
    decreases EmptyCount(g), 2, 0, 0
  {
    if Terminal(g) then Score(g, depth, me)
    else Scan(g, depth, maximizing, me, 0, 0, if maximizing then MinValue else MaxValue)
  }

  /** Folds the values of the moves on the empty cells from (row, col) on,
      in row-major order, into `best`: the larger when maximizing, the
      smaller when minimizing. */
  ghost function Scan(g: Grid, depth: int, maximizing: bool, me: Mark, row: int, col: int, best: int): int
    requires WellFormed(g) && 0 <= row <= Size && 0 <= col <= Size
    decreases EmptyCount(g), 1, Size - row, Size - col
  {
    if row == Size then best
    else if col == Size then Scan(g, depth, maximizing, me, row + 1, 0, best)
    else if g[row][col] != Empty then Scan(g, depth, maximizing, me, row, col + 1, best)
    else
      PlaceDecreasesEmptyCount(g, row, col, Mover(maximizing, me));
      var v := Minimax(Place(g, row, col, Mover(maximizing, me)), depth + 1, !maximizing, me);
      Scan(g, depth, maximizing, me, row, col + 1, if maximizing then Max(best, v) else Min(best, v))
  }

  /** The value of the move on (row, col) by the player whose turn it is. */
  ghost function Child(g: Grid, depth: int, maximizing: bool, me: Mark, row: int, col: int): int
    requires WellFormed(g) && InBounds(row, col)
  {
    Minimax(Place(g, row, col, Mover(maximizing, me)), depth + 1, !maximizing, me)
  }

  /** (r, c) comes strictly before (row, col) in row-major order. */
  predicate Before(r: int, c: int, row: int, col: int)
  {
    r < row || (r == row && c < col)
  }

  /** Depth and empty cells never add up to more than the nine cells. */
  ghost predicate SearchBounds(g: Grid, depth: int)
    requires WellFormed(g)
  {
    0 <= depth && depth + EmptyCount(g) <= Size * Size
  }

  /** A win scores positive, a loss negative and a draw zero. */
  lemma ScoreSign(g: Grid, depth: int, me: Mark)
    requires WellFormed(g) && 0 <= depth < 10 && me != NoMark
    ensures Score(g, depth, me) > 0 <==> Winner(g) == me
    ensures Score(g, depth, me) < 0 <==> Winner(g) != me && Winner(g) != NoMark
    ensures Score(g, depth, me) == 0 <==> Winner(g) == NoMark
  {
  }

  /** A game that is not over has a move left. */
  lemma NonTerminalHasMove(g: Grid)
    requires WellFormed(g) && !Terminal(g)
    ensures EmptyCount(g) > 0
    ensures exists r, c :: InBounds(r, c) && g[r][c] == Empty
  {
    FullIffNoEmptyCell(g);
  }

  /** What the fold computes: an upper (maximizing) or lower (minimizing)
      bound of `best` and of every remaining move's value, equal to `best`
      or to one of those values. */
  lemma {:induction false} ScanFacts(g: Grid, depth: int, maximizing: bool, me: Mark, row: int, col: int, best: int)
    requires WellFormed(g) && 0 <= row <= Size && 0 <= col <= Size
    ensures var v := Scan(g, depth, maximizing, me, row, col, best);
      && (maximizing ==> v >= best)
      && (!maximizing ==> v <= best)
      && (forall r, c :: InBounds(r, c) && g[r][c] == Empty && !Before(r, c, row, col) ==>
            if maximizing then Child(g, depth, maximizing, me, r, c) <= v
            else Child(g, depth, maximizing, me, r, c) >= v)
      && (v == best || exists r, c :: (InBounds(r, c) && g[r][c] == Empty && !Before(r, c, row, col) &&
                                       Child(g, depth, maximizing, me, r, c) == v))
    decreases Size - row, Size - col
  {
    if row == Size {
    } else if col == Size {
      ScanFacts(g, depth, maximizing, me, row + 1, 0, best);
    } else if g[row][col] != Empty {
      ScanFacts(g, depth, maximizing, me, row, col + 1, best);
    } else {
      var v := Child(g, depth, maximizing, me, row, col);
      ScanFacts(g, depth, maximizing, me, row, col + 1, if maximizing then Max(best, v) else Min(best, v));
    }
  }

  /** Scores stay within [depth - 10, 10 - depth], and strictly inside by
      one when the game still goes on. */
  lemma {:induction false} MinimaxBounds(g: Grid, depth: int, maximizing: bool, me: Mark)
    requires WellFormed(g) && SearchBounds(g, depth)
    ensures depth - 10 <= Minimax(g, depth, maximizing, me) <= 10 - depth
    ensures !Terminal(g) ==> depth - 9 <= Minimax(g, depth, maximizing, me) <= 9 - depth
    decreases EmptyCount(g)
  {
    if !Terminal(g) {
      var init := if maximizing then MinValue else MaxValue;
      var v := Minimax(g, depth, maximizing, me);
      assert v == Scan(g, depth, maximizing, me, 0, 0, init);
      ScanFacts(g, depth, maximizing, me, 0, 0, init);
      NonTerminalHasMove(g);
      var r0, c0 :| InBounds(r0, c0) && g[r0][c0] == Empty;
      ChildBounds(g, depth, maximizing, me, r0, c0);
      assert v != init;
      var r, c :| InBounds(r, c) && g[r][c] == Empty && Child(g, depth, maximizing, me, r, c) == v;
      ChildBounds(g, depth, maximizing, me, r, c);
    }
  }

  lemma {:induction false} ChildBounds(g: Grid, depth: int, maximizing: bool, me: Mark, r: int, c: int)
    requires WellFormed(g) && SearchBounds(g, depth) && InBounds(r, c) && g[r][c] == Empty
    ensures depth - 9 <= Child(g, depth, maximizing, me, r, c) <= 9 - depth
    decreases EmptyCount(g), 0
  {
    PlaceDecreasesEmptyCount(g, r, c, Mover(maximizing, me));
    MinimaxBounds(Place(g, r, c, Mover(maximizing, me)), depth + 1, !maximizing, me);
  }

  /** On a game that goes on, the minimax value is the largest (maximizing)
      or smallest (minimizing) value among the moves on the empty cells,
      and it is the value of one of those moves. */
  lemma MinimaxExtremum(g: Grid, depth: int, maximizing: bool, me: Mark)
    requires WellFormed(g) && SearchBounds(g, depth) && !Terminal(g)
    ensures forall r, c :: InBounds(r, c) && g[r][c] == Empty ==>
      if maximizing then Child(g, depth, maximizing, me, r, c) <= Minimax(g, depth, maximizing, me)
      else Child(g, depth, maximizing, me, r, c) >= Minimax(g, depth, maximizing, me)
    ensures exists r, c :: (InBounds(r, c) && g[r][c] == Empty &&
                            Child(g, depth, maximizing, me, r, c) == Minimax(g, depth, maximizing, me))
  {
    var init := if maximizing then MinValue else MaxValue;
    ScanFacts(g, depth, maximizing, me, 0, 0, init);
    MinimaxBounds(g, depth, maximizing, me);
  }

  /** The value play gives to putting the engine's symbol on (row, col):
      the minimax value of the result with the opponent to move, at depth 0. */
  ghost function MoveScore(g: Grid, row: int, col: int, me: Mark): int
    requires WellFormed(g) && InBounds(row, col)
  {
    Minimax(Place(g, row, col, me), 0, false, me)
  }

  lemma MoveScoreBounds(g: Grid, row: int, col: int, me: Mark)
    requires WellFormed(g) && InBounds(row, col) && g[row][col] == Empty
    ensures -10 <= MoveScore(g, row, col, me) <= 10
    ensures !Terminal(Place(g, row, col, me)) ==> MoveScore(g, row, col, me) <= 9
  {
    PlaceDecreasesEmptyCount(g, row, col, me);
    MinimaxBounds(Place(g, row, col, me), 0, false, me);
  }

  /** The candidate play keeps: its score and its cell. */
  datatype Choice = Choice(value: int, row: int, col: int)

  /** Before any candidate: no cell yet, score at the initial minimum. */
  const NoChoice: Choice := Choice(MinValue, -1, -1)

  /** Play's scan of the empty cells from (row, col) on, in row-major order:
      a candidate replaces `best` only when it scores strictly more. */
  ghost function BestFrom(g: Grid, me: Mark, row: int, col: int, best: Choice): Choice
    requires WellFormed(g) && 0 <= row <= Size && 0 <= col <= Size
    decreases Size - row, Size - col
  {
    if row == Size then best
    else if col == Size then BestFrom(g, me, row + 1, 0, best)
    else if g[row][col] != Empty then BestFrom(g, me, row, col + 1, best)
    else
      var v := MoveScore(g, row, col, me);
      BestFrom(g, me, row, col + 1, if v > best.value then Choice(v, row, col) else best)
  }

  /** The move play commits. */
  ghost function BestMove(g: Grid, me: Mark): Choice
    requires WellFormed(g)
  {
    BestFrom(g, me, 0, 0, NoChoice)
  }

  /** b is an empty cell before (row, col) with the greatest score among the
      empty cells before (row, col), and it scores strictly more than every
      empty cell before it. */
  ghost predicate IsBest(g: Grid, me: Mark, b: Choice, row: int, col: int)
    requires WellFormed(g)
  {
    && InBounds(b.row, b.col) && g[b.row][b.col] == Empty && Before(b.row, b.col, row, col)
    && b.value == MoveScore(g, b.row, b.col, me)
    && (forall r, c :: InBounds(r, c) && g[r][c] == Empty && Before(r, c, row, col) ==>
          MoveScore(g, r, c, me) <= b.value)
    && (forall r, c :: InBounds(r, c) && g[r][c] == Empty && Before(r, c, b.row, b.col) ==>
          MoveScore(g, r, c, me) < b.value)
  }

  /** What play has after scanning every cell before (row, col): nothing if
      none of them is empty, the first best of them otherwise. */
  ghost predicate BestSoFar(g: Grid, me: Mark, b: Choice, row: int, col: int)
    requires WellFormed(g)
  {
    if b == NoChoice then forall r, c :: InBounds(r, c) && Before(r, c, row, col) ==> g[r][c] != Empty
    else IsBest(g, me, b, row, col)
  }

  lemma {:induction false} BestFromFacts(g: Grid, me: Mark, row: int, col: int, best: Choice)
    requires WellFormed(g) && 0 <= row <= Size && 0 <= col <= Size
    requires BestSoFar(g, me, best, row, col)
    ensures BestSoFar(g, me, BestFrom(g, me, row, col, best), Size, 0)
    decreases Size - row, Size - col
  {
    if row == Size {
    } else if col == Size {
      assert forall r, c :: Before(r, c, row, col) && InBounds(r, c) <==> Before(r, c, row + 1, 0) && InBounds(r, c);
      BestFromFacts(g, me, row + 1, 0, best);
    } else if g[row][col] != Empty {
      BestFromFacts(g, me, row, col + 1, best);
    } else {
      var v := MoveScore(g, row, col, me);
      var next := if v > best.value then Choice(v, row, col) else best;
      BestStep(g, me, row, col, best);
      BestFromFacts(g, me, row, col + 1, next);
    }
  }

  /** One step of play's scan over an empty cell keeps BestSoFar. */
  lemma BestStep(g: Grid, me: Mark, row: int, col: int, best: Choice)
    requires WellFormed(g) && InBounds(row, col) && g[row][col] == Empty
    requires BestSoFar(g, me, best, row, col)
    ensures var v := MoveScore(g, row, col, me);
      BestSoFar(g, me, if v > best.value then Choice(v, row, col) else best, row, col + 1)
  {
    var v := MoveScore(g, row, col, me);
    MoveScoreBounds(g, row, col, me);
    if best == NoChoice {
      assert v > best.value;
      assert forall r, c :: InBounds(r, c) && Before(r, c, row, col + 1) && g[r][c] == Empty ==> r == row && c == col;
      assert IsBest(g, me, Choice(v, row, col), row, col + 1);
    } else if v > best.value {
      assert IsBest(g, me, Choice(v, row, col), row, col + 1);
    } else {
      assert IsBest(g, me, best, row, col + 1);
    }
  }

  /** On a board with an empty cell, play commits an empty cell whose score
      is the greatest, and the first such cell in row-major order. */
  lemma BestMoveSpec(g: Grid, me: Mark)
    requires WellFormed(g) && !Full(g)
    ensures var b := BestMove(g, me);
      && InBounds(b.row, b.col) && g[b.row][b.col] == Empty
      && b.value == MoveScore(g, b.row, b.col, me)
      && (forall r, c :: InBounds(r, c) && g[r][c] == Empty ==> MoveScore(g, r, c, me) <= b.value)
      && (forall r, c :: InBounds(r, c) && g[r][c] == Empty && Before(r, c, b.row, b.col) ==>
            MoveScore(g, r, c, me) < b.value)
  {
    BestFromFacts(g, me, 0, 0, NoChoice);
  }

  /** A move scores 10 exactly when it wins at once for the engine. */
  lemma ImmediateWinScoresTen(g: Grid, row: int, col: int, me: Mark)
    requires WellFormed(g) && me != NoMark && InBounds(row, col) && g[row][col] == Empty
    ensures MoveScore(g, row, col, me) == 10 <==> Winner(Place(g, row, col, me)) == me
  {
    var h := Place(g, row, col, me);
    MoveScoreBounds(g, row, col, me);
    if Terminal(h) {
      assert MoveScore(g, row, col, me) == Score(h, 0, me);
    }
  }

  /** If some empty cell wins at once for the engine, play commits a cell
      that wins at once: such a win scores 10, anything later at most 9. */
  lemma ImmediateWinIsTaken(g: Grid, me: Mark, row: int, col: int)
    requires WellFormed(g) && me != NoMark && InBounds(row, col) && g[row][col] == Empty
    requires Winner(Place(g, row, col, me)) == me
    ensures var b := BestMove(g, me);
      InBounds(b.row, b.col) && g[b.row][b.col] == Empty && Winner(Place(g, b.row, b.col, me)) == me
  {
    BestMoveSpec(g, me);
    var b := BestMove(g, me);
    ImmediateWinScoresTen(g, row, col, me);
    MoveScoreBounds(g, b.row, b.col, me);
    ImmediateWinScoresTen(g, b.row, b.col, me);
  }
}
