/** `calculateWinner`: the first listed line whose five squares carry the same mark decides the winner. */
module Winner {
  import opened Board
  import opened Lines

  /** Every square of `l` holds `p`. */
  predicate Uniform(b: Board, l: Line, p: Cell) {
    forall t :: 0 <= t < |l| ==> CellOf(b, l[t]) == p
  }

  /** The test applied to each line: its first square is marked and all five squares agree. */
  predicate Wins(b: Board, l: Line) {
    |l| == 5 && CellOf(b, l[0]) != Empty && Uniform(b, l, CellOf(b, l[0]))
  }

  /** Scan `lines` in order and return the mark of the first winning one, `Empty` when none wins. */
  function FirstWinner(b: Board, lines: seq<Line>): (w: Cell)
    ensures w != Empty <==> exists k :: 0 <= k < |lines| && Wins(b, lines[k])
    ensures w != Empty ==>
      exists k :: 0 <= k < |lines| && Wins(b, lines[k]) && CellOf(b, lines[k][0]) == w
        && forall k' :: 0 <= k' < k ==> !Wins(b, lines[k'])
  {
    if |lines| == 0 then Empty
    else if Wins(b, lines[0]) then CellOf(b, lines[0][0])
    else
      var w := FirstWinner(b, lines[1..]);
      assert forall k :: 1 <= k < |lines| ==> lines[k] == lines[1..][k - 1];
      w
  }

  /** The winner of board `b` on an n-by-n grid, `Empty` for none. */
  function CalculateWinner(n: nat, b: Board): (w: Cell)
    ensures w != Empty <==> exists l :: l in AllLines(n) && Wins(b, l)
    ensures w != Empty ==> exists l :: l in AllLines(n) && Wins(b, l) && CellOf(b, l[0]) == w
  {
    FirstWinner(b, AllLines(n))
  }

  /** Player `p` owns five squares in a row starting at (row, col) in direction `d`. */
  ghost predicate FiveInRow(n: nat, b: Board, p: Cell, row: int, col: int, d: Direction) {
    Fits(n, row, col, d) && Uniform(b, Run(n, row, col, d), p)
  }

  /** A reported winner owns five squares in a row on the grid. */
  lemma WinnerSound(n: nat, b: Board)
    requires CalculateWinner(n, b) != Empty
    ensures exists row, col, d :: FiveInRow(n, b, CalculateWinner(n, b), row, col, d)
  {
    var w := CalculateWinner(n, b);
    var l :| l in AllLines(n) && Wins(b, l) && CellOf(b, l[0]) == w;
    AllLinesAreRuns(n, l);
    var row, col, d :| Fits(n, row, col, d) && l == Run(n, row, col, d);
    assert FiveInRow(n, b, w, row, col, d);
  }

  /** Five marked squares in a row anywhere on the grid are always found. */
  lemma WinnerComplete(n: nat, b: Board, p: Cell, row: int, col: int, d: Direction)
    requires p != Empty && FiveInRow(n, b, p, row, col, d)
    ensures CalculateWinner(n, b) != Empty
  {
    var l := Run(n, row, col, d);
    AllLinesAreRuns(n, l);
    assert Wins(b, l);
  }

  /** No winner is reported exactly when no player owns five squares in a row. */
  lemma NoWinnerIffNoFive(n: nat, b: Board)
    ensures CalculateWinner(n, b) == Empty <==>
      forall p, row, col, d :: p != Empty ==> !FiveInRow(n, b, p, row, col, d)
  {
    if CalculateWinner(n, b) != Empty {
      WinnerSound(n, b);
    }
    forall p, row, col, d | p != Empty && FiveInRow(n, b, p, row, col, d)
      ensures CalculateWinner(n, b) != Empty
    {
      WinnerComplete(n, b, p, row, col, d);
    }
  }

  /** When all the five-in-a-rows on a board belong to one player, the scan order does not
      matter: that player is the winner. */
  lemma SoleOwnerWins(n: nat, b: Board, p: Cell, row: int, col: int, d: Direction)
    requires p != Empty && FiveInRow(n, b, p, row, col, d)
    requires forall q, r, c, e :: q != Empty && FiveInRow(n, b, q, r, c, e) ==> q == p
    ensures CalculateWinner(n, b) == p
  {
    WinnerComplete(n, b, p, row, col, d);
    WinnerSound(n, b);
  }

  /** Nobody has five in a row on a board without marks. */
  lemma NoFiveOnEmptyBoard(n: nat, b: Board, p: Cell, row: int, col: int, d: Direction)
    requires Occupied(b) == 0 && p != Empty
    ensures !FiveInRow(n, b, p, row, col, d)
  {
    var l := Run(n, row, col, d);
    assert CellOf(b, l[0]) == Empty;
  }

  /** A five-in-a-row after square `t` is marked was already there before, or passes through `t`. */
  lemma FiveKeptOrThroughMark(n: nat, b: Board, t: int, m: Cell, p: Cell, row: int, col: int, d: Direction)
    requires 0 <= t < |b|
    requires FiveInRow(n, b[t := m], p, row, col, d)
    ensures FiveInRow(n, b, p, row, col, d) || exists s :: 0 <= s < 5 && Run(n, row, col, d)[s] == t
  {
    var l := Run(n, row, col, d);
    if !exists s :: 0 <= s < 5 && l[s] == t {
      forall s | 0 <= s < |l|
        ensures CellOf(b, l[s]) == p
      {
        assert CellOf(b[t := m], l[s]) == p;
      }
    }
  }

  /** A line that wins after square `t` is marked with `m`, but did not win before,
      passes through `t` and belongs to `m`. */
  lemma NewFiveThroughMark(n: nat, b: Board, t: int, m: Cell, p: Cell, row: int, col: int, d: Direction)
    requires 0 <= t < |b|
    requires !FiveInRow(n, b, p, row, col, d)
    requires FiveInRow(n, b[t := m], p, row, col, d)
    ensures exists s :: 0 <= s < 5 && Run(n, row, col, d)[s] == t
    ensures p == m
  {
    FiveKeptOrThroughMark(n, b, t, m, p, row, col, d);
    var l := Run(n, row, col, d);
    var s :| 0 <= s < 5 && l[s] == t;
    assert CellOf(b[t := m], l[s]) == p;
  }
}
