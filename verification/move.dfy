/** The pure part of `handleClick`: the clicked square names a column, the mark falls to the
    lowest empty square of that column, and the move is refused on a full column or a won board. */
module Move {
  import opened Wrappers
  import opened Board
  import opened Winner

  /** Why a click leaves the game as it is. */
  datatype MoveError = ColumnFull | GameAlreadyWon

  /** Every square of column `col` is marked. */
  predicate IsColumnFull(n: nat, b: Board, col: int) {
    forall row :: 0 <= row < n ==> At(n, b, row, col) != Empty
  }

  /** Row `row` is where a mark dropped into column `col` lands: it is empty and every
      square below it in that column is marked. */
  predicate DropTarget(n: nat, b: Board, col: int, row: int) {
    && 0 <= row < n
    && At(n, b, row, col) == Empty
    && forall below :: row < below < n ==> At(n, b, below, col) != Empty
  }

  /** No mark floats: a marked square not on the bottom row stands on a marked square. */
  ghost predicate Settled(n: nat, b: Board) {
    forall row, col :: InGrid(n, row, col) && row + 1 < n && At(n, b, row, col) != Empty ==>
      At(n, b, row + 1, col) != Empty
  }

  /** Scan column `col` upwards, from row `row` towards the top row 0, for the first empty square. */
  function LowestEmptyRow(n: nat, b: Board, col: int, row: int): (r: Option<nat>)
    decreases row + 1
    ensures r.Some? ==>
      && r.value <= row
      && At(n, b, r.value, col) == Empty
      && forall below :: r.value < below <= row ==> At(n, b, below, col) != Empty
    ensures r.None? ==> forall scanned :: 0 <= scanned <= row ==> At(n, b, scanned, col) != Empty
  {
    if row < 0 then None
    else if At(n, b, row, col) == Empty then Some(row)
    else LowestEmptyRow(n, b, col, row - 1)
  }

  /** The column of the clicked square `i`. */
  function ColumnOf(n: nat, i: nat): (col: nat)
    requires n > 0
    ensures col < n
  {
    i % n
  }

  /** Drop `mark` into the column of square `i`. */
  function Drop(n: nat, b: Board, i: nat, mark: Cell): (r: Result<Board, MoveError>)
    requires n > 0 && IsBoard(n, b)
    ensures r == Failure(ColumnFull) <==> IsColumnFull(n, b, ColumnOf(n, i))
    ensures r == Failure(GameAlreadyWon) <==>
      !IsColumnFull(n, b, ColumnOf(n, i)) && CalculateWinner(n, b) != Empty
    ensures r.Success? ==>
      exists row :: DropTarget(n, b, ColumnOf(n, i), row)
        && r.value == Placed(n, b, row, ColumnOf(n, i), mark)
  {
    var col := ColumnOf(n, i);
    var target := LowestEmptyRow(n, b, col, n - 1);
    if target.None? then
      Failure(ColumnFull)
    else if CalculateWinner(n, b) != Empty then
      assert !IsColumnFull(n, b, col) by {
        assert At(n, b, target.value, col) == Empty;
      }
      Failure(GameAlreadyWon)
    else
      var row := target.value;
      assert DropTarget(n, b, col, row);
      Success(Placed(n, b, row, col, mark))
  }

  /** A column has at most one landing row. */
  lemma DropTargetUnique(n: nat, b: Board, col: int, r1: int, r2: int)
    requires DropTarget(n, b, col, r1) && DropTarget(n, b, col, r2)
    ensures r1 == r2
  {
  }

  /** A column has a landing row exactly when it is not full. */
  lemma DropTargetIffNotFull(n: nat, b: Board, col: int)
    ensures (exists row :: DropTarget(n, b, col, row)) <==> !IsColumnFull(n, b, col)
  {
    if !IsColumnFull(n, b, col) {
      var r := LowestEmptyRow(n, b, col, n - 1);
      assert DropTarget(n, b, col, r.value);
    }
  }

  /** A successful drop changes exactly one square, the landing square of the column, which
      receives `mark`; so one more square is marked than before. */
  lemma DropChangesOneSquare(n: nat, b: Board, i: nat, mark: Cell, row: int)
    requires n > 0 && IsBoard(n, b) && mark != Empty
    requires Drop(n, b, i, mark).Success?
    requires DropTarget(n, b, ColumnOf(n, i), row)
    ensures var after := Drop(n, b, i, mark).value;
      && IsBoard(n, after)
      && 0 <= row * n + ColumnOf(n, i) < |b|
      && after[row * n + ColumnOf(n, i)] == mark
      && (forall k :: 0 <= k < |b| ==> (after[k] != b[k] <==> k == row * n + ColumnOf(n, i)))
      && Occupied(after) == Occupied(b) + 1
  {
    var col := ColumnOf(n, i);
    var r' :| DropTarget(n, b, col, r') && Drop(n, b, i, mark).value == Placed(n, b, r', col, mark);
    DropTargetUnique(n, b, col, row, r');
    IndexInRange(n, row, col);
    var t := row * n + col;
    assert Placed(n, b, row, col, mark) == b[t := mark];
    assert b[t] == Empty;
    MarkingOccupies(b, t, mark);
  }

  /** Dropping into a board where no mark floats leaves no mark floating. */
  lemma DropKeepsSettled(n: nat, b: Board, col: int, row: int, mark: Cell)
    requires IsBoard(n, b) && 0 <= col < n && DropTarget(n, b, col, row) && Settled(n, b)
    ensures Settled(n, Placed(n, b, row, col, mark))
  {
    var after := Placed(n, b, row, col, mark);
    forall r, c | InGrid(n, r, c) && r + 1 < n && At(n, after, r, c) != Empty
      ensures At(n, after, r + 1, c) != Empty
    {
      if (r, c) == (row, col) {
        assert At(n, b, r + 1, c) != Empty;
      } else {
        assert At(n, b, r, c) != Empty;
        assert At(n, b, r + 1, c) != Empty;
      }
    }
  }
}
