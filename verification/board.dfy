/** The board of the five-in-a-row game: a flat sequence of squares read row by row,
    so that square (row, col) of an n-by-n grid sits at index row * n + col. */
module Board {

  /** Width and height of the grid the game is played on. */
  const BoardSize: nat := 5

  /** One square. JavaScript's `null` is `Empty`; the strings 'X' and 'O' are the two marks.
      Where the game tests a square for truthiness, this model tests `!= Empty`. */
  datatype Cell = Empty | X | O

  type Board = seq<Cell>

  /** A board of an n-by-n grid holds exactly n * n squares. */
  predicate IsBoard(n: nat, b: Board) {
    |b| == n * n
  }

  /** Reading `squares[k]`: an index outside the array yields `undefined`,
      which every test in the game treats like an empty square. */
  function CellOf(b: Board, k: int): Cell {
    if 0 <= k < |b| then b[k] else Empty
  }

  predicate InGrid(n: nat, row: int, col: int) {
    0 <= row < n && 0 <= col < n
  }

  /** The square in row `row` (0 is the top) and column `col`. */
  function At(n: nat, b: Board, row: int, col: int): Cell {
    CellOf(b, row * n + col)
  }

  /** Every grid position has an index inside the board. */
  lemma IndexInRange(n: nat, row: int, col: int)
    requires InGrid(n, row, col)
    ensures 0 <= row * n + col < n * n
  {
    MulNonNegative(row, n);
    RowsApart(n, row, n);
  }

  /** Distinct grid positions have distinct indices. */
  lemma IndexInjective(n: nat, r1: int, c1: int, r2: int, c2: int)
    requires InGrid(n, r1, c1) && InGrid(n, r2, c2)
    requires r1 * n + c1 == r2 * n + c2
    ensures r1 == r2 && c1 == c2
  {
    if r1 < r2 {
      RowsApart(n, r1, r2);
    } else if r2 < r1 {
      RowsApart(n, r2, r1);
    }
  }

  lemma RowsApart(n: nat, lo: int, hi: int)
    requires lo < hi
    ensures lo * n + n <= hi * n
  {
    var k := hi - lo - 1;
    MulNonNegative(k, n);
    assert hi * n == (lo + 1 + k) * n == lo * n + n + k * n;
  }

  lemma MulNonNegative(a: nat, b: nat)
    ensures a * b >= 0
  {
  }

  /** A copy of `b` with the square at (row, col) set to `v`. */
  function Placed(n: nat, b: Board, row: int, col: int, v: Cell): (r: Board)
    requires IsBoard(n, b) && InGrid(n, row, col)
    ensures IsBoard(n, r)
    ensures At(n, r, row, col) == v
    ensures forall r2, c2 :: InGrid(n, r2, c2) && (r2, c2) != (row, col) ==> At(n, r, r2, c2) == At(n, b, r2, c2)
  {
    IndexInRange(n, row, col);
    var r := b[row * n + col := v];
    PlacedFrame(n, b, row, col, v);
    r
  }

  lemma PlacedFrame(n: nat, b: Board, row: int, col: int, v: Cell)
    requires IsBoard(n, b) && InGrid(n, row, col)
    ensures 0 <= row * n + col < |b|
    ensures forall r2, c2 :: InGrid(n, r2, c2) && (r2, c2) != (row, col) ==>
      At(n, b[row * n + col := v], r2, c2) == At(n, b, r2, c2)
  {
    IndexInRange(n, row, col);
    forall r2, c2 | InGrid(n, r2, c2) && (r2, c2) != (row, col)
      ensures At(n, b[row * n + col := v], r2, c2) == At(n, b, r2, c2)
    {
      if r2 * n + c2 == row * n + col {
        IndexInjective(n, r2, c2, row, col);
      }
    }
  }

  /** Number of squares of `b` holding `c`. */
  function Count(b: Board, c: Cell): (k: nat)
    ensures k <= |b|
    ensures k == 0 <==> forall i :: 0 <= i < |b| ==> b[i] != c
    ensures k == |b| <==> forall i :: 0 <= i < |b| ==> b[i] == c
  {
    if |b| == 0 then 0 else (if b[0] == c then 1 else 0) + Count(b[1..], c)
  }

  /** Number of marked squares. */
  function Occupied(b: Board): (k: nat)
    ensures k <= |b|
    ensures k == 0 <==> forall i :: 0 <= i < |b| ==> b[i] == Empty
  {
    |b| - Count(b, Empty)
  }

  /** Overwriting one square changes the count of `c` by what was removed and what was written. */
  lemma {:induction false} CountUpdate(b: Board, k: int, v: Cell, c: Cell)
    requires 0 <= k < |b|
    ensures Count(b[k := v], c) == Count(b, c) - (if b[k] == c then 1 else 0) + (if v == c then 1 else 0)
    decreases |b|
  {
    if k == 0 {
      assert b[k := v][1..] == b[1..];
    } else {
      assert b[k := v][1..] == b[1..][k - 1 := v];
      CountUpdate(b[1..], k - 1, v, c);
    }
  }

  /** Marking an empty square raises the number of marked squares by exactly one. */
  lemma MarkingOccupies(b: Board, k: int, v: Cell)
    requires 0 <= k < |b| && b[k] == Empty && v != Empty
    ensures Occupied(b[k := v]) == Occupied(b) + 1
  {
    CountUpdate(b, k, v, Empty);
  }

  /** The board a game starts from: n * n squares, none of them marked. */
  function CreateBoard(n: nat): (b: Board)
    ensures IsBoard(n, b)
    ensures Occupied(b) == 0
  {
    seq(n * n, _ => Empty)
  }
}
