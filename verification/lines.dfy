/** The runs of five squares that `calculateWinner` tests, listed in the order it builds them,
    and their meaning on the grid: every in-bounds run of five in one of four directions. */
module Lines {
  import opened Board

  /** The four directions a line is listed in: left to right, top to bottom,
      down-right and down-left. */
  datatype Direction = Horizontal | Vertical | Diagonal | AntiDiagonal

  function RowStep(d: Direction): int {
    if d == Horizontal then 0 else 1
  }

  function ColStep(d: Direction): int {
    match d
    case Horizontal => 1
    case Vertical => 0
    case Diagonal => 1
    case AntiDiagonal => -1
  }

  /** A line is the list of the board indices of its squares. */
  type Line = seq<int>

  /** The guards of the enumeration: at loop position (i, j) a line in direction `d` is listed
      only when it fits; the down-left line of position (i, j) starts in column n - 1 - j. */
  predicate Listed(n: nat, d: Direction, i: int, j: int) {
    && 0 <= i < n && 0 <= j < n
    && match d
       case Horizontal => j <= n - 5
       case Vertical => i <= n - 5
       case Diagonal => i <= n - 5 && j <= n - 5
       case AntiDiagonal => i <= n - 5 && j <= n - 5
  }

  /** The five indices pushed for loop position (i, j) in direction `d`, written as the game writes them. */
  function LineAt(n: nat, d: Direction, i: int, j: int): Line {
    match d
    case Horizontal =>
      [i * n + j, i * n + j + 1, i * n + j + 2, i * n + j + 3, i * n + j + 4]
    case Vertical =>
      [i * n + j, (i + 1) * n + j, (i + 2) * n + j, (i + 3) * n + j, (i + 4) * n + j]
    case Diagonal =>
      [i * n + j, (i + 1) * n + (j + 1), (i + 2) * n + (j + 2), (i + 3) * n + (j + 3), (i + 4) * n + (j + 4)]
    case AntiDiagonal =>
      [i * n + (n - 1 - j), (i + 1) * n + (n - 2 - j), (i + 2) * n + (n - 3 - j), (i + 3) * n + (n - 4 - j), (i + 4) * n + (n - 5 - j)]
  }

  /** The lines pushed at loop position (i, j): horizontal, vertical, then both diagonals. */
  function PushedAt(n: nat, i: int, j: int): seq<Line> {
    (if Listed(n, Horizontal, i, j) then [LineAt(n, Horizontal, i, j)] else [])
    + (if Listed(n, Vertical, i, j) then [LineAt(n, Vertical, i, j)] else [])
    + (if Listed(n, Diagonal, i, j) then [LineAt(n, Diagonal, i, j), LineAt(n, AntiDiagonal, i, j)] else [])
  }

  /** The lines pushed by the inner loop of row i, from column j on. */
  function RowLines(n: nat, i: int, j: nat): seq<Line>
    decreases n - j
  {
    if j >= n then [] else PushedAt(n, i, j) + RowLines(n, i, j + 1)
  }

  /** The lines pushed by the outer loop from row i on. */
  function LinesFrom(n: nat, i: nat): seq<Line>
    decreases n - i
  {
    if i >= n then [] else RowLines(n, i, 0) + LinesFrom(n, i + 1)
  }

  /** Every line `calculateWinner` tests, in the order it tests them. */
  function AllLines(n: nat): seq<Line> {
    LinesFrom(n, 0)
  }

  // ----- geometry -----

  /** Index of the t-th square of the run of five starting at (row, col) in direction `d`. */
  function RunIndex(n: nat, row: int, col: int, d: Direction, t: int): int {
    (row + t * RowStep(d)) * n + (col + t * ColStep(d))
  }

  /** The run of five squares starting at (row, col) in direction `d`. */
  function Run(n: nat, row: int, col: int, d: Direction): Line {
    seq(5, t => RunIndex(n, row, col, d, t))
  }

  /** The run starting at (row, col) in direction `d` lies entirely on the grid. */
  predicate Fits(n: nat, row: int, col: int, d: Direction) {
    InGrid(n, row, col) && InGrid(n, row + 4 * RowStep(d), col + 4 * ColStep(d))
  }

  /** The column where the line of loop position (i, j) starts. */
  function StartCol(n: nat, d: Direction, j: int): int {
    if d == AntiDiagonal then n - 1 - j else j
  }

  /** A line as listed is five consecutive squares in its direction, starting at row i and
      column StartCol; the down-left line starts at column n - 1 - j and steps one row down and
      one column left. */
  lemma LineAtIsRun(n: nat, d: Direction, i: int, j: int)
    ensures LineAt(n, d, i, j) == Run(n, i, StartCol(n, d, j), d)
  {
  }

  /** The guards list a line exactly when its run lies on the grid. */
  lemma ListedIffFits(n: nat, d: Direction, i: int, j: int)
    ensures Listed(n, d, i, j) <==> Fits(n, i, StartCol(n, d, j), d)
  {
  }

  /** All five indices of a run that fits lie on the board. */
  lemma RunOnBoard(n: nat, row: int, col: int, d: Direction)
    requires Fits(n, row, col, d)
    ensures forall t :: 0 <= t < 5 ==> 0 <= Run(n, row, col, d)[t] < n * n
  {
    forall t | 0 <= t < 5
      ensures 0 <= Run(n, row, col, d)[t] < n * n
    {
      IndexInRange(n, row + t * RowStep(d), col + t * ColStep(d));
    }
  }

  // ----- membership -----

  lemma PushedAtMembers(n: nat, i: int, j: int, l: Line)
    ensures l in PushedAt(n, i, j) <==> ListedLine(n, i, j, l)
  {
  }

  /** The lines listed at loop position (i, j) in some direction. */
  ghost predicate ListedLine(n: nat, i: int, j: int, l: Line) {
    exists d :: Listed(n, d, i, j) && l == LineAt(n, d, i, j)
  }

  lemma {:induction false} RowLinesMembers(n: nat, i: int, j0: nat, l: Line)
    ensures l in RowLines(n, i, j0) <==> exists j :: j0 <= j && ListedLine(n, i, j, l)
    decreases n - j0
  {
    if j0 < n {
      assert RowLines(n, i, j0) == PushedAt(n, i, j0) + RowLines(n, i, j0 + 1);
      PushedAtMembers(n, i, j0, l);
      RowLinesMembers(n, i, j0 + 1, l);
      if exists j :: j0 <= j && ListedLine(n, i, j, l) {
        var j :| j0 <= j && ListedLine(n, i, j, l);
        if j == j0 {
          assert l in PushedAt(n, i, j0);
        } else {
          assert l in RowLines(n, i, j0 + 1);
        }
      }
    }
  }

  lemma ListedLineInGrid(n: nat, i: int, j: int, l: Line)
    requires ListedLine(n, i, j, l)
    ensures InGrid(n, i, j)
  {
  }

  lemma {:induction false} LinesFromMembers(n: nat, i0: nat, l: Line)
    ensures l in LinesFrom(n, i0) <==> exists i, j :: i0 <= i && ListedLine(n, i, j, l)
    decreases n - i0
  {
    if i0 < n {
      assert LinesFrom(n, i0) == RowLines(n, i0, 0) + LinesFrom(n, i0 + 1);
      RowLinesMembers(n, i0, 0, l);
      LinesFromMembers(n, i0 + 1, l);
      if l in RowLines(n, i0, 0) {
        var j :| 0 <= j && ListedLine(n, i0, j, l);
        assert i0 <= i0 && ListedLine(n, i0, j, l);
      }
      if exists i, j :: i0 <= i && ListedLine(n, i, j, l) {
        var i, j :| i0 <= i && ListedLine(n, i, j, l);
        ListedLineInGrid(n, i, j, l);
        if i == i0 {
          assert 0 <= j && ListedLine(n, i0, j, l);
        } else {
          assert i0 + 1 <= i && ListedLine(n, i, j, l);
        }
      }
    }
  }

  /** The enumeration lists exactly the lines its guards admit, at every loop position. */
  lemma AllLinesMembers(n: nat, l: Line)
    ensures l in AllLines(n) <==> exists d, i, j :: Listed(n, d, i, j) && l == LineAt(n, d, i, j)
  {
    LinesFromMembers(n, 0, l);
    if exists d, i, j :: Listed(n, d, i, j) && l == LineAt(n, d, i, j) {
      var d, i, j :| Listed(n, d, i, j) && l == LineAt(n, d, i, j);
      assert 0 <= i && ListedLine(n, i, j, l);
    }
  }

  /** The lines tested are exactly the runs of five that lie on the grid, in the four directions. */
  lemma AllLinesAreRuns(n: nat, l: Line)
    ensures l in AllLines(n) <==> exists row, col, d :: Fits(n, row, col, d) && l == Run(n, row, col, d)
  {
    AllLinesMembers(n, l);
    if l in AllLines(n) {
      var d, i, j :| Listed(n, d, i, j) && l == LineAt(n, d, i, j);
      ListedIffFits(n, d, i, j);
      LineAtIsRun(n, d, i, j);
      assert Fits(n, i, StartCol(n, d, j), d) && l == Run(n, i, StartCol(n, d, j), d);
    }
    if exists row, col, d :: Fits(n, row, col, d) && l == Run(n, row, col, d) {
      var row, col, d :| Fits(n, row, col, d) && l == Run(n, row, col, d);
      var j := if d == AntiDiagonal then n - 1 - col else col;
      assert StartCol(n, d, j) == col;
      ListedIffFits(n, d, row, j);
      LineAtIsRun(n, d, row, j);
      assert Listed(n, d, row, j) && l == LineAt(n, d, row, j);
    }
  }

  /** Every line tested has five indices, all inside an n-by-n board. */
  lemma AllLinesOnBoard(n: nat, l: Line)
    requires l in AllLines(n)
    ensures |l| == 5
    ensures forall t :: 0 <= t < 5 ==> 0 <= l[t] < n * n
  {
    AllLinesAreRuns(n, l);
    var row, col, d :| Fits(n, row, col, d) && l == Run(n, row, col, d);
    RunOnBoard(n, row, col, d);
  }
}
