/** The state the game keeps between clicks: the list of board snapshots (`history`) and the
    index of the snapshot shown and played on (`currentMove`), with the click, jump and reset
    updates. The grid is n by n; the game plays on n = BoardSize. */
module Game {
  import opened Wrappers
  import opened Board
  import opened Winner
  import opened Move

  datatype Game = Game(history: seq<Board>, currentMove: nat)

  /** Every snapshot is a full board and the cursor points at one of them. */
  predicate WellFormed(n: nat, g: Game) {
    && |g.history| > 0
    && g.currentMove < |g.history|
    && forall k :: 0 <= k < |g.history| ==> IsBoard(n, g.history[k])
  }

  /** The mark played at move number `k`: X on even moves, O on odd ones. */
  function MarkFor(k: nat): (c: Cell)
    ensures c != Empty
    ensures c == X <==> k % 2 == 0
  {
    if k % 2 == 0 then X else O
  }

  /** The snapshot the cursor points at. */
  function CurrentSquares(n: nat, g: Game): (b: Board)
    requires WellFormed(n, g)
    ensures IsBoard(n, b)
  {
    g.history[g.currentMove]
  }

  /** The mark the next click places. */
  function NextMark(g: Game): Cell {
    MarkFor(g.currentMove)
  }

  /** Snapshot `after` follows `before` as move number `k`: `before` had no winner and
      `after` is `before` with one empty square given move k's mark. */
  ghost predicate IsPlay(n: nat, before: Board, after: Board, k: nat) {
    && CalculateWinner(n, before) == Empty
    && exists t :: 0 <= t < |before| && before[t] == Empty && after == before[t := MarkFor(k)]
  }

  /** The states the game can reach: the first snapshot is the empty board, each later one
      is a legal move from the one before, and no snapshot has a floating mark. */
  ghost predicate Valid(n: nat, g: Game) {
    && WellFormed(n, g)
    && g.history[0] == CreateBoard(n)
    && (forall k :: 0 <= k < |g.history| - 1 ==> IsPlay(n, g.history[k], g.history[k + 1], k))
    && (forall k :: 0 <= k < |g.history| ==> Settled(n, g.history[k]))
  }

  /** The state a game starts in: one empty board, cursor on it. */
  function NewGame(n: nat): (g: Game)
    ensures Valid(n, g)
    ensures |g.history| == 1 && g.currentMove == 0 && Occupied(CurrentSquares(n, g)) == 0
  {
    Game([CreateBoard(n)], 0)
  }

  /** Cut the history back to the cursor, append `b` and move the cursor onto it. */
  function Commit(n: nat, g: Game, b: Board): (r: Game)
    requires WellFormed(n, g) && IsBoard(n, b)
    ensures WellFormed(n, r)
    ensures |r.history| == g.currentMove + 2
    ensures r.currentMove == |r.history| - 1
    ensures forall k :: 0 <= k <= g.currentMove ==> r.history[k] == g.history[k]
    ensures CurrentSquares(n, r) == b
  {
    Game(g.history[..g.currentMove + 1] + [b], g.currentMove + 1)
  }

  /** A click on square `i`: drop the next mark into that square's column, or leave the
      state as it is when the column is full or the current board already has a winner. */
  function HandleClick(n: nat, g: Game, i: nat): (r: Game)
    requires n > 0 && WellFormed(n, g)
    ensures WellFormed(n, r)
    ensures r == g <==>
      || IsColumnFull(n, CurrentSquares(n, g), ColumnOf(n, i))
      || CalculateWinner(n, CurrentSquares(n, g)) != Empty
    ensures r != g ==>
      && |r.history| == g.currentMove + 2
      && r.currentMove == |r.history| - 1
      && (forall k :: 0 <= k <= g.currentMove ==> r.history[k] == g.history[k])
      && (exists row :: DropTarget(n, CurrentSquares(n, g), ColumnOf(n, i), row)
           && CurrentSquares(n, r) == Placed(n, CurrentSquares(n, g), row, ColumnOf(n, i), NextMark(g)))
  {
    match Drop(n, CurrentSquares(n, g), i, NextMark(g))
    case Failure(_) => g
    case Success(next) => Commit(n, g, next)
  }

  /** Move the cursor to snapshot `m`; the history is untouched. */
  function JumpTo(n: nat, g: Game, m: nat): (r: Game)
    requires WellFormed(n, g) && m < |g.history|
    ensures WellFormed(n, r)
    ensures r.history == g.history && r.currentMove == m
    ensures Valid(n, g) ==> Valid(n, r)
  {
    g.(currentMove := m)
  }

  /** Start over: one empty board, cursor on it, whatever the state was. */
  function ResetGame(n: nat, g: Game): (r: Game)
    ensures Valid(n, r)
    ensures |r.history| == 1 && r.currentMove == 0 && Occupied(CurrentSquares(n, r)) == 0
  {
    NewGame(n)
  }

  // ----- properties of the updates -----

  /** A click keeps the state reachable. */
  lemma HandleClickKeepsValid(n: nat, g: Game, i: nat)
    requires n > 0 && Valid(n, g)
    ensures Valid(n, HandleClick(n, g, i))
  {
    var r := HandleClick(n, g, i);
    if r != g {
      var cur := CurrentSquares(n, g);
      var col := ColumnOf(n, i);
      var m := g.currentMove;
      var row :| DropTarget(n, cur, col, row)
        && CurrentSquares(n, r) == Placed(n, cur, row, col, NextMark(g));
      IndexInRange(n, row, col);
      var t := row * n + col;
      assert cur[t] == Empty;
      assert r.history[m + 1] == cur[t := MarkFor(m)];
      assert CalculateWinner(n, cur) == Empty;
      assert IsPlay(n, r.history[m], r.history[m + 1], m);
      forall k | 0 <= k < |r.history| - 1
        ensures IsPlay(n, r.history[k], r.history[k + 1], k)
      {
        if k < m {
          assert IsPlay(n, g.history[k], g.history[k + 1], k);
        }
      }
      DropKeepsSettled(n, cur, col, row, NextMark(g));
      forall k | 0 <= k < |r.history|
        ensures Settled(n, r.history[k])
      {
        if k <= m {
          assert Settled(n, g.history[k]);
        }
      }
    }
  }

  /** A successful click marks exactly one more square. */
  lemma HandleClickMarksOneSquare(n: nat, g: Game, i: nat)
    requires n > 0 && WellFormed(n, g) && HandleClick(n, g, i) != g
    ensures Occupied(CurrentSquares(n, HandleClick(n, g, i))) == Occupied(CurrentSquares(n, g)) + 1
  {
    var cur := CurrentSquares(n, g);
    var col := ColumnOf(n, i);
    var row :| DropTarget(n, cur, col, row)
      && CurrentSquares(n, HandleClick(n, g, i)) == Placed(n, cur, row, col, NextMark(g));
    DropChangesOneSquare(n, cur, i, NextMark(g), row);
  }

  /** Once the current board has a winner, no click changes the state. */
  lemma WonGameIgnoresClicks(n: nat, g: Game, i: nat)
    requires n > 0 && WellFormed(n, g) && CalculateWinner(n, CurrentSquares(n, g)) != Empty
    ensures HandleClick(n, g, i) == g
  {
  }

  /** Jumping back to where a click was made shows the board the click was made on. */
  lemma JumpBackRestores(n: nat, g: Game, i: nat)
    requires n > 0 && WellFormed(n, g)
    ensures g.currentMove < |HandleClick(n, g, i).history|
    ensures CurrentSquares(n, JumpTo(n, HandleClick(n, g, i), g.currentMove)) == CurrentSquares(n, g)
    ensures NextMark(JumpTo(n, HandleClick(n, g, i), g.currentMove)) == NextMark(g)
  {
  }

  /** A click after jumping back to snapshot `m` keeps snapshots 0..m and discards the rest. */
  lemma ClickAfterJumpDiscardsFuture(n: nat, g: Game, m: nat, i: nat)
    requires n > 0 && WellFormed(n, g) && m < |g.history|
    ensures var r := HandleClick(n, JumpTo(n, g, m), i);
      r.history == g.history || (|r.history| == m + 2 && r.history[..m + 1] == g.history[..m + 1])
  {
    var r := HandleClick(n, JumpTo(n, g, m), i);
    if r.history != g.history {
      assert r.history[..m + 1] == g.history[..m + 1];
    }
  }

  /** In a reachable state snapshot k has k marked squares, (k + 1) / 2 of them X and k / 2 of them O. */
  lemma {:induction false} SnapshotCounts(n: nat, g: Game, k: nat)
    requires Valid(n, g) && k < |g.history|
    ensures Occupied(g.history[k]) == k
    ensures Count(g.history[k], X) == (k + 1) / 2
    ensures Count(g.history[k], O) == k / 2
    decreases k
  {
    if k == 0 {
      EmptyBoardCounts(g.history[0]);
    } else {
      SnapshotCounts(n, g, k - 1);
      var before := g.history[k - 1];
      assert IsPlay(n, before, g.history[k], k - 1);
      var t :| 0 <= t < |before| && before[t] == Empty && g.history[k] == before[t := MarkFor(k - 1)];
      PlayCounts(before, t, k - 1);
    }
  }

  lemma EmptyBoardCounts(b: Board)
    requires Occupied(b) == 0
    ensures Count(b, X) == 0 && Count(b, O) == 0
  {
  }

  /** Move number k, played on a board that holds the counts of snapshot k, yields the counts
      of snapshot k + 1. */
  lemma PlayCounts(b: Board, t: int, k: nat)
    requires 0 <= t < |b| && b[t] == Empty
    requires Occupied(b) == k && Count(b, X) == (k + 1) / 2 && Count(b, O) == k / 2
    ensures Occupied(b[t := MarkFor(k)]) == k + 1
    ensures Count(b[t := MarkFor(k)], X) == (k + 2) / 2
    ensures Count(b[t := MarkFor(k)], O) == (k + 1) / 2
  {
    MarkingOccupies(b, t, MarkFor(k));
    CountUpdate(b, t, MarkFor(k), X);
    CountUpdate(b, t, MarkFor(k), O);
  }

  /** In a reachable state the turn can be read off the board: X is next exactly when the
      shown snapshot holds as many X marks as O marks. */
  lemma NextMarkFromBoard(n: nat, g: Game)
    requires Valid(n, g)
    ensures NextMark(g) == X <==> Count(CurrentSquares(n, g), X) == Count(CurrentSquares(n, g), O)
  {
    SnapshotCounts(n, g, g.currentMove);
  }

  /** A reachable history never holds more snapshots than the board has squares plus one. */
  lemma HistoryBounded(n: nat, g: Game)
    requires Valid(n, g)
    ensures |g.history| <= n * n + 1
  {
    SnapshotCounts(n, g, |g.history| - 1);
  }

  /** On the game's own 5-by-5 grid a reachable history holds at most 26 snapshots. */
  lemma GameHistoryBounded(g: Game)
    requires Valid(BoardSize, g)
    ensures |g.history| <= 26
  {
    HistoryBounded(BoardSize, g);
  }

  /** In a reachable state at most one player has five in a row on any snapshot, so the winner
      reported is the owner of any five-in-a-row, whatever order the lines are scanned in. */
  lemma WinnerIsOwner(n: nat, g: Game, k: nat, p: Cell, row: int, col: int, d: Lines.Direction)
    requires Valid(n, g) && k < |g.history|
    requires p != Empty && FiveInRow(n, g.history[k], p, row, col, d)
    ensures CalculateWinner(n, g.history[k]) == p
  {
    var b := g.history[k];
    if k == 0 {
      NoFiveOnEmptyBoard(n, b, p, row, col, d);
      assert false;
    } else {
      var before := g.history[k - 1];
      assert IsPlay(n, before, b, k - 1);
      var t :| 0 <= t < |before| && before[t] == Empty && b == before[t := MarkFor(k - 1)];
      NoWinnerIffNoFive(n, before);
      forall q, r, c, e | q != Empty && FiveInRow(n, b, q, r, c, e)
        ensures q == MarkFor(k - 1)
      {
        NewFiveThroughMark(n, before, t, MarkFor(k - 1), q, r, c, e);
      }
      SoleOwnerWins(n, b, p, row, col, d);
    }
  }
}
