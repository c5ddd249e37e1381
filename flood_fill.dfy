/** `revealCellRecursive`: reveal a cell and, when it has no mined
    neighbour, every neighbour in turn. Each call works on a copy of the
    board and hands the updated copy on to the next neighbour. */
module FloodFill {
  import opened GameData
  import opened Grid
  import opened Adjacency

  /** Two square boards of the same side. */
  predicate Shaped(b: Board, r: Board)
  {
    Square(b) && Square(r) && |r| == |b|
  }

  /** `r` is `b` with some hidden, unflagged cells revealed: no other cell
      and no other field changes. */
  ghost predicate RevealsOnly(b: Board, r: Board)
  {
    Shaped(b, r) &&
    forall i, j :: 0 <= i < |b| && 0 <= j < |b| ==>
      r[i][j] == b[i][j] ||
      (!b[i][j].isRevealed && !b[i][j].isFlagged && r[i][j] == b[i][j].(isRevealed := true))
  }

  /** The call at (x, y) does something: the cell is on the board, hidden
      and not flagged. */
  predicate Eligible(b: Board, x: int, y: int)
    requires Square(b)
  {
    InBounds(b, x, y) && !b[x][y].isRevealed && !b[x][y].isFlagged
  }

  /** (i, j) was hidden in `b` and is revealed in `r`. */
  ghost predicate Newly(b: Board, r: Board, i: int, j: int)
    requires Shaped(b, r)
  {
    InBounds(b, i, j) && !b[i][j].isRevealed && r[i][j].isRevealed
  }

  /** A newly revealed cell whose count is 0 has all its neighbours
      revealed or flagged, except possibly the cell (x, y). */
  ghost predicate ClosedExcept(b: Board, r: Board, x: int, y: int)
    requires Shaped(b, r)
  {
    forall i, j, ni, nj ::
      Newly(b, r, i, j) && (i != x || j != y) && r[i][j].adjacentMines == 0 &&
      InBounds(b, ni, nj) && Adjacent(i, j, ni, nj)
      ==> r[ni][nj].isRevealed || r[ni][nj].isFlagged
  }

  /** The fill leaves no gap: every newly revealed cell with no mined
      neighbour has all its neighbours revealed or flagged. */
  ghost predicate Closed(b: Board, r: Board)
    requires Shaped(b, r)
  {
    forall i, j, ni, nj ::
      Newly(b, r, i, j) && r[i][j].adjacentMines == 0 &&
      InBounds(b, ni, nj) && Adjacent(i, j, ni, nj)
      ==> r[ni][nj].isRevealed || r[ni][nj].isFlagged
  }

  /** A path the fill can take on `b` from (x, y): every cell on it is
      hidden and unflagged, and each step goes from a cell with no mined
      neighbour to one of its neighbours. */
  ghost predicate FillPath(b: Board, p: seq<(int, int)>, x: int, y: int)
    requires Square(b)
  {
    |p| > 0 && p[0] == (x, y) &&
    (forall k :: 0 <= k < |p| ==> Eligible(b, p[k].0, p[k].1)) &&
    (forall k :: 0 < k < |p| ==> FillStep(b, p[k - 1], p[k]))
  }

  /** One step of a fill path: from a zero-count cell to a neighbour. */
  ghost predicate FillStep(b: Board, from: (int, int), to: (int, int))
    requires Square(b)
  {
    InBounds(b, from.0, from.1) && b[from.0][from.1].adjacentMines == 0 &&
    Adjacent(from.0, from.1, to.0, to.1)
  }

  /** (i, j) ends some fill path from (x, y). */
  ghost predicate Reachable(b: Board, x: int, y: int, i: int, j: int)
    requires Square(b)
  {
    exists p :: FillPath(b, p, x, y) && p[|p| - 1] == (i, j)
  }

  /** The fill oversteps nothing: every newly revealed cell is reachable
      from (x, y). */
  ghost predicate Reached(b: Board, r: Board, x: int, y: int)
    requires Shaped(b, r)
  {
    forall i, j :: Newly(b, r, i, j) ==> Reachable(b, x, y, i, j)
  }

  /** The neighbours of (x, y) before offset (dxEnd, dyEnd), in the order
      of the two loops, are revealed or flagged. */
  ghost predicate NeighboursDone(r: Board, x: int, y: int, dxEnd: int, dyEnd: int)
    requires Square(r)
  {
    forall ni, nj ::
      InBounds(r, ni, nj) && Adjacent(x, y, ni, nj) &&
      (ni - x < dxEnd || (ni - x == dxEnd && nj - y < dyEnd))
      ==> r[ni][nj].isRevealed || r[ni][nj].isFlagged
  }

  /** The state of the neighbour loops of the call at (x, y) on `b`. */
  ghost predicate Progress(b: Board, m: Board, x: int, y: int)
  {
    RevealsOnly(b, m) && InBounds(b, x, y) &&
    !b[x][y].isRevealed && !b[x][y].isFlagged && b[x][y].adjacentMines == 0 &&
    m[x][y] == b[x][y].(isRevealed := true) &&
    ClosedExcept(b, m, x, y) && Reached(b, m, x, y)
  }

  /** Each effective call hides one cell fewer: the measure of the
      recursion. */
  lemma UnrevealedShrinks(b: Board, r: Board, x: int, y: int)
    requires RevealsOnly(b, r) && Newly(b, r, x, y)
    ensures Unrevealed(r) < Unrevealed(b)
    ensures |Unrevealed(r)| < |Unrevealed(b)|
  {
    var ub, ur := Unrevealed(b), Unrevealed(r);
    assert ur <= ub;
    assert (x, y) in ub - ur;
    assert ub == ur + (ub - ur);
    DisjointUnionCard(ur, ub - ur);
  }

  lemma RevealsOnlyTrans(a: Board, b: Board, c: Board)
    requires RevealsOnly(a, b) && RevealsOnly(b, c)
    ensures RevealsOnly(a, c)
  {
  }

  /** A recursive call from a neighbour keeps the closure of every cell
      revealed so far. */
  lemma ClosedExceptStep(b: Board, m: Board, m': Board, x: int, y: int)
    requires RevealsOnly(b, m) && RevealsOnly(m, m')
    requires ClosedExcept(b, m, x, y) && Closed(m, m')
    ensures ClosedExcept(b, m', x, y)
  {
    forall i, j, ni, nj |
      Newly(b, m', i, j) && (i != x || j != y) && m'[i][j].adjacentMines == 0 &&
      InBounds(b, ni, nj) && Adjacent(i, j, ni, nj)
      ensures m'[ni][nj].isRevealed || m'[ni][nj].isFlagged
    {
      if m[i][j].isRevealed {
        assert Newly(b, m, i, j);
        assert m[ni][nj].isRevealed || m[ni][nj].isFlagged;
      } else {
        assert Newly(m, m', i, j);
      }
    }
  }

  /** A fill path on a board with more cells revealed is a fill path on
      the original board, and it extends backwards by one step to a
      zero-count start next to it. */
  lemma PathTransfer(b: Board, m: Board, p: seq<(int, int)>, x: int, y: int, nx: int, ny: int)
    requires RevealsOnly(b, m) && FillPath(m, p, nx, ny)
    requires Eligible(b, x, y) && b[x][y].adjacentMines == 0 && Adjacent(x, y, nx, ny)
    ensures FillPath(b, [(x, y)] + p, x, y)
  {
    var q := [(x, y)] + p;
    forall k | 0 <= k < |q| ensures Eligible(b, q[k].0, q[k].1) {
      if k > 0 {
        assert q[k] == p[k - 1] && Eligible(m, p[k - 1].0, p[k - 1].1);
      }
    }
    forall k | 0 < k < |q| ensures FillStep(b, q[k - 1], q[k]) {
      if k > 1 {
        assert q[k - 1] == p[k - 2] && q[k] == p[k - 1];
        assert FillStep(m, p[k - 2], p[k - 1]);
        assert Eligible(m, p[k - 2].0, p[k - 2].1);
      }
    }
  }

  /** A recursive call from a neighbour (nx, ny) of the zero-count start
      reveals only cells reachable from the start. */
  lemma ReachedStep(b: Board, m: Board, m': Board, x: int, y: int, nx: int, ny: int)
    requires RevealsOnly(b, m) && RevealsOnly(m, m')
    requires Eligible(b, x, y) && b[x][y].adjacentMines == 0 && Adjacent(x, y, nx, ny)
    requires Reached(b, m, x, y) && Reached(m, m', nx, ny)
    ensures Reached(b, m', x, y)
  {
    forall i, j | Newly(b, m', i, j)
      ensures Reachable(b, x, y, i, j)
    {
      if m[i][j].isRevealed {
        assert Newly(b, m, i, j);
      } else {
        assert Newly(m, m', i, j);
        var p: seq<(int, int)> :| FillPath(m, p, nx, ny) && p[|p| - 1] == (i, j);
        PathTransfer(b, m, p, x, y, nx, ny);
        var q := [(x, y)] + p;
        assert q[|q| - 1] == (i, j);
      }
    }
  }

  /** The start alone is reachable from itself. */
  lemma StartReached(b: Board, r: Board, x: int, y: int)
    requires Square(b) && Eligible(b, x, y)
    requires r == b[x := b[x][y := b[x][y].(isRevealed := true)]]
    ensures RevealsOnly(b, r) && Newly(b, r, x, y) && Reached(b, r, x, y)
  {
    assert FillPath(b, [(x, y)], x, y);
  }

  /** Revealed and flagged cells stay so, hence finished neighbours stay
      finished; the neighbour just handled joins them. */
  lemma DoneStep(m: Board, m': Board, x: int, y: int, dx: int, dy: int)
    requires RevealsOnly(m, m') && NeighboursDone(m, x, y, dx, dy)
    requires InBounds(m, x + dx, y + dy) ==> m'[x + dx][y + dy].isRevealed || m'[x + dx][y + dy].isFlagged
    ensures NeighboursDone(m', x, y, dx, dy + 1)
  {
  }

  lemma ProgressStep(b: Board, m: Board, m': Board, x: int, y: int, nx: int, ny: int)
    requires Progress(b, m, x, y) && Adjacent(x, y, nx, ny)
    requires RevealsOnly(m, m') && Closed(m, m') && Reached(m, m', nx, ny)
    ensures Progress(b, m', x, y)
  {
    RevealsOnlyTrans(b, m, m');
    ClosedExceptStep(b, m, m', x, y);
    ReachedStep(b, m, m', x, y, nx, ny);
  }

  /** The loop state after the call on the neighbour (nx, ny) at offset
      (dx, dy). */
  lemma NeighbourStep(b: Board, m: Board, m': Board, x: int, y: int, dx: int, dy: int, nx: int, ny: int)
    requires nx == x + dx && ny == y + dy && !(dx == 0 && dy == 0) && -1 <= dx <= 1 && -1 <= dy <= 1
    requires Progress(b, m, x, y) && NeighboursDone(m, x, y, dx, dy)
    requires RevealsOnly(m, m') && Closed(m, m') && Reached(m, m', nx, ny)
    requires InBounds(m, nx, ny) ==> m'[nx][ny].isRevealed || m'[nx][ny].isFlagged
    ensures Progress(b, m', x, y) && NeighboursDone(m', x, y, dx, dy + 1)
  {
    ProgressStep(b, m, m', x, y, nx, ny);
    DoneStep(m, m', x, y, dx, dy);
  }

  /** Once every neighbour of the zero-count start is finished, the fill
      is closed everywhere. */
  lemma ProgressClosed(b: Board, m: Board, x: int, y: int)
    requires Progress(b, m, x, y) && NeighboursDone(m, x, y, 2, -1)
    ensures Closed(b, m)
  {
  }

  /** The Kotlin function on a copy of the board. The two loops walk the
      offsets in the source's order; the source's copy-back loop copies
      every cell of the returned board, which is assigning it whole. */
  method RevealCellRecursive(board: Board, x: int, y: int) returns (r: Board)
    requires Square(board)
    ensures RevealsOnly(board, r)
    ensures !Eligible(board, x, y) ==> r == board
    ensures Eligible(board, x, y) ==> Newly(board, r, x, y)
    ensures InBounds(board, x, y) ==> r[x][y].isRevealed || r[x][y].isFlagged
    ensures Eligible(board, x, y) && board[x][y].adjacentMines != 0 ==>
      r == board[x := board[x][y := board[x][y].(isRevealed := true)]]
    ensures Closed(board, r)
    ensures Reached(board, r, x, y)
    ensures forall i, j :: Newly(board, r, i, j) <==> Reachable(board, x, y, i, j)
    decreases |Unrevealed(board)|
  {
    var size := |board|;
    if x < 0 || x >= size || y < 0 || y >= size {
      FillExact(board, board, x, y);
      return board;
    }
    var cell := board[x][y];
    if cell.isRevealed || cell.isFlagged {
      FillExact(board, board, x, y);
      return board;
    }
    var mutableBoard := board[x := board[x][y := cell.(isRevealed := true)]];
    StartReached(board, mutableBoard, x, y);
    if cell.adjacentMines == 0 {
      for dx := -1 to 2
        invariant Progress(board, mutableBoard, x, y)
        invariant NeighboursDone(mutableBoard, x, y, dx, -1)
      {
        for dy := -1 to 2
          invariant Progress(board, mutableBoard, x, y)
          invariant NeighboursDone(mutableBoard, x, y, dx, dy)
        {
          if dx == 0 && dy == 0 {
            continue;
          }
          var nx, ny := x + dx, y + dy;
          if 0 <= nx < size && 0 <= ny < size {
            assert Newly(board, mutableBoard, x, y);
            UnrevealedShrinks(board, mutableBoard, x, y);
            var updatedBoard := RevealCellRecursive(mutableBoard, nx, ny);
            NeighbourStep(board, mutableBoard, updatedBoard, x, y, dx, dy, nx, ny);
            mutableBoard := updatedBoard;
          }
        }
      }
      ProgressClosed(board, mutableBoard, x, y);
    }
    r := mutableBoard;
    FillExact(board, r, x, y);
  }

  /** Every cell on a fill path from a revealed start is revealed by a
      closed fill: induction on the length of the path. */
  lemma {:induction false} ClosedReaches(b: Board, r: Board, x: int, y: int, p: seq<(int, int)>)
    requires RevealsOnly(b, r) && Closed(b, r) && Newly(b, r, x, y)
    requires FillPath(b, p, x, y)
    ensures Newly(b, r, p[|p| - 1].0, p[|p| - 1].1)
    decreases |p|
  {
    if |p| > 1 {
      var q := p[..|p| - 1];
      assert FillPath(b, q, x, y) by {
        forall k | 0 <= k < |q| ensures Eligible(b, q[k].0, q[k].1) {
          assert q[k] == p[k];
        }
        forall k | 0 < k < |q| ensures FillStep(b, q[k - 1], q[k]) {
          assert q[k - 1] == p[k - 1] && q[k] == p[k];
        }
      }
      ClosedReaches(b, r, x, y, q);
      var from, to := p[|p| - 2], p[|p| - 1];
      assert FillStep(b, from, to) && Eligible(b, to.0, to.1);
      assert r[from.0][from.1].adjacentMines == 0;
      assert r[to.0][to.1].isRevealed;
    }
  }

  /** A closed fill that reveals only reachable cells, and the start when
      it can, reveals exactly the cells reachable from the start. */
  lemma FillExact(b: Board, r: Board, x: int, y: int)
    requires RevealsOnly(b, r) && Closed(b, r) && Reached(b, r, x, y)
    requires Eligible(b, x, y) ==> Newly(b, r, x, y)
    ensures forall i, j :: Newly(b, r, i, j) <==> Reachable(b, x, y, i, j)
  {
    forall i, j | Reachable(b, x, y, i, j)
      ensures Newly(b, r, i, j)
    {
      var p: seq<(int, int)> :| FillPath(b, p, x, y) && p[|p| - 1] == (i, j);
      assert Eligible(b, p[0].0, p[0].1);
      ClosedReaches(b, r, x, y, p);
    }
  }

  /** The fill never passes a flag: a start whose neighbours are all
      revealed or flagged reaches only itself. */
  lemma EnclosedStart(b: Board, x: int, y: int, i: int, j: int)
    requires Square(b)
    requires forall ni, nj :: InBounds(b, ni, nj) && Adjacent(x, y, ni, nj) ==>
      b[ni][nj].isRevealed || b[ni][nj].isFlagged
    requires Reachable(b, x, y, i, j)
    ensures i == x && j == y
  {
    var p: seq<(int, int)> :| FillPath(b, p, x, y) && p[|p| - 1] == (i, j);
    if |p| > 1 {
      FirstStep(b, p, x, y);
    }
  }

  /** The second cell of a fill path is a hidden, unflagged neighbour of
      the start. */
  lemma FirstStep(b: Board, p: seq<(int, int)>, x: int, y: int)
    requires Square(b) && FillPath(b, p, x, y) && |p| > 1
    ensures Adjacent(x, y, p[1].0, p[1].1) && Eligible(b, p[1].0, p[1].1)
  {
    assert FillStep(b, p[0], p[1]);
  }

  /** With correct counts, a fill path from a safe cell meets no mine:
      every cell after the start neighbours a cell showing zero. */
  lemma ReachableSafe(b: Board, x: int, y: int, i: int, j: int)
    requires Square(b) && CountsCorrect(b) && InBounds(b, x, y) && !b[x][y].hasMine
    requires Reachable(b, x, y, i, j)
    ensures InBounds(b, i, j) && !b[i][j].hasMine
  {
    var p: seq<(int, int)> :| FillPath(b, p, x, y) && p[|p| - 1] == (i, j);
    assert Eligible(b, p[|p| - 1].0, p[|p| - 1].1);
    if |p| > 1 {
      var from := p[|p| - 2];
      assert FillStep(b, from, p[|p| - 1]);
      HitCounted(b, from.0, from.1, i, j);
    }
  }

  /** Revealing cells moves no mine. */
  lemma RevealsOnlyKeepsMines(b: Board, r: Board)
    requires RevealsOnly(b, r)
    ensures Mined(r) == Mined(b)
  {
    assert SameMines(b, r);
    SameMinesKeep(b, r);
  }

  /** Safety: with correct counts, a fill started on a safe cell reveals no
      mine, because it reveals only reachable cells. */
  lemma FillRevealsNoMine(b: Board, r: Board, x: int, y: int)
    requires RevealsOnly(b, r) && Reached(b, r, x, y)
    requires CountsCorrect(b) && InBounds(b, x, y) && !b[x][y].hasMine
    ensures forall i, j :: Newly(b, r, i, j) ==> !r[i][j].hasMine
  {
    forall i, j | Newly(b, r, i, j)
      ensures !r[i][j].hasMine
    {
      ReachableSafe(b, x, y, i, j);
    }
  }

  function Abs(n: int): nat
  {
    if n < 0 then -n else n
  }

  /** On an untouched board where every count is 0, a closed
      fill from (x, y) reaches every cell: induction on the distance from
      the start. */
  lemma {:induction false} ClosedFillReaches(b: Board, r: Board, x: int, y: int, i: int, j: int)
    requires RevealsOnly(b, r) && Closed(b, r)
    requires forall a, c :: 0 <= a < |b| && 0 <= c < |b| ==>
      !b[a][c].isRevealed && !b[a][c].isFlagged && b[a][c].adjacentMines == 0
    requires InBounds(b, x, y) && r[x][y].isRevealed
    requires InBounds(b, i, j)
    ensures r[i][j].isRevealed
    decreases Abs(i - x) + Abs(j - y)
  {
    if i != x || j != y {
      var pi := if i < x then i + 1 else if i > x then i - 1 else i;
      var pj := if j < y then j + 1 else if j > y then j - 1 else j;
      ClosedFillReaches(b, r, x, y, pi, pj);
      assert Newly(b, r, pi, pj) && Adjacent(pi, pj, i, j);
    }
  }

  /** Without mines and with correct counts every cell shows zero, so a
      closed fill started anywhere on an untouched board reveals it all. */
  lemma MineFreeFillReachesAll(b: Board, r: Board, x: int, y: int)
    requires RevealsOnly(b, r) && Closed(b, r)
    requires Untouched(b) && MineFree(b) && CountsCorrect(b)
    requires InBounds(b, x, y) && r[x][y].isRevealed
    ensures forall i, j :: 0 <= i < |r| && 0 <= j < |r| ==> r[i][j].isRevealed
  {
    forall a, c | 0 <= a < |b| && 0 <= c < |b|
      ensures b[a][c].adjacentMines == 0
    {
      if NeighbourMines(b, a, c) > 0 {
        CountWitnessed(b, a, c);
      }
    }
    forall i, j | 0 <= i < |r| && 0 <= j < |r|
      ensures r[i][j].isRevealed
    {
      ClosedFillReaches(b, r, x, y, i, j);
    }
  }
}
