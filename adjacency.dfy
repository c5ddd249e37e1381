/** `calculateAdjacentMines`: every cell learns how many of its Moore
    neighbours, clipped at the edges, hold a mine. */
module Adjacency {
  import opened GameData
  import opened Grid

  /** 1 when the offset (dx, dy) from (x, y) is a neighbour on the board
      that holds a mine; the offset (0, 0) never counts. */
  function Hit(b: Board, x: int, y: int, dx: int, dy: int): nat
    requires Square(b)
  {
    var nx, ny := x + dx, y + dy;
    if !(dx == 0 && dy == 0) && 0 <= nx < |b| && 0 <= ny < |b| && b[nx][ny].hasMine then 1 else 0
  }

  /** The hits of the offsets (dx, -1), ..., (dx, dyEnd - 1). The board's
      size in the measure keeps the verifier from unfolding a count whose
      bound is a constant all at once. */
  function RowHits(b: Board, x: int, y: int, dx: int, dyEnd: int): nat
    requires Square(b) && -1 <= dyEnd <= 2
    decreases dyEnd + 1, |b|
  {
    if dyEnd == -1 then 0 else RowHits(b, x, y, dx, dyEnd - 1) + Hit(b, x, y, dx, dyEnd - 1)
  }

  /** The hits of every offset whose dx lies in [-1, dxEnd). */
  function HitsBefore(b: Board, x: int, y: int, dxEnd: int): nat
    requires Square(b) && -1 <= dxEnd <= 2
    decreases dxEnd + 1, |b|
  {
    if dxEnd == -1 then 0 else HitsBefore(b, x, y, dxEnd - 1) + RowHits(b, x, y, dxEnd - 1, 2)
  }

  /** The number of mined Moore neighbours of (x, y). */
  function NeighbourMines(b: Board, x: int, y: int): nat
    requires Square(b)
  {
    HitsBefore(b, x, y, 2)
  }

  /** Every cell's count is the number of its mined neighbours. */
  predicate CountsCorrect(b: Board)
    requires Square(b)
  {
    forall x, y :: 0 <= x < |b| && 0 <= y < |b| ==> b[x][y].adjacentMines == NeighbourMines(b, x, y)
  }

  /** One column of offsets: the three hits at dx. */
  lemma RowHitsUnfold(b: Board, x: int, y: int, dx: int)
    requires Square(b)
    ensures RowHits(b, x, y, dx, 2) == Hit(b, x, y, dx, -1) + Hit(b, x, y, dx, 0) + Hit(b, x, y, dx, 1)
  {
    assert RowHits(b, x, y, dx, -1) == 0;
    assert RowHits(b, x, y, dx, 0) == Hit(b, x, y, dx, -1);
    assert RowHits(b, x, y, dx, 1) == RowHits(b, x, y, dx, 0) + Hit(b, x, y, dx, 0);
  }

  /** The count is the sum of its three columns. */
  lemma NeighbourMinesUnfold(b: Board, x: int, y: int)
    requires Square(b)
    ensures NeighbourMines(b, x, y) ==
      RowHits(b, x, y, -1, 2) + RowHits(b, x, y, 0, 2) + RowHits(b, x, y, 1, 2)
  {
    assert HitsBefore(b, x, y, -1) == 0;
    assert HitsBefore(b, x, y, 0) == RowHits(b, x, y, -1, 2);
    assert HitsBefore(b, x, y, 1) == HitsBefore(b, x, y, 0) + RowHits(b, x, y, 0, 2);
    assert HitsBefore(b, x, y, 2) == HitsBefore(b, x, y, 1) + RowHits(b, x, y, 1, 2);
  }

  /** A cell has at most eight mined neighbours. */
  lemma NeighbourMinesAtMostEight(b: Board, x: int, y: int)
    requires Square(b)
    ensures 0 <= NeighbourMines(b, x, y) <= 8
  {
    NeighbourMinesUnfold(b, x, y);
    RowHitsUnfold(b, x, y, -1);
    RowHitsUnfold(b, x, y, 0);
    RowHitsUnfold(b, x, y, 1);
    assert Hit(b, x, y, 0, 0) == 0;
  }

  /** A single mined neighbour already makes the count positive, so a zero
      count means that no neighbour holds a mine. */
  lemma HitCounted(b: Board, x: int, y: int, nx: int, ny: int)
    requires Square(b) && InBounds(b, nx, ny) && Adjacent(x, y, nx, ny)
    ensures b[nx][ny].hasMine ==> NeighbourMines(b, x, y) > 0
  {
    var dx, dy := nx - x, ny - y;
    assert Hit(b, x, y, dx, dy) == (if b[nx][ny].hasMine then 1 else 0);
    RowHitsUnfold(b, x, y, dx);
    NeighbourMinesUnfold(b, x, y);
  }

  /** A positive count is witnessed by a mined neighbour on the board. */
  lemma CountWitnessed(b: Board, x: int, y: int)
    requires Square(b) && NeighbourMines(b, x, y) > 0
    ensures exists nx, ny :: InBounds(b, nx, ny) && Adjacent(x, y, nx, ny) && b[nx][ny].hasMine
  {
    NeighbourMinesUnfold(b, x, y);
    var dx :| -1 <= dx <= 1 && RowHits(b, x, y, dx, 2) > 0;
    RowHitsUnfold(b, x, y, dx);
    var dy :| -1 <= dy <= 1 && Hit(b, x, y, dx, dy) > 0;
    assert InBounds(b, x + dx, y + dy) && Adjacent(x, y, x + dx, y + dy) && b[x + dx][y + dy].hasMine;
  }

  /** The count depends only on where the mines are. */
  lemma SameMinesSameCount(a: Board, b: Board, x: int, y: int)
    requires Square(a) && Square(b) && |a| == |b|
    requires forall i, j :: 0 <= i < |a| && 0 <= j < |a| ==> a[i][j].hasMine == b[i][j].hasMine
    ensures NeighbourMines(a, x, y) == NeighbourMines(b, x, y)
  {
    forall dx, dy ensures Hit(a, x, y, dx, dy) == Hit(b, x, y, dx, dy) {
    }
    forall dx ensures RowHits(a, x, y, dx, 2) == RowHits(b, x, y, dx, 2) {
      RowHitsUnfold(a, x, y, dx);
      RowHitsUnfold(b, x, y, dx);
    }
    NeighbourMinesUnfold(a, x, y);
    NeighbourMinesUnfold(b, x, y);
  }

  /** Reference definition: the set of mined Moore neighbours on the board. */
  function MinedNeighbours(b: Board, x: int, y: int): set<(int, int)>
    requires Square(b)
  {
    set nx, ny | 0 <= nx < |b| && 0 <= ny < |b| && Adjacent(x, y, nx, ny) && b[nx][ny].hasMine :: (nx, ny)
  }

  /** The positions hit by the offsets (dx, -1), ..., (dx, dyEnd - 1). */
  function RowHitSet(b: Board, x: int, y: int, dx: int, dyEnd: int): set<(int, int)>
    requires Square(b)
  {
    set dy | -1 <= dy < dyEnd && Hit(b, x, y, dx, dy) == 1 :: (x + dx, y + dy)
  }

  /** The positions hit by every offset whose dx lies in [-1, dxEnd). */
  function HitSetBefore(b: Board, x: int, y: int, dxEnd: int): set<(int, int)>
    requires Square(b)
  {
    set dx, dy | -1 <= dx < dxEnd && -1 <= dy < 2 && Hit(b, x, y, dx, dy) == 1 :: (x + dx, y + dy)
  }

  lemma {:induction false} RowHitsCard(b: Board, x: int, y: int, dx: int, dyEnd: int)
    requires Square(b) && -1 <= dyEnd <= 2
    ensures |RowHitSet(b, x, y, dx, dyEnd)| == RowHits(b, x, y, dx, dyEnd)
    decreases dyEnd + 1
  {
    if dyEnd == -1 {
      assert RowHitSet(b, x, y, dx, dyEnd) == {};
    } else {
      RowHitsCard(b, x, y, dx, dyEnd - 1);
      var prev := RowHitSet(b, x, y, dx, dyEnd - 1);
      var p := (x + dx, y + dyEnd - 1);
      if Hit(b, x, y, dx, dyEnd - 1) == 1 {
        assert RowHitSet(b, x, y, dx, dyEnd) == prev + {p};
        assert p !in prev;
      } else {
        assert RowHitSet(b, x, y, dx, dyEnd) == prev;
      }
    }
  }

  /** The offsets of column dxEnd - 1 extend those of the columns before it. */
  lemma HitSetSplit(b: Board, x: int, y: int, dxEnd: int)
    requires Square(b) && 0 <= dxEnd <= 2
    ensures HitSetBefore(b, x, y, dxEnd) == HitSetBefore(b, x, y, dxEnd - 1) + RowHitSet(b, x, y, dxEnd - 1, 2)
    ensures HitSetBefore(b, x, y, dxEnd - 1) !! RowHitSet(b, x, y, dxEnd - 1, 2)
  {
    var prev := HitSetBefore(b, x, y, dxEnd - 1);
    var row := RowHitSet(b, x, y, dxEnd - 1, 2);
    var cur := HitSetBefore(b, x, y, dxEnd);
    forall p | p in cur ensures p in prev + row {
      var dx, dy :| -1 <= dx < dxEnd && -1 <= dy < 2 && Hit(b, x, y, dx, dy) == 1 && p == (x + dx, y + dy);
      if dx < dxEnd - 1 {
        assert p in prev;
      } else {
        assert p in row;
      }
    }
    forall p | p in prev ensures p in cur && p.0 < x + dxEnd - 1 {
      var dx, dy :| -1 <= dx < dxEnd - 1 && -1 <= dy < 2 && Hit(b, x, y, dx, dy) == 1 && p == (x + dx, y + dy);
    }
    forall p | p in row ensures p in cur && p.0 == x + dxEnd - 1 {
      var dy :| -1 <= dy < 2 && Hit(b, x, y, dxEnd - 1, dy) == 1 && p == (x + dxEnd - 1, y + dy);
    }
  }

  lemma {:induction false} HitsBeforeCard(b: Board, x: int, y: int, dxEnd: int)
    requires Square(b) && -1 <= dxEnd <= 2
    ensures |HitSetBefore(b, x, y, dxEnd)| == HitsBefore(b, x, y, dxEnd)
    decreases dxEnd + 1
  {
    if dxEnd == -1 {
      assert HitSetBefore(b, x, y, dxEnd) == {};
    } else {
      var prev := HitSetBefore(b, x, y, dxEnd - 1);
      var row := RowHitSet(b, x, y, dxEnd - 1, 2);
      HitsBeforeCard(b, x, y, dxEnd - 1);
      RowHitsCard(b, x, y, dxEnd - 1, 2);
      HitSetSplit(b, x, y, dxEnd);
      DisjointUnionCard(prev, row);
    }
  }

  /** The counted total is exactly the number of mined neighbours. */
  lemma NeighbourMinesIsCard(b: Board, x: int, y: int)
    requires Square(b)
    ensures NeighbourMines(b, x, y) == |MinedNeighbours(b, x, y)|
  {
    HitsBeforeCard(b, x, y, 2);
    var hs := HitSetBefore(b, x, y, 2);
    var mn := MinedNeighbours(b, x, y);
    forall p | p in mn ensures p in hs {
      var dx, dy := p.0 - x, p.1 - y;
      assert Hit(b, x, y, dx, dy) == 1;
    }
    assert hs == mn;
  }

  /** `r` is `b` with at most the counts changed. */
  predicate OnlyCountsDiffer(b: Board, r: Board)
  {
    |r| == |b| && Square(b) && Square(r) &&
    forall i, j :: 0 <= i < |r| && 0 <= j < |r| ==> r[i][j] == b[i][j].(adjacentMines := r[i][j].adjacentMines)
  }

  /** Two boards with their mines in the same cells. */
  predicate SameMines(a: Board, b: Board)
  {
    Square(a) && Square(b) && |a| == |b| &&
    forall i, j :: 0 <= i < |a| && 0 <= j < |a| ==> a[i][j].hasMine == b[i][j].hasMine
  }

  /** Boards with the same mines have the same mined set, and the same
      counts are correct on both. */
  lemma SameMinesKeep(a: Board, b: Board)
    requires SameMines(a, b)
    ensures Mined(a) == Mined(b)
    ensures CountsCorrect(a) &&
      (forall i, j :: 0 <= i < |a| && 0 <= j < |a| ==> a[i][j].adjacentMines == b[i][j].adjacentMines)
      ==> CountsCorrect(b)
  {
    forall p | p in Mined(a) ensures p in Mined(b) {
      assert a[p.0][p.1].hasMine == b[p.0][p.1].hasMine;
    }
    forall p | p in Mined(b) ensures p in Mined(a) {
      assert a[p.0][p.1].hasMine == b[p.0][p.1].hasMine;
    }
    if CountsCorrect(a) &&
      (forall i, j :: 0 <= i < |a| && 0 <= j < |a| ==> a[i][j].adjacentMines == b[i][j].adjacentMines)
    {
      forall i, j | 0 <= i < |b| && 0 <= j < |b|
        ensures b[i][j].adjacentMines == NeighbourMines(b, i, j)
      {
        SameMinesSameCount(a, b, i, j);
      }
    }
  }

  lemma OnlyCountsKeepMines(b: Board, r: Board)
    requires OnlyCountsDiffer(b, r)
    ensures Mined(r) == Mined(b)
    ensures forall i, j :: 0 <= i < |r| && 0 <= j < |r| ==> r[i][j].hasMine == b[i][j].hasMine
  {
    assert SameMines(b, r);
    SameMinesKeep(b, r);
  }

  /** A board whose every count was set from `b` keeps the mines of `b`
      and has correct counts. */
  lemma CountsFilled(b: Board, r: Board)
    requires Square(b) && Square(r) && |r| == |b|
    requires forall i, j :: 0 <= i < |r| && 0 <= j < |r| ==>
      r[i][j] == b[i][j].(adjacentMines := NeighbourMines(b, i, j))
    ensures OnlyCountsDiffer(b, r) && Mined(r) == Mined(b)
    ensures CountsCorrect(r)
    ensures forall i, j :: 0 <= i < |r| && 0 <= j < |r| ==> 0 <= r[i][j].adjacentMines <= 8
  {
    assert OnlyCountsDiffer(b, r);
    OnlyCountsKeepMines(b, r);
    forall i, j | 0 <= i < |r| && 0 <= j < |r|
      ensures r[i][j].adjacentMines == NeighbourMines(r, i, j)
      ensures 0 <= r[i][j].adjacentMines <= 8
    {
      SameMinesSameCount(r, b, i, j);
      NeighbourMinesAtMostEight(b, i, j);
    }
  }

  /** The loop body of `calculateAdjacentMines` for one cell: the counter
      runs over dx and dy in -1..1, skipping the cell itself. */
  method CountAdjacentMines(board: Board, x: int, y: int) returns (count: nat)
    requires Square(board)
    ensures count == NeighbourMines(board, x, y)
  {
    var size := |board|;
    count := 0;
    for dx := -1 to 2
      invariant count == HitsBefore(board, x, y, dx)
    {
      for dy := -1 to 2
        invariant count == HitsBefore(board, x, y, dx) + RowHits(board, x, y, dx, dy)
      {
        if dx == 0 && dy == 0 {
          continue;
        }
        var nx, ny := x + dx, y + dy;
        if 0 <= nx < size && 0 <= ny < size && board[nx][ny].hasMine {
          count := count + 1;
        }
      }
    }
  }

  /** Copies the board cell by cell, setting each count; the shape, the
      coordinates, the mines and the reveal and flag states are kept. */
  method CalculateAdjacentMines(board: Board) returns (r: Board)
    requires Square(board)
    ensures Square(r) && |r| == |board|
    ensures forall i, j :: 0 <= i < |r| && 0 <= j < |r| ==>
      r[i][j] == board[i][j].(adjacentMines := NeighbourMines(board, i, j))
    ensures OnlyCountsDiffer(board, r) && Mined(r) == Mined(board)
    ensures CountsCorrect(r)
    ensures forall i, j :: 0 <= i < |r| && 0 <= j < |r| ==> 0 <= r[i][j].adjacentMines <= 8
  {
    var size := |board|;
    r := [];
    for x := 0 to size
      invariant |r| == x
      invariant forall i :: 0 <= i < x ==> |r[i]| == size
      invariant forall i, j :: 0 <= i < x && 0 <= j < size ==>
        r[i][j] == board[i][j].(adjacentMines := NeighbourMines(board, i, j))
    {
      var row: seq<Cell> := [];
      for y := 0 to size
        invariant |row| == y
        invariant forall j :: 0 <= j < y ==>
          row[j] == board[x][j].(adjacentMines := NeighbourMines(board, x, j))
      {
        var count := CountAdjacentMines(board, x, y);
        row := row + [board[x][y].(adjacentMines := count)];
      }
      r := r + [row];
    }
    CountsFilled(board, r);
  }
}
