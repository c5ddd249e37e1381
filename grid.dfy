/** Shape, neighbourhood and counting notions shared by the engine.
    A board is square: `board.size` is the side used for both indices. */
module Grid {
  import opened GameData

  predicate Square(b: Board)
  {
    forall i :: 0 <= i < |b| ==> |b[i]| == |b|
  }

  predicate InBounds(b: Board, x: int, y: int)
  {
    0 <= x < |b| && 0 <= y < |b|
  }

  /** (nx, ny) is one of the up to eight Moore neighbours of (x, y). */
  predicate Adjacent(x: int, y: int, nx: int, ny: int)
  {
    (nx != x || ny != y) && -1 <= nx - x <= 1 && -1 <= ny - y <= 1
  }

  predicate SameShape(a: Board, b: Board)
  {
    |a| == |b| && forall i :: 0 <= i < |a| ==> |a[i]| == |b[i]|
  }

  /** Two disjoint sets: the size of the union is the sum of the sizes. */
  lemma DisjointUnionCard<T>(a: set<T>, b: set<T>)
    requires a !! b
    ensures |a + b| == |a| + |b|
  {
    assert a * b == {};
  }

  /** The positions of the hidden cells. */
  function Unrevealed(b: Board): set<(int, int)>
    requires Square(b)
  {
    set x, y | 0 <= x < |b| && 0 <= y < |b| && !b[x][y].isRevealed :: (x, y)
  }

  /** The positions of the mined cells. */
  function Mined(b: Board): set<(int, int)>
    requires Square(b)
  {
    set x, y | 0 <= x < |b| && 0 <= y < |b| && b[x][y].hasMine :: (x, y)
  }

  predicate MineFree(b: Board)
    requires Square(b)
  {
    forall x, y :: 0 <= x < |b| && 0 <= y < |b| ==> !b[x][y].hasMine
  }

  /** No cell has been revealed or flagged yet. */
  predicate Untouched(b: Board)
    requires Square(b)
  {
    forall x, y :: 0 <= x < |b| && 0 <= y < |b| ==> !b[x][y].isRevealed && !b[x][y].isFlagged
  }

  /** The cells of the board, column after column (`flatten()`). */
  function Flatten(b: Board): seq<Cell>
  {
    if b == [] then [] else b[0] + Flatten(b[1..])
  }

  /** `count { !it.hasMine }` */
  function CountSafe(cells: seq<Cell>): nat
  {
    if cells == [] then 0
    else (if cells[0].hasMine then 0 else 1) + CountSafe(cells[1..])
  }

  /** `count { it.isRevealed && !it.hasMine }` */
  function CountRevealedSafe(cells: seq<Cell>): nat
  {
    if cells == [] then 0
    else (if cells[0].isRevealed && !cells[0].hasMine then 1 else 0) + CountRevealedSafe(cells[1..])
  }

  /** `flatten().all { it.hasMine || it.isRevealed }`: the winning condition. */
  predicate AllCleared(b: Board)
  {
    forall c :: c in Flatten(b) ==> c.hasMine || c.isRevealed
  }

  lemma {:induction false} InFlatten(b: Board, i: int, j: int)
    requires 0 <= i < |b| && 0 <= j < |b[i]|
    ensures b[i][j] in Flatten(b)
  {
    if i > 0 {
      InFlatten(b[1..], i - 1, j);
    }
  }

  lemma {:induction false} FromFlatten(b: Board, c: Cell)
    requires c in Flatten(b)
    ensures exists i, j :: 0 <= i < |b| && 0 <= j < |b[i]| && b[i][j] == c
  {
    if c !in b[0] {
      FromFlatten(b[1..], c);
      var i, j :| 0 <= i < |b[1..]| && 0 <= j < |b[1..][i]| && b[1..][i][j] == c;
      assert b[i + 1][j] == c;
    } else {
      var j :| 0 <= j < |b[0]| && b[0][j] == c;
      assert b[0][j] == c;
    }
  }

  /** The winning condition holds exactly when every cell is mined or revealed. */
  lemma AllClearedIff(b: Board)
    ensures AllCleared(b) <==>
      forall i, j :: 0 <= i < |b| && 0 <= j < |b[i]| ==> b[i][j].hasMine || b[i][j].isRevealed
  {
    if AllCleared(b) {
      forall i, j | 0 <= i < |b| && 0 <= j < |b[i]|
        ensures b[i][j].hasMine || b[i][j].isRevealed
      {
        InFlatten(b, i, j);
      }
    }
    if forall i, j :: 0 <= i < |b| && 0 <= j < |b[i]| ==> b[i][j].hasMine || b[i][j].isRevealed {
      forall c | c in Flatten(b)
        ensures c.hasMine || c.isRevealed
      {
        FromFlatten(b, c);
      }
    }
  }

  /** When every cell is mined or revealed, every safe cell is a revealed one. */
  lemma {:induction false} ClearedCounts(cells: seq<Cell>)
    requires forall c :: c in cells ==> c.hasMine || c.isRevealed
    ensures CountRevealedSafe(cells) == CountSafe(cells)
  {
    if cells != [] {
      ClearedCounts(cells[1..]);
    }
  }

  /** Never more revealed safe cells than safe cells. */
  lemma {:induction false} RevealedSafeAtMostSafe(cells: seq<Cell>)
    ensures CountRevealedSafe(cells) <= CountSafe(cells)
  {
    if cells != [] {
      RevealedSafeAtMostSafe(cells[1..]);
    }
  }

  /** A safe cell anywhere makes the safe count positive. */
  lemma {:induction false} SafeCellCounted(cells: seq<Cell>, c: Cell)
    requires c in cells && !c.hasMine
    ensures CountSafe(cells) > 0
  {
    if cells[0] != c {
      SafeCellCounted(cells[1..], c);
    }
  }
}
