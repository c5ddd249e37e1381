/** `MineGenerator.placeMines`: random positions are drawn into a set until
    it holds `mineCount` of them, then each drawn cell is mined. The random
    source is a parameter: `draws` is the sequence of positions that
    `Random.nextInt(size)` would produce, in order. */
module MineGenerator {
  import opened GameData
  import opened Grid

  type Pos = (int, int)

  /** What `Random.nextInt(size)` guarantees for both coordinates. */
  predicate InRange(p: Pos, size: int)
  {
    0 <= p.0 < size && 0 <= p.1 < size
  }

  predicate AllInRange(draws: seq<Pos>, size: int)
  {
    forall k :: 0 <= k < |draws| ==> InRange(draws[k], size)
  }

  /** The distinct positions among the draws. */
  function Distinct(draws: seq<Pos>): set<Pos>
  {
    set k | 0 <= k < |draws| :: draws[k]
  }

  /** The set the draw loop ends with when it starts from `acc` and has the
      draws `draws` still to come: it stops as soon as the set holds `count`
      positions. */
  function Collect(draws: seq<Pos>, acc: set<Pos>, count: int): set<Pos>
    decreases |draws|
  {
    if |acc| >= count || draws == [] then acc
    else Collect(draws[1..], acc + {draws[0]}, count)
  }

  /** The mine positions chosen from the draws. */
  function Drawn(draws: seq<Pos>, count: int): set<Pos>
  {
    Collect(draws, {}, count)
  }

  lemma SubsetCard<T>(a: set<T>, b: set<T>)
    requires a <= b
    ensures |a| <= |b|
  {
    assert b == a + (b - a);
    DisjointUnionCard(a, b - a);
  }

  /** The loop collects exactly `count` positions when the draws offer
      enough distinct ones, and only positions that were drawn. */
  lemma {:induction false} CollectCard(draws: seq<Pos>, acc: set<Pos>, count: int)
    requires |acc| <= count <= |acc + Distinct(draws)|
    ensures |Collect(draws, acc, count)| == count
    ensures Collect(draws, acc, count) <= acc + Distinct(draws)
    decreases |draws|
  {
    if |acc| >= count {
    } else if draws == [] {
      assert false;
    } else {
      var acc' := acc + {draws[0]};
      assert acc' + Distinct(draws[1..]) == acc + Distinct(draws) by {
        forall p | p in acc + Distinct(draws) ensures p in acc' + Distinct(draws[1..]) {
          if p !in acc && p != draws[0] {
            var k :| 0 <= k < |draws| && draws[k] == p;
            assert draws[1..][k - 1] == p;
          }
        }
        forall p | p in Distinct(draws[1..]) ensures p in Distinct(draws) {
          var k :| 0 <= k < |draws[1..]| && draws[1..][k] == p;
          assert draws[k + 1] == p;
        }
      }
      assert |acc'| <= |acc| + 1 by {
        if draws[0] !in acc {
          DisjointUnionCard(acc, {draws[0]});
        } else {
          assert acc' == acc;
        }
      }
      CollectCard(draws[1..], acc', count);
    }
  }

  /** All positions of a side-`n` board. */
  function AllPositions(n: nat): set<Pos>
  {
    set x, y | 0 <= x < n && 0 <= y < n :: (x, y)
  }

  function Column(x: int, n: nat): set<Pos>
  {
    set y | 0 <= y < n :: (x, y)
  }

  function Columns(m: nat, n: nat): set<Pos>
  {
    set x, y | 0 <= x < m && 0 <= y < n :: (x, y)
  }

  lemma {:induction false} ColumnCard(x: int, n: nat)
    ensures |Column(x, n)| == n
  {
    if n > 0 {
      ColumnCard(x, n - 1);
      assert Column(x, n) == Column(x, n - 1) + {(x, n - 1)};
      DisjointUnionCard(Column(x, n - 1), {(x, n - 1)});
    }
  }

  lemma ColumnsSplit(m: nat, n: nat)
    requires m > 0
    ensures Columns(m, n) == Columns(m - 1, n) + Column(m - 1, n)
    ensures Columns(m - 1, n) !! Column(m - 1, n)
  {
    forall p | p in Columns(m, n) ensures p in Columns(m - 1, n) + Column(m - 1, n) {
      if p.0 < m - 1 {
        assert p in Columns(m - 1, n);
      } else {
        assert p in Column(m - 1, n);
      }
    }
  }

  lemma MulPred(m: int, n: int)
    ensures (m - 1) * n + n == m * n
  {
  }

  lemma {:induction false} ColumnsCard(m: nat, n: nat)
    ensures |Columns(m, n)| == m * n
  {
    if m > 0 {
      ColumnsCard(m - 1, n);
      ColumnCard(m - 1, n);
      ColumnsSplit(m, n);
      DisjointUnionCard(Columns(m - 1, n), Column(m - 1, n));
      MulPred(m, n);
    }
  }

  /** A side-`n` board has `n * n` positions, so no more than that many
      distinct in-range draws exist: the loop can only finish when
      `mineCount <= size * size`. */
  lemma InRangeBound(draws: seq<Pos>, size: nat)
    requires AllInRange(draws, size)
    ensures |Distinct(draws)| <= size * size
  {
    ColumnsCard(size, size);
    assert Distinct(draws) <= Columns(size, size);
    SubsetCard(Distinct(draws), Columns(size, size));
  }

  /** The chosen positions: exactly `mineCount` of them, distinct by being a
      set, each on the board. */
  lemma DrawnProperties(draws: seq<Pos>, mineCount: int, size: nat)
    requires AllInRange(draws, size)
    requires mineCount <= |Distinct(draws)|
    ensures |Drawn(draws, mineCount)| == if mineCount < 0 then 0 else mineCount
    ensures forall p :: p in Drawn(draws, mineCount) ==> InRange(p, size)
    ensures mineCount <= size * size
  {
    if mineCount >= 0 {
      CollectCard(draws, {}, mineCount);
    }
    InRangeBound(draws, size);
  }

  lemma DistinctExtend(draws: seq<Pos>, i: int)
    requires 0 <= i < |draws|
    ensures Distinct(draws[..i + 1]) == Distinct(draws[..i]) + {draws[i]}
  {
    assert draws[..i + 1] == draws[..i] + [draws[i]];
  }

  /** Mining the cells of `s` on a copy of `board` adds exactly `s` to the
      mined positions. */
  lemma MarkedMined(board: Board, r: Board, s: set<Pos>)
    requires Square(board) && Square(r) && |r| == |board|
    requires forall p :: p in s ==> InRange(p, |board|)
    requires forall a, b :: 0 <= a < |r| && 0 <= b < |r| ==>
      r[a][b] == if (a, b) in s then board[a][b].(hasMine := true) else board[a][b]
    ensures Mined(r) == Mined(board) + s
    ensures MineFree(board) ==> Mined(r) == s
  {
    if MineFree(board) {
      assert Mined(board) == {};
    }
  }

  /** One step of the marking loop: mining the cell at `p` adds `p` to the
      positions already marked. */
  lemma MarkStep(board: Board, m: Board, m': Board, done: set<Pos>, p: Pos)
    requires Square(board) && Square(m) && |m| == |board| && InRange(p, |board|)
    requires forall a, b :: 0 <= a < |m| && 0 <= b < |m| ==>
      m[a][b] == if (a, b) in done then board[a][b].(hasMine := true) else board[a][b]
    requires m' == m[p.0 := m[p.0][p.1 := m[p.0][p.1].(hasMine := true)]]
    ensures Square(m') && |m'| == |board|
    ensures forall a, b :: 0 <= a < |m'| && 0 <= b < |m'| ==>
      m'[a][b] == if (a, b) in done + {p} then board[a][b].(hasMine := true) else board[a][b]
  {
  }

  /** The draw loop: positions are drawn into a set until it holds
      `mineCount` of them. The caller must offer enough distinct draws for
      the loop to finish. */
  method DrawPositions(draws: seq<Pos>, mineCount: int) returns (positions: set<Pos>)
    requires mineCount <= |Distinct(draws)|
    ensures positions == Drawn(draws, mineCount)
  {
    positions := {};
    var i := 0;
    while |positions| < mineCount
      invariant 0 <= i <= |draws|
      invariant positions == Distinct(draws[..i])
      invariant Collect(draws[i..], positions, mineCount) == Drawn(draws, mineCount)
      decreases |draws| - i
    {
      // The draws cannot be exhausted before enough distinct ones were seen.
      assert draws[..|draws|] == draws;
      assert i < |draws|;
      assert draws[i..][1..] == draws[i + 1..];
      DistinctExtend(draws, i);
      positions := positions + {draws[i]};
      i := i + 1;
    }
  }

  /** The marking loop: every chosen cell of a copy of the board gets a
      mine, in whatever order the set yields them. */
  method MarkMines(board: Board, positions: set<Pos>) returns (r: Board)
    requires Square(board)
    requires forall p :: p in positions ==> InRange(p, |board|)
    ensures Square(r) && |r| == |board|
    ensures forall i, j :: 0 <= i < |r| && 0 <= j < |r| ==>
      r[i][j] == if (i, j) in positions then board[i][j].(hasMine := true) else board[i][j]
    ensures Mined(r) == Mined(board) + positions
    ensures MineFree(board) ==> Mined(r) == positions
  {
    var size := |board|;
    var mutableBoard := board;
    var rest := positions;
    while rest != {}
      invariant rest <= positions
      invariant Square(mutableBoard) && |mutableBoard| == size
      invariant forall a, b :: 0 <= a < size && 0 <= b < size ==>
        mutableBoard[a][b] == if (a, b) in positions - rest then board[a][b].(hasMine := true) else board[a][b]
      decreases rest
    {
      var p :| p in rest;
      var x, y := p.0, p.1;
      ghost var before := mutableBoard;
      mutableBoard := mutableBoard[x := mutableBoard[x][y := mutableBoard[x][y].(hasMine := true)]];
      MarkStep(board, before, mutableBoard, positions - rest, p);
      assert positions - (rest - {p}) == (positions - rest) + {p};
      rest := rest - {p};
    }
    r := mutableBoard;
    MarkedMined(board, r, positions);
  }

  /** `placeMines`: the draw loop, then the marking loop. */
  method PlaceMines(board: Board, mineCount: int, draws: seq<Pos>) returns (r: Board)
    requires Square(board)
    requires AllInRange(draws, |board|)
    requires mineCount <= |Distinct(draws)|
    ensures Square(r) && |r| == |board|
    ensures forall i, j :: 0 <= i < |r| && 0 <= j < |r| ==>
      r[i][j] == if (i, j) in Drawn(draws, mineCount) then board[i][j].(hasMine := true) else board[i][j]
    ensures Mined(r) == Mined(board) + Drawn(draws, mineCount)
    ensures MineFree(board) ==> |Mined(r)| == if mineCount < 0 then 0 else mineCount
  {
    var positions := DrawPositions(draws, mineCount);
    DrawnProperties(draws, mineCount, |board|);
    r := MarkMines(board, positions);
  }
}
