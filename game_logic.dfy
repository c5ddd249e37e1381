/** `GameLogic`: starting a game, revealing a cell and toggling a flag.
    The clock reading and the random draws the source takes from the
    platform are parameters here. */
module GameLogic {
  import opened GameData
  import opened Grid
  import opened Adjacency
  import opened MineGenerator
  import opened FloodFill
  import opened ScoreSystem

  /** The empty board of side `size`: every cell carries its own
      coordinates and the record's defaults. */
  function InitialBoard(size: nat): (b: Board)
    ensures Square(b) && |b| == size
    ensures MineFree(b) && Untouched(b)
    ensures forall i, j :: 0 <= i < size && 0 <= j < size ==> b[i][j] == NewCell(i, j)
  {
    seq(size, x => seq(size, y => NewCell(x, y)))
  }

  /** The board of a new game: an empty board of side `size`, mines
      placed from the draws, counts filled in. */
  method NewBoard(size: nat, mineCount: int, draws: seq<Pos>) returns (board: Board)
    requires AllInRange(draws, size)
    requires mineCount <= |Distinct(draws)|
    ensures Square(board) && |board| == size
    ensures Untouched(board)
    ensures forall i, j :: 0 <= i < size && 0 <= j < size ==>
      board[i][j].x == i && board[i][j].y == j &&
      (board[i][j].hasMine <==> (i, j) in Drawn(draws, mineCount))
    ensures |Mined(board)| == if mineCount < 0 then 0 else mineCount
    ensures CountsCorrect(board)
  {
    board := InitialBoard(size);
    ghost var empty: Board := board;
    board := PlaceMines(board, mineCount, draws);
    ghost var mined: Board := board;
    board := CalculateAdjacentMines(board);
    NewGameBoard(empty, mined, board, Drawn(draws, mineCount));
  }

  /** `createNewGame`: a new board for the preset, the game in progress
      and the clock started at `now`. */
  method CreateNewGame(difficulty: Difficulty, draws: seq<Pos>, now: int, id: string) returns (s: GameState)
    requires AllInRange(draws, difficulty.BoardSize())
    requires difficulty.MineCount() <= |Distinct(draws)|
    ensures s.difficulty == difficulty && s.status == Ongoing && s.id == id
    ensures s.score == 0 && s.timeElapsed == 0 && s.startTime == Some(now)
    ensures Square(s.board) && |s.board| == difficulty.BoardSize()
    ensures Untouched(s.board)
    ensures forall i, j :: 0 <= i < |s.board| && 0 <= j < |s.board| ==>
      s.board[i][j].x == i && s.board[i][j].y == j &&
      (s.board[i][j].hasMine <==> (i, j) in Drawn(draws, difficulty.MineCount()))
    ensures |Mined(s.board)| == difficulty.MineCount()
    ensures CountsCorrect(s.board)
  {
    var size := difficulty.BoardSize();
    var mineCount := difficulty.MineCount();
    var board := NewBoard(size, mineCount, draws);
    s := GameState(difficulty, board, Ongoing, 0, 0, Some(now), id);
    assert Untouched(s.board) && CountsCorrect(s.board);
  }

  /** The cells of a new game: mined exactly at the chosen positions,
      hidden, unflagged and at their own coordinates. */
  lemma NewGameBoard(empty: Board, mined: Board, board: Board, chosen: set<Pos>)
    requires Square(empty) && forall i, j :: 0 <= i < |empty| && 0 <= j < |empty| ==> empty[i][j] == NewCell(i, j)
    requires Square(mined) && |mined| == |empty|
    requires forall i, j :: 0 <= i < |mined| && 0 <= j < |mined| ==>
      mined[i][j] == if (i, j) in chosen then empty[i][j].(hasMine := true) else empty[i][j]
    requires OnlyCountsDiffer(mined, board)
    ensures Untouched(board)
    ensures forall i, j :: 0 <= i < |board| && 0 <= j < |board| ==>
      board[i][j].x == i && board[i][j].y == j && (board[i][j].hasMine <==> (i, j) in chosen)
  {
  }

  /** Losing: every mined cell is shown, flagged or not; nothing else
      changes. */
  function RevealAllMines(b: Board): (r: Board)
    ensures SameShape(r, b)
    ensures forall i, j :: 0 <= i < |b| && 0 <= j < |b[i]| ==>
      r[i][j].isRevealed == (b[i][j].isRevealed || b[i][j].hasMine) &&
      r[i][j] == b[i][j].(isRevealed := r[i][j].isRevealed)
  {
    seq(|b|, i requires 0 <= i < |b| =>
      seq(|b[i]|, j requires 0 <= j < |b[i]| =>
        if b[i][j].hasMine then b[i][j].(isRevealed := true) else b[i][j]))
  }

  /** Milliseconds since the start; without a start time the source
      subtracts the current time from itself. */
  function Elapsed(startTime: Option<int>, now: int): (t: int)
    ensures startTime == None ==> t == 0
    ensures startTime.Some? ==> startTime.value + t == now
  {
    match startTime
    case None => 0
    case Some(start) => now - start
  }

  /** Nothing happens to a game that is over or to a cell that is already
      shown or flagged. */
  predicate Ignored(s: GameState, x: int, y: int)
    requires s.status == Ongoing ==> 0 <= x < |s.board| && 0 <= y < |s.board[x]|
  {
    s.status != Ongoing || s.board[x][y].isRevealed || s.board[x][y].isFlagged
  }

  /** A win scores the whole time bonus: when every safe cell is revealed
      the completion fraction is one. `(x, y)` is a safe cell, so the
      number of safe cells is positive. */
  lemma WonScore(b: Board, x: int, y: int, t: int, d: Difficulty)
    requires 0 <= x < |b| && 0 <= y < |b[x]| && !b[x][y].hasMine && AllCleared(b)
    ensures CountSafe(Flatten(b)) > 0
    ensures CalculateScore(t, d, CountRevealedSafe(Flatten(b)), CountSafe(Flatten(b))) ==
      TimeBonus(t) * Multiplier(d)
  {
    InFlatten(b, x, y);
    SafeCellCounted(Flatten(b), b[x][y]);
    ClearedCounts(Flatten(b));
  }

  /** `revealCell`. A mine ends the game with every mine shown. Otherwise
      the flood fill reveals the cell and its zero-count region; the game
      is won exactly when every safe cell is shown, and only a win sets
      the score. */
  method RevealCell(s: GameState, x: int, y: int, now: int) returns (r: GameState)
    requires s.status == Ongoing ==> Square(s.board) && InBounds(s.board, x, y)
    ensures Ignored(s, x, y) ==> r == s
    ensures r.difficulty == s.difficulty && r.startTime == s.startTime && r.id == s.id
    // stepping on a mine
    ensures !Ignored(s, x, y) && s.board[x][y].hasMine ==>
      r == s.(board := RevealAllMines(s.board), status := Lost)
    // a safe cell: the board changes by the flood fill only
    ensures !Ignored(s, x, y) && !s.board[x][y].hasMine ==>
      RevealsOnly(s.board, r.board) && Newly(s.board, r.board, x, y) &&
      Closed(s.board, r.board) &&
      forall i, j :: Newly(s.board, r.board, i, j) <==> Reachable(s.board, x, y, i, j)
    ensures !Ignored(s, x, y) && !s.board[x][y].hasMine && s.board[x][y].adjacentMines != 0 ==>
      r.board == s.board[x := s.board[x][y := s.board[x][y].(isRevealed := true)]]
    // the mines never move, and correct counts stay correct
    ensures s.status == Ongoing ==> Square(r.board) && Mined(r.board) == Mined(s.board)
    ensures s.status == Ongoing && CountsCorrect(s.board) ==> CountsCorrect(r.board)
    // with correct counts, a safe reveal shows no mine
    ensures !Ignored(s, x, y) && !s.board[x][y].hasMine && CountsCorrect(s.board) ==>
      forall i, j :: 0 <= i < |r.board| && 0 <= j < |r.board| && r.board[i][j].hasMine ==>
        r.board[i][j].isRevealed == s.board[i][j].isRevealed
    ensures !Ignored(s, x, y) && !s.board[x][y].hasMine ==>
      (r.status == Won <==>
        forall i, j :: 0 <= i < |r.board| && 0 <= j < |r.board| ==>
          r.board[i][j].hasMine || r.board[i][j].isRevealed) &&
      (r.status != Won ==> r.status == Ongoing && r.score == s.score) &&
      (r.status == Won ==> r.score == TimeBonus(r.timeElapsed) * Multiplier(s.difficulty)) &&
      r.timeElapsed == Elapsed(s.startTime, now)
    // one click clears a board without mines
    ensures s.status == Ongoing && Untouched(s.board) && MineFree(s.board) && CountsCorrect(s.board) ==>
      r.status == Won &&
      forall i, j :: 0 <= i < |r.board| && 0 <= j < |r.board| ==> r.board[i][j].isRevealed
  {
    if s.status != Ongoing {
      return s;
    }
    var currentCell := s.board[x][y];
    if currentCell.isRevealed || currentCell.isFlagged {
      return s;
    }
    var newBoard := s.board;
    if currentCell.hasMine {
      newBoard := RevealAllMines(newBoard);
      assert SameMines(s.board, newBoard);
      SameMinesKeep(s.board, newBoard);
      return s.(board := newBoard, status := Lost);
    }

    newBoard := RevealCellRecursive(newBoard, x, y);
    var allNonMineRevealed := AllCleared(newBoard);
    AllClearedIff(newBoard);
    var newStatus := if allNonMineRevealed then Won else s.status;

    var cells := Flatten(newBoard);
    var revealedCells := CountRevealedSafe(cells);
    var totalNonMineCells := CountSafe(cells);
    var timeElapsed := Elapsed(s.startTime, now);

    var score := s.score;
    if newStatus == Won {
      WonScore(newBoard, x, y, timeElapsed, s.difficulty);
      score := CalculateScore(timeElapsed, s.difficulty, revealedCells, totalNonMineCells);
    }
    r := s.(board := newBoard, status := newStatus, score := score, timeElapsed := timeElapsed);

    assert SameMines(s.board, newBoard);
    SameMinesKeep(s.board, newBoard);
    if CountsCorrect(s.board) {
      FillRevealsNoMine(s.board, newBoard, x, y);
    }
    if Untouched(s.board) && MineFree(s.board) && CountsCorrect(s.board) {
      MineFreeFillReachesAll(s.board, newBoard, x, y);
    }
  }

  /** `toggleFlag`: on a hidden cell of a game in progress the flag flips;
      otherwise the game is returned as it is. */
  function ToggleFlag(s: GameState, x: int, y: int): (r: GameState)
    requires s.status == Ongoing ==> 0 <= x < |s.board| && 0 <= y < |s.board[x]|
    ensures s.status != Ongoing || s.board[x][y].isRevealed ==> r == s
    ensures r.difficulty == s.difficulty && r.status == s.status && r.score == s.score
    ensures r.timeElapsed == s.timeElapsed && r.startTime == s.startTime && r.id == s.id
    ensures SameShape(r.board, s.board)
    ensures forall i, j :: 0 <= i < |s.board| && 0 <= j < |s.board[i]| && (i != x || j != y) ==>
      r.board[i][j] == s.board[i][j]
    ensures s.status == Ongoing && !s.board[x][y].isRevealed ==>
      r.board[x][y] == s.board[x][y].(isFlagged := !s.board[x][y].isFlagged)
  {
    if s.status != Ongoing then s
    else
      var currentCell := s.board[x][y];
      if currentCell.isRevealed then s
      else
        var mutableBoard := s.board[x := s.board[x][y := currentCell.(isFlagged := !currentCell.isFlagged)]];
        s.(board := mutableBoard)
  }

  /** Toggling twice restores the game. */
  lemma ToggleFlagTwice(s: GameState, x: int, y: int)
    requires s.status == Ongoing ==> 0 <= x < |s.board| && 0 <= y < |s.board[x]|
    ensures ToggleFlag(ToggleFlag(s, x, y), x, y) == s
  {
    if s.status == Ongoing && !s.board[x][y].isRevealed {
      var c := s.board[x][y];
      var t := ToggleFlag(s, x, y);
      assert t.board[x][y] == c.(isFlagged := !c.isFlagged);
      var u := ToggleFlag(t, x, y);
      assert u.board[x][y] == c;
      assert u.board[x] == s.board[x];
      assert u.board == s.board;
    }
  }

  /** A flag keeps the cell from being revealed until it is toggled off. */
  lemma FlaggedCellIgnored(s: GameState, x: int, y: int)
    requires s.status == Ongoing && Square(s.board) && InBounds(s.board, x, y)
    requires !s.board[x][y].isRevealed && !s.board[x][y].isFlagged
    ensures Ignored(ToggleFlag(s, x, y), x, y)
    ensures !Ignored(ToggleFlag(ToggleFlag(s, x, y), x, y), x, y)
  {
    ToggleFlagTwice(s, x, y);
  }

  /** Flagging never moves a mine, so correct counts stay correct. */
  lemma ToggleFlagKeepsMines(s: GameState, x: int, y: int)
    requires Square(s.board) && (s.status == Ongoing ==> InBounds(s.board, x, y))
    ensures Square(ToggleFlag(s, x, y).board)
    ensures Mined(ToggleFlag(s, x, y).board) == Mined(s.board)
    ensures CountsCorrect(s.board) ==> CountsCorrect(ToggleFlag(s, x, y).board)
  {
    var t := ToggleFlag(s, x, y).board;
    assert SameMines(s.board, t);
    SameMinesKeep(s.board, t);
  }
}
