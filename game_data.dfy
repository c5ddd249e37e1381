/** The records and enumerations of the game: cells, difficulty presets,
    game status, the game state and the saved-game summary. */
module GameData {

  datatype Option<+T> = None | Some(value: T)

  /** One square of the board. `x` and `y` are the cell's own coordinates;
      a freshly created cell has no mine, is hidden, unflagged and has no
      mined neighbours. */
  datatype Cell = Cell(
    x: int,
    y: int,
    hasMine: bool,
    isRevealed: bool,
    isFlagged: bool,
    adjacentMines: int)

  /** A cell built with every default of the Kotlin record. */
  function NewCell(x: int, y: int): (c: Cell)
    ensures c.x == x && c.y == y
    ensures !c.hasMine && !c.isRevealed && !c.isFlagged && c.adjacentMines == 0
  {
    Cell(x, y, false, false, false, 0)
  }

  /** The two presets; each carries its board side and its mine count. */
  datatype Difficulty = Easy | Hard
  {
    function BoardSize(): nat
    {
      match this
      case Easy => 8
      case Hard => 15
    }

    function MineCount(): nat
    {
      match this
      case Easy => 10
      case Hard => 40
    }
  }

  /** Both presets leave at least one safe cell, so mine placement can finish. */
  lemma PresetsFeasible(d: Difficulty)
    ensures 0 < d.MineCount() < d.BoardSize() * d.BoardSize()
    ensures d == Easy ==> d.BoardSize() == 8 && d.MineCount() == 10
    ensures d == Hard ==> d.BoardSize() == 15 && d.MineCount() == 40
  {
  }

  datatype Status = Ongoing | Won | Lost

  /** The board is a list of columns: `board[x][y]` is the cell at (x, y). */
  type Board = seq<seq<Cell>>

  /** `startTime` and `timeElapsed` are in milliseconds. */
  datatype GameState = GameState(
    difficulty: Difficulty,
    board: Board,
    status: Status,
    score: int,
    timeElapsed: int,
    startTime: Option<int>,
    id: string)

  /** A game state with every default of the Kotlin record; the default id
      is derived from the clock there, so here it is given. */
  function DefaultGameState(id: string): (s: GameState)
    ensures s.difficulty == Easy && s.board == [] && s.status == Ongoing
    ensures s.score == 0 && s.timeElapsed == 0 && s.startTime == None && s.id == id
  {
    GameState(Easy, [], Ongoing, 0, 0, None, id)
  }

  datatype SaveFormat = XML | JSON

  /** The summary of a saved game kept in the preference store.
      `savedAt` is a timestamp in milliseconds. */
  datatype SavedGame = SavedGame(
    id: string,
    difficulty: Difficulty,
    score: int,
    timeElapsed: int,
    status: Status,
    savedAt: int,
    format: SaveFormat)
}
