# Minesweeper core in Dafny

This project models the game core of an Android Minesweeper app. It covers:

- starting a game: an empty square board, mines placed at random, and each cell's count of mined neighbours;
- revealing a cell: stepping on a mine loses the game, and a zero-count cell starts a flood fill over its neighbours;
- toggling a flag;
- the two scoring formulas;
- the saved-game summaries and the preferred save format, kept in a key-value preference store.

The board is a list of columns: `board[x][y]` is the cell at `(x, y)`. The source copies the board and returns the copy. The model does the same: its methods and functions take a board value and return a new one.

Some inputs come from the platform in the source. The model takes them as parameters:

- the clock reading `now`, in milliseconds;
- the game id;
- `draws`, the sequence of positions that the random generator would produce.

Modules:

- `GameData`: the records and presets.
- `Grid`: board shape, the sets of hidden and mined cells, and the flattened counts used by the win test and the score.
- `Adjacency`: the neighbour count as a sum over the eight offsets, with a set-based reference definition; the method that fills in the counts.
- `MineGenerator`: the draw loop and the marking loop.
- `FloodFill`: `revealCellRecursive`, proved to reveal exactly the cells that a fill path reaches from the start. A fill path stays on hidden, unflagged cells and steps only from cells whose stored count is 0.
- `ScoreSystem`: `calculateScore` and `calculateProgressiveScore`.
- `GameLogic`: `createNewGame`, `revealCell` and `toggleFlag`.
- `StorageUtils`: the metadata list and format preference over a `map` of entries.

## Model

All source paths are under `app/src/main/java/com/example/minesweeper/`, abbreviated below as `…/`.

| member | source | states |
|---|---|---|
| GameData.NewCell | app/src/main/java/com/example/minesweeper/data/GameState.kt:5-12 | a cell built with the defaults has its coordinates, no mine, is hidden and unflagged, and has count 0 |
| GameData.PresetsFeasible | app/src/main/java/com/example/minesweeper/data/GameState.kt:14-17 | EASY is 8x8 with 10 mines and HARD is 15x15 with 40 mines; both leave at least one safe cell |
| GameData.DefaultGameState | app/src/main/java/com/example/minesweeper/data/GameState.kt:25-33 | the default game state is EASY, with an empty board, ONGOING, score 0, time 0 and no start time |
| ScoreSystem.Multiplier | app/src/main/java/com/example/minesweeper/data/ScoreSystem.kt:13-16 | the multiplier is 1 exactly for EASY and 2 exactly for HARD |
| ScoreSystem.TruncDivTowardZero | app/src/main/java/com/example/minesweeper/data/ScoreSystem.kt:12 | `timeElapsed / 1000` on a Long rounds toward zero, also for negative times |
| ScoreSystem.TimeBonusBounds | app/src/main/java/com/example/minesweeper/data/ScoreSystem.kt:12 | the time bonus lies in [0, 1000]; it is 1000 under one second and 0 from 1000 seconds on |
| ScoreSystem.TimeBonusAntitone | app/src/main/java/com/example/minesweeper/data/ScoreSystem.kt:12 | a longer game never has a larger time bonus |
| ScoreSystem.CalculateScore | app/src/main/java/com/example/minesweeper/data/ScoreSystem.kt:6-20 | for 0 <= revealed <= total the score lies between 0 and the time bonus times the multiplier; revealing every safe cell scores exactly the bonus times the multiplier |
| ScoreSystem.EasyInstantScore | app/src/main/java/com/example/minesweeper/data/ScoreSystem.kt:6-20 | an EASY game completed in 0 ms scores 1000 |
| ScoreSystem.ScoreAntitone | app/src/main/java/com/example/minesweeper/data/ScoreSystem.kt:6-20 | for the same progress, a later finish never scores more, and from 1000 s on the score is 0 |
| ScoreSystem.EfficiencyBonus | app/src/main/java/com/example/minesweeper/data/ScoreSystem.kt:35 | the efficiency bonus lies in [0, 100] and is 0 from 100 seconds on |
| ScoreSystem.ProgressiveScore | app/src/main/java/com/example/minesweeper/data/ScoreSystem.kt:23-38 | the live score is ten points per revealed cell times the multiplier, plus at most 100; from 100 seconds on it is exactly the cell points |
| ScoreSystem.ProgressiveStep | app/src/main/java/com/example/minesweeper/data/ScoreSystem.kt:23-38 | each extra revealed cell adds exactly 10 times the multiplier; the total number of safe cells has no effect |
| Grid.AllClearedIff | app/src/main/java/com/example/minesweeper/logic/GameLogic.kt:64 | the flattened test "every cell is mined or revealed" holds iff it holds for every (i, j) |
| Grid.ClearedCounts | app/src/main/java/com/example/minesweeper/logic/GameLogic.kt:68-69 | when every cell is mined or revealed, the revealed-safe count equals the safe count |
| Grid.RevealedSafeAtMostSafe | app/src/main/java/com/example/minesweeper/logic/GameLogic.kt:68-69 | the revealed-safe count never exceeds the safe count |
| Grid.SafeCellCounted | app/src/main/java/com/example/minesweeper/logic/GameLogic.kt:69 | a board with a safe cell has a positive safe count |
| Adjacency.NeighbourMinesAtMostEight | app/src/main/java/com/example/minesweeper/logic/GameLogic.kt:151-161 | a cell's count is between 0 and 8 |
| Adjacency.HitCounted | app/src/main/java/com/example/minesweeper/logic/GameLogic.kt:152-159 | a mined in-bounds neighbour makes the count positive |
| Adjacency.CountWitnessed | app/src/main/java/com/example/minesweeper/logic/GameLogic.kt:152-159 | a positive count has a mined in-bounds neighbour behind it |
| Adjacency.SameMinesSameCount | app/src/main/java/com/example/minesweeper/logic/GameLogic.kt:157 | the count depends only on where the mines are |
| Adjacency.NeighbourMinesIsCard | app/src/main/java/com/example/minesweeper/logic/GameLogic.kt:151-161 | the loop's count equals the number of mined in-bounds neighbours, excluding the cell itself |
| Adjacency.SameMinesKeep | app/src/main/java/com/example/minesweeper/logic/GameLogic.kt:147-165 | boards with the same mines have the same mined set; with equal counts too, correct counts carry over |
| Adjacency.CountsFilled | app/src/main/java/com/example/minesweeper/logic/GameLogic.kt:147-165 | writing each cell's neighbour count changes no mine, and makes every count correct and within [0, 8] |
| Adjacency.CountAdjacentMines | app/src/main/java/com/example/minesweeper/logic/GameLogic.kt:151-161 | the two offset loops count exactly the mined in-bounds neighbours |
| Adjacency.CalculateAdjacentMines | app/src/main/java/com/example/minesweeper/logic/GameLogic.kt:147-165 | each cell gets its own neighbour count and is otherwise unchanged; the mines stay; every count is correct and in [0, 8] |
| MineGenerator.CollectCard | app/src/main/java/com/example/minesweeper/logic/MineGenerator.kt:14-18 | given enough distinct draws, the loop collects exactly `mineCount` positions, all of them drawn |
| MineGenerator.InRangeBound | app/src/main/java/com/example/minesweeper/logic/MineGenerator.kt:15-16 | in-range draws offer at most size*size distinct positions |
| MineGenerator.DrawnProperties | app/src/main/java/com/example/minesweeper/logic/MineGenerator.kt:14-18 | the chosen set has exactly max(mineCount, 0) positions, all on the board, and mineCount fits the board |
| MineGenerator.DrawPositions | app/src/main/java/com/example/minesweeper/logic/MineGenerator.kt:14-18 | the draw loop ends with the set `Drawn(draws, mineCount)` |
| MineGenerator.MarkMines | app/src/main/java/com/example/minesweeper/logic/MineGenerator.kt:21-23 | exactly the chosen cells gain a mine and nothing else changes |
| MineGenerator.PlaceMines | app/src/main/java/com/example/minesweeper/logic/MineGenerator.kt:8-26 | the mines are the old ones plus the chosen ones; on an empty board there are exactly mineCount mines |
| FloodFill.UnrevealedShrinks | app/src/main/java/com/example/minesweeper/logic/GameLogic.kt:113-118 | revealing a new cell strictly shrinks the set of hidden cells, which is why the recursion ends |
| FloodFill.RevealCellRecursive | app/src/main/java/com/example/minesweeper/logic/GameLogic.kt:104-144 | see the note below the table |
| FloodFill.RevealsOnlyKeepsMines | app/src/main/java/com/example/minesweeper/logic/GameLogic.kt:104-144 | the fill never moves a mine |
| FloodFill.ClosedReaches | app/src/main/java/com/example/minesweeper/logic/GameLogic.kt:121-139 | a closed fill from a revealed start reveals every cell on every fill path from the start |
| FloodFill.FillExact | app/src/main/java/com/example/minesweeper/logic/GameLogic.kt:104-144 | a closed fill that reveals only reachable cells, and the start when it can, reveals exactly the reachable cells |
| FloodFill.EnclosedStart | app/src/main/java/com/example/minesweeper/logic/GameLogic.kt:113 | the fill never passes a flag: a start whose neighbours are all revealed or flagged reaches only itself |
| FloodFill.ReachableSafe | app/src/main/java/com/example/minesweeper/logic/GameLogic.kt:121-130 | with correct counts, every cell reachable from a safe start is safe |
| FloodFill.FillRevealsNoMine | app/src/main/java/com/example/minesweeper/logic/GameLogic.kt:121-139 | with correct counts, a fill from a safe cell reveals no mine |
| FloodFill.MineFreeFillReachesAll | app/src/main/java/com/example/minesweeper/logic/GameLogic.kt:121-139 | on an untouched board with no mines and correct counts, the fill from any cell reveals the whole board |
| GameLogic.InitialBoard | app/src/main/java/com/example/minesweeper/logic/GameLogic.kt:17-21 | the empty board is square of side `size`; each cell is `Cell(x, y)` with its defaults, so there are no mines and nothing is revealed or flagged |
| GameLogic.NewBoard | app/src/main/java/com/example/minesweeper/logic/GameLogic.kt:17-27 | see the note below the table |
| GameLogic.CreateNewGame | app/src/main/java/com/example/minesweeper/logic/GameLogic.kt:12-35 | see the note below the table |
| GameLogic.RevealAllMines | app/src/main/java/com/example/minesweeper/logic/GameLogic.kt:49-53 | every mined cell becomes revealed; no other cell and no other field changes |
| GameLogic.Elapsed | app/src/main/java/com/example/minesweeper/logic/GameLogic.kt:70 | without a start time the elapsed time is 0; otherwise start + elapsed = now |
| GameLogic.WonScore | app/src/main/java/com/example/minesweeper/logic/GameLogic.kt:72-78 | after a win the safe count is positive and the score is the time bonus times the multiplier |
| GameLogic.RevealCell | app/src/main/java/com/example/minesweeper/logic/GameLogic.kt:38-87 | see the note below the table |
| GameLogic.ToggleFlag | app/src/main/java/com/example/minesweeper/logic/GameLogic.kt:90-101 | see the note below the table |
| GameLogic.ToggleFlagTwice | app/src/main/java/com/example/minesweeper/logic/GameLogic.kt:90-101 | toggling the same cell twice restores the game |
| GameLogic.FlaggedCellIgnored | app/src/main/java/com/example/minesweeper/logic/GameLogic.kt:42 | a flag placed on a hidden cell makes a reveal of that cell do nothing; removing the flag makes the cell revealable again |
| GameLogic.ToggleFlagKeepsMines | app/src/main/java/com/example/minesweeper/logic/GameLogic.kt:90-101 | flagging keeps the mined set, and keeps correct counts correct |
| StorageUtils.FormatName | app/src/main/java/com/example/minesweeper/persistence/StorageUtils.kt:62 | the stored name is "XML" exactly for XML and "JSON" exactly for JSON |
| StorageUtils.ParseFormat | app/src/main/java/com/example/minesweeper/persistence/StorageUtils.kt:69-73 | only "XML" reads as XML; any other name that is not exactly a format's name reads as JSON |
| StorageUtils.FormatRoundTrip | app/src/main/java/com/example/minesweeper/persistence/StorageUtils.kt:60-74 | a stored format's name reads back as that format |
| StorageUtils.IndexOfFirst | app/src/main/java/com/example/minesweeper/persistence/StorageUtils.kt:29 | the result is -1 iff no summary has the id; otherwise it is the first position holding the id |
| StorageUtils.RemoveId | app/src/main/java/com/example/minesweeper/persistence/StorageUtils.kt:54 | a summary survives iff it was there and has another id; the list never grows |
| StorageUtils.Upsert | app/src/main/java/com/example/minesweeper/persistence/StorageUtils.kt:29-34 | the first summary with the saved id is replaced at its own position and every other position is kept; with no such summary the new one is appended at the end |
| StorageUtils.UpsertFinds | app/src/main/java/com/example/minesweeper/persistence/StorageUtils.kt:29-34 | after a save, looking up the id finds the saved summary |
| StorageUtils.UpsertKeepsOthers | app/src/main/java/com/example/minesweeper/persistence/StorageUtils.kt:29-34 | summaries with other ids stay, only the saved summary is new, and the list grows iff the id was new |
| StorageUtils.UpsertKeepsUnique | app/src/main/java/com/example/minesweeper/persistence/StorageUtils.kt:29-34 | saving keeps ids distinct |
| StorageUtils.UpsertIdempotent | app/src/main/java/com/example/minesweeper/persistence/StorageUtils.kt:29-34 | saving the same summary twice equals saving it once |
| StorageUtils.RemoveAfterUpsert | app/src/main/java/com/example/minesweeper/persistence/StorageUtils.kt:22-57 | deleting an id after saving a summary with that id equals just deleting it |
| StorageUtils.RemoveIdAbsent | app/src/main/java/com/example/minesweeper/persistence/StorageUtils.kt:54 | deleting an id that no summary carries changes nothing |
| StorageUtils.RemoveIdIdempotent | app/src/main/java/com/example/minesweeper/persistence/StorageUtils.kt:54 | deleting twice equals deleting once |
| StorageUtils.RemoveIdKeepsUnique | app/src/main/java/com/example/minesweeper/persistence/StorageUtils.kt:54 | deleting keeps ids distinct |
| StorageUtils.Preferences.constructor | app/src/main/java/com/example/minesweeper/persistence/StorageUtils.kt:76-78 | a fresh preference file holds no entries |
| StorageUtils.Preferences.LoadAllMetadata | app/src/main/java/com/example/minesweeper/persistence/StorageUtils.kt:40-45 | with no stored list, the default "[]" reads as the empty list |
| StorageUtils.Preferences.GetPreferredFormat | app/src/main/java/com/example/minesweeper/persistence/StorageUtils.kt:66-74 | with no stored name the format is JSON; it is XML iff "XML" is stored |
| StorageUtils.Preferences.SaveMetadata | app/src/main/java/com/example/minesweeper/persistence/StorageUtils.kt:22-37 | the list under "saved_games" becomes the upserted list and nothing else changes; the saved id then finds this summary; the format preference is kept |
| StorageUtils.Preferences.DeleteMetadata | app/src/main/java/com/example/minesweeper/persistence/StorageUtils.kt:48-57 | the stored list keeps exactly the summaries with another id; nothing else changes |
| StorageUtils.Preferences.SavePreferredFormat | app/src/main/java/com/example/minesweeper/persistence/StorageUtils.kt:60-63 | the format's name is stored, so the format reads back; the metadata list is kept |

Notes on the longer contracts (the source paths are abbreviated):

- **FloodFill.RevealCellRecursive** (`…/logic/GameLogic.kt:104-144`): the board changes only by revealing hidden, unflagged cells.
  - An off-board, revealed or flagged start leaves the board as it is.
  - Otherwise the start is revealed.
  - A nonzero start reveals only itself.
  - The region is closed: every newly revealed zero-count cell has all its neighbours revealed or flagged.
  - The region is exact: a cell is newly revealed iff some fill path from the start ends at it.
  - A fill path starts at the start, stays on hidden, unflagged cells, and steps only from zero-count cells to their neighbours. So a flag is never passed.
- **GameLogic.NewBoard** (`…/logic/GameLogic.kt:17-27`): the new board has side `size`.
  - Every cell is hidden, unflagged and at its own coordinates.
  - Exactly the drawn cells are mined, and there are `mineCount` of them.
  - Every count is correct.
- **GameLogic.CreateNewGame** (`…/logic/GameLogic.kt:12-35`): the new game is ONGOING, with score 0 and time 0, started at `now`.
  - The board has the preset's side and exactly the preset's mine count, at the drawn positions.
  - Every cell is hidden, unflagged and at its own coordinates, and every count is correct.
- **GameLogic.RevealCell** (`…/logic/GameLogic.kt:38-87`): a game that is over, or a revealed or flagged cell, leaves the game unchanged.
  - A mine gives LOST, with every mine shown.
  - A safe cell runs the flood fill. The cells revealed are exactly those a fill path reaches from `(x, y)`.
  - When every count on the board is correct, no mine is revealed by a safe click. A stale count of 0 next to a mine would let the fill reveal that mine, as the source would.
  - A safe cell with a nonzero count reveals only itself.
  - The result is WON iff every cell is mined or revealed; otherwise it stays ONGOING with the score unchanged.
  - A win scores the time bonus times the multiplier.
  - The time is `now` minus the start time.
  - No reveal moves a mine, and correct counts stay correct.
  - On an untouched board with no mines and correct counts, one click wins and reveals the whole board.
- **GameLogic.ToggleFlag** (`…/logic/GameLogic.kt:90-101`): a game that is over, or a revealed cell, leaves the game unchanged.
  - Otherwise, on a hidden cell, only the flag of `(x, y)` flips.
  - Every other cell and field stays as it is.

## Left out

- Clock and random source:
  - `Date()` and `Random.nextInt` are parameters. `now` stands for the clock, and `draws` for the generator's output.
  - In `revealCell` the source reads the clock twice. The model reads it once, so a game without a start time has elapsed time exactly 0.
  - The default `GameState.id` comes from the clock, so the model takes the id as a parameter.
- MineGenerator.PlaceMines: requires that the draws offer at least `mineCount` distinct positions. With fewer, the source's draw loop would never end. A preset's mine count is always below the number of cells.
- MineGenerator.MarkMines: takes the chosen positions one at a time from a set, in an unspecified order, where the source iterates the set in insertion order. The order does not change the result.
- ScoreSystem.CalculateScore:
  - The completion fraction is exact, where the source multiplies by a `Float` and truncates. Rounding at the last digit is not modelled.
  - A zero `totalNonMineCells` is excluded. In the source it gives NaN or infinity, and it cannot occur after a win.
- Integer widths: `Int` and `Long` overflow is not modelled. Scores, times and counts are unbounded integers; `Long` division truncates toward zero.
- Board shape:
  - GameLogic.RevealCell: requires a square board with `(x, y)` on it while the game is ONGOING. The source throws on an off-board index, and every board the app builds is square.
  - GameLogic.ToggleFlag: requires only that `(x, y)` is on the board while the game is ONGOING, as the source indexes `board[x][y]` there.
  - FloodFill.RevealCellRecursive: requires a square board. The source's copy-back loop over `updatedBoard` is modelled as taking the whole updated board, which has the same contents.
- Storage:
  - The serializer is taken to map a list to JSON text and back unchanged. Malformed JSON, a `null` result and the element type's field order are not modelled.
  - A value of the wrong kind under a key reads as the empty list or as JSON. The source would throw `ClassCastException` there, but only the methods here write those keys.
  - `Context` and `SharedPreferences` are one in-memory map of entries. `apply()`'s asynchronous write to disk is not modelled.
- Not part of this model: `GameTimer.kt`, the UI screens, `GameRepository.kt`, `JsonGameStorage.kt` and `XmlGameStorage.kt`.
