# Tetris game-state engine in Dafny

A model of the game engine of LesleyLai/Tetris, a falling-block game written in Python, with
proofs about it. It covers:

- the piece geometry;
- the collision-checked move;
- the board's tick: game over, else fall, else lock, clear full rows and spawn;
- the line-clear pass;
- the scoring and level rule;
- the pause and game-over gates;
- the ranking list and its text file.

The modules follow the source files.

| module | file | models |
|---|---|---|
| `Geometry` | geometry.dfy | `rotations`, `ALL_PIECES` (tetris_piece.py) |
| `Grid` | grid.dfy | `all_filled`, `empty_at`, the grid and its value view, the clearing pass as written and as intended (tetris_board.py) |
| `Piece` | piece.dfy | `TetrisPiece`: `move`, `drop_one`, `generate_piece` |
| `Board` | board.dfy | `TetrisBoard`: `reset`, `update`, `_store_current`, `_remove_filled`, the five commands |
| `Game` | game.dfy | `Tetris`: `new_game`, `_update`, `pause_game`, `continue_game`, `game_over`, `scoring` |
| `Ranking` | ranking.dfy | `TetrisRankingList` and its file format (tetris_ranking.py) |
| `Text` | text.dfy | the Python built-ins the ranking file relies on: `str`, `int`, `split`, iterating over a file's lines |

## How the model is built

- **The grid.** It is a `seq<array<Cell>>`, a field of the board that the methods reassign. The
  outer list is the `seq`; each row list is an `array`. Two rows can therefore be the same
  list, as they can in Python. The invariant `SharesOnlyTop` says that rows share a list only
  with row 0.
- **The view.** The board's contracts are stated over `View()`. This is the grid seen as
  values: each row's cells, and whether the row's list is row 0's list. Locking is `Place`,
  a sequence of `Write`s into that view. The clearing pass is `ClearFrom`.
- **Calls back into the game.** The board calls the game's `game_over` and `scoring`. The
  model returns these calls as a `Tick` value: `GameOver`, `Fell`, or `Locked(scoring)`, where
  `scoring` lists the arguments of the scoring calls in order. `Tetris.Tick` applies them.
  Nothing the board does after clearing reads the score, so applying the calls after the
  board's tick gives the same state.
- **The game invariant.** `Tetris.Valid` says more than that score, level and interval are in
  range: they equal `Standing(removedRowCount)`, a closed form of the rows cleared in the game.
  `_update` keeps this invariant however the cleared rows are spread over ticks
  (`ScoreAllAdvances`, `CatchUp`).
- **Randomness** (`random.sample` of a shape and a colour) becomes the parameters `kind` and
  `colorIndex`.
- **The interval** `500 - int(log10(level) * 300)` becomes the table `IntervalTable` for
  levels 1 to 21.
- **Whitespace around a number.** Python's `int` first turns every non-ASCII character that
  `str.isspace` accepts into a space, leaving every character below U+0080 as it is. It then
  strips tab, line feed, vertical tab, form feed, carriage return and space from both ends.
  So the four information separators U+001C to U+001F, which `str.isspace` accepts, are
  never stripped. `Text.IsIntSpace` is that set.
- **The ranking file** is a parameter: `Option<string>`, where `None` is a missing file. The
  text that `_write_ranking_file` writes is the method's result, and the user name
  `getpass.getuser()` returns is a parameter of `AddRecord`.

### Where the code and the documented behaviour differ (the model follows the code)

- **Rows above the top.** The documented behaviour treats block positions above the top row as
  passable and drops them on locking. The code indexes `grid[-1]` there, which is the bottom
  row in Python. The model asks that rows be non-negative, and the piece invariant (anchor on
  row 1 or lower, offsets at least -1) shows that no caller ever asks about a negative row.
- **Saving the score at game over.** The documented behaviour has game over save the final score to
  the ranking list. The code's `game_over` only sets the flag and greys the blocks;
  `add_record` is never called from the game.
- **The full-row shift.** The documented behaviour says a full row is removed and the rows above it
  move down. The code does something different; see "Findings".
- **Reading the file.** The documented behaviour splits each line at its first comma and treats
  malformed lines as an empty list. The code splits at every comma and takes the second field
  as the score. A malformed line raises `IndexError` or `ValueError`, which is not caught, so
  the records read before it stay and the exception leaves `__init__`.
- **Moves after game over.** The documented behaviour has no piece move once the game is
  over. The board's five commands (tetris_board.py:69-92) check only `paused`, and
  `game_over` does not set it, so the piece still moves and turns after game over. The
  model's commands do the same.
- **Order after reading.** The records read from the file are not sorted. The list is sorted
  only by `add_record`.

## Model

| member | source | states |
|---|---|---|
| Geometry.RotationsShape | tetris_piece.py:6-13 | `rotations(p)` has four states; the first is `p`, and each has `p`'s length |
| Geometry.QuarterAfterQuarter | tetris_piece.py:10-11 | mapping the quarter turn twice over a list maps the half turn |
| Geometry.QuarterAfterHalf | tetris_piece.py:11-12 | the quarter turn after the half turn is the three-quarter turn, list by list |
| Geometry.QuarterAfterThreeQuarters | tetris_piece.py:10-12 | the quarter turn after the three-quarter turn gives back the list |
| Geometry.RotationsClosed | tetris_piece.py:10-13 | each rotation state is the quarter turn of the one before, and the quarter turn of the last state is the first |
| Geometry.LongStatesRelated | tetris_piece.py:69-70 | the long piece's vertical state is the quarter turn of its horizontal one |
| Geometry.AllPiecesCounts | tetris_piece.py:68-74 | six shapes with 1, 2, 4, 4, 4 and 4 states, each state of four offsets |
| Geometry.RotationsSmall | tetris_piece.py:71-74 | the rotations of four offsets in [-1,1]x[-1,1] form a well-formed table |
| Geometry.AllPiecesShaped | tetris_piece.py:68-74 | every shape in the table is well formed (offsets in [-1,2]) |
| Grid.AllFilled | tetris_board.py:7-15 | the early-return scan is true iff no cell of the row is empty |
| Grid.EmptyAtMeaning | tetris_board.py:58-67 | columns outside the board and rows below the bottom are blocked; a point inside is free iff its cell is empty; a free point is on the board |
| Grid.BlankCells | tetris_board.py:135 | a new row has ten cells and is not full |
| Grid.ViewOfConsistent | tetris_board.py:43-44 | the view of a grid has the board's dimensions, and rows sharing row 0's list show row 0's cells |
| Grid.EmptyViewConsistent | tetris_board.py:43-44 | a new grid's view is consistent, no row shares row 0's list, and row 0 is empty |
| Grid.Write | tetris_board.py:118-121 | one stored block keeps the view consistent |
| Grid.Place | tetris_board.py:117-121 | storing the blocks one by one keeps the view consistent |
| Grid.PlaceUnshared | tetris_board.py:117-121 | with no shared lists, locking sets exactly the covered cells and leaves every other cell as it was |
| Grid.ClearFrom | tetris_board.py:130-149 | the scan from row `i` keeps the number of rows and row 0, and clears at most one row per row scanned |
| Grid.ClearFromStep | tetris_board.py:130-149 | one step of the scan: a full row is shifted away and counted; otherwise the scan moves on |
| Grid.ClearFromNext | tetris_board.py:130-149 | what is left to clear from row `i + 1` of the new rows is what was left from row `i`, less the row just cleared |
| Grid.ShiftConsistent | tetris_board.py:135-146 | one shift as written keeps the view consistent |
| Grid.ClearFromConsistent | tetris_board.py:124-149 | the whole pass keeps the view consistent |
| Grid.ViewOfShift | tetris_board.py:135-146 | shifting the row lists with a new blank list at row `i` shifts the view the same way |
| Grid.ShiftKeepsSharesOnlyTop | tetris_board.py:135-146 | after the shift, rows still share a list only with row 0 |
| Grid.ShiftAsWrittenAliasesTop | tetris_board.py:144-146 | clearing a row below row 1 makes row 1 the same list as row 0 |
| Grid.ClearFromSharesRowOne | tetris_board.py:139-146 | once any row from row 2 on is cleared, row 1 shares row 0's list, and it keeps sharing it |
| Grid.WriteSharedReachesTop | tetris_board.py:118-121 | a block stored into a row that shares row 0's list shows up in row 0 (so the next tick is game over) |
| Grid.ShiftIntendedKeepsDistinct | tetris_board.py:135-146 | the intended shift, with a new blank list on top, keeps every row a different list |
| Grid.ClearIntendedCompacts | tetris_board.py:124-149 | the intended pass leaves one blank row on top per full row, then the rows above the scan, then the rows that were not full, in order |
| Grid.ShiftIntendedSplits | tetris_board.py:135-146 | after the intended shift at `i`, the rows down to `i` are a blank row over the old rows above `i`, and the rows below `i` are unchanged |
| Grid.TailCounts | tetris_board.py:130-131 | row `i` adds one to the count of full rows when it is full, and one kept row otherwise |
| Grid.AsWrittenLosesBlock | tetris_board.py:139-146 | on a three-row grid with row 2 full and one block in row 1, the pass as written loses the block, while the intended pass moves it down |
| Piece.Covered | tetris_board.py:115-117 | the covered points are one per offset |
| Piece.FitsInBounds | tetris_board.py:58-67 | a piece that fits lies inside the board |
| Piece.SpawnInBounds | tetris_piece.py:26 | every well-formed shape at the spawn anchor `(4, 1)` lies inside the board |
| Piece.TurnRemainders | tetris_piece.py:42-43 | `% len` wraps an index stepped by one or turned back from 0 |
| Piece.Free | tetris_piece.py:48-53 | the scan over the target points is true iff every one of them is free |
| Piece.TetrisPiece.constructor | tetris_piece.py:20-26 | a new piece has the given table and colour, index 0 and anchor `(4, 1)` |
| Piece.TetrisPiece.Move | tetris_piece.py:34-61 | the piece moves and turns, and `moved` is true, iff every target point is free; otherwise nothing changes; the table and colour never change |
| Piece.TetrisPiece.DropOne | tetris_piece.py:28-32 | on success only the anchor's row grows by one; the result is whether the piece fits one row lower |
| Piece.GeneratePiece | tetris_piece.py:63-66 | a fresh valid piece of shape `kind` and colour `colorIndex` at the spawn anchor |
| Board.ScoringCallsStep | tetris_board.py:148-149 | one more cleared row appends the new running count to the scoring calls |
| Board.NewGrid | tetris_board.py:43-44 | 27 new lists of 10 empty cells, all different lists |
| Board.WriteSeen | tetris_board.py:118-121 | a write into row `p.y`'s list is seen by every row sharing that list, and by no other row |
| Board.TetrisBoard.constructor | tetris_board.py:22-30 | an empty grid, no removed rows, and a new piece at the spawn anchor |
| Board.TetrisBoard.Reset | tetris_board.py:32-46 | the same state as a new board, with new row lists |
| Board.TetrisBoard.IsGameOver | tetris_board.py:99-107 | true iff some cell of row 0 is occupied |
| Board.TetrisBoard.NextPiece | tetris_board.py:94-97 | a new piece of the given shape and colour at the spawn anchor; the grid is unchanged |
| Board.TetrisBoard.Update | tetris_board.py:48-56 | `TickEffect`: game over iff row 0 is occupied, and then nothing changes; else it falls iff the piece fits one row lower, and only the anchor moves; else the piece is locked, the pass runs, one scoring call per cleared row with the running count, and a new piece appears |
| Board.TetrisBoard.Lock | tetris_board.py:54-56 | locking, clearing and the new piece, stated on the view before the tick |
| Board.TetrisBoard.StoreCurrent | tetris_board.py:109-122 | the new view is the pass run over the view with the piece's cells written, and the count grows by the rows cleared |
| Board.TetrisBoard.WritePiece | tetris_board.py:115-121 | the new view is the old one with every covered cell written, in order |
| Board.TetrisBoard.RemoveFilled | tetris_board.py:124-149 | the new view and count are those of `ClearFrom(old view, 1)`; the scoring calls are the running counts |
| Board.TetrisBoard.ScanRow | tetris_board.py:130-149 | one row of the scan moves the loop invariant from row `i` to row `i + 1` |
| Board.TetrisBoard.ClearRow | tetris_board.py:131-149 | a full row is shifted away as written and counted; otherwise nothing changes |
| Board.TetrisBoard.ShiftRows | tetris_board.py:135-146 | a new blank list at row `i`, then rows `i - 1` down to 1 take the list above them |
| Board.TetrisBoard.Command | tetris_board.py:69-92 | nothing moves while paused; otherwise the collision-checked move by `delta` and `deltaRotation` |
| Board.TetrisBoard.MoveDown | tetris_board.py:69-72 | paused: nothing; else one row down if it fits |
| Board.TetrisBoard.MoveLeft | tetris_board.py:74-77 | paused: nothing; else one column left if it fits |
| Board.TetrisBoard.MoveRight | tetris_board.py:79-82 | paused: nothing; else one column right if it fits |
| Board.TetrisBoard.RotateClockwise | tetris_board.py:84-87 | paused: nothing; else the next state if it fits |
| Board.TetrisBoard.RotateCounterclockwise | tetris_board.py:89-92 | paused: nothing; else the previous state if it fits |
| Board.TurnsCancel | tetris_board.py:84-92 | from a placement that fits, a turn that succeeds followed by the opposite turn gives back the same rotation index and anchor, starting in either direction |
| Board.TurnsOnSmallTables | tetris_piece.py:34-61 | on the one-state square a turn keeps the rotation index; on a table of at most two states both directions give the same index; a turn never moves the anchor |
| Game.IntervalsShrink | tetris_game.py:129 | level 1 drops every 500 ms; each higher level drops strictly faster; every level's interval is between 104 and 500 ms |
| Game.DecreasingTable | tetris_game.py:129 | a table falling at every step falls between any two positions |
| Game.ScoreRow | tetris_game.py:119-129 | every scoring call raises the score |
| Game.ScoreRowKeepsSynced | tetris_game.py:119-129 | one call keeps the interval that of the level; the level rises by one exactly when the count passes five times the level below 21; the score grows by 10 to 30 |
| Game.ScoreAll | tetris_game.py:119-129 | the calls of a tick never lower the score |
| Game.ScoreAllMonotone | tetris_game.py:119-129 | over any calls: the level never falls and rises by at most one per call, the interval never grows, and each call adds at least 10 |
| Game.LevelFor | tetris_game.py:127-128 | the level reached after `removed` rows is between 1 and 21 |
| Game.Standing | tetris_game.py:119-129 | the closed form of score, level and interval is in range |
| Game.ScoreRowAdvances | tetris_game.py:119-129 | fed the running count, one call moves the closed form on by one row |
| Game.LevelStep | tetris_game.py:127-128 | the closed-form level rises by one exactly when the count passes five times the level below 21 |
| Game.ScoreAllAdvances | tetris_game.py:119-129 | however rows are spread over ticks, score, level and interval depend only on the rows cleared in the game |
| Game.ScoreAllFollows | tetris_game.py:119-129 | calls that each move a standing on by one row move it on by all of them |
| Game.ScoreAllLast | tetris_game.py:119-129 | the last scoring call of a tick is applied last |
| Game.CatchUp | tetris_game.py:83-84 | the calls of a tick bring the closed form from the count before the tick to the count after it |
| Game.LevelForFacts | tetris_game.py:127-128 | level 1 exactly for the first five rows, level 21 from row 101 on, and the level never falls |
| Game.SixRowsReachLevelTwo | tetris_game.py:124-129 | six single-row clears from a new game give 60 points, level 2 and a 410 ms interval |
| Game.Tetris.constructor | tetris_game.py:16-33 | a running game: score 0, level 1, 500 ms, an empty board, and the first tick has let the new piece fall one row |
| Game.Tetris.NewGame | tetris_game.py:35-52 | score 0, level 1, interval 500, flag cleared, board reset, the invariant holds |
| Game.Tetris.PauseGame | tetris_game.py:88-95 | sets the pause flag and nothing else; the game invariant holds |
| Game.Tetris.ContinueGame | tetris_game.py:97-104 | clears the pause flag and nothing else; the game invariant holds |
| Game.Tetris.GameOver | tetris_game.py:106-117 | sets the game-over flag and nothing else; the score is not recorded; the game invariant holds |
| Game.Tetris.Scoring | tetris_game.py:119-132 | applies the scoring rule to score, level and interval |
| Game.Tetris.ScoreCalls | tetris_game.py:119-132 | applies the scoring calls of a tick in order |
| Game.Tetris.Report | tetris_board.py:53-54 | a game-over call sets the flag; the scoring calls are applied in order; nothing else changes |
| Game.Tetris.Update | tetris_game.py:80-86 | nothing while paused or over; else one board tick that sets the flag exactly on game over; the invariant holds afterwards |
| Game.Tetris.Tick | tetris_game.py:83-84 | the board's tick followed by the calls it makes into the game |
| Game.SpawnFalls | tetris_game.py:30-33 | on an empty board a new piece can always fall one row, so the first tick is a fall |
| Ranking.Insert | tetris_ranking.py:35-36 | inserting adds exactly one record |
| Ranking.SortByScore | tetris_ranking.py:35-36 | the sort keeps the number of records |
| Ranking.InsertPermutes | tetris_ranking.py:35-36 | inserting adds `r` and loses nothing (multiset) |
| Ranking.SortByScorePermutes | tetris_ranking.py:35-36 | the sort is a permutation (multiset) |
| Ranking.CountAtLeast | tetris_ranking.py:35-36 | the insertion point is within the list |
| Ranking.InsertAt | tetris_ranking.py:35-36 | `r` goes in right after the leading records scoring at least as much |
| Ranking.AboveBeforeCount | tetris_ranking.py:35-36 | the records before the insertion point score at least `s` |
| Ranking.BelowAfterCount | tetris_ranking.py:35-36 | in a sorted list, the records from the insertion point on score below `s` |
| Ranking.InsertSorted | tetris_ranking.py:35-36 | inserting into a sorted list keeps it sorted, with `r` at the insertion point |
| Ranking.SortedAround | tetris_ranking.py:35-36 | a record put between the higher and the lower scores of a sorted list keeps it sorted |
| Ranking.SortByScoreSorted | tetris_ranking.py:35-36 | the result is ordered from the best score down |
| Ranking.WithScoreAppend | tetris_ranking.py:35-36 | taking the records of one score commutes with concatenation |
| Ranking.WithScoreNone | tetris_ranking.py:35-36 | a list with no record of score `s` has none to take |
| Ranking.WithScoreAround | tetris_ranking.py:35-36 | taking the records of one score from `a + [x] + b`, piece by piece |
| Ranking.InsertStable | tetris_ranking.py:35-36 | inserting into a sorted list puts `r` after the earlier records of its own score |
| Ranking.InsertBeforeLower | tetris_ranking.py:35-36 | when all records after the insertion point score less, `r` comes after every record of its score |
| Ranking.SortByScoreStable | tetris_ranking.py:35-36 | the sort is stable: for every score, its records keep their order |
| Ranking.SortByScoreOfSorted | tetris_ranking.py:35-36 | sorting a sorted list changes nothing |
| Ranking.SortedFront | tetris_ranking.py:35-36 | without its last record a sorted list is still sorted, and that record scores no more than any other |
| Ranking.InsertAtEnd | tetris_ranking.py:35-36 | a record scoring no more than any other goes last |
| Ranking.Top | tetris_ranking.py:38-40 | the first ten records, or all of them when there are fewer |
| Ranking.AddedFacts | tetris_ranking.py:28-42 | after adding: sorted, at most ten records, one more when there were fewer than ten, only old records or the new one, and no dropped record scores above a kept one |
| Ranking.CountAbove | tetris_ranking.py:35-36 | the number of records scoring at least `s` is at most the length |
| Ranking.CountAboveAppend | tetris_ranking.py:35-36 | the count over `a + b` is the count over `a` plus the count over `b` |
| Ranking.CountAboveSorted | tetris_ranking.py:35-36 | in a sorted list the records scoring at least `s` are the leading ones |
| Ranking.CountAboveInsert | tetris_ranking.py:35-36 | inserting a record adds its own count and changes no other |
| Ranking.CountAboveSort | tetris_ranking.py:35-36 | the sort keeps the number of records scoring at least `s` |
| Ranking.AddedPlacement | tetris_ranking.py:28-42 | for any old list, sorted or not, the new record goes right after all old records scoring at least as much; it is kept iff fewer than ten of them do |
| Ranking.ParseLines | tetris_ranking.py:48-50 | no more records than lines |
| Ranking.ParseLinesCons | tetris_ranking.py:48-50 | a first line that reads as `r` puts `r` before the records of the other lines, and the error is theirs |
| Ranking.ParseLinesOk | tetris_ranking.py:48-50 | a line that reads as `r` puts `r` before the records of the lines after it |
| Ranking.ParseLinesErr | tetris_ranking.py:48-50 | a line that raises ends the reading with that error |
| Ranking.FileRecords | tetris_ranking.py:44-50 | reading a file gives no more records than it has lines |
| Ranking.FormatLineParses | tetris_ranking.py:49-50 | a written line reads back as its record, for names with no comma or line break |
| Ranking.ScoreHasNoComma | tetris_ranking.py:58-59 | the written score holds no comma |
| Ranking.ScoreReadsBack | tetris_ranking.py:50 | `int` of the written score, followed by whitespace `int` strips, such as the line break, is the score |
| Ranking.FormatLineOneLine | tetris_ranking.py:58-59 | a written line ends with its only line break |
| Ranking.SerializeRoundTrip | tetris_ranking.py:44-59 | the file written for a list reads back as that list, with no error |
| Ranking.FormatLineSingle | tetris_ranking.py:48 | a one-record file has one line |
| Ranking.CommaNameFields | tetris_ranking.py:49 | a name with one comma splits into three fields |
| Ranking.CommaLineReads | tetris_ranking.py:49-50 | the line written for a name with one comma reads as the part before the comma, with the part after it as the score, or raises `ValueError` when that part is not a number |
| Ranking.CommaNameBreaksFile | tetris_ranking.py:49-59 | a name with a comma does not read back: `ValueError`, or a different record when the part after the comma is a number |
| Ranking.RankingList.constructor | tetris_ranking.py:15-19 | an empty list, then the records of the file up to the first line that raises; none when there is no file |
| Ranking.RankingList.Length | tetris_ranking.py:21-22 | the number of records |
| Ranking.RankingList.GetItem | tetris_ranking.py:24-26 | Python indexing: negative indices count from the end; `IndexError` outside `-len .. len-1` |
| Ranking.RankingList.AddRecord | tetris_ranking.py:28-42 | the records become `Added(old, (score, user))`, and the text written is that list's file |
| Ranking.RankingList.ReadRankingFile | tetris_ranking.py:44-52 | a missing file changes nothing; otherwise the records of the lines are appended up to the first line that raises, and that error is returned |
| Ranking.RankingList.ReadLines | tetris_ranking.py:48-50 | the loop appends the records of `ParseLines` and stops at its error |
| Ranking.RankingList.ReadLine | tetris_ranking.py:49-50 | one line: `IndexError` with fewer than two fields, `ValueError` when the second does not read as a number, else the record |
| Ranking.RankingList.WriteRankingFile | tetris_ranking.py:54-59 | the text written is one `user,score` line per record, in order |
| Ranking.SerializeStep | tetris_ranking.py:57-59 | writing the line of record `k` after the text so far leaves the lines of the records after it to write |
| Text.Find | tetris_ranking.py:49 | the index of the first separator, or the length when there is none |
| Text.FindAfter | tetris_ranking.py:49 | the first separator of `a + [c] + b` is the one after `a` when `a` has none |
| Text.FindNone | tetris_ranking.py:49 | with no separator the index is the length |
| Text.SplitOn | tetris_ranking.py:49 | `split` gives at least one piece, and no piece holds the separator |
| Text.SplitOnFirst | tetris_ranking.py:49 | splitting at the first separator: the piece before it, then the pieces of the rest |
| Text.SplitOnNone | tetris_ranking.py:49 | with no separator there is one piece, the whole text |
| Text.SplitOnJoins | tetris_ranking.py:49 | joining the pieces with the separator gives back the text |
| Text.LineEnd | tetris_ranking.py:48 | the first line of a non-empty text is not empty, holds no line break before its last character, and ends with one unless it is the whole text |
| Text.Lines | tetris_ranking.py:48 | iterating over a file gives no empty line |
| Text.LinesBreaks | tetris_ranking.py:48 | every line holds a line break only as its last character, and every line but the last ends with one |
| Text.LinesFirst | tetris_ranking.py:48 | a text starting with a line that ends with its only line break splits into that line and the lines of the rest |
| Text.LinesConcatenate | tetris_ranking.py:48 | the lines put back together are the text |
| Text.StripLeft | tetris_ranking.py:50 | `int` strips leading whitespace: the result is a suffix that does not start with a stripped character |
| Text.StripRight | tetris_ranking.py:50 | `int` strips trailing whitespace: the result is a prefix that does not end with a stripped character |
| Text.ParseInt | tetris_ranking.py:50 | a text that reads as a number is not empty once stripped |
| Text.IntSpaceIsSpace | tetris_ranking.py:50 | `int` strips exactly what `str.isspace` accepts, less the information separators U+001C to U+001F |
| Text.SeparatorNotStripped | tetris_ranking.py:50 | `int` raises on an information separator followed by digits, whatever stripped whitespace comes before it, ASCII or not |
| Text.StripToSeparator | tetris_ranking.py:50 | stripping stops at an information separator |
| Text.NotIntSpace | tetris_ranking.py:50 | neither an information separator nor a digit is stripped |
| Text.NatToString | tetris_ranking.py:59 | `str` of a non-negative number is a non-empty run of digits |
| Text.IntToStringChars | tetris_ranking.py:59 | `str` writes only digits and a minus sign |
| Text.NatToStringValue | tetris_ranking.py:59 | the digits `str` writes are a numeral of the same value, with no leading zero |
| Text.IntToStringShape | tetris_ranking.py:59 | what `str` writes starts with a digit or a minus sign, ends with a digit, and is a numeral of the value, after a minus sign when negative |
| Text.IntToStringParses | tetris_ranking.py:50 | `int` of what `str` wrote, with any whitespace `int` strips around it, is the number |
| Text.ParseNoSign | tetris_ranking.py:50 | a stripped text starting with neither a sign nor a digit raises `ValueError` |
| Text.ParseSigned | tetris_ranking.py:50 | a stripped minus sign and numeral read as the negated numeral |
| Text.ParseUnsigned | tetris_ranking.py:50 | a stripped numeral reads as its value |
| Text.StripAround | tetris_ranking.py:50 | stripping removes exactly the surrounding whitespace |
| Text.StripLeftOf | tetris_ranking.py:50 | stripping leading whitespace before a text that starts with no whitespace gives that text |
| Text.StripRightOf | tetris_ranking.py:50 | stripping trailing whitespace after a text that ends with no whitespace gives that text |

## Left out

- The presentation layer is not modelled: the tkinter window, canvas, rectangles, buttons,
  status text, key bindings, `draw_piece`, `board.draw()` and the greying of blocks at game
  over. A stored cell holds the piece's colour, which stands for the rectangle handle the code
  stores.
- Rescheduling with `root.after(interval, ...)` is not modelled (timers are outside the model);
  `Tetris.Update` is one tick.
- `random.sample` is not modelled: the shape and colour are parameters.
- `math.log10` is not modelled (floating point): the interval is a table of the values the
  formula gives for levels 1 to 21.
- The file and `getpass.getuser()` are not modelled (I/O): the file's text is a parameter, the
  written text is a result, and the user name is a parameter.
- `Ranking.RankingList.constructor`: when a line raises, the exception leaves `__init__` in the
  code, so the caller gets no list. The model's constructor returns normally with the records
  read before that line; `ReadRankingFile` returns the error.
- `Text.ParseInt`: Python's `int` also accepts non-ASCII decimal digits; the model accepts
  only `0` to `9`.
- `Text.Lines`: Python's text mode also turns `\r` and `\r\n` into line breaks; the model
  breaks lines only at `\n`, and the round-trip lemmas exclude `\r` from user names.
- `Grid.EmptyAt`: the code would index a negative row from the end of the list; the model
  requires a non-negative row, and the piece invariant shows no call asks about one.
- `Piece.TetrisPiece`: the piece's back-reference to its board is not a field. `Move` takes
  the grid as a parameter, which leaves the module structure acyclic.
- `TetrisBoard.last_shape` is not modelled: it only carries canvas rectangle handles.
- `Tetris.Tick`: the scoring calls are applied after the board's tick, not during it. Nothing
  between them reads the score, level or interval.

## Findings

| source | as written | input that shows it | evidently intended | confidence | as-written member | corrected member |
|---|---|---|---|---|---|---|
| tetris_board.py:139-146 | a full row `i` gets a new blank list, then `grid[j] = grid[j - 1]` for `j` from `i - 1` down to 1: old row `i - 1` is overwritten and lost, row 0 stays | three rows, row 2 full, one block in row 1: the pass gives two empty rows over a blank one, and the block is gone | the rows above the cleared one move down by one and a blank row appears on top, so the block ends in row 2 | high, but not executed | Grid.AsWrittenLosesBlock | Grid.ClearIntendedCompacts |
| tetris_board.py:144-146 | the shift sets `grid[1] = grid[0]`, so rows 0 and 1 become the same list; a later block locked in row 1 also fills row 0 | any clear of a row from row 2 on, then a piece locked so that it covers row 1: the next tick finds row 0 occupied and ends the game | row 0 gets a new blank list and every row stays a different list | high, but not executed | Grid.WriteSharedReachesTop | Grid.ShiftIntendedKeepsDistinct |

The board class models the code as written. `Grid.ClearFromSharesRowOne` shows that the
aliasing of the second row follows from any clear below row 1. The corrected pass is
`Grid.ClearIntendedFrom`, and it is specified by `Grid.ClearIntendedCompacts`. It uses the
intended shift `Grid.ShiftIntended`, which `Grid.ShiftIntendedKeepsDistinct` proves keeps
every row a distinct list.
