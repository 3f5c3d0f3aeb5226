# Minesweeper engine in Dafny

This project models the game engine of a browser minesweeper (`script.js`):
- board generation: random mine placement and adjacency numbers;
- the recursive flood-fill reveal;
- right-click flagging;
- the "chord": clicking a revealed number whose flag count matches reveals its unflagged neighbours;
- the won/lost status and the win check;
- reset and difficulty changes.

The page keeps its state in module-level variables plus two bits per cell stored as CSS classes. Here that state is one `Game` class:
- `board: array2<Cell>`, where `Cell = Mine | Count(n)`;
- `mines: seq<Coord>`;
- `revealed` and `flagged` as `array2<bool>`;
- `gridSize`, `numberOfMines`, `gameWon` and `gameOver`.

The operations are methods that update those fields in place, each with the source's own loops.

Files:
- `cells.dfy` (module `Cells`) covers:
  - coordinates, cells and the board grid;
  - the eight neighbour offsets in the order the nested `i`/`j` loops visit them;
  - the adjacency number `MinesAround`;
  - the column-by-column counts that specify the win check's counting loops.
- `placement.dfy` (module `Placement`) covers retry-on-duplicate placement. `Dedup` is the sequence of draws such a loop keeps.
- `flood.dfy` (module `Flood`) gives the declarative meaning of a flood fill.
  - `Region(sources, open, zeros)` is the set of cells reachable from a source along a path of open cells whose every cell but the last holds 0.
  - It also holds the lemmas that carry the recursive reveal's loops.
- `game.dfy` (module `Minesweeper`) holds the `Game` class and its operations.

Random numbers are a parameter. `Math.random` is replaced by a caller-supplied sequence `draws` of candidate coordinates. The placement loop consumes the draws in order and skips any that repeat a mine already placed. The source's loop ends only when enough distinct coordinates have been drawn. The model therefore requires `count <= |Dedup(draws)|`, so that the supplied draws contain enough distinct cells. This also implies `count <= gridSize * gridSize`.

## Model

| member | source | states |
|---|---|---|
| Minesweeper.Game.constructor | script.js:2-8 | The page starts configured for a 30-by-30 board with 100 mines, not won, not lost, with no mines placed |
| Minesweeper.Game.InitializeBoard | script.js:11-49 | After generation, `mines` is the first `count` distinct draws: exactly `count` pairwise-distinct in-bounds coordinates. The board holds `Mine` exactly at those coordinates and the right adjacency number everywhere else. Won and lost are both cleared |
| Minesweeper.Game.PlaceMines | script.js:19-27 | The retry-on-duplicate loop keeps exactly the first `count` distinct draws, in draw order, and marks each on the board |
| Placement.Dedup | script.js:20-27 | The draws such a loop keeps are pairwise distinct, are exactly the elements drawn, and are no more numerous than the draws |
| Placement.DedupPrefix | script.js:20-27 | Drawing more only appends kept mines: the kept draws of a prefix are a prefix of the kept draws of the whole run |
| Placement.DedupCountsElements | script.js:20-27 | The number of mines a run of draws can supply is the number of distinct coordinates in it |
| Minesweeper.Game.FillCounts | script.js:29-47 | After the counting loops every non-mine cell holds the number of mines among its in-bounds neighbours, and mines stay where they are |
| Minesweeper.Game.CountAdjacentMines | script.js:33-43 | The inner 3x3 loop counts exactly the mines among the in-bounds cells around (x, y); off-board neighbours are skipped |
| Cells.MinesAroundAtMostEight | script.js:33-44 | An adjacency number is between 0 and 8 |
| Cells.NoMineAroundZero | script.js:44 | A cell whose number is 0 has no mine among its in-bounds neighbours |
| Cells.VisitedAll | script.js:34-36 | The two nested offset loops with the centre skipped visit exactly the eight cells around a cell |
| Minesweeper.Game.RevealCell | script.js:102-123 | After a reveal, the revealed cells are the old ones plus exactly the flood region from (x, y): the open cells reachable through open zero cells. Nothing revealed is hidden again, and (x, y) itself is left revealed or flagged |
| Minesweeper.Game.RevealNeighbours | script.js:113-119 | The zero branch reveals (x, y)'s eight neighbours in loop order. Every cell it uncovers lies in the flood region of (x, y), and every zero cell it uncovers ends with all its unflagged neighbours revealed |
| Flood.RegionEmpty | script.js:103-106 | A reveal of an off-board, already revealed or flagged cell uncovers nothing |
| Flood.RevealAgainChangesNothing | script.js:105 | Revealing from the same cell twice uncovers nothing the first reveal did not |
| Flood.RegionAvoidsFlags | script.js:106 | A flood fill never uncovers a flagged cell |
| Minesweeper.Game.FloodAvoidsMines | script.js:113-119 | On a correctly numbered board, a flood fill uncovers no mine other than the cell it started from, because it spreads only from zero cells |
| Flood.RegionEnteredFromZero | script.js:113-117 | Every cell a fill uncovers, other than its start, is next to an uncovered zero cell, so the fill stops at numbered cells |
| Flood.RegionComplete | script.js:113-119 | Any set of reveals that contains the open starting cells and leaves no revealed zero cell with a hidden unflagged neighbour contains the whole flood region |
| Flood.RegionClosed | script.js:113-119 | The flood region is closed: each zero cell it uncovers has every on-board neighbour revealed, either before the fill or by it, or flagged |
| Flood.RegionMonotone | script.js:102-123 | More starting cells or more open cells never make a flood fill uncover less |
| Minesweeper.Game.HandleCellClick | script.js:78-100 | A finished game or a flagged cell ignores a left click. A revealed cell hands over to the chord. An unrevealed mine sets lost and reveals nothing. Any other cell is flood-revealed, and the game is won exactly when the revealed count reaches the number of safe cells |
| Minesweeper.Game.HandleRightClick | script.js:139-148 | In a game still in play, the flag of an unrevealed cell flips and no other flag changes. Otherwise flags stay as they were. The revealed cells never change, and a board with no revealed flagged cell keeps that property |
| Minesweeper.Toggled | script.js:146 | Toggling flips membership of the clicked cell only |
| Minesweeper.ToggledTwice | script.js:146 | Toggling the same flag twice restores the flags |
| Minesweeper.Game.CountRevealed | script.js:158-165 | The counting loops count exactly the revealed cells of the board |
| Cells.CountInColumnsSize | script.js:159-165 | Counting column by column, cell by cell, counts the members of a set in those columns |
| Cells.CountInGrid | script.js:159-165 | Counting over every column of the board counts every revealed cell |
| Cells.GridSize | script.js:167 | An n-by-n board has n * n cells |
| Minesweeper.Game.CheckWinCondition | script.js:157-171 | The game becomes won exactly when the revealed count equals gridSize * gridSize - numberOfMines. The check never clears a win and never touches the lost flag |
| Minesweeper.WinCountMeansSafeCellsRevealed | script.js:167 | While no mine is revealed, the count test holds exactly when every safe cell is revealed |
| Minesweeper.WinCountWithMineRevealed | script.js:167 | Once a mine is revealed, which a chord can do, the count test can pass while a safe cell is still hidden |
| Minesweeper.Game.CountAdjacentFlags | script.js:192-205 | The chord's counting loop counts exactly the flagged in-bounds cells around (x, y) |
| Minesweeper.Game.RevealNeighborsIfFlagCountMatches | script.js:191-225 | If the flag count equals the cell's number, every unflagged in-bounds neighbour is revealed with the flood fill, and the win is then checked. Otherwise nothing changes. In neither case does the lost flag change, even when a mine is uncovered |
| Minesweeper.Game.RevealChordSources | script.js:210-222 | The chord's reveal loop reveals every unflagged in-bounds neighbour. Together they uncover exactly the flood region of those neighbours |
| Minesweeper.Game.ChordRevealAvoidsFlags | script.js:216 | A chord never uncovers a flagged cell |
| Minesweeper.Game.ChordRevealsMine | script.js:216-218 | A chord that goes ahead reveals every hidden mine among the unflagged neighbours |
| Minesweeper.Game.CreateBoard | script.js:52-76 | A freshly built page has no revealed and no flagged cell |
| Minesweeper.Game.ResetGame | script.js:174-182 | A reset keeps the size and number of mines. It generates a new board, as InitializeBoard states, and leaves no cell revealed or flagged with the game neither won nor lost |
| Minesweeper.Game.SetDifficulty | script.js:184-189 | A difficulty change installs the new size and number of mines, with the same fresh-board guarantees as a reset |

## Left out

- Rendering is not modelled. This covers:
  - the DOM parts of `createBoard`: elements, ids and event listeners; only its effect of clearing every cell's revealed and flagged state is modelled;
  - `textContent` and the number classes (`getNumberClass`);
  - `revealAllMines`, which only adds a display class and reveals nothing;
  - the `alert` calls;
  - `event.preventDefault`.
- The `window.onload` button wiring is not modelled. The presets 10/10, 15/30 and 30/100 are calls of `SetDifficulty` with those arguments.
- `Math.random` becomes the `draws` parameter.
  - The retry loop terminates only with probability one, so the model requires that the draws supply enough distinct cells.
  - The source never checks that `numberOfMines` fits on the board. That check is this requirement too.
- The `flags` array is declared and reset but never read, so it is not modelled.
- Revealing a mine: `revealCell` on a mine cell reaches `classList.add('')` with the empty class name, which makes the browser throw. Reached through a chord, that exception would end the chord's remaining reveals and skip its win check.
  - The model marks the mine revealed, changes no status, and carries on.
  - Minesweeper.Game.RevealNeighborsIfFlagCountMatches therefore assumes the chord runs to completion.
- Clicks come only from the cells the page builds, so the click handlers require an on-board coordinate.
- The 3x3 neighbour loops that skip the centre are modelled as one loop over the eight offsets, in the same order.
- The recursive zero branch of `revealCell` and the chord's reveal loop are separate methods, RevealNeighbours and RevealChordSources.
- The chord onto a mine follows the source.
  - The chord calls `revealCell` without checking for mines, so an uncovered mine stays revealed and the game does not become lost.
  - The model keeps that behaviour. ChordRevealsMine and the `gameOver` clause of RevealNeighborsIfFlagCountMatches state it.
  - WinCountWithMineRevealed shows what it does to the later win check.
