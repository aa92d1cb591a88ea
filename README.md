# Minesweeper board and reveal engine in Dafny

This project models the core of a browser Minesweeper game: a rows × cols
grid of cell records (`isMine`, `isRevealed`, `isFlagged`, `count`) and a
`gameOver` flag, together with the operations the page runs on them:

- building the empty grid, placing mines by rejection sampling and computing
  each safe cell's count of neighbouring mines;
- the recursive reveal with its flood fill over count-0 cells;
- the disclosure of all mines on a loss;
- the win test;
- the game-over guard of the primary click and the flag toggle of the
  secondary click.

The model has three modules:

- `Board` (board.dfy): the `Cell` datatype, the grid as `seq<seq<Cell>>`, and
  the sets of positions the rules are stated over (mines, the mines around a
  cell, flagged mines, revealed safe cells, hidden cells). It also holds the
  counting facts: a grid has rows × cols positions, a count lies in 0..8, a
  count-0 safe cell has no mine neighbours, and the win test holds exactly
  when every mine is flagged and every safe cell is revealed.
- `Rules` (rules.dfy): the reveal engine's effects as relations between the
  board before and after a move. `RevealOutcome` states what a reveal does
  in each of its four mutually exclusive cases. `RevealsSafeOnly` says a
  cascade reveals only safe, unflagged cells, never hides one and changes
  nothing else. `MinesDisclosed` is the loss disclosure. `CascadeClosed`
  says the flood fill is complete: it goes at least as far as its count-0
  cells lead. `WithinReach` says it goes no further: every newly revealed
  cell lies at the end of a route (`CascadePath`) from the clicked cell
  through adjacent hidden, unflagged, safe cells, all but the last with
  count 0. `RevealDetermined` shows that the relation is a function: a
  reveal has exactly one outcome. `Scanning` is the invariant of the
  cascade's neighbour loop.
- `Minesweeper` (game.dfy): the class `Game`, whose fields are the closure
  state of the page script (`rows`, `cols`, `minesCount`, `flagEnabled`,
  `board`, `gameOver`). Its methods are the script's functions, with the
  same loops and branches. Each one's `ensures` ties the new board to the
  old one. The module also holds the invariants of the placement loop
  (`Placing`) and of the neighbour count (`CountedBefore`) with their step
  lemmas.

`RevealCell` is a recursive method. It terminates because every recursive
call starts with fewer hidden cells than its caller: the current cell is
revealed before any neighbour is visited.

Decisions a reader should know about:

- The board is a `seq<seq<Cell>>` field that the methods reassign. In the
  source it is an array of arrays whose cell records are changed in place.
  No record is shared between two grid squares, so reassigning the field
  has the same effect.
- `Math.random` is replaced by a supplied sequence `samples` of in-bounds
  positions: the draws the random source would make. `PlaceMines` requires
  that these hold at least `minesCount` distinct positions. That is the
  termination condition of the source's rejection loop ("the sampler
  eventually hits enough free cells").
- The page's fixed constants (8 rows, 8 columns, 10 mines) are constructor
  parameters. `flagEnabeled`, which the page never sets, is the constructor
  parameter `flagEnabled`.
- In `countNeighbours` the source increments `count` once per mine seen
  during the 3×3 scan. The model runs the scan as the read-only method
  `MinesAround` and adds its result to `count`, which gives the same final
  value. `CountNeighbours` states the result as old count plus number of
  mines around. After `initializeBoard` every count is 0, so the counts
  come out exact, as the constructor states.
- The two tallies of `checkWin` are the read-only method `Tally`, and
  `CheckWin` adds the comparison.
- In flag mode the primary action looks like a flag flip
  (minesweeper.js:121), but it can only *set* a flag: a flagged cell has
  already returned at the guard on line 116. The model follows the code
  (`Rules.FlagModeOnlySets`).
- The code assumes no bound such as `minesCount < rows*cols`. Placement only
  needs enough distinct cells among the samples, which implies
  `minesCount <= rows*cols`.
- `InitializeBoard` requires the board to be empty, as it is at its only
  call (minesweeper.js:2, 13). `ToggleFlag` requires an in-bounds cell,
  because a secondary-click handler only exists for a rendered cell.
  `RevealCell` and `Click` accept any coordinates, as the code does.
- The cascade's nine visits are numbered 3 * (x + 1) + (y + 1) for the
  offset (x, y); `Scanning` at visit n says the in-bounds neighbours of the
  first n visits are revealed or flagged.
- The cascade scans all nine offsets of the 3×3 block, as the code does. The
  centre offset is always skipped because that cell was just revealed.
- `revealCell` does not test `gameOver`. A win reached partway through a
  cascade sets `gameOver` and the cascade goes on. The model keeps this:
  during and after the cascade, `gameOver` equals "it was over before, or
  the board is won now". `Rules.WonKept` shows that a won board stays won
  for the rest of the cascade.

## Model

| member | source | states |
|---|---|---|
| `Minesweeper.Game.constructor` | minesweeper.js:2-15 | after start-up the board has `minesCount` mines and correct counts, nothing is revealed or flagged, and the game is in play; the mines are exactly the distinct positions among the first k samples, for the least k that gives `minesCount` of them |
| `Minesweeper.Game.InitializeBoard` | minesweeper.js:19-31 | the board is rows × cols cells, each with `isMine`, `isRevealed`, `isFlagged` false and `count` 0 |
| `Minesweeper.Game.PlaceMines` | minesweeper.js:33-43 | the mines are exactly the distinct cells among the samples drawn, there are `minesCount` of them, one draw fewer would not have been enough, and only `isMine` fields changed |
| `Minesweeper.PlacingStep` | minesweeper.js:35-43 | one draw marks its cell and adds one to the mine tally only if the cell was not already a mine; otherwise the board and tally are unchanged |
| `Minesweeper.PlacingAdds` | minesweeper.js:39-42 | a draw on a safe cell puts a mine there, adds one to the tally and keeps the placement invariant |
| `Minesweeper.DrawnStep` | minesweeper.js:35-37 | one more draw adds exactly its position to the set of positions drawn |
| `Minesweeper.MineAdded` | minesweeper.js:39-42 | putting a mine on a safe cell adds exactly that position to the mine set and changes nothing else |
| `Minesweeper.Game.MinesAround` | minesweeper.js:51-61 | the 3×3 scan around a safe cell, clipped at the edges, finds exactly the mines among its eight neighbours |
| `Minesweeper.Game.CountNeighbours` | minesweeper.js:47-65 | every safe cell's count grows by the number of mines around it; mines keep their count; no other field changes |
| `Minesweeper.CountStep` | minesweeper.js:48-58 | counting the cell at (i, j) moves the row-major scan on by one cell; a mine is left as it is |
| `Board.AtMostEightNeighbours` | minesweeper.js:51-55 | a cell has at most eight mine neighbours |
| `Board.CountInRange` | minesweeper.js:47-65 | on a board with correct counts every count lies in 0..8 |
| `Board.ZeroCountNoMineAround` | minesweeper.js:136-145 | a safe cell with count 0 has no mine among its in-bounds neighbours, so the cascade never hands a mine to the reveal |
| `Minesweeper.Game.RevealCell` | minesweeper.js:112-148 | no-op off the board or on a revealed or flagged cell; in flag mode only that cell's flag flips; on a mine the game ends and exactly the mines are disclosed; on a safe cell only safe unflagged cells are revealed, the cell itself is, every count-0 cell revealed has all its unflagged neighbours revealed, every newly revealed cell is reachable from (i, j) through hidden unflagged safe count-0 cells, and `gameOver` is "over before, or won now"; the board stays set up; the call terminates |
| `Rules.RevealDetermined` | minesweeper.js:112-148 | two outcomes of the same reveal are equal: board and `gameOver` are fixed by the board before and the clicked cell |
| `Rules.CascadeDetermined` | minesweeper.js:139-147 | two closed cascades from (i, j) that reveal (i, j) and nothing out of its reach give the same board |
| `Rules.NumberRevealsOnlyItself` | minesweeper.js:136-138 | a reveal of a hidden safe cell with a nonzero count reveals that cell and changes nothing else |
| `Rules.PathRevealed` | minesweeper.js:139-147 | a closed cascade that reveals the start of a route reveals every cell on it |
| `Rules.ReachedRevealed` | minesweeper.js:139-147 | every cell the cascade from (i, j) can reach is revealed by a closed cascade that reveals (i, j) |
| `Rules.ReachExtended` | minesweeper.js:143-145 | what the nested reveal of a neighbour uncovers is within reach of the outer cascade |
| `Rules.PathBefore` | minesweeper.js:143-145 | a route on the board during a cascade is a route on the board before it |
| `Rules.PathCons` | minesweeper.js:141-144 | a count-0 enterable cell next to the start of a route starts a longer route |
| `Rules.FlagModeOnlySets` | minesweeper.js:116-124 | in flag mode a reveal can only set a flag (a flagged cell stops at the guard), reveals nothing and keeps `gameOver` |
| `Rules.RevealMonotone` | minesweeper.js:112-148 | no reveal hides a revealed cell or clears `gameOver` |
| `Rules.RevealKeepsNoFlagOnRevealed` | minesweeper.js:112-134 | every reveal except the loss disclosure (which reveals flagged mines too) keeps every cell from being both revealed and flagged, including a reveal that wins |
| `Rules.DisclosedAfterReveal` | minesweeper.js:125-134 | revealing the clicked mine and then every mine reveals every mine, flagged or not, and leaves every safe cell untouched |
| `Rules.RevealOneSafe` | minesweeper.js:125 | revealing a hidden, unflagged safe cell changes only its `isRevealed` field |
| `Rules.NumberStops` | minesweeper.js:135-138 | revealing a hidden safe cell with a nonzero count and running the win test is the reveal's whole outcome |
| `Rules.LossOutcome` | minesweeper.js:125-134 | revealing a mine and then all mines is the loss outcome: `gameOver` set, every mine disclosed, the board still set up |
| `Rules.FlagOutcome` | minesweeper.js:120-123 | in flag mode the flag of a hidden, unflagged cell flips, `gameOver` is kept, and the board stays set up |
| `Rules.RevealOneKeepsDealt` | minesweeper.js:125 | revealing a safe cell keeps the mine total and the counts |
| `Rules.ScanStart` | minesweeper.js:135-139 | after revealing a count-0 safe cell and running the win test, the neighbour loop's invariant holds |
| `Rules.ScanTargetSafe` | minesweeper.js:141-145 | the neighbour about to be revealed is not a mine |
| `Rules.ScanStep` | minesweeper.js:141-145 | one visit of the neighbour loop, a call or a skip, moves the loop invariant on to the next visit, including fewer hidden cells than at entry (the termination measure) |
| `Rules.ScanCall` | minesweeper.js:143-145 | revealing a neighbour keeps the loop invariant: still only safe cells revealed, closure, reach, the win flag, and the scanned neighbours all revealed or flagged |
| `Rules.ScanDone` | minesweeper.js:139-147 | when the neighbour loop ends, the cascade's outcome is the one `RevealOutcome` states |
| `Rules.SettledBeforeStep` | minesweeper.js:143-145 | neighbours already scanned stay revealed or flagged, and the one just handled joins them |
| `Rules.OverTracksWin` | minesweeper.js:135 | through a nested cascade, `gameOver` stays equal to "over before, or won now" |
| `Rules.WonKept` | minesweeper.js:135-147 | once the board is won, further cascading leaves it won |
| `Rules.ClosedExceptKept` | minesweeper.js:139-147 | cells a nested cascade closed stay closed |
| `Rules.SettledKept` | minesweeper.js:143-145 | a cell whose neighbours are all revealed or flagged stays so under a cascade |
| `Rules.DealtKept` | minesweeper.js:112-148 | a move that keeps mines and counts keeps the board set up (mine total and exact counts) |
| `Rules.SameMines` | minesweeper.js:47-65 | boards with the same mines have the same mine set and the same mines around every cell |
| `Rules.HiddenShrinks` | minesweeper.js:116-125 | a cascade only shrinks the set of hidden cells |
| `Minesweeper.Game.RevealAllMines` | minesweeper.js:149-158 | every mine becomes revealed and every other cell is unchanged |
| `Minesweeper.Game.Tally` | minesweeper.js:161-175 | the tallies are the number of flagged mines and the number of revealed safe cells |
| `Minesweeper.Game.CheckWin` | minesweeper.js:161-182 | `gameOver` becomes true exactly when the tallies equal `minesCount` and `rows*cols - minesCount`; it is never set back to false and no cell changes |
| `Board.WonIff` | minesweeper.js:177 | on a board with `minesCount` mines, the win test holds if and only if every mine is flagged and every safe cell is revealed |
| `Board.FlaggedMinesIff` | minesweeper.js:168-170 | the flagged-mine tally equals the number of mines if and only if every mine is flagged |
| `Board.RevealedSafeIff` | minesweeper.js:171-173 | the revealed-safe tally equals rows*cols minus the mines if and only if every safe cell is revealed |
| `Board.SafeCard` | minesweeper.js:171-177 | the safe cells number rows*cols minus the mines |
| `Board.CellsCard` | minesweeper.js:177 | a grid of rows rows of cols cells has rows*cols positions |
| `Minesweeper.Game.Click` | minesweeper.js:90-96 | once the game is over a click changes nothing; otherwise it is a reveal; the board stays set up and, while in play, no cell is both revealed and flagged; unless the click reveals a mine, no cell becomes both revealed and flagged |
| `Minesweeper.Game.ToggleFlag` | minesweeper.js:97-105 | a no-op once the game is over or on a revealed cell; otherwise it flips only that cell's flag and sets `gameOver` to the win test; it keeps the board set up, the in-play invariant, and the absence of cells both revealed and flagged |

## Left out

- Rendering (`renderBoard`, minesweeper.js:67-89 and 107-110): DOM element creation, glyphs and CSS classes are presentation.
- Event wiring, `e.preventDefault()` and the `DOMContentLoaded` bootstrap: browser plumbing. The handlers' state logic is modelled as `Click` and `ToggleFlag`.
- Status and mine-count text updates (minesweeper.js:44, 131-132, 179-180): display only.
- `Math.random` (minesweeper.js:36-37): a foreign nondeterministic call. It is replaced by the supplied `samples`, so the model says nothing about the uniform distribution of mines.
- The calls to `renderBoard` inside `revealCell`, `revealAllMines` and the handlers: they read state only.
- Number width: JavaScript numbers are doubles. All values here are small integers, so the model uses unbounded `int`.
