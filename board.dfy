/** The board model of the game: one cell record per grid square, the grid as
    a sequence of rows, and the sets of positions that the rules talk about
    (mines, flagged mines, revealed safe cells, hidden cells, neighbours). */
module Board {

  /** One grid square. `count` is the number of mines among the square's
      neighbours; it is filled in once the mines are placed. */
  datatype Cell = Cell(isMine: bool, isRevealed: bool, isFlagged: bool, count: int)

  /** The record every square starts out as. */
  const Blank := Cell(false, false, false, 0)

  /** The grid, row by row. */
  type Grid = seq<seq<Cell>>

  /** A (row, column) position. */
  type Pos = (int, int)

  predicate Shaped(g: Grid, rows: nat, cols: nat) {
    |g| == rows && forall r | 0 <= r < |g| :: |g[r]| == cols
  }

  predicate InBounds(g: Grid, r: int, c: int) {
    0 <= r < |g| && 0 <= c < |g[r]|
  }

  /** (r2, c2) is one of the eight squares around (r, c). */
  predicate Adjacent(r: int, c: int, r2: int, c2: int) {
    (r2, c2) != (r, c) && -1 <= r2 - r <= 1 && -1 <= c2 - c <= 1
  }

  // Cell classifications, used as filters for `Where`.
  predicate IsMine(a: Cell) { a.isMine }
  predicate IsSafe(a: Cell) { !a.isMine }
  predicate IsHidden(a: Cell) { !a.isRevealed }
  predicate FlaggedMine(a: Cell) { a.isMine && a.isFlagged }
  predicate RevealedSafe(a: Cell) { !a.isMine && a.isRevealed }

  /** All positions of the grid. */
  function Cells(g: Grid): set<Pos> {
    set r, c | 0 <= r < |g| && 0 <= c < |g[r]| :: (r, c)
  }

  /** The positions whose cell passes `keep`. */
  function Where(g: Grid, keep: Cell -> bool): set<Pos> {
    set r, c | 0 <= r < |g| && 0 <= c < |g[r]| && keep(g[r][c]) :: (r, c)
  }

  function Mines(g: Grid): set<Pos> { Where(g, IsMine) }

  /** The positions of the mines among the eight neighbours of (r, c),
      clipped at the edges of the grid. */
  function MineNeighbours(g: Grid, r: int, c: int): set<Pos> {
    set r2, c2 | 0 <= r2 < |g| && 0 <= c2 < |g[r2]| && Adjacent(r, c, r2, c2) && g[r2][c2].isMine :: (r2, c2)
  }

  /** The number of mines around (r, c): what a safe cell's `count` must hold. */
  function NeighbourMines(g: Grid, r: int, c: int): nat {
    |MineNeighbours(g, r, c)|
  }

  /** Every cell holds the right count: a safe cell the number of mines around
      it, a mine 0 (the count of a mine is never computed). */
  predicate CountsCorrect(g: Grid) {
    forall r, c {:trigger NeighbourMines(g, r, c)} | 0 <= r < |g| && 0 <= c < |g[r]| ::
      g[r][c].count == if g[r][c].isMine then 0 else NeighbourMines(g, r, c)
  }

  /** A board as it stands once set up: the right shape, `minesCount` mines
      and correct counts. */
  predicate Dealt(g: Grid, rows: nat, cols: nat, minesCount: int) {
    Shaped(g, rows, cols) && |Mines(g)| == minesCount && CountsCorrect(g)
  }

  /** The win test of the game: as many flagged mines as there are mines and
      as many revealed safe cells as there are safe cells. */
  predicate Won(g: Grid, rows: nat, cols: nat, minesCount: int) {
    |Where(g, FlaggedMine)| == minesCount && |Where(g, RevealedSafe)| == rows * cols - minesCount
  }

  predicate AllMinesFlagged(g: Grid) {
    forall r, c | 0 <= r < |g| && 0 <= c < |g[r]| :: g[r][c].isMine ==> g[r][c].isFlagged
  }

  predicate AllSafeRevealed(g: Grid) {
    forall r, c | 0 <= r < |g| && 0 <= c < |g[r]| :: !g[r][c].isMine ==> g[r][c].isRevealed
  }

  /** The positions that pass `keep` and come before (i, j) in row-major order:
      what a row-by-row scan has seen when it reaches (i, j). */
  function Scanned(g: Grid, i: int, j: int, keep: Cell -> bool): set<Pos> {
    set r, c | 0 <= r < |g| && 0 <= c < |g[r]| && (r < i || (r == i && c < j)) && keep(g[r][c]) :: (r, c)
  }

  /** The mines in the 3x3 block around (i, j) (the cell itself included) that
      come before offset (x, y) in the order of a row-then-column scan. */
  function ScannedBlock(g: Grid, i: int, j: int, x: int, y: int): set<Pos> {
    set r, c | 0 <= r < |g| && 0 <= c < |g[r]| && i - 1 <= r <= i + 1 && j - 1 <= c <= j + 1 &&
      (r < i + x || (r == i + x && c < j + y)) && g[r][c].isMine :: (r, c)
  }

  // ---------------------------------------------------------------------
  // Cardinality facts

  lemma SubsetCard(a: set<Pos>, b: set<Pos>)
    requires a <= b
    ensures |a| <= |b|
    ensures a < b ==> |a| < |b|
  {
    assert b == a + (b - a);
    assert a * (b - a) == {};
    if a < b {
      var x :| x in b - a;
    }
  }

  function RowCells(r: int, n: nat): set<Pos> {
    set c | 0 <= c < n :: (r, c)
  }

  lemma {:induction false} RowCellsCard(r: int, n: nat)
    ensures |RowCells(r, n)| == n
  {
    if n > 0 {
      RowCellsCard(r, n - 1);
      assert RowCells(r, n) == RowCells(r, n - 1) + {(r, n - 1)};
    }
  }

  /** The positions of a non-empty grid are those of all rows but the last,
      and those of the last row. */
  lemma CellsSplit(g: Grid)
    requires |g| > 0
    ensures Cells(g) == Cells(g[..|g| - 1]) + RowCells(|g| - 1, |g[|g| - 1]|)
    ensures Cells(g[..|g| - 1]) * RowCells(|g| - 1, |g[|g| - 1]|) == {}
  {
    var h, n := g[..|g| - 1], |g| - 1;
    forall p | p in Cells(g) ensures p in Cells(h) + RowCells(n, |g[n]|) {
      var r, c :| 0 <= r < |g| && 0 <= c < |g[r]| && p == (r, c);
      if r < n {
        assert g[r] == h[r];
      }
    }
  }

  /** One more row of `cols` cells adds `cols` positions. */
  lemma RowsTimesColsStep(rows: nat, cols: nat)
    requires rows > 0
    ensures (rows - 1) * cols + cols == rows * cols
  {
  }

  /** A grid of `rows` rows of `cols` cells has rows * cols positions. */
  lemma {:induction false} CellsCard(g: Grid, rows: nat, cols: nat)
    requires Shaped(g, rows, cols)
    ensures |Cells(g)| == rows * cols
  {
    if rows > 0 {
      var h := g[..rows - 1];
      assert Shaped(h, rows - 1, cols);
      CellsCard(h, rows - 1, cols);
      RowCellsCard(rows - 1, cols);
      CellsSplit(g);
      var top, last := Cells(h), RowCells(rows - 1, cols);
      assert |top + last| == |top| + |last|;
      RowsTimesColsStep(rows, cols);
    }
  }

  /** The eight positions around (r, c). */
  function Ring(r: int, c: int): set<Pos> {
    {(r - 1, c - 1), (r - 1, c), (r - 1, c + 1), (r, c - 1),
     (r, c + 1), (r + 1, c - 1), (r + 1, c), (r + 1, c + 1)}
  }

  lemma RingCard(r: int, c: int)
    ensures |Ring(r, c)| <= 8
  {
  }

  /** A cell has at most eight neighbours, so a count lies in 0..8. */
  lemma AtMostEightNeighbours(g: Grid, r: int, c: int)
    ensures NeighbourMines(g, r, c) <= 8
  {
    assert MineNeighbours(g, r, c) <= Ring(r, c);
    SubsetCard(MineNeighbours(g, r, c), Ring(r, c));
    RingCard(r, c);
  }

  /** Under correct counts every cell's count lies in 0..8. */
  lemma CountInRange(g: Grid, r: int, c: int)
    requires CountsCorrect(g) && InBounds(g, r, c)
    ensures 0 <= g[r][c].count <= 8
  {
    AtMostEightNeighbours(g, r, c);
  }

  /** A safe cell whose count is 0 has no mine among its neighbours: the reason
      the reveal cascade never reaches a mine. */
  lemma ZeroCountNoMineAround(g: Grid, r: int, c: int, r2: int, c2: int)
    requires CountsCorrect(g) && InBounds(g, r, c) && InBounds(g, r2, c2)
    requires !g[r][c].isMine && g[r][c].count == 0 && Adjacent(r, c, r2, c2)
    ensures !g[r2][c2].isMine
  {
    var around := MineNeighbours(g, r, c);
    assert NeighbourMines(g, r, c) == 0;
    assert |around| == 0;
    assert (r2, c2) !in around;
  }

  /** As many flagged mines as mines means every mine is flagged. */
  lemma FlaggedMinesIff(g: Grid)
    ensures |Where(g, FlaggedMine)| == |Mines(g)| <==> AllMinesFlagged(g)
  {
    var mines, flagged := Mines(g), Where(g, FlaggedMine);
    assert flagged <= mines;
    if AllMinesFlagged(g) {
      assert mines <= flagged;
      assert flagged == mines;
    } else {
      var r, c :| 0 <= r < |g| && 0 <= c < |g[r]| && g[r][c].isMine && !g[r][c].isFlagged;
      assert (r, c) in mines;
      assert (r, c) !in flagged;
      SubsetCard(flagged, mines);
    }
  }

  /** As many revealed safe cells as safe cells means every safe cell is revealed. */
  lemma RevealedSafeIff(g: Grid, rows: nat, cols: nat)
    requires Shaped(g, rows, cols)
    ensures |Where(g, RevealedSafe)| == rows * cols - |Mines(g)| <==> AllSafeRevealed(g)
  {
    var mines, safe, shown := Mines(g), Where(g, IsSafe), Where(g, RevealedSafe);
    SafeCard(g, rows, cols);
    assert shown <= safe;
    if AllSafeRevealed(g) {
      assert safe <= shown;
      assert shown == safe;
    } else {
      var r, c :| 0 <= r < |g| && 0 <= c < |g[r]| && !g[r][c].isMine && !g[r][c].isRevealed;
      assert (r, c) in safe;
      assert (r, c) !in shown;
      SubsetCard(shown, safe);
    }
  }

  /** The safe cells are the cells that are not mines. */
  lemma SafeCard(g: Grid, rows: nat, cols: nat)
    requires Shaped(g, rows, cols)
    ensures |Where(g, IsSafe)| == rows * cols - |Mines(g)|
  {
    var mines, safe := Mines(g), Where(g, IsSafe);
    CellsCard(g, rows, cols);
    assert Cells(g) == mines + safe;
    assert mines * safe == {};
    assert |Cells(g)| == |mines| + |safe|;
  }

  /** The win test means exactly: every mine flagged and every safe cell
      revealed, on a board with `minesCount` mines. */
  lemma WonIff(g: Grid, rows: nat, cols: nat, minesCount: int)
    requires Shaped(g, rows, cols) && |Mines(g)| == minesCount
    ensures Won(g, rows, cols, minesCount) <==> AllMinesFlagged(g) && AllSafeRevealed(g)
  {
    FlaggedMinesIff(g);
    RevealedSafeIff(g, rows, cols);
  }

  // ---------------------------------------------------------------------
  // Row-by-row scans

  /** Advancing a row-by-row scan past (i, j) adds that cell exactly when it passes `keep`. */
  lemma ScannedGrows(g: Grid, i: int, j: int, keep: Cell -> bool)
    requires InBounds(g, i, j)
    ensures Scanned(g, i, j + 1, keep) == Scanned(g, i, j, keep) + if keep(g[i][j]) then {(i, j)} else {}
  {
    var before, after := Scanned(g, i, j, keep), Scanned(g, i, j + 1, keep);
    assert before <= after;
    assert after <= before + {(i, j)};
  }

  lemma ScannedStep(g: Grid, i: int, j: int, keep: Cell -> bool)
    requires InBounds(g, i, j)
    ensures |Scanned(g, i, j + 1, keep)| == |Scanned(g, i, j, keep)| + if keep(g[i][j]) then 1 else 0
  {
    ScannedGrows(g, i, j, keep);
    assert (i, j) !in Scanned(g, i, j, keep);
  }

  lemma ScannedNextRow(g: Grid, i: int, keep: Cell -> bool)
    requires 0 <= i < |g|
    ensures Scanned(g, i, |g[i]|, keep) == Scanned(g, i + 1, 0, keep)
  {
  }

  lemma ScannedAll(g: Grid, keep: Cell -> bool)
    ensures Scanned(g, |g|, 0, keep) == Where(g, keep)
    ensures Scanned(g, 0, 0, keep) == {}
  {
  }

  /** Advancing the block scan by one offset adds that offset's cell exactly
      when it is an in-bounds mine. */
  lemma BlockGrows(g: Grid, i: int, j: int, x: int, y: int)
    requires -1 <= x <= 1 && -1 <= y <= 1
    ensures ScannedBlock(g, i, j, x, y + 1) == ScannedBlock(g, i, j, x, y) +
            if InBounds(g, i + x, j + y) && g[i + x][j + y].isMine then {(i + x, j + y)} else {}
  {
    var before, after, here := ScannedBlock(g, i, j, x, y), ScannedBlock(g, i, j, x, y + 1), (i + x, j + y);
    assert before <= after;
    assert after <= before + {here};
  }

  lemma BlockStep(g: Grid, i: int, j: int, x: int, y: int)
    requires -1 <= x <= 1 && -1 <= y <= 1
    ensures |ScannedBlock(g, i, j, x, y + 1)| ==
            |ScannedBlock(g, i, j, x, y)| + if InBounds(g, i + x, j + y) && g[i + x][j + y].isMine then 1 else 0
  {
    BlockGrows(g, i, j, x, y);
    assert (i + x, j + y) !in ScannedBlock(g, i, j, x, y);
  }

  lemma BlockNextRow(g: Grid, i: int, j: int, x: int)
    ensures ScannedBlock(g, i, j, x, 2) == ScannedBlock(g, i, j, x + 1, -1)
  {
  }

  /** The whole 3x3 block of a safe cell holds exactly its neighbouring mines. */
  lemma BlockAll(g: Grid, i: int, j: int)
    requires InBounds(g, i, j) && !g[i][j].isMine
    ensures ScannedBlock(g, i, j, -1, -1) == {}
    ensures ScannedBlock(g, i, j, 2, -1) == MineNeighbours(g, i, j)
  {
  }
}
