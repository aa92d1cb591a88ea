/** One game session: the board, the game-over flag and the operations the
    page runs on them (set-up, reveal with its cascade, the disclosure of the
    mines on a loss, the win test and the two click handlers). */
module Minesweeper {
  import opened Board
  import opened Rules

  /** g1 differs from g0 in nothing but which cells are mines. */
  predicate OnlyMinesChanged(g0: Grid, g1: Grid) {
    SameShape(g0, g1) &&
    forall r, c | 0 <= r < |g0| && 0 <= c < |g0[r]| :: g1[r][c] == g0[r][c].(isMine := g1[r][c].isMine)
  }

  /** The board with a mine put on (i, j). */
  function Mined(g: Grid, i: int, j: int): Grid
    requires InBounds(g, i, j)
  {
    g[i := g[i][j := g[i][j].(isMine := true)]]
  }

  /** Putting a mine on a safe cell adds exactly that position to the mines
      and changes nothing else. */
  lemma MineAdded(g0: Grid, g: Grid, i: int, j: int)
    requires OnlyMinesChanged(g0, g) && InBounds(g, i, j) && !g[i][j].isMine
    ensures Mines(Mined(g, i, j)) == Mines(g) + {(i, j)}
    ensures |Mines(Mined(g, i, j))| == |Mines(g)| + 1
    ensures OnlyMinesChanged(g0, Mined(g, i, j))
  {
    var g1: Grid := Mined(g, i, j);
    forall r: int, c: int | 0 <= r < |g0| && 0 <= c < |g0[r]| ensures g1[r][c] == g0[r][c].(isMine := g1[r][c].isMine) {
      assert g[r][c] == g0[r][c].(isMine := g[r][c].isMine);
    }
  }

  /** The distinct positions among the first k samples. */
  function Drawn(samples: seq<Pos>, k: nat): set<Pos>
    requires k <= |samples|
  {
    set m | 0 <= m < k :: samples[m]
  }

  /** One more sample adds its position to the drawn set. */
  lemma DrawnStep(samples: seq<Pos>, k: nat)
    requires k < |samples|
    ensures Drawn(samples, k + 1) == Drawn(samples, k) + {samples[k]}
  {
    var before, after := Drawn(samples, k), Drawn(samples, k + 1);
    forall p | p in after ensures p in before + {samples[k]} {
      var m :| 0 <= m < k + 1 && samples[m] == p;
      if m < k { assert samples[m] in before; }
    }
    forall p | p in before ensures p in after {
      var m :| 0 <= m < k && samples[m] == p;
      assert samples[m] in after;
    }
    assert samples[k] in after;
  }

  /** What holds while mines are being placed: g0 is the board at the start,
      g the present one, and the first `draws` samples have been used. */
  predicate Placing(g0: Grid, g: Grid, samples: seq<Pos>, draws: nat, mines: nat,
                    rows: nat, cols: nat, minesCount: nat)
  {
    draws <= |samples| && mines <= minesCount &&
    Shaped(g, rows, cols) && OnlyMinesChanged(g0, g) &&
    Mines(g) == Drawn(samples, draws) && mines == |Mines(g)| &&
    (draws > 0 ==> |Drawn(samples, draws - 1)| < minesCount)
  }

  /** One draw of the sampler keeps `Placing`. */
  lemma PlacingStep(g0: Grid, g: Grid, samples: seq<Pos>, draws: nat, mines: nat,
                    rows: nat, cols: nat, minesCount: nat)
    requires Placing(g0, g, samples, draws, mines, rows, cols, minesCount)
    requires mines < minesCount && draws < |samples|
    requires 0 <= samples[draws].0 < rows && 0 <= samples[draws].1 < cols
    ensures var (r, c) := samples[draws];
      if g[r][c].isMine then Placing(g0, g, samples, draws + 1, mines, rows, cols, minesCount)
      else Placing(g0, Mined(g, r, c), samples, draws + 1, mines + 1, rows, cols, minesCount)
  {
    var (r, c) := samples[draws];
    DrawnStep(samples, draws);
    if !g[r][c].isMine {
      PlacingAdds(g0, g, samples, draws, mines, rows, cols, minesCount);
    } else {
      assert (r, c) in Mines(g);
      assert Drawn(samples, draws + 1) == Mines(g);
    }
  }

  /** A sample on a safe cell puts a mine there and moves the count on. */
  lemma PlacingAdds(g0: Grid, g: Grid, samples: seq<Pos>, draws: nat, mines: nat,
                    rows: nat, cols: nat, minesCount: nat)
    requires Placing(g0, g, samples, draws, mines, rows, cols, minesCount)
    requires mines < minesCount && draws < |samples|
    requires 0 <= samples[draws].0 < rows && 0 <= samples[draws].1 < cols
    requires !g[samples[draws].0][samples[draws].1].isMine
    requires Drawn(samples, draws + 1) == Drawn(samples, draws) + {samples[draws]}
    ensures Placing(g0, Mined(g, samples[draws].0, samples[draws].1), samples, draws + 1, mines + 1,
                    rows, cols, minesCount)
  {
    var (r, c) := samples[draws];
    MineAdded(g0, g, r, c);
    assert Shaped(Mined(g, r, c), rows, cols);
  }

  /** A cell once its neighbour scan has added the mines around it. */
  function Counted(g: Grid, r: int, c: int): Cell
    requires InBounds(g, r, c)
  {
    if g[r][c].isMine then g[r][c]
    else g[r][c].(count := g[r][c].count + NeighbourMines(g, r, c))
  }

  /** What the neighbour count has done when it reaches (i, j): the cells
      before it in row-major order are counted, the rest are as in g0. */
  predicate CountedBefore(g0: Grid, g: Grid, i: int, j: int, rows: nat, cols: nat) {
    Shaped(g0, rows, cols) && Shaped(g, rows, cols) && SameMineField(g0, g) &&
    forall r, c | 0 <= r < rows && 0 <= c < cols ::
      g[r][c] == if r < i || (r == i && c < j) then Counted(g0, r, c) else g0[r][c]
  }

  /** Counting the cell at (i, j) moves the scan one cell on; a mine needs no update. */
  lemma CountStep(g0: Grid, g: Grid, i: int, j: int, rows: nat, cols: nat)
    requires CountedBefore(g0, g, i, j, rows, cols) && 0 <= i < rows && 0 <= j < cols
    ensures g[i][j] == g0[i][j]
    ensures g0[i][j].isMine ==> CountedBefore(g0, g, i, j + 1, rows, cols)
    ensures CountedBefore(g0, g[i := g[i][j := Counted(g0, i, j)]], i, j + 1, rows, cols)
  {
    var g1 := g[i := g[i][j := Counted(g0, i, j)]];
    assert Shaped(g1, rows, cols);
    forall r, c | 0 <= r < rows && 0 <= c < cols
      ensures g1[r][c].isMine == g0[r][c].isMine
      ensures g1[r][c] == if r < i || (r == i && c < j + 1) then Counted(g0, r, c) else g0[r][c]
    {
      if (r, c) != (i, j) {
        assert g1[r][c] == g[r][c];
      }
    }
  }

  class Game {
    const rows: nat
    const cols: nat
    const minesCount: nat
    /** The flag mode of the primary click; the page never switches it on. */
    const flagEnabled: bool
    var board: Grid
    var gameOver: bool

    /** The board is set up: shaped, with `minesCount` mines and right counts. */
    ghost predicate Ready()
      reads this
    {
      Dealt(board, rows, cols, minesCount)
    }

    /** While the game is in play no cell is both revealed and flagged. */
    ghost predicate InPlaySound()
      reads this
    {
      !gameOver ==> NoFlagOnRevealed(board)
    }

    /** The page's start-up: the session state, then the board built, the
        mines placed from the `samples` the random source would draw, and the
        counts computed. */
    constructor (rows: nat, cols: nat, minesCount: nat, flagEnabled: bool, samples: seq<Pos>)
      requires forall k | 0 <= k < |samples| :: 0 <= samples[k].0 < rows && 0 <= samples[k].1 < cols
      requires |Drawn(samples, |samples|)| >= minesCount
      ensures this.rows == rows && this.cols == cols && this.minesCount == minesCount
      ensures this.flagEnabled == flagEnabled
      ensures Ready() && !gameOver && InPlaySound()
      ensures forall r, c | 0 <= r < rows && 0 <= c < cols :: !board[r][c].isRevealed && !board[r][c].isFlagged
      ensures exists k | 0 <= k <= |samples| ::
        Mines(board) == Drawn(samples, k) && (k > 0 ==> |Drawn(samples, k - 1)| < minesCount)
    {
      this.rows, this.cols, this.minesCount := rows, cols, minesCount;
      this.flagEnabled := flagEnabled;
      board, gameOver := [], false;
      new;
      InitializeBoard();
      assert Mines(board) == {};
      var draws := PlaceMines(samples);
      ghost var mined := board;
      CountNeighbours();
      SameMines(mined, board);
      assert Mines(board) == Drawn(samples, draws);
    }

    /** Lines up `rows` rows of `cols` blank cells. */
    method InitializeBoard()
      requires board == []
      modifies this`board
      ensures Shaped(board, rows, cols)
      ensures forall r, c | 0 <= r < rows && 0 <= c < cols :: board[r][c] == Blank
    {
      for i := 0 to rows
        invariant |board| == i
        invariant forall r | 0 <= r < i :: |board[r]| == cols && forall c | 0 <= c < cols :: board[r][c] == Blank
      {
        var row: seq<Cell> := [];
        for j := 0 to cols
          invariant |row| == j && forall c | 0 <= c < j :: row[c] == Blank
        {
          row := row + [Blank];
        }
        board := board + [row];
      }
    }

    /** Rejection sampling: each sample marks its cell as a mine unless it is
        one already, until `minesCount` mines are down. Returns how many
        samples were drawn. */
    method PlaceMines(samples: seq<Pos>) returns (draws: nat)
      requires Shaped(board, rows, cols) && Mines(board) == {}
      requires forall k | 0 <= k < |samples| :: 0 <= samples[k].0 < rows && 0 <= samples[k].1 < cols
      requires |Drawn(samples, |samples|)| >= minesCount
      modifies this`board
      ensures draws <= |samples|
      ensures Shaped(board, rows, cols)
      ensures Mines(board) == Drawn(samples, draws) && |Mines(board)| == minesCount
      ensures draws > 0 ==> |Drawn(samples, draws - 1)| < minesCount
      ensures OnlyMinesChanged(old(board), board)
    {
      var mines := 0;
      draws := 0;
      while mines < minesCount
        invariant Placing(old(board), board, samples, draws, mines, rows, cols, minesCount)
        decreases |samples| - draws
      {
        assert draws < |samples|;
        var r, c := samples[draws].0, samples[draws].1;
        assert 0 <= r < rows && 0 <= c < cols;
        PlacingStep(old(board), board, samples, draws, mines, rows, cols, minesCount);
        draws := draws + 1;
        if !board[r][c].isMine {
          board := board[r := board[r][c := board[r][c].(isMine := true)]];
          mines := mines + 1;
        }
      }
    }

    /** The number of mines around the safe cell (i, j): the 3x3 scan of the
        neighbour count, clipped at the edges. */
    method MinesAround(i: int, j: int) returns (n: nat)
      requires Shaped(board, rows, cols) && 0 <= i < rows && 0 <= j < cols && !board[i][j].isMine
      ensures n == NeighbourMines(board, i, j)
    {
      BlockAll(board, i, j);
      n := 0;
      for x := -1 to 2
        invariant n == |ScannedBlock(board, i, j, x, -1)|
      {
        for y := -1 to 2
          invariant n == |ScannedBlock(board, i, j, x, y)|
        {
          var newR, newC := i + x, j + y;
          BlockStep(board, i, j, x, y);
          if newR >= 0 && newR < rows && newC >= 0 && newC < cols {
            if board[newR][newC].isMine {
              n := n + 1;
            }
          }
        }
        BlockNextRow(board, i, j, x);
      }
    }

    /** Adds to the count of every safe cell the number of mines around it;
        mines keep their count. */
    method CountNeighbours()
      requires Shaped(board, rows, cols)
      modifies this`board
      ensures Shaped(board, rows, cols)
      ensures forall r, c | 0 <= r < rows && 0 <= c < cols :: board[r][c] == Counted(old(board), r, c)
    {
      ghost var g0 := board;
      for i := 0 to rows
        invariant CountedBefore(g0, board, i, 0, rows, cols)
      {
        for j := 0 to cols
          invariant CountedBefore(g0, board, i, j, rows, cols)
        {
          CountStep(g0, board, i, j, rows, cols);
          if !board[i][j].isMine {
            SameMines(g0, board);
            var n := MinesAround(i, j);
            assert board[i][j].(count := board[i][j].count + n) == Counted(g0, i, j);
            board := board[i := board[i][j := board[i][j].(count := board[i][j].count + n)]];
          }
        }
      }
    }

    /** The two tallies of the win test: flagged mines and revealed safe cells. */
    method Tally() returns (correctlyFlagged: nat, revealedTiles: nat)
      requires Shaped(board, rows, cols)
      ensures correctlyFlagged == |Where(board, FlaggedMine)|
      ensures revealedTiles == |Where(board, RevealedSafe)|
    {
      ScannedAll(board, FlaggedMine);
      ScannedAll(board, RevealedSafe);
      correctlyFlagged, revealedTiles := 0, 0;
      for i := 0 to rows
        invariant correctlyFlagged == |Scanned(board, i, 0, FlaggedMine)|
        invariant revealedTiles == |Scanned(board, i, 0, RevealedSafe)|
      {
        for j := 0 to cols
          invariant correctlyFlagged == |Scanned(board, i, j, FlaggedMine)|
          invariant revealedTiles == |Scanned(board, i, j, RevealedSafe)|
        {
          var cell := board[i][j];
          ScannedStep(board, i, j, FlaggedMine);
          ScannedStep(board, i, j, RevealedSafe);
          if cell.isMine && cell.isFlagged {
            correctlyFlagged := correctlyFlagged + 1;
          }
          if !cell.isMine && cell.isRevealed {
            revealedTiles := revealedTiles + 1;
          }
        }
        ScannedNextRow(board, i, FlaggedMine);
        ScannedNextRow(board, i, RevealedSafe);
      }
    }

    /** Ends the game when the win test passes; never clears `gameOver`. */
    method CheckWin()
      requires Shaped(board, rows, cols)
      modifies this`gameOver
      ensures gameOver == (old(gameOver) || Won(board, rows, cols, minesCount))
    {
      var correctlyFlagged, revealedTiles := Tally();
      if correctlyFlagged == minesCount && revealedTiles == rows * cols - minesCount {
        gameOver := true;
      }
    }

    /** Reveals every mine, flagged or not, and nothing else. */
    method RevealAllMines()
      requires Shaped(board, rows, cols)
      modifies this`board
      ensures MinesDisclosed(old(board), board)
    {
      ghost var g0 := board;
      for i := 0 to rows
        invariant Shaped(board, rows, cols)
        invariant forall r, c | 0 <= r < rows && 0 <= c < cols ::
          board[r][c] == if r < i then Disclosed(g0[r][c]) else g0[r][c]
      {
        for j := 0 to cols
          invariant Shaped(board, rows, cols)
          invariant forall r, c | 0 <= r < rows && 0 <= c < cols ::
            board[r][c] == if r < i || (r == i && c < j) then Disclosed(g0[r][c]) else g0[r][c]
        {
          if board[i][j].isMine {
            board := board[i := board[i][j := board[i][j].(isRevealed := true)]];
          }
        }
      }
    }

    /** The reveal with its flood fill. Off the board, on a revealed or on a
        flagged cell it does nothing; in flag mode it flips the flag; on a
        mine it ends the game and discloses the mines; on a safe cell it
        reveals it, runs the win test and, when the count is 0, reveals the
        hidden neighbours in turn. The cascade ends because every call starts
        with fewer hidden cells than its caller. */
    method RevealCell(i: int, j: int)
      requires Ready()
      modifies this`board, this`gameOver
      ensures Ready()
      ensures RevealOutcome(old(board), old(gameOver), board, gameOver, i, j, flagEnabled, rows, cols, minesCount)
      decreases |Where(board, IsHidden)|
    {
      if i < 0 || i >= rows || j < 0 || j >= cols {
        return;
      }
      if board[i][j].isRevealed || board[i][j].isFlagged {
        return;
      }
      if flagEnabled {
        board := board[i := board[i][j := board[i][j].(isFlagged := !board[i][j].isFlagged)]];
        FlagOutcome(old(board), old(gameOver), i, j, flagEnabled, rows, cols, minesCount);
        return;
      }
      board := board[i := board[i][j := board[i][j].(isRevealed := true)]];
      if board[i][j].isMine {
        gameOver := true;
        RevealAllMines();
        LossOutcome(old(board), old(gameOver), board, i, j, flagEnabled, rows, cols, minesCount);
        return;
      }
      CheckWin();
      CountInRange(old(board), i, j);
      if board[i][j].count > 0 {
        RevealOneKeepsDealt(old(board), i, j, rows, cols, minesCount);
        NumberStops(old(board), old(gameOver), gameOver, i, j, flagEnabled, rows, cols, minesCount);
        return;
      }
      ScanStart(old(board), old(gameOver), gameOver, i, j, rows, cols, minesCount);
      for x := -1 to 2
        invariant Scanning(old(board), old(gameOver), board, gameOver, i, j, 3 * (x + 1), rows, cols, minesCount)
      {
        for y := -1 to 2
          invariant Scanning(old(board), old(gameOver), board, gameOver, i, j, 3 * (x + 1) + (y + 1), rows, cols, minesCount)
        {
          var newR, newC := i + x, j + y;
          ghost var g, over := board, gameOver;
          if newR >= 0 && newR < rows && newC >= 0 && newC < cols && !board[newR][newC].isRevealed {
            RevealCell(newR, newC);
          }
          ScanStep(old(board), old(gameOver), g, over, board, gameOver, i, j, x, y, newR, newC,
                   flagEnabled, rows, cols, minesCount);
        }
      }
      ScanDone(old(board), old(gameOver), board, gameOver, i, j, flagEnabled, rows, cols, minesCount);
    }

    /** The primary-click handler: ignored once the game is over, otherwise a
        reveal. */
    method Click(i: int, j: int)
      requires Ready()
      modifies this`board, this`gameOver
      ensures Ready()
      ensures old(gameOver) ==> board == old(board) && gameOver
      ensures !old(gameOver) ==>
        RevealOutcome(old(board), false, board, gameOver, i, j, flagEnabled, rows, cols, minesCount)
      ensures old(InPlaySound()) ==> InPlaySound()
      ensures NoFlagOnRevealed(old(board)) && !(Effective(old(board), i, j) && !flagEnabled && old(board)[i][j].isMine) ==>
        NoFlagOnRevealed(board)
    {
      if gameOver {
        return;
      }
      RevealCell(i, j);
      if NoFlagOnRevealed(old(board)) {
        RevealKeepsNoFlagOnRevealed(old(board), false, board, gameOver, i, j, flagEnabled, rows, cols, minesCount);
      }
    }

    /** The secondary-click handler: ignored once the game is over or on a
        revealed cell, otherwise it flips the cell's flag and runs the win test. */
    method ToggleFlag(i: int, j: int)
      requires Shaped(board, rows, cols) && 0 <= i < rows && 0 <= j < cols
      modifies this`board, this`gameOver
      ensures old(gameOver) || old(board[i][j].isRevealed) ==> board == old(board) && gameOver == old(gameOver)
      ensures !old(gameOver) && !old(board[i][j].isRevealed) ==>
        board == Toggled(old(board), i, j) && gameOver == Won(board, rows, cols, minesCount)
      ensures old(Ready()) ==> Ready()
      ensures old(InPlaySound()) ==> InPlaySound()
      ensures NoFlagOnRevealed(old(board)) ==> NoFlagOnRevealed(board)
    {
      if gameOver || board[i][j].isRevealed {
        return;
      }
      board := board[i := board[i][j := board[i][j].(isFlagged := !board[i][j].isFlagged)]];
      ToggleKeepsLayout(old(board), i, j);
      if old(Ready()) {
        DealtKept(old(board), board, rows, cols, minesCount);
      }
      CheckWin();
    }
  }
}
