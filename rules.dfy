/** The reveal engine's rules, stated as relations between the board before
    and after a move, and the facts about them that the game relies on. */
module Rules {
  import opened Board

  predicate SameShape(g0: Grid, g1: Grid) {
    |g1| == |g0| && forall r | 0 <= r < |g0| :: |g1[r]| == |g0[r]|
  }

  /** Two boards with the same shape and the same mines. */
  predicate SameMineField(g0: Grid, g1: Grid) {
    SameShape(g0, g1) &&
    forall r, c | 0 <= r < |g0| && 0 <= c < |g0[r]| :: g1[r][c].isMine == g0[r][c].isMine
  }

  /** Two boards with the same shape, the same mines and the same counts. */
  predicate SameLayout(g0: Grid, g1: Grid) {
    SameMineField(g0, g1) &&
    forall r, c | 0 <= r < |g0| && 0 <= c < |g0[r]| :: g1[r][c].count == g0[r][c].count
  }

  /** One cell's part of a cascade: only `isRevealed` may change, never back
      to false, and only on a safe, unflagged cell. */
  predicate CellRevealStep(a: Cell, b: Cell) {
    b.isMine == a.isMine && b.isFlagged == a.isFlagged && b.count == a.count &&
    (a.isRevealed ==> b.isRevealed) &&
    (b.isRevealed && !a.isRevealed ==> !a.isMine && !a.isFlagged)
  }

  /** g1 follows from g0 by revealing safe, unflagged cells and nothing else. */
  predicate RevealsSafeOnly(g0: Grid, g1: Grid) {
    SameShape(g0, g1) &&
    forall r, c | 0 <= r < |g0| && 0 <= c < |g0[r]| :: CellRevealStep(g0[r][c], g1[r][c])
  }

  /** The end-of-game disclosure: every mine revealed, flagged or not, and
      nothing else changed. */
  predicate MinesDisclosed(g0: Grid, g1: Grid) {
    SameShape(g0, g1) &&
    forall r, c | 0 <= r < |g0| && 0 <= c < |g0[r]| :: g1[r][c] == Disclosed(g0[r][c])
  }

  /** One cell after the disclosure. */
  function Disclosed(a: Cell): Cell {
    if a.isMine then a.(isRevealed := true) else a
  }

  /** The board with (i, j) revealed. */
  function Revealed(g: Grid, i: int, j: int): Grid
    requires InBounds(g, i, j)
  {
    g[i := g[i][j := g[i][j].(isRevealed := true)]]
  }

  /** The board with the flag on (i, j) flipped. */
  function Toggled(g: Grid, i: int, j: int): Grid
    requires InBounds(g, i, j)
  {
    g[i := g[i][j := g[i][j].(isFlagged := !g[i][j].isFlagged)]]
  }

  /** A reveal at (i, j) acts only on an in-bounds, hidden, unflagged cell. */
  predicate Effective(g: Grid, i: int, j: int) {
    InBounds(g, i, j) && !g[i][j].isRevealed && !g[i][j].isFlagged
  }

  /** Every in-bounds neighbour of (r, c) is revealed or flagged. */
  predicate NeighboursSettled(g: Grid, r: int, c: int) {
    forall r2, c2 | 0 <= r2 < |g| && 0 <= c2 < |g[r2]| && Adjacent(r, c, r2, c2) ::
      g[r2][c2].isRevealed || g[r2][c2].isFlagged
  }

  /** Every safe cell with count 0 that was revealed between g0 and g1, other
      than `except`, has all its unflagged neighbours revealed in g1. */
  predicate ClosedExcept(g0: Grid, g1: Grid, except: Pos) {
    SameShape(g0, g1) &&
    forall r, c | 0 <= r < |g0| && 0 <= c < |g0[r]| && (r, c) != except ::
      (g1[r][c].isRevealed && !g0[r][c].isRevealed && !g1[r][c].isMine && g1[r][c].count == 0) ==>
        NeighboursSettled(g1, r, c)
  }

  /** The flood fill is complete: every safe count-0 cell it revealed has all
      its unflagged neighbours revealed. No position is excepted, since
      (-1, -1) is off every board. */
  predicate CascadeClosed(g0: Grid, g1: Grid) {
    ClosedExcept(g0, g1, (-1, -1))
  }

  /** A cell the cascade can enter on g: on the board, hidden, unflagged and
      safe. */
  predicate Enterable(g: Grid, q: Pos) {
    InBounds(g, q.0, q.1) && !g[q.0][q.1].isRevealed && !g[q.0][q.1].isFlagged && !g[q.0][q.1].isMine
  }

  /** A cell the cascade spreads from: on the board, with count 0. */
  predicate Spreads(g: Grid, q: Pos) {
    InBounds(g, q.0, q.1) && g[q.0][q.1].count == 0
  }

  /** p is a route the cascade can take on g: every cell on it enterable,
      each next to the one before, and every one but the last with count 0. */
  predicate CascadePath(g: Grid, p: seq<Pos>) {
    |p| > 0 &&
    (forall k | 0 <= k < |p| :: Enterable(g, p[k])) &&
    (forall k | 0 <= k < |p| - 1 :: Spreads(g, p[k]) && Adjacent(p[k].0, p[k].1, p[k + 1].0, p[k + 1].1))
  }

  /** The cascade started at (i, j) on g can get to (r, c). */
  ghost predicate Reaches(g: Grid, i: int, j: int, r: int, c: int) {
    exists p :: CascadePath(g, p) && p[0] == (i, j) && p[|p| - 1] == (r, c)
  }

  /** Every cell revealed between g0 and g1 is one the cascade from (i, j)
      can get to on g0: the flood fill goes no further than its count-0
      cells lead. (The trigger keeps the prover from chasing routes unasked.) */
  ghost predicate WithinReach(g0: Grid, g1: Grid, i: int, j: int) {
    SameShape(g0, g1) &&
    forall r, c {:trigger Reaches(g0, i, j, r, c)}
      | 0 <= r < |g0| && 0 <= c < |g0[r]| && g1[r][c].isRevealed && !g0[r][c].isRevealed ::
      Reaches(g0, i, j, r, c)
  }

  /** What one call of the reveal at (i, j) does to the board and to the
      game-over flag. Exactly one of four cases applies: a cell off the
      board, revealed or flagged is left alone; in flag mode the flag flips;
      a mine ends the game and discloses every mine; a safe cell starts a
      cascade that reveals it and goes exactly as far as its count-0 cells
      lead, after which `over1` is "over before, or won now". */
  ghost predicate RevealOutcome(g0: Grid, over0: bool, g1: Grid, over1: bool, i: int, j: int,
                                flagMode: bool, rows: nat, cols: nat, minesCount: int)
  {
    (!Effective(g0, i, j) && g1 == g0 && over1 == over0) ||
    (Effective(g0, i, j) && flagMode && g1 == Toggled(g0, i, j) && over1 == over0) ||
    (Effective(g0, i, j) && !flagMode && g0[i][j].isMine && over1 && MinesDisclosed(g0, g1)) ||
    (Effective(g0, i, j) && !flagMode && !g0[i][j].isMine &&
     RevealsSafeOnly(g0, g1) && g1[i][j].isRevealed && CascadeClosed(g0, g1) &&
     WithinReach(g0, g1, i, j) && over1 == (over0 || Won(g1, rows, cols, minesCount)))
  }

  /** While the game is in play no cell is both revealed and flagged. */
  predicate NoFlagOnRevealed(g: Grid) {
    forall r, c | 0 <= r < |g| && 0 <= c < |g[r]| :: !(g[r][c].isRevealed && g[r][c].isFlagged)
  }

  // ---------------------------------------------------------------------
  // Facts about the relations

  lemma RevealsSafeOnlyTrans(g0: Grid, g1: Grid, g2: Grid)
    requires RevealsSafeOnly(g0, g1) && RevealsSafeOnly(g1, g2)
    ensures RevealsSafeOnly(g0, g2)
  {
  }

  /** Boards with the same mines have the same mine positions and the same
      mines around every cell. */
  lemma SameMines(g0: Grid, g1: Grid)
    requires SameMineField(g0, g1)
    ensures Mines(g0) == Mines(g1)
    ensures forall r, c :: MineNeighbours(g0, r, c) == MineNeighbours(g1, r, c)
  {
    forall r: int, c: int ensures MineNeighbours(g0, r, c) == MineNeighbours(g1, r, c) {
    }
  }

  /** A move that keeps the mines and the counts keeps a dealt board dealt. */
  lemma DealtKept(g0: Grid, g1: Grid, rows: nat, cols: nat, minesCount: int)
    requires Dealt(g0, rows, cols, minesCount) && SameLayout(g0, g1)
    ensures Dealt(g1, rows, cols, minesCount)
  {
    SameMines(g0, g1);
    forall r, c | 0 <= r < |g1| && 0 <= c < |g1[r]|
      ensures g1[r][c].count == if g1[r][c].isMine then 0 else NeighbourMines(g1, r, c)
    {
      assert NeighbourMines(g0, r, c) == NeighbourMines(g1, r, c);
    }
  }

  /** A cascade keeps the mines and the counts. */
  lemma CascadeKeepsLayout(g0: Grid, g1: Grid)
    requires RevealsSafeOnly(g0, g1)
    ensures SameLayout(g0, g1)
  {
  }

  /** The disclosure keeps the mines and the counts. */
  lemma DisclosureKeepsLayout(g0: Grid, g1: Grid)
    requires MinesDisclosed(g0, g1)
    ensures SameLayout(g0, g1)
  {
  }

  /** A cascade only shrinks the set of hidden cells. */
  lemma HiddenShrinks(g0: Grid, g1: Grid)
    requires RevealsSafeOnly(g0, g1)
    ensures Where(g1, IsHidden) <= Where(g0, IsHidden)
  {
  }

  /** Once won, a board stays won under any cascade: there is no safe cell
      left to reveal, and the flags do not move. */
  lemma WonKept(g0: Grid, g1: Grid, rows: nat, cols: nat, minesCount: int)
    requires Shaped(g0, rows, cols) && |Mines(g0)| == minesCount
    requires RevealsSafeOnly(g0, g1) && Won(g0, rows, cols, minesCount)
    ensures Won(g1, rows, cols, minesCount)
  {
    WonIff(g0, rows, cols, minesCount);
    assert Where(g1, FlaggedMine) == Where(g0, FlaggedMine);
    assert Where(g1, RevealedSafe) == Where(g0, RevealedSafe);
  }

  /** A settled cell stays settled under a cascade. */
  lemma SettledKept(g0: Grid, g1: Grid, r: int, c: int)
    requires RevealsSafeOnly(g0, g1) && NeighboursSettled(g0, r, c)
    ensures NeighboursSettled(g1, r, c)
  {
    forall r2, c2 | 0 <= r2 < |g1| && 0 <= c2 < |g1[r2]| && Adjacent(r, c, r2, c2)
      ensures g1[r2][c2].isRevealed || g1[r2][c2].isFlagged
    {
      assert CellRevealStep(g0[r2][c2], g1[r2][c2]);
    }
  }

  /** Closure outside (i, j) survives a further cascade that is closed itself. */
  lemma ClosedExceptKept(g0: Grid, g1: Grid, g2: Grid, except: Pos)
    requires SameShape(g0, g1) && ClosedExcept(g0, g1, except)
    requires RevealsSafeOnly(g1, g2) && CascadeClosed(g1, g2)
    ensures ClosedExcept(g0, g2, except)
  {
    forall r, c | 0 <= r < |g0| && 0 <= c < |g0[r]| && (r, c) != except &&
      g2[r][c].isRevealed && !g0[r][c].isRevealed && !g2[r][c].isMine && g2[r][c].count == 0
      ensures NeighboursSettled(g2, r, c)
    {
      assert CellRevealStep(g1[r][c], g2[r][c]);
      if g1[r][c].isRevealed {
        SettledKept(g1, g2, r, c);
      }
    }
  }

  /** No cell becomes both revealed and flagged, except through the loss
      disclosure, which reveals flagged mines too. */
  lemma RevealKeepsNoFlagOnRevealed(g0: Grid, over0: bool, g1: Grid, over1: bool, i: int, j: int,
                                    flagMode: bool, rows: nat, cols: nat, minesCount: int)
    requires RevealOutcome(g0, over0, g1, over1, i, j, flagMode, rows, cols, minesCount)
    requires NoFlagOnRevealed(g0)
    ensures !(Effective(g0, i, j) && !flagMode && g0[i][j].isMine) ==> NoFlagOnRevealed(g1)
  {
    if Effective(g0, i, j) && !flagMode && !g0[i][j].isMine {
      forall r, c | 0 <= r < |g1| && 0 <= c < |g1[r]| ensures !(g1[r][c].isRevealed && g1[r][c].isFlagged) {
        assert CellRevealStep(g0[r][c], g1[r][c]);
      }
    }
  }

  /** In flag mode a reveal can only put a flag down, never take one away (a
      flagged cell is turned back by the guard), and it reveals nothing. */
  lemma FlagModeOnlySets(g0: Grid, over0: bool, g1: Grid, over1: bool, i: int, j: int,
                         rows: nat, cols: nat, minesCount: int)
    requires RevealOutcome(g0, over0, g1, over1, i, j, true, rows, cols, minesCount)
    ensures SameLayout(g0, g1) && over1 == over0
    ensures forall r, c | 0 <= r < |g0| && 0 <= c < |g0[r]| ::
      g1[r][c].isRevealed == g0[r][c].isRevealed && (g0[r][c].isFlagged ==> g1[r][c].isFlagged)
    ensures Effective(g0, i, j) ==> g1[i][j].isFlagged
  {
    if Effective(g0, i, j) {
      ToggleKeepsLayout(g0, i, j);
    }
  }

  /** No reveal ever hides a revealed cell. */
  lemma RevealMonotone(g0: Grid, over0: bool, g1: Grid, over1: bool, i: int, j: int,
                       flagMode: bool, rows: nat, cols: nat, minesCount: int)
    requires RevealOutcome(g0, over0, g1, over1, i, j, flagMode, rows, cols, minesCount)
    ensures SameShape(g0, g1)
    ensures forall r, c | 0 <= r < |g0| && 0 <= c < |g0[r]| :: g0[r][c].isRevealed ==> g1[r][c].isRevealed
    ensures over0 ==> over1
  {
    if Effective(g0, i, j) && !flagMode && !g0[i][j].isMine {
      forall r, c | 0 <= r < |g0| && 0 <= c < |g0[r]| ensures g0[r][c].isRevealed ==> g1[r][c].isRevealed {
        assert CellRevealStep(g0[r][c], g1[r][c]);
      }
    }
  }

  /** A flag toggle keeps the mines and the counts. */
  lemma ToggleKeepsLayout(g: Grid, i: int, j: int)
    requires InBounds(g, i, j)
    ensures SameLayout(g, Toggled(g, i, j))
  {
  }

  /** The disclosure after revealing a mine is the disclosure of the board
      from before that reveal. */
  lemma DisclosedAfterReveal(g0: Grid, i: int, j: int, g: Grid)
    requires InBounds(g0, i, j) && g0[i][j].isMine
    requires MinesDisclosed(Revealed(g0, i, j), g)
    ensures MinesDisclosed(g0, g)
  {
    var g1 := Revealed(g0, i, j);
    forall r, c | 0 <= r < |g0| && 0 <= c < |g0[r]| ensures g[r][c] == Disclosed(g0[r][c]) {
      assert g[r][c] == Disclosed(g1[r][c]);
    }
  }

  /** Revealing a safe, unflagged, hidden cell is a one-cell cascade that
      goes no further than the cell itself. */
  lemma RevealOneSafe(g0: Grid, i: int, j: int)
    requires Effective(g0, i, j) && !g0[i][j].isMine
    ensures RevealsSafeOnly(g0, Revealed(g0, i, j))
    ensures ClosedExcept(g0, Revealed(g0, i, j), (i, j))
    ensures WithinReach(g0, Revealed(g0, i, j), i, j)
  {
    var g1 := Revealed(g0, i, j);
    forall r, c | 0 <= r < |g0| && 0 <= c < |g0[r]| ensures CellRevealStep(g0[r][c], g1[r][c]) {
    }
    assert CascadePath(g0, [(i, j)]);
  }

  /** Revealing a safe cell keeps the board set up. */
  lemma RevealOneKeepsDealt(g0: Grid, i: int, j: int, rows: nat, cols: nat, minesCount: int)
    requires Dealt(g0, rows, cols, minesCount) && Effective(g0, i, j) && !g0[i][j].isMine
    ensures Dealt(Revealed(g0, i, j), rows, cols, minesCount)
  {
    RevealOneSafe(g0, i, j);
    CascadeKeepsLayout(g0, Revealed(g0, i, j));
    DealtKept(g0, Revealed(g0, i, j), rows, cols, minesCount);
  }

  /** A revealed number stops the cascade there: revealing that one cell is
      the whole outcome of the reveal. */
  lemma NumberStops(g0: Grid, over0: bool, over1: bool, i: int, j: int, flagMode: bool,
                    rows: nat, cols: nat, minesCount: int)
    requires Effective(g0, i, j) && !g0[i][j].isMine && g0[i][j].count != 0 && !flagMode
    requires over1 == (over0 || Won(Revealed(g0, i, j), rows, cols, minesCount))
    ensures RevealOutcome(g0, over0, Revealed(g0, i, j), over1, i, j, flagMode, rows, cols, minesCount)
  {
    RevealOneSafe(g0, i, j);
  }

  /** Revealing a mine ends the game with every mine disclosed, and the board
      stays set up. */
  lemma LossOutcome(g0: Grid, over0: bool, g: Grid, i: int, j: int, flagMode: bool,
                    rows: nat, cols: nat, minesCount: int)
    requires Dealt(g0, rows, cols, minesCount) && Effective(g0, i, j) && g0[i][j].isMine && !flagMode
    requires MinesDisclosed(Revealed(g0, i, j), g)
    ensures RevealOutcome(g0, over0, g, true, i, j, flagMode, rows, cols, minesCount)
    ensures Dealt(g, rows, cols, minesCount)
  {
    DisclosedAfterReveal(g0, i, j, g);
    DisclosureKeepsLayout(g0, g);
    DealtKept(g0, g, rows, cols, minesCount);
  }

  /** In flag mode a reveal of a hidden, unflagged cell flips its flag, keeps
      the game-over flag, and the board stays set up. */
  lemma FlagOutcome(g0: Grid, over0: bool, i: int, j: int, flagMode: bool,
                    rows: nat, cols: nat, minesCount: int)
    requires Dealt(g0, rows, cols, minesCount) && Effective(g0, i, j) && flagMode
    ensures RevealOutcome(g0, over0, Toggled(g0, i, j), over0, i, j, flagMode, rows, cols, minesCount)
    ensures Dealt(Toggled(g0, i, j), rows, cols, minesCount)
  {
    ToggleKeepsLayout(g0, i, j);
    DealtKept(g0, Toggled(g0, i, j), rows, cols, minesCount);
  }

  // ---------------------------------------------------------------------
  // Routes of the cascade

  /** A route on a board is a route on the board before a cascade too: the
      cascade only reveals cells and keeps flags, mines and counts. */
  lemma PathBefore(g0: Grid, g: Grid, p: seq<Pos>)
    requires RevealsSafeOnly(g0, g) && CascadePath(g, p)
    ensures CascadePath(g0, p)
  {
    forall k | 0 <= k < |p| ensures Enterable(g0, p[k]) && g0[p[k].0][p[k].1].count == g[p[k].0][p[k].1].count {
      assert CellRevealStep(g0[p[k].0][p[k].1], g[p[k].0][p[k].1]);
    }
  }

  /** A count-0 cell the cascade can enter, next to the start of a route,
      starts a longer route. */
  lemma PathCons(g: Grid, q: Pos, p: seq<Pos>)
    requires Enterable(g, q) && Spreads(g, q) && CascadePath(g, p)
    requires Adjacent(q.0, q.1, p[0].0, p[0].1)
    ensures CascadePath(g, [q] + p)
  {
    var p2 := [q] + p;
    assert forall k | 1 <= k < |p2| :: p2[k] == p[k - 1];
  }

  /** What a nested cascade from the neighbour (r, c) reveals, the cascade
      from (i, j) can reach through (i, j). */
  lemma ReachExtended(g0: Grid, g: Grid, g2: Grid, i: int, j: int, r: int, c: int)
    requires Enterable(g0, (i, j)) && Spreads(g0, (i, j)) && Adjacent(i, j, r, c)
    requires RevealsSafeOnly(g0, g) && RevealsSafeOnly(g, g2)
    requires WithinReach(g0, g, i, j) && WithinReach(g, g2, r, c)
    ensures WithinReach(g0, g2, i, j)
  {
    forall a, b | 0 <= a < |g0| && 0 <= b < |g0[a]| && g2[a][b].isRevealed && !g0[a][b].isRevealed
      ensures Reaches(g0, i, j, a, b)
    {
      if g[a][b].isRevealed {
        assert Reaches(g0, i, j, a, b);
      } else {
        assert Reaches(g, r, c, a, b);
        var p :| CascadePath(g, p) && p[0] == (r, c) && p[|p| - 1] == (a, b);
        PathBefore(g0, g, p);
        PathCons(g0, (i, j), p);
        var q := [(i, j)] + p;
        assert q[0] == (i, j) && q[|q| - 1] == (a, b);
      }
    }
  }

  /** A closed cascade that reveals the start of a route reveals the whole
      route: the flood fill goes as far as its count-0 cells lead. */
  lemma {:induction false} PathRevealed(g0: Grid, g1: Grid, p: seq<Pos>)
    requires CascadePath(g0, p) && RevealsSafeOnly(g0, g1) && CascadeClosed(g0, g1)
    requires g1[p[0].0][p[0].1].isRevealed
    ensures forall k | 0 <= k < |p| :: g1[p[k].0][p[k].1].isRevealed
    decreases |p|
  {
    if |p| > 1 {
      var front := p[..|p| - 1];
      assert forall k | 0 <= k < |front| :: front[k] == p[k];
      PathRevealed(g0, g1, front);
      var q, last := p[|p| - 2], p[|p| - 1];
      assert g1[q.0][q.1].isRevealed by {
        assert front[|front| - 1] == q;
      }
      assert CellRevealStep(g0[q.0][q.1], g1[q.0][q.1]);
      assert NeighboursSettled(g1, q.0, q.1);
      assert CellRevealStep(g0[last.0][last.1], g1[last.0][last.1]);
    }
  }

  /** A cell the cascade from (i, j) can reach is revealed by every closed
      cascade that reveals (i, j). */
  lemma ReachedRevealed(g0: Grid, g1: Grid, i: int, j: int, r: int, c: int)
    requires RevealsSafeOnly(g0, g1) && CascadeClosed(g0, g1)
    requires InBounds(g0, i, j) && g1[i][j].isRevealed && Reaches(g0, i, j, r, c)
    ensures InBounds(g1, r, c) && g1[r][c].isRevealed
  {
    var p :| CascadePath(g0, p) && p[0] == (i, j) && p[|p| - 1] == (r, c);
    PathRevealed(g0, g1, p);
  }

  /** The safe case of the reveal fixes the board: two closed cascades from
      (i, j) that reveal (i, j) and nothing out of its reach are equal. */
  lemma CascadeDetermined(g0: Grid, g1: Grid, g2: Grid, i: int, j: int)
    requires InBounds(g0, i, j)
    requires RevealsSafeOnly(g0, g1) && g1[i][j].isRevealed && CascadeClosed(g0, g1) && WithinReach(g0, g1, i, j)
    requires RevealsSafeOnly(g0, g2) && g2[i][j].isRevealed && CascadeClosed(g0, g2) && WithinReach(g0, g2, i, j)
    ensures g1 == g2
  {
    forall r | 0 <= r < |g0| ensures g1[r] == g2[r] {
      forall c | 0 <= c < |g0[r]| ensures g1[r][c] == g2[r][c] {
        assert CellRevealStep(g0[r][c], g1[r][c]) && CellRevealStep(g0[r][c], g2[r][c]);
        if g1[r][c].isRevealed && !g0[r][c].isRevealed {
          assert Reaches(g0, i, j, r, c);
          ReachedRevealed(g0, g2, i, j, r, c);
        }
        if g2[r][c].isRevealed && !g0[r][c].isRevealed {
          assert Reaches(g0, i, j, r, c);
          ReachedRevealed(g0, g1, i, j, r, c);
        }
      }
    }
  }

  /** The outcome of a reveal is unique: whatever a reveal at (i, j) may do,
      it does in exactly one way. */
  lemma RevealDetermined(g0: Grid, over0: bool, g1: Grid, over1: bool, g2: Grid, over2: bool,
                         i: int, j: int, flagMode: bool, rows: nat, cols: nat, minesCount: int)
    requires RevealOutcome(g0, over0, g1, over1, i, j, flagMode, rows, cols, minesCount)
    requires RevealOutcome(g0, over0, g2, over2, i, j, flagMode, rows, cols, minesCount)
    ensures g1 == g2 && over1 == over2
  {
    if Effective(g0, i, j) && !flagMode {
      if g0[i][j].isMine {
        forall r | 0 <= r < |g0| ensures g1[r] == g2[r] {
          assert forall c | 0 <= c < |g0[r]| :: g1[r][c] == Disclosed(g0[r][c]) == g2[r][c];
        }
      } else {
        CascadeDetermined(g0, g1, g2, i, j);
      }
    }
  }

  /** A cell with a nonzero count is revealed on its own: nothing else on the
      board changes. */
  lemma NumberRevealsOnlyItself(g0: Grid, over0: bool, g1: Grid, over1: bool, i: int, j: int,
                                rows: nat, cols: nat, minesCount: int)
    requires RevealOutcome(g0, over0, g1, over1, i, j, false, rows, cols, minesCount)
    requires Effective(g0, i, j) && !g0[i][j].isMine && g0[i][j].count != 0
    ensures g1 == Revealed(g0, i, j)
  {
    var over2 := over0 || Won(Revealed(g0, i, j), rows, cols, minesCount);
    NumberStops(g0, over0, over2, i, j, false, rows, cols, minesCount);
    RevealDetermined(g0, over0, g1, over1, Revealed(g0, i, j), over2, i, j, false, rows, cols, minesCount);
  }

  // ---------------------------------------------------------------------
  // The neighbour scan of the cascade

  /** The in-bounds neighbours of (i, j) that the scan has handled are
      revealed or flagged. The scan visits the offsets (x, y) of the 3x3
      block rows first, then columns; offset (x, y) is visit number
      3 * (x + 1) + (y + 1), and the first n visits are done. */
  predicate SettledBefore(g: Grid, i: int, j: int, n: int) {
    forall r, c | 0 <= r < |g| && 0 <= c < |g[r]| && Adjacent(i, j, r, c) &&
      3 * (r - i + 1) + (c - j + 1) < n :: g[r][c].isRevealed || g[r][c].isFlagged
  }

  /** What holds while the cascade from (i, j) scans its neighbours, after n
      visits: g0 and over0 are the board and the flag at entry, g and over
      the present ones. (i, j) was a hidden, unflagged, safe count-0 cell and
      is revealed now, so fewer cells are hidden than at entry. */
  ghost predicate Scanning(g0: Grid, over0: bool, g: Grid, over: bool, i: int, j: int, n: int,
                           rows: nat, cols: nat, minesCount: int)
  {
    Dealt(g, rows, cols, minesCount) &&
    Effective(g0, i, j) && !g0[i][j].isMine && g0[i][j].count == 0 &&
    RevealsSafeOnly(g0, g) && g[i][j].isRevealed &&
    |Where(g, IsHidden)| < |Where(g0, IsHidden)| &&
    over == (over0 || Won(g, rows, cols, minesCount)) &&
    ClosedExcept(g0, g, (i, j)) && WithinReach(g0, g, i, j) &&
    SettledBefore(g, i, j, n)
  }

  /** After revealing a count-0 safe cell and running the win test, the
      neighbour loop's invariant holds. */
  lemma ScanStart(g0: Grid, over0: bool, over1: bool, i: int, j: int,
                  rows: nat, cols: nat, minesCount: int)
    requires Dealt(g0, rows, cols, minesCount)
    requires Effective(g0, i, j) && !g0[i][j].isMine && g0[i][j].count == 0
    requires over1 == (over0 || Won(Revealed(g0, i, j), rows, cols, minesCount))
    ensures Scanning(g0, over0, Revealed(g0, i, j), over1, i, j, 0, rows, cols, minesCount)
  {
    var g1 := Revealed(g0, i, j);
    RevealOneSafe(g0, i, j);
    RevealOneKeepsDealt(g0, i, j, rows, cols, minesCount);
    HiddenShrinks(g0, g1);
    assert (i, j) in Where(g0, IsHidden) - Where(g1, IsHidden);
    SubsetCard(Where(g1, IsHidden), Where(g0, IsHidden));
  }

  /** The neighbour the scan is about to reveal is not a mine. */
  lemma ScanTargetSafe(g0: Grid, g: Grid, i: int, j: int, r: int, c: int)
    requires CountsCorrect(g) && InBounds(g, i, j) && InBounds(g, r, c) && Adjacent(i, j, r, c)
    requires RevealsSafeOnly(g0, g) && !g0[i][j].isMine && g0[i][j].count == 0
    ensures !g[r][c].isMine
  {
    assert CellRevealStep(g0[i][j], g[i][j]);
    ZeroCountNoMineAround(g, i, j, r, c);
  }

  /** The scanned neighbours stay settled under a cascade, and the one at
      visit n joins them once it is revealed or flagged. */
  lemma SettledBeforeStep(g: Grid, g2: Grid, i: int, j: int, x: int, y: int)
    requires -1 <= x <= 1 && -1 <= y <= 1
    requires SettledBefore(g, i, j, 3 * (x + 1) + (y + 1)) && RevealsSafeOnly(g, g2)
    requires InBounds(g2, i + x, j + y) ==> g2[i + x][j + y].isRevealed || g2[i + x][j + y].isFlagged
    ensures SettledBefore(g2, i, j, 3 * (x + 1) + (y + 1) + 1)
  {
    forall r, c | 0 <= r < |g2| && 0 <= c < |g2[r]| && Adjacent(i, j, r, c) &&
      3 * (r - i + 1) + (c - j + 1) < 3 * (x + 1) + (y + 1) + 1
      ensures g2[r][c].isRevealed || g2[r][c].isFlagged
    {
      assert CellRevealStep(g[r][c], g2[r][c]);
      if 3 * (r - i + 1) + (c - j + 1) == 3 * (x + 1) + (y + 1) {
        assert r == i + x && c == j + y;
      }
    }
  }

  /** A reveal of a safe neighbour keeps the win flag equal to the win test. */
  lemma OverTracksWin(g: Grid, over: bool, g2: Grid, over2: bool, over0: bool,
                      rows: nat, cols: nat, minesCount: int)
    requires Dealt(g, rows, cols, minesCount) && RevealsSafeOnly(g, g2)
    requires over == (over0 || Won(g, rows, cols, minesCount))
    requires over2 == (over || Won(g2, rows, cols, minesCount))
    ensures over2 == (over0 || Won(g2, rows, cols, minesCount))
  {
    if Won(g, rows, cols, minesCount) {
      WonKept(g, g2, rows, cols, minesCount);
    }
  }

  /** A neighbour handed to the reveal leaves the scan invariant in place. */
  lemma ScanCall(g0: Grid, over0: bool, g: Grid, over: bool, g2: Grid, over2: bool,
                 i: int, j: int, x: int, y: int, rows: nat, cols: nat, minesCount: int)
    requires Scanning(g0, over0, g, over, i, j, 3 * (x + 1) + (y + 1), rows, cols, minesCount)
    requires -1 <= x <= 1 && -1 <= y <= 1
    requires InBounds(g, i + x, j + y) && !g[i + x][j + y].isRevealed
    requires RevealOutcome(g, over, g2, over2, i + x, j + y, false, rows, cols, minesCount)
    requires Dealt(g2, rows, cols, minesCount)
    ensures Scanning(g0, over0, g2, over2, i, j, 3 * (x + 1) + (y + 1) + 1, rows, cols, minesCount)
  {
    var r, c := i + x, j + y;
    assert CellRevealStep(g0[i][j], g[i][j]);
    assert Adjacent(i, j, r, c);
    if Effective(g, r, c) {
      ScanTargetSafe(g0, g, i, j, r, c);
      assert RevealsSafeOnly(g, g2) && g2[r][c].isRevealed && CascadeClosed(g, g2);
      RevealsSafeOnlyTrans(g0, g, g2);
      HiddenShrinks(g, g2);
      SubsetCard(Where(g2, IsHidden), Where(g, IsHidden));
      ClosedExceptKept(g0, g, g2, (i, j));
      assert CellRevealStep(g[i][j], g2[i][j]);
      ReachExtended(g0, g, g2, i, j, r, c);
      OverTracksWin(g, over, g2, over2, over0, rows, cols, minesCount);
    }
    SettledBeforeStep(g, g2, i, j, x, y);
  }

  /** One visit of the scan, at offset (x, y) and cell (r, c): a hidden
      neighbour on the board is handed to the reveal, any other is skipped;
      either way the scan invariant moves on to the next visit. */
  lemma ScanStep(g0: Grid, over0: bool, g: Grid, over: bool, g2: Grid, over2: bool,
                 i: int, j: int, x: int, y: int, r: int, c: int, flagMode: bool,
                 rows: nat, cols: nat, minesCount: int)
    requires Scanning(g0, over0, g, over, i, j, 3 * (x + 1) + (y + 1), rows, cols, minesCount)
    requires -1 <= x <= 1 && -1 <= y <= 1 && r == i + x && c == j + y && !flagMode
    requires if InBounds(g, r, c) && !g[r][c].isRevealed
      then RevealOutcome(g, over, g2, over2, r, c, flagMode, rows, cols, minesCount) && Dealt(g2, rows, cols, minesCount)
      else g2 == g && over2 == over
    ensures Scanning(g0, over0, g2, over2, i, j, 3 * (x + 1) + (y + 1) + 1, rows, cols, minesCount)
  {
    if InBounds(g, r, c) && !g[r][c].isRevealed {
      ScanCall(g0, over0, g, over, g2, over2, i, j, x, y, rows, cols, minesCount);
    } else {
      SettledBeforeStep(g, g2, i, j, x, y);
    }
  }

  /** When the scan is over, the cascade from (i, j) is complete. */
  lemma ScanDone(g0: Grid, over0: bool, g: Grid, over: bool, i: int, j: int, flagMode: bool,
                 rows: nat, cols: nat, minesCount: int)
    requires Scanning(g0, over0, g, over, i, j, 9, rows, cols, minesCount) && !flagMode
    ensures RevealOutcome(g0, over0, g, over, i, j, flagMode, rows, cols, minesCount)
  {
    assert NeighboursSettled(g, i, j);
  }
}
