// The game engine: one object holding the board, the mine list, the per-cell
// revealed and flagged state and the won/lost status, with the operations the
// player's clicks and the difficulty buttons drive.

module Minesweeper {

  import opened Cells
  import opened Placement
  import opened Flood

  class Game {
    var gridSize: nat
    var numberOfMines: nat
    var board: array2<Cell>
    var mines: seq<Coord>
    var revealed: array2<bool>
    var flagged: array2<bool>
    var gameWon: bool
    var gameOver: bool

    /** The board array has the configured size. */
    ghost predicate BoardFits()
      reads this`gridSize, this`board
    {
      board.Length0 == gridSize && board.Length1 == gridSize
    }

    /** The revealed and flagged arrays have the configured size. */
    ghost predicate CellsFit()
      reads this`gridSize, this`revealed, this`flagged
    {
      revealed.Length0 == gridSize && revealed.Length1 == gridSize &&
      flagged.Length0 == gridSize && flagged.Length1 == gridSize &&
      revealed != flagged
    }

    ghost predicate Valid()
      reads this`gridSize, this`board, this`revealed, this`flagged
    {
      BoardFits() && CellsFit()
    }

    ghost function MineSet(): set<Coord>
      reads this`mines
    {
      set c | c in mines
    }

    /** Every board cell holding a mine is in the mine list. */
    ghost predicate MinesMarked()
      reads this`gridSize, this`board, this`mines, board
      requires BoardFits()
    {
      forall x, y :: 0 <= x < gridSize && 0 <= y < gridSize ==> (board[x, y] == Mine <==> (x, y) in mines)
    }

    /**
     * The board agrees with the mine list: the listed coordinates are on the
     * board and hold mines, and every other cell holds its adjacency number.
     */
    ghost predicate BoardMatchesMines()
      reads this`gridSize, this`board, this`mines, board
      requires BoardFits()
    {
      (forall c :: c in mines ==> InBounds(c, gridSize)) &&
      MinesMarked() &&
      forall x, y :: 0 <= x < gridSize && 0 <= y < gridSize && (x, y) !in mines ==>
        board[x, y] == Count(MinesAround(MineSet(), (x, y), gridSize))
    }

    ghost function RevealedSet(): set<Coord>
      reads this`gridSize, this`revealed, this`flagged, revealed
      requires CellsFit()
    {
      set c | c in Grid(gridSize) && revealed[c.0, c.1]
    }

    ghost function FlaggedSet(): set<Coord>
      reads this`gridSize, this`revealed, this`flagged, flagged
      requires CellsFit()
    {
      set c | c in Grid(gridSize) && flagged[c.0, c.1]
    }

    /** The cells a reveal may still uncover: neither revealed nor flagged. */
    ghost function OpenSet(): set<Coord>
      reads this`gridSize, this`revealed, this`flagged, revealed, flagged
      requires CellsFit()
    {
      Grid(gridSize) - RevealedSet() - FlaggedSet()
    }

    /** The cells whose adjacency number is 0. */
    ghost function Zeros(): set<Coord>
      reads this`gridSize, this`board, board
      requires BoardFits()
    {
      set c | c in Grid(gridSize) && board[c.0, c.1] == Count(0)
    }

    /** The flagged cells around c. */
    ghost function FlagsNear(c: Coord): set<Coord>
      reads this`gridSize, this`revealed, this`flagged, flagged
      requires CellsFit()
    {
      set d | d in FlaggedSet() && Adjacent(c, d)
    }

    /** The on-board, unflagged cells around c: where a chord reveals. */
    ghost function ChordSources(c: Coord): set<Coord>
      reads this`gridSize, this`revealed, this`flagged, flagged
      requires CellsFit()
    {
      set d | d in Grid(gridSize) - FlaggedSet() && Adjacent(c, d)
    }

    /** A chord at c goes ahead: c holds a number equal to the count of flags around it. */
    ghost predicate ChordMatches(c: Coord)
      reads this`gridSize, this`board, this`revealed, this`flagged, board, flagged
      requires Valid() && InBounds(c, gridSize)
    {
      board[c.0, c.1] == Count(|FlagsNear(c)|)
    }

    /** The revealed cells after a chord at c. */
    ghost function ChordReveal(c: Coord): set<Coord>
      reads this`gridSize, this`board, this`revealed, this`flagged, board, revealed, flagged
      requires Valid() && InBounds(c, gridSize)
    {
      if ChordMatches(c) then RevealedSet() + Region(ChordSources(c), OpenSet(), Zeros()) else RevealedSet()
    }

    /**
     * The game as the page declares it before any board exists: a 30-by-30
     * configuration with 100 mines, an empty board and no cells.
     */
    constructor ()
      ensures gridSize == 30 && numberOfMines == 100
      ensures board.Length0 == 0 && revealed.Length0 == 0 && flagged.Length0 == 0
      ensures mines == [] && !gameWon && !gameOver
    {
      gridSize := 30;
      numberOfMines := 100;
      board := new Cell[0, 0];
      mines := [];
      revealed := new bool[0, 0];
      flagged := new bool[0, 0];
      gameWon := false;
      gameOver := false;
    }

    /**
     * Builds a fresh board with `count` mines. The random draws of the
     * placement loop are `draws`: a draw that repeats an earlier mine is
     * skipped, so the mines are the first `count` distinct draws.
     */
    method InitializeBoard(count: nat, draws: seq<Coord>)
      requires forall c :: c in draws ==> InBounds(c, gridSize)
      requires count <= |Dedup(draws)|
      modifies this`board, this`mines, this`gameWon, this`gameOver
      ensures BoardFits() && fresh(board)
      ensures mines == Dedup(draws)[..count]
      ensures |mines| == count && Distinct(mines) && |MineSet()| == count
      ensures BoardMatchesMines()
      ensures !gameWon && !gameOver
    {
      board := new Cell[gridSize, gridSize]((_, _) => Count(0));
      mines := [];
      gameWon := false;
      gameOver := false;
      PlaceMines(count, draws);
      FillCounts();
      DistinctCard(mines);
    }

    /** The placement loop: keeps drawing until `count` distinct mines are on the board. */
    method PlaceMines(count: nat, draws: seq<Coord>)
      requires forall c :: c in draws ==> InBounds(c, gridSize)
      requires count <= |Dedup(draws)|
      requires BoardFits() && mines == [] && MinesMarked()
      modifies this`mines, board
      ensures mines == Dedup(draws)[..count]
      ensures forall c :: c in mines ==> InBounds(c, gridSize)
      ensures MinesMarked()
    {
      assert draws[..|draws|] == draws;
      var i := 0;
      while |mines| < count
        invariant 0 <= i <= |draws|
        invariant mines == Dedup(draws[..i]) && |mines| <= count
        invariant forall c :: c in mines ==> InBounds(c, gridSize)
        invariant MinesMarked()
        decreases |draws| - i
      {
        var c := draws[i];
        assert c in draws && draws[..i + 1][..i] == draws[..i];
        i := i + 1;
        if c !in mines {
          mines := mines + [c];
          board[c.0, c.1] := Mine;
        }
      }
      DedupPrefix(draws, i);
    }

    /** The counting loops: every cell that is not a mine gets its adjacency number. */
    method FillCounts()
      requires BoardFits() && MinesMarked()
      requires forall c :: c in mines ==> InBounds(c, gridSize)
      modifies board
      ensures BoardMatchesMines()
    {
      var x := 0;
      while x < gridSize
        invariant 0 <= x <= gridSize
        invariant MinesMarked()
        invariant forall a, b :: 0 <= a < x && 0 <= b < gridSize && (a, b) !in mines ==>
          board[a, b] == Count(MinesAround(MineSet(), (a, b), gridSize))
      {
        var y := 0;
        while y < gridSize
          invariant 0 <= y <= gridSize
          invariant MinesMarked()
          invariant forall a, b :: 0 <= a < gridSize && 0 <= b < gridSize && (a < x || (a == x && b < y)) && (a, b) !in mines ==>
            board[a, b] == Count(MinesAround(MineSet(), (a, b), gridSize))
        {
          if board[x, y] != Mine {
            var adjacentMines := CountAdjacentMines(x, y);
            board[x, y] := Count(adjacentMines);
          }
          y := y + 1;
        }
        x := x + 1;
      }
    }

    /** The number of mines around (x, y), read off the board. */
    method CountAdjacentMines(x: int, y: int) returns (adjacentMines: nat)
      requires BoardFits() && MinesMarked()
      ensures adjacentMines == MinesAround(MineSet(), (x, y), gridSize)
    {
      ghost var near := MinesNear(MineSet(), (x, y), gridSize);
      adjacentMines := 0;
      var k := 0;
      while k < 8
        invariant 0 <= k <= 8
        invariant adjacentMines == |near * Visited((x, y), k)|
      {
        VisitedCountStep(near, (x, y), k);
        MarkedNeighbour((x, y), k);
        var d := Shift((x, y), k);
        if 0 <= d.0 < gridSize && 0 <= d.1 < gridSize && board[d.0, d.1] == Mine {
          adjacentMines := adjacentMines + 1;
        }
        k := k + 1;
      }
      NearAllVisited(MineSet(), (x, y), gridSize);
    }

    /** The board shows a mine at the k-th neighbour of c exactly when the mine list has one there. */
    lemma MarkedNeighbour(c: Coord, k: int)
      requires BoardFits() && MinesMarked() && 0 <= k < 8
      ensures var d := Shift(c, k);
        (InBounds(d, gridSize) && board[d.0, d.1] == Mine) <==> d in MinesNear(MineSet(), c, gridSize)
    {
    }

    /**
     * The flood-fill reveal. An off-board, revealed or flagged cell is left
     * alone; otherwise the cell is revealed and, when its adjacency number is
     * 0, its eight neighbours are revealed in turn. What ends up revealed is
     * exactly the region a flood fill from (x, y) uncovers.
     */
    method RevealCell(x: int, y: int)
      requires Valid()
      modifies revealed
      decreases Grid(gridSize) - RevealedSet(), 1
      ensures RevealedSet() == old(RevealedSet()) + Region({(x, y)}, old(OpenSet()), Zeros())
      ensures (x, y) !in OpenSet()
    {
      ghost var rev0 := RevealedSet();
      ghost var open0 := OpenSet();
      if x < 0 || x >= gridSize || y < 0 || y >= gridSize || revealed[x, y] || flagged[x, y] {
        RegionEmpty({(x, y)}, open0, Zeros());
        return;
      }
      revealed[x, y] := true;
      assert RevealedSet() == rev0 + {(x, y)};
      RegionHasSources({(x, y)}, open0, Zeros());
      if board[x, y] == Count(0) {
        RevealNeighbours(x, y, rev0);
      }
      RegionComplete({(x, y)}, rev0, RevealedSet(), FlaggedSet(), Zeros(), gridSize);
    }

    /**
     * The zero branch of RevealCell: (x, y) has just been revealed and holds
     * 0, and each of its eight neighbours is revealed in loop order. Every
     * cell uncovered lies in the flood region of (x, y), and every revealed
     * zero cell ends with all its unflagged neighbours revealed.
     */
    method RevealNeighbours(x: int, y: int, ghost rev0: set<Coord>)
      requires Valid()
      requires (x, y) in Zeros() && (x, y) !in rev0 && RevealedSet() == rev0 + {(x, y)}
      requires (x, y) in Region({(x, y)}, Grid(gridSize) - rev0 - FlaggedSet(), Zeros())
      modifies revealed
      decreases Grid(gridSize) - rev0, 0
      ensures rev0 + {(x, y)} <= RevealedSet()
      ensures RevealedSet() - rev0 <= Region({(x, y)}, Grid(gridSize) - rev0 - FlaggedSet(), Zeros())
      ensures Closed(RevealedSet() - rev0, RevealedSet(), FlaggedSet(), Zeros(), gridSize)
    {
      ghost var flags, zeros := FlaggedSet(), Zeros();
      ghost var cur := RevealedSet();
      NeighbourLoopStart((x, y), rev0, cur, flags, zeros, gridSize);
      var k := 0;
      while k < 8
        invariant cur == RevealedSet() && FlaggedSet() == flags && Zeros() == zeros
        invariant NeighbourProgress((x, y), k, rev0, cur, flags, zeros, gridSize)
      {
        var nb := Shift((x, y), k);
        ghost var open := OpenSet();
        assert (x, y) in Grid(gridSize) - rev0 && (x, y) !in Grid(gridSize) - cur;
        RevealCell(nb.0, nb.1);
        ghost var after := RevealedSet();
        NeighbourLoopStep((x, y), k, rev0, cur, after, flags, zeros, gridSize, (nb.0, nb.1), open, Zeros());
        cur, k := after, k + 1;
      }
      NeighbourLoopDone((x, y), rev0, cur, flags, zeros, gridSize);
    }

    /** The number of revealed cells on the board. */
    method CountRevealed() returns (revealedCount: nat)
      requires CellsFit()
      ensures revealedCount == |RevealedSet()|
    {
      ghost var rev := RevealedSet();
      revealedCount := 0;
      var x := 0;
      while x < gridSize
        invariant 0 <= x <= gridSize
        invariant revealedCount == CountInColumns(rev, x, gridSize)
      {
        var y := 0;
        while y < gridSize
          invariant 0 <= y <= gridSize
          invariant revealedCount == CountInColumns(rev, x, gridSize) + CountInColumn(rev, x, y)
        {
          if revealed[x, y] {
            revealedCount := revealedCount + 1;
          }
          y := y + 1;
        }
        x := x + 1;
      }
      CountInGrid(rev, gridSize);
    }

    /**
     * Declares the game won once the number of revealed cells is the number
     * of cells less the configured number of mines. It never clears the win.
     */
    method CheckWinCondition()
      requires CellsFit()
      modifies this`gameWon
      ensures gameWon == (old(gameWon) || |RevealedSet()| == gridSize * gridSize - numberOfMines)
    {
      var revealedCount := CountRevealed();
      if revealedCount == gridSize * gridSize - numberOfMines {
        gameWon := true;
      }
    }

    /** The number of flagged cells around (x, y). */
    method CountAdjacentFlags(x: int, y: int) returns (flagCount: nat)
      requires CellsFit()
      ensures flagCount == |FlagsNear((x, y))|
    {
      ghost var near := FlagsNear((x, y));
      flagCount := 0;
      var k := 0;
      while k < 8
        invariant 0 <= k <= 8
        invariant flagCount == |near * Visited((x, y), k)|
      {
        VisitedCountStep(near, (x, y), k);
        var d := Shift((x, y), k);
        if 0 <= d.0 < gridSize && 0 <= d.1 < gridSize && flagged[d.0, d.1] {
          assert d in near;
          flagCount := flagCount + 1;
        }
        k := k + 1;
      }
      VisitedAll((x, y));
      assert near * Visited((x, y), 8) == near;
    }

    /**
     * The chord on a revealed cell: when the flags around (x, y) number
     * exactly its adjacency number, every on-board unflagged neighbour is
     * revealed and the win condition is checked; otherwise nothing happens.
     * A neighbour that is a mine is revealed like any other cell and the game
     * is not lost.
     */
    method RevealNeighborsIfFlagCountMatches(x: int, y: int)
      requires Valid() && InBounds((x, y), gridSize)
      modifies revealed, this`gameWon
      ensures RevealedSet() == old(ChordReveal((x, y)))
      ensures old(ChordMatches((x, y))) ==> old(ChordSources((x, y))) <= RevealedSet()
      ensures gameWon == (old(gameWon) || (old(ChordMatches((x, y))) && |RevealedSet()| == gridSize * gridSize - numberOfMines))
      ensures gameOver == old(gameOver)
    {
      ghost var matches, result := ChordMatches((x, y)), ChordReveal((x, y));
      var flagCount := CountAdjacentFlags(x, y);
      if board[x, y] == Count(flagCount) {
        assert matches;
        RevealChordSources(x, y);
        assert RevealedSet() == result;
        CheckWinCondition();
      } else {
        assert !matches;
      }
    }

    /**
     * The reveal loop of a chord: each on-board, unflagged neighbour of
     * (x, y) is revealed in loop order, each with its own flood fill.
     * Together they uncover the flood region of all those neighbours, mines
     * among them included.
     */
    method RevealChordSources(x: int, y: int)
      requires Valid() && InBounds((x, y), gridSize)
      modifies revealed
      ensures RevealedSet() == old(RevealedSet()) + Region(old(ChordSources((x, y))), old(OpenSet()), Zeros())
      ensures old(ChordSources((x, y))) <= RevealedSet()
    {
      ghost var rev0, flags, zeros := RevealedSet(), FlaggedSet(), Zeros();
      ghost var sources := ChordSources((x, y));
      ghost var cur := rev0;
      assert OpenSet() == Grid(gridSize) - rev0 - flags;
      ChordLoopStart((x, y), sources, rev0, flags, zeros, gridSize);
      var k := 0;
      while k < 8
        invariant cur == RevealedSet() && FlaggedSet() == flags && Zeros() == zeros
        invariant ChordProgress((x, y), k, sources, rev0, cur, flags, zeros, gridSize)
      {
        var nb := Shift((x, y), k);
        if 0 <= nb.0 < gridSize && 0 <= nb.1 < gridSize && !flagged[nb.0, nb.1] {
          ghost var open := OpenSet();
          RevealCell(nb.0, nb.1);
          ghost var after := RevealedSet();
          ChordLoopStep((x, y), k, sources, rev0, cur, after, flags, zeros, gridSize, (nb.0, nb.1), open, Zeros());
          cur := after;
        } else {
          ChordLoopSkip((x, y), k, sources, rev0, cur, flags, zeros, gridSize);
        }
        k := k + 1;
      }
      ChordLoopDone((x, y), sources, rev0, cur, flags, zeros, gridSize);
    }

    /**
     * A left click on (x, y). A finished game and a flagged cell ignore it; a
     * revealed cell chords; an unrevealed mine loses the game and reveals
     * nothing; any other cell is flood-revealed and the win condition is
     * checked.
     */
    method HandleCellClick(x: int, y: int)
      requires Valid() && InBounds((x, y), gridSize)
      modifies revealed, this`gameWon, this`gameOver
      ensures old(gameOver || gameWon || flagged[x, y]) ==>
        RevealedSet() == old(RevealedSet()) && gameWon == old(gameWon) && gameOver == old(gameOver)
      ensures !old(gameOver || gameWon || flagged[x, y]) && old(revealed[x, y]) ==>
        RevealedSet() == old(ChordReveal((x, y))) && !gameOver &&
        gameWon == (old(ChordMatches((x, y))) && |RevealedSet()| == gridSize * gridSize - numberOfMines)
      ensures !old(gameOver || gameWon || flagged[x, y] || revealed[x, y]) && old(board[x, y]) == Mine ==>
        RevealedSet() == old(RevealedSet()) && gameOver && !gameWon
      ensures !old(gameOver || gameWon || flagged[x, y] || revealed[x, y]) && old(board[x, y]) != Mine ==>
        RevealedSet() == old(RevealedSet()) + Region({(x, y)}, old(OpenSet()), Zeros()) && !gameOver &&
        gameWon == (|RevealedSet()| == gridSize * gridSize - numberOfMines)
    {
      ghost var rev0, open0, zeros := RevealedSet(), OpenSet(), Zeros();
      if gameOver || gameWon {
        return;
      }
      if flagged[x, y] {
        return;
      }
      if revealed[x, y] {
        RevealNeighborsIfFlagCountMatches(x, y);
        return;
      }
      if board[x, y] == Mine {
        gameOver := true;
        return;
      }
      RevealCell(x, y);
      ghost var rev1 := RevealedSet();
      assert Zeros() == zeros;
      assert rev1 == rev0 + Region({(x, y)}, open0, zeros);
      CheckWinCondition();
      assert RevealedSet() == rev1 && Zeros() == zeros;
    }

    /**
     * A right click on (x, y): in a game still in play, an unrevealed cell
     * has its flag put on or taken off; nothing else changes.
     */
    method HandleRightClick(x: int, y: int)
      requires Valid() && InBounds((x, y), gridSize)
      modifies flagged
      ensures FlaggedSet() == if old(gameOver || gameWon || revealed[x, y]) then old(FlaggedSet()) else Toggled(old(FlaggedSet()), (x, y))
      ensures RevealedSet() == old(RevealedSet())
      ensures old(RevealedSet() !! FlaggedSet()) ==> RevealedSet() !! FlaggedSet()
    {
      if gameOver || gameWon {
        return;
      }
      if !revealed[x, y] {
        flagged[x, y] := !flagged[x, y];
        assert FlaggedSet() == Toggled(old(FlaggedSet()), (x, y));
      }
    }

    /** The per-cell state of a freshly built page: no cell is revealed or flagged. */
    method CreateBoard()
      modifies this`revealed, this`flagged
      ensures CellsFit() && fresh(revealed) && fresh(flagged)
      ensures RevealedSet() == {} && FlaggedSet() == {}
    {
      revealed := new bool[gridSize, gridSize]((_, _) => false);
      flagged := new bool[gridSize, gridSize]((_, _) => false);
    }

    /** A new game at the current size and number of mines. */
    method ResetGame(draws: seq<Coord>)
      requires forall c :: c in draws ==> InBounds(c, gridSize)
      requires numberOfMines <= |Dedup(draws)|
      modifies this`board, this`mines, this`gameWon, this`gameOver, this`revealed, this`flagged
      ensures gridSize == old(gridSize) && numberOfMines == old(numberOfMines)
      ensures Valid() && BoardMatchesMines()
      ensures mines == Dedup(draws)[..numberOfMines] && |MineSet()| == numberOfMines
      ensures RevealedSet() == {} && FlaggedSet() == {} && !gameWon && !gameOver
    {
      board := new Cell[0, 0];
      mines := [];
      gameWon := false;
      gameOver := false;
      InitializeBoard(numberOfMines, draws);
      CreateBoard();
    }

    /** A new game on a board of another size with another number of mines. */
    method SetDifficulty(newGridSize: nat, newNumberOfMines: nat, draws: seq<Coord>)
      requires forall c :: c in draws ==> InBounds(c, newGridSize)
      requires newNumberOfMines <= |Dedup(draws)|
      modifies this`gridSize, this`numberOfMines, this`board, this`mines, this`gameWon, this`gameOver, this`revealed, this`flagged
      ensures gridSize == newGridSize && numberOfMines == newNumberOfMines
      ensures Valid() && BoardMatchesMines()
      ensures mines == Dedup(draws)[..numberOfMines] && |MineSet()| == numberOfMines
      ensures RevealedSet() == {} && FlaggedSet() == {} && !gameWon && !gameOver
    {
      gridSize := newGridSize;
      numberOfMines := newNumberOfMines;
      CreateBoard();
      InitializeBoard(numberOfMines, draws);
    }

    /** A chord uncovers no flagged cell. */
    lemma ChordRevealAvoidsFlags(c: Coord)
      requires Valid() && InBounds(c, gridSize)
      ensures (ChordReveal(c) - RevealedSet()) !! FlaggedSet()
    {
      RegionAvoidsFlags(ChordSources(c), RevealedSet(), FlaggedSet(), Zeros(), gridSize);
    }

    /**
     * A chord that goes ahead reveals every hidden mine among its sources;
     * together with the chord leaving gameOver alone, the game plays on with
     * a mine uncovered.
     */
    lemma ChordRevealsMine(c: Coord, m: Coord)
      requires Valid() && InBounds(c, gridSize) && ChordMatches(c)
      requires m in ChordSources(c) && m in MineSet() && m !in RevealedSet()
      ensures m in ChordReveal(c)
    {
      RegionHasSources(ChordSources(c), OpenSet(), Zeros());
    }

    /** A flood fill uncovers no mine other than one of its own sources. */
    lemma FloodAvoidsMines(sources: set<Coord>, open: set<Coord>)
      requires BoardFits() && BoardMatchesMines()
      ensures Region(sources, open, Zeros()) * MineSet() <= sources
    {
      forall z, d | z in Zeros() && Adjacent(z, d)
        ensures d !in MineSet()
      {
        if InBounds(d, gridSize) {
          assert z !in mines;
          NoMineAroundZero(MineSet(), z, gridSize, d);
        }
      }
      RegionAvoidsMines(sources, open, Zeros(), MineSet());
    }
  }

  /** s with the membership of c flipped. */
  function Toggled(s: set<Coord>, c: Coord): (r: set<Coord>)
    ensures forall d :: d in r <==> (d in s <==> d != c)
  {
    if c in s then s - {c} else s + {c}
  }

  /** Flipping a flag twice puts it back. */
  lemma ToggledTwice(s: set<Coord>, c: Coord)
    ensures Toggled(Toggled(s, c), c) == s
  {
  }

  /**
   * With no mine revealed, the win condition's count is reached exactly when
   * every safe cell is revealed.
   */
  lemma WinCountMeansSafeCellsRevealed(rev: set<Coord>, mines: set<Coord>, n: nat)
    requires rev <= Grid(n) && mines <= Grid(n) && rev !! mines
    ensures |rev| == n * n - |mines| <==> Grid(n) - mines <= rev
  {
    var safe := Grid(n) - mines;
    GridSize(n);
    assert Grid(n) == safe + mines && safe !! mines;
    assert |safe| == n * n - |mines|;
    assert rev <= safe;
    SubsetSize(rev, safe);
    if |rev| == |safe| {
      SameSizeSubset(rev, safe);
    }
    if safe <= rev {
      assert rev == safe;
    }
  }

  /**
   * With a mine revealed, the win condition's count can be reached while a
   * safe cell is still hidden.
   */
  lemma WinCountWithMineRevealed(rev: set<Coord>, mines: set<Coord>, n: nat)
    requires rev <= Grid(n) && mines <= Grid(n) && rev * mines != {}
    requires |rev| == n * n - |mines|
    ensures exists c :: c in Grid(n) - mines && c !in rev
  {
    GridSize(n);
    assert Grid(n) == (Grid(n) - mines) + mines;
    if Grid(n) - mines <= rev {
      var m :| m in rev * mines;
      assert (Grid(n) - mines) + {m} <= rev;
      SubsetSize((Grid(n) - mines) + {m}, rev);
      assert false;
    }
  }

  lemma SameSizeSubset(a: set<Coord>, b: set<Coord>)
    requires a <= b && |a| == |b|
    ensures a == b
  {
    assert b == a + (b - a);
  }
}
