/**
 * The Minesweeper engine: a rows x cols board of mine markers and
 * neighbour counts, with parallel revealed/flagged grids and the
 * over/won/first-click flags, all updated in place.
 *
 * The random choices of the game are inputs here: the mine positions drawn
 * at construction, and an index `pick` that selects where a mine under the
 * first click is moved to.
 */
module Minesweeper {
  import opened Grid
  import opened Config

  class MinesweeperGame {
    const rows: nat
    const cols: nat
    const mines: nat
    const board: array2<int>
    const revealed: array2<bool>
    const flagged: array2<bool>
    var gameOver: bool
    var gameWon: bool
    var firstClick: bool
    /** The positions currently holding a mine. */
    ghost var mineSet: set<Pos>

    /** The three grids have the game's dimensions, and revealed and flagged are distinct grids. */
    ghost predicate Shaped()
    {
      board.Length0 == rows && board.Length1 == cols &&
      revealed.Length0 == rows && revealed.Length1 == cols &&
      flagged.Length0 == rows && flagged.Length1 == cols &&
      revealed != flagged
    }

    predicate IsValidPosition(row: int, col: int)
    {
      InGrid(rows, cols, (row, col))
    }

    /** Every cell holds the mine marker exactly where mineSet has a mine, and its neighbour count elsewhere. */
    ghost predicate Numbered()
      reads this, board
      requires Shaped()
    {
      forall r, c {:trigger board[r, c]} :: 0 <= r < rows && 0 <= c < cols ==> board[r, c] == CellValue(mineSet, rows, cols, (r, c))
    }

    /**
     * The game invariant: the board is correctly numbered for mineSet, which
     * has the tier's number of mines; a won game is over; nothing is revealed
     * before the first click; no revealed cell is a mine; and every revealed
     * zero cell has all its neighbours revealed.
     */
    ghost predicate Valid()
      reads this, board, revealed, flagged
    {
      Shaped() &&
      mineSet <= Cells(rows, cols) && |mineSet| == mines &&
      Numbered() &&
      (gameWon ==> gameOver) &&
      (firstClick ==> Shown() == {}) &&
      Shown() !! mineSet &&
      (forall p :: p in Shown() && p in Zeros(mineSet, rows, cols) ==> Surrounded(rows, cols, p, Shown()))
    }

    /** The revealed cells. */
    ghost function Shown(): set<Pos>
      reads revealed
      requires Shaped()
    {
      set r, c | 0 <= r < rows && 0 <= c < cols && revealed[r, c] :: (r, c)
    }

    /** The cells not yet revealed. */
    ghost function Hidden(): set<Pos>
      reads revealed
      requires Shaped()
    {
      Cells(rows, cols) - Shown()
    }

    /** Every cell without a mine is revealed. */
    ghost predicate AllSafeRevealed()
      reads this, revealed
      requires Shaped()
    {
      forall r, c :: 0 <= r < rows && 0 <= c < cols && (r, c) !in mineSet ==> revealed[r, c]
    }

    /** t can receive a mine moved away from (row, col): an in-grid cell, not a mine, not the click. */
    ghost predicate SafeSpot(m: set<Pos>, row: int, col: int, t: Pos)
    {
      InGrid(rows, cols, t) && t !in m && t != (row, col)
    }

    ghost predicate HasSafeSpot(m: set<Pos>, row: int, col: int)
    {
      exists t :: SafeSpot(m, row, col, t)
    }

    /** A reveal at (row, col) is refused: the game is over, the position is off the grid, or the cell is revealed or flagged. */
    predicate RevealBlocked(row: int, col: int)
      reads this, revealed, flagged
      requires Shaped()
    {
      gameOver || !IsValidPosition(row, col) || revealed[row, col] || flagged[row, col]
    }

    /**
     * A new game for a tier of the difficulty table, with mines at the given
     * distinct in-grid positions (the tier's number of them).
     */
    constructor (difficulty: string, minePositions: seq<Pos>)
      requires Difficulty(difficulty).Some?
      requires |minePositions| == Difficulty(difficulty).value.mines
      requires forall i :: 0 <= i < |minePositions| ==>
        InGrid(Difficulty(difficulty).value.rows, Difficulty(difficulty).value.cols, minePositions[i])
      requires forall i, j :: 0 <= i < j < |minePositions| ==> minePositions[i] != minePositions[j]
      ensures Valid() && fresh(board) && fresh(revealed) && fresh(flagged)
      ensures rows == Difficulty(difficulty).value.rows && cols == Difficulty(difficulty).value.cols
      ensures mines == |minePositions|
      ensures mineSet == set p | p in minePositions
      ensures !gameOver && !gameWon && firstClick
      ensures forall r, c :: 0 <= r < rows && 0 <= c < cols ==> !revealed[r, c] && !flagged[r, c]
    {
      var settings := Difficulty(difficulty).value;
      rows, cols, mines := settings.rows, settings.cols, settings.mines;
      board := new int[settings.rows, settings.cols]((r, c) => 0);
      revealed := new bool[settings.rows, settings.cols]((r, c) => false);
      flagged := new bool[settings.rows, settings.cols]((r, c) => false);
      gameOver, gameWon, firstClick := false, false, true;
      mineSet := set p | p in minePositions;
      new;
      PlaceMines(minePositions);
      CalculateNumbers();
      DistinctCard(minePositions);
    }

    /** Marks each given position as a mine on an all-zero board. */
    method PlaceMines(positions: seq<Pos>)
      requires Shaped()
      requires forall i :: 0 <= i < |positions| ==> InGrid(rows, cols, positions[i])
      requires forall r, c :: 0 <= r < rows && 0 <= c < cols ==> board[r, c] == 0
      modifies board
      ensures forall r, c :: 0 <= r < rows && 0 <= c < cols ==> board[r, c] == (if (r, c) in positions then MINE else 0)
    {
      for k := 0 to |positions|
        invariant forall r, c :: 0 <= r < rows && 0 <= c < cols ==>
          board[r, c] == (if (r, c) in positions[..k] then MINE else 0)
      {
        var (r, c) := positions[k];
        board[r, c] := MINE;
        assert positions[..k + 1] == positions[..k] + [(r, c)];
      }
      assert positions[..|positions|] == positions;
    }

    /**
     * Counts the mines among the in-grid neighbours of (r, c) on a board
     * whose mine markers are exactly mineSet.
     */
    method CountAdjacentMines(r: int, c: int) returns (count: nat)
      requires Shaped()
      requires forall i, j {:trigger board[i, j]} :: 0 <= i < rows && 0 <= j < cols ==> (board[i, j] == MINE <==> (i, j) in mineSet)
      ensures count == AdjacentMines(mineSet, rows, cols, (r, c))
    {
      count := 0;
      for dr := -1 to 2
        invariant count == Hits(mineSet, rows, cols, (r, c), dr)
      {
        for dc := -1 to 2
          invariant count == Hits(mineSet, rows, cols, (r, c), dr) + RowHits(mineSet, rows, cols, (r, c), dr, dc)
        {
          assert RowHits(mineSet, rows, cols, (r, c), dr, dc + 1)
              == RowHits(mineSet, rows, cols, (r, c), dr, dc) + Hit(mineSet, rows, cols, (r, c), dr, dc);
          if !(dr == 0 && dc == 0) {
            var nr, nc := r + dr, c + dc;
            if 0 <= nr < rows && 0 <= nc < cols && board[nr, nc] == MINE {
              count := count + 1;
            }
          }
        }
      }
    }

    /**
     * Writes every non-mine cell's neighbour mine count, leaving the mine
     * markers in place.
     */
    method CalculateNumbers()
      requires Shaped()
      requires forall i, j {:trigger board[i, j]} :: 0 <= i < rows && 0 <= j < cols ==> (board[i, j] == MINE <==> (i, j) in mineSet)
      modifies board
      ensures Numbered()
    {
      for r := 0 to rows
        invariant forall i, j {:trigger board[i, j]} :: 0 <= i < rows && 0 <= j < cols ==> (board[i, j] == MINE <==> (i, j) in mineSet)
        invariant forall i, j {:trigger board[i, j]} :: 0 <= i < r && 0 <= j < cols ==> board[i, j] == CellValue(mineSet, rows, cols, (i, j))
      {
        for c := 0 to cols
          invariant forall i, j {:trigger board[i, j]} :: 0 <= i < rows && 0 <= j < cols ==> (board[i, j] == MINE <==> (i, j) in mineSet)
          invariant forall i, j {:trigger board[i, j]} :: 0 <= i < rows && 0 <= j < cols && (i < r || (i == r && j < c)) ==>
            board[i, j] == CellValue(mineSet, rows, cols, (i, j))
        {
          if board[r, c] != MINE {
            var count := CountAdjacentMines(r, c);
            board[r, c] := count;
          }
        }
      }
    }

    /**
     * `zeros` names exactly the cells of the board holding 0, and none of
     * them touches a mine.
     */
    ghost predicate ZerosMarked(zeros: set<Pos>)
      reads this, board
      requires Shaped()
    {
      (forall r, c {:trigger board[r, c]} :: 0 <= r < rows && 0 <= c < cols ==> (board[r, c] == 0 <==> (r, c) in zeros)) &&
      NoMineAround(rows, cols, zeros, mineSet)
    }

    /**
     * Reveals (row, col) and, from a cell holding 0, spreads to all eight
     * neighbours. Cells off the grid or already revealed stop the spread;
     * flags do not. Started on a cell without a mine, the fill is sound: it
     * never reveals a mine, every zero cell it reveals ends with all its
     * neighbours revealed, and every other cell it reveals touches a zero
     * cell it revealed. A start cell holding a number reveals that cell only.
     */
    method FloodFill(row: int, col: int, ghost zeros: set<Pos>)
      requires Shaped() && ZerosMarked(zeros)
      requires IsValidPosition(row, col) ==> (row, col) !in mineSet
      modifies revealed
      decreases |Hidden()|, 2
      ensures FillSound(rows, cols, (row, col), zeros, mineSet, old(Shown()), Shown())
      ensures IsValidPosition(row, col) ==> (row, col) in Shown()
      ensures !IsValidPosition(row, col) || old(revealed[row, col]) ==> unchanged(revealed)
      ensures Shown() == old(Shown()) || (row, col) in Shown() - old(Shown())
      ensures IsValidPosition(row, col) && !old(revealed[row, col]) && board[row, col] != 0 ==>
        Shown() == old(Shown()) + {(row, col)}
    {
      if !IsValidPosition(row, col) || revealed[row, col] {
        assert Shown() - old(Shown()) + {(row, col)} == {(row, col)};
        ReachedStart((row, col), zeros);
        return;
      }
      ghost var start := Shown();
      revealed[row, col] := true;
      assert Shown() == start + {(row, col)};
      if board[row, col] == 0 {
        ProperSubsetCard(Hidden(), Cells(rows, cols) - start);
        FloodNeighbours(row, col, zeros, |Cells(rows, cols) - start|);
        FillFromZero(rows, cols, (row, col), zeros, mineSet, start, Shown());
      } else {
        assert Shown() - start + {(row, col)} == {(row, col)};
        ReachedStart((row, col), zeros);
      }
    }

    /**
     * The spreading half of the fill: visits the eight neighbours of the
     * revealed zero cell (row, col), row by row, and fills from each, so
     * that all of them end up revealed. `bound` exceeds the number of hidden
     * cells and bounds the recursion.
     */
    method FloodNeighbours(row: int, col: int, ghost zeros: set<Pos>, ghost bound: nat)
      requires Shaped() && ZerosMarked(zeros)
      requires IsValidPosition(row, col) && (row, col) in zeros && (row, col) in Shown()
      requires |Hidden()| < bound
      modifies revealed
      decreases bound, 1
      ensures FillSound(rows, cols, (row, col), zeros, mineSet, old(Shown()), Shown())
      ensures Surrounded(rows, cols, (row, col), Shown())
    {
      ghost var start := Shown();
      assert Shown() - start + {(row, col)} == {(row, col)};
      ReachedStart((row, col), zeros);
      SpreadStart(rows, cols, (row, col), Shown());
      for dr := -1 to 2
        invariant FillSound(rows, cols, (row, col), zeros, mineSet, start, Shown()) && |Hidden()| < bound
        invariant SpreadDone(rows, cols, (row, col), Shown(), dr, -1)
      {
        for dc := -1 to 2
          invariant FillSound(rows, cols, (row, col), zeros, mineSet, start, Shown()) && |Hidden()| < bound
          invariant SpreadDone(rows, cols, (row, col), Shown(), dr, dc)
        {
          FloodNeighbour(row, col, dr, dc, zeros, start, bound);
        }
        SpreadRow(rows, cols, (row, col), Shown(), dr);
      }
      SpreadEnd(rows, cols, (row, col), Shown());
    }

    /**
     * One step of the spread: fills from the neighbour (row + dr, col + dc)
     * of the zero cell (row, col), skipping the cell itself, and keeps the
     * fill begun when `start` was shown sound.
     */
    method FloodNeighbour(row: int, col: int, dr: int, dc: int, ghost zeros: set<Pos>, ghost start: set<Pos>, ghost bound: nat)
      requires Shaped() && ZerosMarked(zeros)
      requires IsValidPosition(row, col) && (row, col) in zeros
      requires -1 <= dr <= 1 && -1 <= dc <= 1
      requires FillSound(rows, cols, (row, col), zeros, mineSet, start, Shown()) && |Hidden()| < bound
      requires SpreadDone(rows, cols, (row, col), Shown(), dr, dc)
      modifies revealed
      decreases bound, 0
      ensures FillSound(rows, cols, (row, col), zeros, mineSet, start, Shown()) && |Hidden()| < bound
      ensures SpreadDone(rows, cols, (row, col), Shown(), dr, dc + 1)
    {
      ghost var mid := Shown();
      if !(dr == 0 && dc == 0) {
        assert Adjacent((row, col), (row + dr, col + dc));
        FloodFill(row + dr, col + dc, zeros);
        SubsetCard(Hidden(), Cells(rows, cols) - mid);
        FillStep(rows, cols, (row, col), (row + dr, col + dc), zeros, mineSet, start, mid, Shown());
        SpreadStep(rows, cols, (row, col), mid, Shown(), dr, dc);
      } else {
        SpreadStep(rows, cols, (row, col), mid, mid, dr, dc);
      }
    }

    /**
     * Moves a mine under the first click to another cell, chosen by `pick`
     * among the cells that are neither mines nor the click, and renumbers
     * the board. With no such cell, or no mine under the click, nothing
     * changes.
     */
    method EnsureSafeFirstClick(row: int, col: int, pick: nat)
      requires Shaped() && Numbered() && mineSet <= Cells(rows, cols)
      requires IsValidPosition(row, col)
      modifies this`mineSet, board
      ensures Numbered() && mineSet <= Cells(rows, cols) && |mineSet| == |old(mineSet)|
      ensures (row, col) !in old(mineSet) || !HasSafeSpot(old(mineSet), row, col) ==>
        mineSet == old(mineSet) && unchanged(board)
      ensures (row, col) in old(mineSet) && HasSafeSpot(old(mineSet), row, col) ==>
        (row, col) !in mineSet &&
        exists t :: SafeSpot(old(mineSet), row, col, t) && mineSet == old(mineSet) - {(row, col)} + {t}
    {
      if board[row, col] == MINE {
        var safeSpots: seq<Pos> := [];
        for r := 0 to rows
          invariant forall k :: 0 <= k < |safeSpots| ==> SafeSpot(mineSet, row, col, safeSpots[k])
          invariant forall i, j {:trigger SafeSpot(mineSet, row, col, (i, j))} ::
            0 <= i < r && 0 <= j < cols && SafeSpot(mineSet, row, col, (i, j)) ==> (i, j) in safeSpots
        {
          for c := 0 to cols
            invariant forall k :: 0 <= k < |safeSpots| ==> SafeSpot(mineSet, row, col, safeSpots[k])
            invariant forall i, j {:trigger SafeSpot(mineSet, row, col, (i, j))} ::
              0 <= i < rows && 0 <= j < cols && (i < r || (i == r && j < c)) && SafeSpot(mineSet, row, col, (i, j)) ==>
              (i, j) in safeSpots
          {
            if board[r, c] != MINE && (r != row || c != col) {
              safeSpots := safeSpots + [(r, c)];
            }
          }
        }
        if |safeSpots| > 0 {
          var target := safeSpots[pick % |safeSpots|];
          var (newRow, newCol) := target;
          board[row, col] := 0;
          board[newRow, newCol] := MINE;
          mineSet := mineSet - {(row, col)} + {target};
          CalculateNumbers();
        }
      }
    }

    /** Counts the revealed cells, row by row. */
    method CountRevealed() returns (revealedCount: nat)
      requires Shaped()
      ensures revealedCount == |Shown()|
    {
      revealedCount := 0;
      for r := 0 to rows
        invariant revealedCount == |RevealedBefore(r, 0)|
      {
        for c := 0 to cols
          invariant revealedCount == |RevealedBefore(r, c)|
        {
          RevealedBeforeStep(r, c);
          if revealed[r, c] {
            revealedCount := revealedCount + 1;
          }
        }
        RevealedBeforeRow(r);
      }
      RevealedBeforeAll();
    }

    /** Sets the game over and won once the revealed cells number rows * cols - mines. */
    method CheckWinCondition()
      requires Shaped()
      modifies this`gameOver, this`gameWon
      ensures |Shown()| == rows * cols - mines ==> gameOver && gameWon
      ensures |Shown()| != rows * cols - mines ==> gameOver == old(gameOver) && gameWon == old(gameWon)
    {
      var revealedCount := CountRevealed();
      var totalCells := rows * cols;
      var safeCells := totalCells - mines;
      if revealedCount == safeCells {
        gameOver := true;
        gameWon := true;
      }
    }

    /** The revealed cells that come before (r, c) in row-major order. */
    ghost function RevealedBefore(r: int, c: int): set<Pos>
      reads revealed
      requires Shaped()
    {
      set i, j | 0 <= i < rows && 0 <= j < cols && (i < r || (i == r && j < c)) && revealed[i, j] :: (i, j)
    }

    lemma RevealedBeforeStep(r: int, c: int)
      requires Shaped() && 0 <= r < rows && 0 <= c < cols
      ensures (r, c) !in RevealedBefore(r, c)
      ensures RevealedBefore(r, c + 1) == RevealedBefore(r, c) + (if revealed[r, c] then {(r, c)} else {})
    {
    }

    lemma RevealedBeforeRow(r: int)
      requires Shaped() && 0 <= r
      ensures RevealedBefore(r, cols) == RevealedBefore(r + 1, 0)
    {
    }

    lemma RevealedBeforeAll()
      requires Shaped()
      ensures RevealedBefore(rows, 0) == Shown()
    {
    }

    /**
     * When no revealed cell is a mine, the revealed cells number
     * rows * cols - |mineSet| exactly when every cell without a mine is revealed.
     */
    lemma WinIffAllSafeRevealed()
      requires Shaped() && mineSet <= Cells(rows, cols) && Shown() !! mineSet
      ensures |Shown()| == rows * cols - |mineSet| <==> AllSafeRevealed()
    {
      assert Shown() <= Cells(rows, cols);
      SafeCountComplete(rows, cols, mineSet, Shown());
      if Shown() == Cells(rows, cols) - mineSet {
        forall r, c | 0 <= r < rows && 0 <= c < cols && (r, c) !in mineSet
          ensures revealed[r, c]
        {
          assert (r, c) in Cells(rows, cols);
          assert (r, c) in Shown();
        }
      }
      if AllSafeRevealed() {
        forall p | p in Cells(rows, cols) - mineSet
          ensures p in Shown()
        {
          assert revealed[p.0, p.1];
        }
      }
    }

    /**
     * Reveals a cell. Refused (no change) when the game is over, the position
     * is off the grid, or the cell is revealed or flagged. The first accepted
     * click moves a mine from under itself when another safe cell exists.
     * Then a mine ends the game as lost; otherwise the flood fill runs and
     * the game is won once every safe cell is revealed.
     */
    method RevealCell(row: int, col: int, pick: nat) returns (changed: bool)
      requires Valid()
      modifies this, board, revealed
      ensures Valid()
      ensures changed == !old(RevealBlocked(row, col))
      ensures !changed ==> unchanged(this) && unchanged(board) && unchanged(revealed)
      ensures changed ==> !firstClick
      ensures changed && !(old(firstClick) && (row, col) in old(mineSet) && old(HasSafeSpot(mineSet, row, col))) ==>
        mineSet == old(mineSet) && unchanged(board)
      ensures changed && old(firstClick) && old(HasSafeSpot(mineSet, row, col)) ==> (row, col) !in mineSet
      ensures changed && old(firstClick) && (row, col) in old(mineSet) && old(HasSafeSpot(mineSet, row, col)) ==>
        exists t :: SafeSpot(old(mineSet), row, col, t) && mineSet == old(mineSet) - {(row, col)} + {t}
      ensures changed && (row, col) in mineSet ==> gameOver && !gameWon && unchanged(revealed)
      ensures changed && (row, col) !in mineSet ==>
        old(Shown()) + {(row, col)} <= Shown() && gameOver == gameWon && (gameWon <==> AllSafeRevealed())
      ensures changed && (row, col) !in mineSet ==>
        FillSound(rows, cols, (row, col), Zeros(mineSet, rows, cols), mineSet, old(Shown()), Shown()) &&
        (CellValue(mineSet, rows, cols, (row, col)) != 0 ==> Shown() == old(Shown()) + {(row, col)})
    {
      if gameOver || !IsValidPosition(row, col) {
        return false;
      }
      if revealed[row, col] || flagged[row, col] {
        return false;
      }
      if firstClick && board[row, col] == MINE {
        EnsureSafeFirstClick(row, col, pick);
      }
      firstClick := false;
      if board[row, col] == MINE {
        gameOver := true;
        gameWon := false;
        return true;
      }
      ghost var before := Shown();
      ghost var zeros := Zeros(mineSet, rows, cols);
      ZerosSafe(rows, cols, mineSet);
      FloodFill(row, col, zeros);
      forall p | p in Shown() && p in zeros
        ensures Surrounded(rows, cols, p, Shown())
      {
        if p in before {
          SurroundedMono(rows, cols, p, before, Shown());
        }
      }
      CheckWinCondition();
      WinIffAllSafeRevealed();
      changed := true;
    }

    /**
     * Flips the flag of a cell. Refused (no change) when the game is over,
     * the position is off the grid, or the cell is revealed.
     */
    method ToggleFlag(row: int, col: int) returns (changed: bool)
      requires Valid()
      modifies flagged
      ensures Valid()
      ensures changed == !old(gameOver || !IsValidPosition(row, col) || revealed[row, col])
      ensures changed ==> flagged[row, col] == !old(flagged[row, col])
      ensures forall r, c :: 0 <= r < rows && 0 <= c < cols && (r, c) != (row, col) ==> flagged[r, c] == old(flagged[r, c])
      ensures !changed ==> unchanged(flagged)
    {
      if gameOver || !IsValidPosition(row, col) {
        return false;
      }
      if revealed[row, col] {
        return false;
      }
      flagged[row, col] := !flagged[row, col];
      changed := true;
    }

    function IsGameOver(): bool
      reads this
    {
      gameOver
    }

    /** A won game is always over. */
    function IsGameWon(): (won: bool)
      reads this, board, revealed, flagged
      requires Valid()
      ensures won ==> IsGameOver()
    {
      gameWon
    }

    /** On a distinct sequence, the set of elements is as large as the sequence. */
    static lemma {:induction false} DistinctCard(s: seq<Pos>)
      requires forall i, j :: 0 <= i < j < |s| ==> s[i] != s[j]
      ensures |set p | p in s| == |s|
    {
      if s != [] {
        var last := s[|s| - 1];
        var init := s[..|s| - 1];
        DistinctCard(init);
        assert (set p | p in s) == (set p | p in init) + {last};
        assert last !in init;
      }
    }
  }
}
