/**
 * Pure geometry of the Minesweeper grid: positions, the 8-neighbourhood,
 * and the number of mines next to a cell, counted the way the game's
 * nested offset loops count them.
 */
module Grid {
  type Pos = (int, int)

  /** The board value that marks a mine. */
  const MINE: int := -1

  predicate InGrid(rows: int, cols: int, p: Pos)
  {
    0 <= p.0 < rows && 0 <= p.1 < cols
  }

  /** p and q are different cells that touch horizontally, vertically or diagonally. */
  predicate Adjacent(p: Pos, q: Pos)
  {
    p != q && -1 <= q.0 - p.0 <= 1 && -1 <= q.1 - p.1 <= 1
  }

  /** All positions of a rows x cols grid. */
  ghost function Cells(rows: int, cols: int): set<Pos>
  {
    set r, c | 0 <= r < rows && 0 <= c < cols :: (r, c)
  }

  /** 1 when the cell at offset (dr, dc) from p is a neighbour inside the grid holding a mine. */
  function Hit(mines: set<Pos>, rows: int, cols: int, p: Pos, dr: int, dc: int): nat
  {
    var q := (p.0 + dr, p.1 + dc);
    if (dr == 0 && dc == 0) || !InGrid(rows, cols, q) || q !in mines then 0 else 1
  }

  /** Mines at the offsets (dr, -1), ..., (dr, n - 1). */
  function RowHits(mines: set<Pos>, rows: int, cols: int, p: Pos, dr: int, n: int): nat
    requires -1 <= n <= 2
    decreases n + 1
  {
    if n == -1 then 0 else RowHits(mines, rows, cols, p, dr, n - 1) + Hit(mines, rows, cols, p, dr, n - 1)
  }

  /** Mines at the offsets whose row offset lies in -1, ..., n - 1. */
  function Hits(mines: set<Pos>, rows: int, cols: int, p: Pos, n: int): nat
    requires -1 <= n <= 2
    decreases n + 1
  {
    if n == -1 then 0 else Hits(mines, rows, cols, p, n - 1) + RowHits(mines, rows, cols, p, n - 1, 2)
  }

  /**
   * The number of mines among the in-grid 8-neighbours of p: at most 8, and
   * zero exactly when no neighbour of p is a mine.
   */
  function AdjacentMines(mines: set<Pos>, rows: int, cols: int, p: Pos): (k: nat)
    ensures k <= 8
    ensures k == 0 <==> forall q :: q in mines && InGrid(rows, cols, q) ==> !Adjacent(p, q)
  {
    HitsBound(mines, rows, cols, p);
    HitsZero(mines, rows, cols, p);
    Hits(mines, rows, cols, p, 2)
  }

  /** The nine offset terms of the full count, written out. */
  lemma HitsUnfolded(mines: set<Pos>, rows: int, cols: int, p: Pos)
    ensures Hits(mines, rows, cols, p, 2)
      == Hit(mines, rows, cols, p, -1, -1) + Hit(mines, rows, cols, p, -1, 0) + Hit(mines, rows, cols, p, -1, 1)
       + Hit(mines, rows, cols, p, 0, -1) + Hit(mines, rows, cols, p, 0, 0) + Hit(mines, rows, cols, p, 0, 1)
       + Hit(mines, rows, cols, p, 1, -1) + Hit(mines, rows, cols, p, 1, 0) + Hit(mines, rows, cols, p, 1, 1)
  {
  }

  lemma HitsBound(mines: set<Pos>, rows: int, cols: int, p: Pos)
    ensures Hits(mines, rows, cols, p, 2) <= 8
  {
    HitsUnfolded(mines, rows, cols, p);
    assert Hit(mines, rows, cols, p, 0, 0) == 0;
  }

  lemma HitsZero(mines: set<Pos>, rows: int, cols: int, p: Pos)
    ensures Hits(mines, rows, cols, p, 2) == 0 <==> forall q :: q in mines && InGrid(rows, cols, q) ==> !Adjacent(p, q)
  {
    HitsUnfolded(mines, rows, cols, p);
    forall q | q in mines && InGrid(rows, cols, q) && Adjacent(p, q)
      ensures Hits(mines, rows, cols, p, 2) > 0
    {
      assert Hit(mines, rows, cols, p, q.0 - p.0, q.1 - p.1) == 1;
    }
  }

  /** No mine on p and none among its in-grid neighbours. */
  ghost predicate ClearAround(mines: set<Pos>, rows: int, cols: int, p: Pos)
  {
    p !in mines && forall q :: q in mines && InGrid(rows, cols, q) ==> !Adjacent(p, q)
  }

  /**
   * What a correctly numbered board holds at p: the mine marker, or the
   * neighbour mine count, which is 0 exactly when p is clear around.
   */
  function CellValue(mines: set<Pos>, rows: int, cols: int, p: Pos): (v: int)
    ensures v == MINE <==> p in mines
    ensures 0 <= v <= 8 || v == MINE
    ensures v == 0 <==> ClearAround(mines, rows, cols, p)
  {
    if p in mines then MINE else AdjacentMines(mines, rows, cols, p)
  }

  /** The cells of the grid whose correct value is 0. */
  ghost function Zeros(mines: set<Pos>, rows: int, cols: int): set<Pos>
  {
    set r, c | 0 <= r < rows && 0 <= c < cols && ClearAround(mines, rows, cols, (r, c)) :: (r, c)
  }

  /** Every in-grid neighbour of p belongs to s. */
  ghost predicate Surrounded(rows: int, cols: int, p: Pos, s: set<Pos>)
  {
    forall q {:trigger Adjacent(p, q)} :: InGrid(rows, cols, q) && Adjacent(p, q) ==> q in s
  }

  lemma SurroundedMono(rows: int, cols: int, p: Pos, s: set<Pos>, t: set<Pos>)
    requires Surrounded(rows, cols, p, s) && s <= t
    ensures Surrounded(rows, cols, p, t)
  {
  }

  /**
   * Every in-grid neighbour of p that comes before offset (dr, dc) in the
   * row-major order of the offset loops belongs to s.
   */
  ghost predicate SpreadDone(rows: int, cols: int, p: Pos, s: set<Pos>, dr: int, dc: int)
  {
    forall q {:trigger Adjacent(p, q)} :: InGrid(rows, cols, q) && Adjacent(p, q) && (q.0 < p.0 + dr || (q.0 == p.0 + dr && q.1 < p.1 + dc)) ==> q in s
  }

  lemma SpreadStart(rows: int, cols: int, p: Pos, s: set<Pos>)
    ensures SpreadDone(rows, cols, p, s, -1, -1)
  {
  }

  /** Visiting offset (dr, dc) extends the finished part by that one neighbour. */
  lemma SpreadStep(rows: int, cols: int, p: Pos, s: set<Pos>, t: set<Pos>, dr: int, dc: int)
    requires SpreadDone(rows, cols, p, s, dr, dc) && s <= t
    requires InGrid(rows, cols, (p.0 + dr, p.1 + dc)) && Adjacent(p, (p.0 + dr, p.1 + dc)) ==> (p.0 + dr, p.1 + dc) in t
    ensures SpreadDone(rows, cols, p, t, dr, dc + 1)
  {
  }

  /** Finishing the offsets of one row offset moves on to the next row offset. */
  lemma SpreadRow(rows: int, cols: int, p: Pos, s: set<Pos>, dr: int)
    requires SpreadDone(rows, cols, p, s, dr, 2)
    ensures SpreadDone(rows, cols, p, s, dr + 1, -1)
  {
  }

  lemma SpreadEnd(rows: int, cols: int, p: Pos, s: set<Pos>)
    requires SpreadDone(rows, cols, p, s, 2, -1)
    ensures Surrounded(rows, cols, p, s)
  {
  }

  /** No cell of `zeros` has a mine among its in-grid neighbours. */
  ghost predicate NoMineAround(rows: int, cols: int, zeros: set<Pos>, mines: set<Pos>)
  {
    forall p, q {:trigger Adjacent(p, q)} :: p in zeros && InGrid(rows, cols, q) && Adjacent(p, q) ==> q !in mines
  }

  /**
   * `order` lists cells in an order in which a fill from `origin` can reveal
   * them: it starts at `origin`, and every later cell touches a zero cell
   * listed before it.
   */
  ghost predicate RevealChain(order: seq<Pos>, origin: Pos, zeros: set<Pos>)
  {
    |order| > 0 && order[0] == origin &&
    forall i :: 0 < i < |order| ==> TouchesEarlierZero(order, i, zeros)
  }

  /** The cell at index i of `order` touches a zero cell listed before it. */
  ghost predicate TouchesEarlierZero(order: seq<Pos>, i: int, zeros: set<Pos>)
    requires 0 <= i < |order|
  {
    exists j :: 0 <= j < i && order[j] in zeros && Adjacent(order[j], order[i])
  }

  ghost function Elems(order: seq<Pos>): set<Pos>
  {
    set p | p in order
  }

  /**
   * The cells of `s` can be revealed one by one from `origin`, each next to
   * a zero cell revealed before it: the cells a fill started at `origin`
   * may reach.
   */
  ghost predicate ReachedThroughZeros(s: set<Pos>, origin: Pos, zeros: set<Pos>)
  {
    exists order :: RevealChain(order, origin, zeros) && Elems(order) == s
  }

  /** A fill that has revealed only its start cell reached it. */
  lemma ReachedStart(origin: Pos, zeros: set<Pos>)
    ensures ReachedThroughZeros({origin}, origin, zeros)
  {
    assert RevealChain([origin], origin, zeros);
    assert Elems([origin]) == {origin};
  }

  /**
   * A fill from a zero cell `origin` that has reached `s`, followed by a fill
   * from a neighbour `next` of `origin` that reaches `t`, has reached s + t.
   */
  lemma ReachedExtend(s: set<Pos>, t: set<Pos>, origin: Pos, next: Pos, zeros: set<Pos>)
    requires ReachedThroughZeros(s, origin, zeros) && ReachedThroughZeros(t, next, zeros)
    requires origin in zeros && Adjacent(origin, next)
    ensures ReachedThroughZeros(s + t, origin, zeros)
  {
    var first :| RevealChain(first, origin, zeros) && Elems(first) == s;
    var second :| RevealChain(second, next, zeros) && Elems(second) == t;
    var order := first + second;
    forall i | 0 < i < |order|
      ensures TouchesEarlierZero(order, i, zeros)
    {
      if i < |first| {
        assert TouchesEarlierZero(first, i, zeros);
        var j :| 0 <= j < i && first[j] in zeros && Adjacent(first[j], first[i]);
        assert order[j] == first[j];
      } else if i == |first| {
        assert order[0] == origin && order[i] == next;
      } else {
        assert TouchesEarlierZero(second, i - |first|, zeros);
        var j :| 0 <= j < i - |first| && second[j] in zeros && Adjacent(second[j], second[i - |first|]);
        assert order[|first| + j] == second[j];
      }
    }
    assert RevealChain(order, origin, zeros);
    assert Elems(order) == s + t;
  }

  /**
   * A reached set has no part cut off from its start: if `cut` misses the
   * start and no zero cell of `s` outside `cut` touches a cell of `cut`,
   * then `s` has no cell in `cut`.
   */
  lemma ReachedIsConnected(s: set<Pos>, origin: Pos, zeros: set<Pos>, cut: set<Pos>)
    requires ReachedThroughZeros(s, origin, zeros)
    requires origin !in cut
    requires forall z, p :: z in s - cut && z in zeros && p in cut ==> !Adjacent(z, p)
    ensures s !! cut
  {
    var order :| RevealChain(order, origin, zeros) && Elems(order) == s;
    ChainAvoids(order, origin, zeros, cut, |order|);
  }

  lemma {:induction false} ChainAvoids(order: seq<Pos>, origin: Pos, zeros: set<Pos>, cut: set<Pos>, n: nat)
    requires RevealChain(order, origin, zeros) && origin !in cut && n <= |order|
    requires forall z, p :: z in Elems(order) - cut && z in zeros && p in cut ==> !Adjacent(z, p)
    ensures forall i :: 0 <= i < n ==> order[i] !in cut
  {
    if n > 0 {
      ChainAvoids(order, origin, zeros, cut, n - 1);
      if n - 1 > 0 {
        assert TouchesEarlierZero(order, n - 1, zeros);
        var j :| 0 <= j < n - 1 && order[j] in zeros && Adjacent(order[j], order[n - 1]);
        assert order[j] in Elems(order) - cut;
      }
    }
  }

  /**
   * What a fill from the zero cell `origin` has achieved since the cells
   * `start` were shown: it revealed no mine, every zero cell it revealed
   * has all its neighbours shown, and it reached each cell through zeros.
   */
  ghost predicate FillSound(rows: int, cols: int, origin: Pos, zeros: set<Pos>, mines: set<Pos>, start: set<Pos>, now: set<Pos>)
  {
    && start <= now
    && (now - start) !! mines
    && (forall p :: p in now - start && p in zeros ==> Surrounded(rows, cols, p, now))
    && ReachedThroughZeros(now - start + {origin}, origin, zeros)
  }

  /**
   * A sound fill from a neighbour `next` of the zero cell `origin`, which
   * either changed nothing or revealed `next`, extends a sound fill from
   * `origin`.
   */
  lemma FillStep(rows: int, cols: int, origin: Pos, next: Pos, zeros: set<Pos>, mines: set<Pos>,
                 start: set<Pos>, mid: set<Pos>, after: set<Pos>)
    requires FillSound(rows, cols, origin, zeros, mines, start, mid)
    requires FillSound(rows, cols, next, zeros, mines, mid, after)
    requires after == mid || next in after - mid
    requires origin in zeros && Adjacent(origin, next)
    ensures FillSound(rows, cols, origin, zeros, mines, start, after)
  {
    if after != mid {
      forall p | p in after - start && p in zeros
        ensures Surrounded(rows, cols, p, after)
      {
        if p in mid {
          SurroundedMono(rows, cols, p, mid, after);
        }
      }
      ReachedExtend(mid - start + {origin}, after - mid + {next}, origin, next, zeros);
      assert after - start + {origin} == (mid - start + {origin}) + (after - mid + {next});
    }
  }

  /**
   * Revealing the zero cell `origin` and then filling soundly from it, so
   * that all its neighbours end up shown, is a sound fill from `origin`.
   */
  lemma FillFromZero(rows: int, cols: int, origin: Pos, zeros: set<Pos>, mines: set<Pos>,
                     start: set<Pos>, after: set<Pos>)
    requires origin !in start && origin !in mines
    requires FillSound(rows, cols, origin, zeros, mines, start + {origin}, after)
    requires Surrounded(rows, cols, origin, after)
    ensures FillSound(rows, cols, origin, zeros, mines, start, after)
  {
    assert after - start == (after - (start + {origin})) + {origin};
  }

  /** No zero cell of a board numbered for `mines` touches a mine. */
  lemma ZerosSafe(rows: int, cols: int, mines: set<Pos>)
    ensures NoMineAround(rows, cols, Zeros(mines, rows, cols), mines)
  {
  }

  // ----- cardinalities -----

  lemma {:induction false} SubsetCard<T>(a: set<T>, b: set<T>)
    requires a <= b
    ensures |a| <= |b|
    decreases |a|
  {
    if a != {} {
      var x :| x in a;
      SubsetCard(a - {x}, b - {x});
    }
  }

  lemma ProperSubsetCard<T>(a: set<T>, b: set<T>)
    requires a < b
    ensures |a| < |b|
  {
    var x :| x in b && x !in a;
    SubsetCard(a, b - {x});
  }

  /** The cells of row r. */
  ghost function RowCells(r: int, cols: int): set<Pos>
  {
    set c | 0 <= c < cols :: (r, c)
  }

  lemma {:induction false} RowCellsCard(r: int, cols: nat)
    ensures |RowCells(r, cols)| == cols
  {
    if cols > 0 {
      RowCellsCard(r, cols - 1);
      assert RowCells(r, cols) == RowCells(r, cols - 1) + {(r, cols - 1)};
    }
  }

  /** The cells of a grid are those of the grid one row shorter plus its last row. */
  lemma CellsSplit(rows: nat, cols: nat)
    requires rows > 0
    ensures Cells(rows, cols) == Cells(rows - 1, cols) + RowCells(rows - 1, cols)
    ensures Cells(rows - 1, cols) !! RowCells(rows - 1, cols)
  {
  }

  /** A rows x cols grid has rows * cols cells. */
  lemma {:induction false} CellsCard(rows: nat, cols: nat)
    ensures |Cells(rows, cols)| == rows * cols
  {
    if rows > 0 {
      CellsCard(rows - 1, cols);
      RowCellsCard(rows - 1, cols);
      CellsSplit(rows, cols);
      assert |Cells(rows, cols)| == (rows - 1) * cols + cols;
    }
  }

  /**
   * With mines placed inside the grid, a set of non-mine cells has
   * rows * cols - |mines| elements exactly when it is every non-mine cell.
   */
  lemma SafeCountComplete(rows: nat, cols: nat, mines: set<Pos>, shown: set<Pos>)
    requires mines <= Cells(rows, cols) && shown <= Cells(rows, cols) && shown !! mines
    ensures |shown| == rows * cols - |mines| <==> shown == Cells(rows, cols) - mines
  {
    var safe := Cells(rows, cols) - mines;
    CellsCard(rows, cols);
    assert Cells(rows, cols) == safe + mines && safe !! mines;
    assert shown <= safe;
    if shown != safe {
      ProperSubsetCard(shown, safe);
    }
  }
}
