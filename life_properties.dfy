/** Properties of the toroidal neighbourhood and of whole generations. */
module LifeProperties {
  import opened LifeRules

  // ---------------------------------------------------------------------------
  // Wrap-around adjacency

  /** The top-left cell sees the opposite corner and the far ends of its row and column. */
  lemma CornerWrapsAround(rows: nat, cols: nat)
    requires rows >= 1 && cols >= 1
    ensures NeighborPos(0, 0, rows, cols, 0) == (rows - 1, cols - 1)
    ensures NeighborPos(0, 0, rows, cols, 1) == (rows - 1, 0)
    ensures NeighborPos(0, 0, rows, cols, 3) == (0, cols - 1)
  {
  }

  /** Adjacency on the torus is symmetric: stepping by offset `k` and then by the opposite
      offset `7 - k` comes back to the starting cell. */
  lemma NeighborSymmetric(row: nat, col: nat, rows: nat, cols: nat, k: nat)
    requires row < rows && col < cols && k < 8
    ensures var p := NeighborPos(row, col, rows, cols, k);
      NeighborPos(p.0, p.1, rows, cols, 7 - k) == (row, col)
  {
    OffsetsAreMooreNeighbourhood();
    var (dr, dc) := Offsets[k];
    assert Offsets[7 - k] == (-dr, -dc);
    WrapInverse(row, dr, rows);
    WrapInverse(col, dc, cols);
  }

  /** Wrapping by `-d` undoes wrapping by `d`. */
  lemma WrapInverse(x: nat, d: int, n: nat)
    requires x < n && -1 <= d <= 1
    ensures Wrap(Wrap(x, d, n), -d, n) == x
  {
  }

  /** Wrapping with two different offsets gives two different coordinates once the
      dimension is at least three. */
  lemma WrapInjective(x: nat, d1: int, d2: int, n: nat)
    requires x < n && -1 <= d1 <= 1 && -1 <= d2 <= 1 && n >= 3
    ensures Wrap(x, d1, n) == Wrap(x, d2, n) ==> d1 == d2
  {
  }

  /** The eight neighbour positions of `(row, col)` are pairwise different. */
  predicate NeighborPositionsDistinct(row: nat, col: nat, rows: nat, cols: nat)
    requires row < rows && col < cols
  {
    forall j, k :: 0 <= j < k < 8 ==> NeighborPos(row, col, rows, cols, j) != NeighborPos(row, col, rows, cols, k)
  }

  /** The eight neighbours are eight different cells exactly when the grid has at least three
      rows and three columns; on a thinner grid some wrapped cell is reached by two or more offsets. */
  lemma NeighborsDistinctIffAtLeastThree(row: nat, col: nat, rows: nat, cols: nat)
    requires row < rows && col < cols
    ensures NeighborPositionsDistinct(row, col, rows, cols) <==> rows >= 3 && cols >= 3
  {
    if rows >= 3 && cols >= 3 {
      OffsetsAreMooreNeighbourhood();
      forall j, k | 0 <= j < k < 8
        ensures NeighborPos(row, col, rows, cols, j) != NeighborPos(row, col, rows, cols, k)
      {
        WrapInjective(row, Offsets[j].0, Offsets[k].0, rows);
        WrapInjective(col, Offsets[j].1, Offsets[k].1, cols);
      }
    } else if rows < 3 {
      // offsets (-1, 0) and (1, 0) land on the same cell
      assert NeighborPos(row, col, rows, cols, 1) == NeighborPos(row, col, rows, cols, 6);
    } else {
      // offsets (0, -1) and (0, 1) land on the same cell
      assert NeighborPos(row, col, rows, cols, 3) == NeighborPos(row, col, rows, cols, 4);
    }
  }

  // ---------------------------------------------------------------------------
  // Uniform boards

  /** Every cell of the buffer has liveness `v`. */
  predicate AllCells(cells: seq<Cell>, v: bool) {
    forall i :: 0 <= i < |cells| ==> cells[i].alive == v
  }

  lemma {:induction false} CountFromUniform(cells: seq<Cell>, row: nat, col: nat, rows: nat, cols: nat, k: nat, v: bool)
    requires |cells| == rows * cols && row < rows && col < cols && k <= 8
    requires AllCells(cells, v)
    ensures CountFrom(cells, row, col, rows, cols, k) == if v then 8 - k else 0
    decreases 8 - k
  {
    if k < 8 {
      CountFromUniform(cells, row, col, rows, cols, k + 1, v);
    }
  }

  /** On a full board every cell counts eight live neighbours, however small the torus:
      on a one-by-one board the single cell is its own neighbour eight times. */
  lemma FullBoardCountsEight(cells: seq<Cell>, row: nat, col: nat, rows: nat, cols: nat)
    requires |cells| == rows * cols && row < rows && col < cols
    requires AllCells(cells, true)
    ensures CountAliveNeighbors(cells, row, col, rows, cols) == 8
  {
    CountFromUniform(cells, row, col, rows, cols, 0, true);
  }

  /** A full board dies of overpopulation in one step. */
  lemma FullBoardDies(cells: seq<Cell>, rows: nat, cols: nat)
    requires |cells| == rows * cols && AllCells(cells, true)
    ensures AllCells(NextGen(cells, rows, cols), false)
  {
    var next := NextGen(cells, rows, cols);
    forall i | 0 <= i < |next|
      ensures !next[i].alive
    {
      IndexCovers(i, rows, cols);
      FullBoardCountsEight(cells, i / cols, i % cols, rows, cols);
      NextGenAt(cells, rows, cols, i / cols, i % cols);
    }
  }

  /** An empty board stays empty: nothing is born without live neighbours. */
  lemma EmptyBoardStaysEmpty(cells: seq<Cell>, rows: nat, cols: nat)
    requires |cells| == rows * cols && AllCells(cells, false)
    ensures AllCells(NextGen(cells, rows, cols), false)
  {
    var next := NextGen(cells, rows, cols);
    forall i | 0 <= i < |next|
      ensures !next[i].alive
    {
      IndexCovers(i, rows, cols);
      CountFromUniform(cells, i / cols, i % cols, rows, cols, 0, false);
      NextGenAt(cells, rows, cols, i / cols, i % cols);
    }
  }
}
