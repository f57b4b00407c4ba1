/** The pure part of the Game of Life kernel: the row-major cell layout,
    toroidal wrap-around of neighbour coordinates, the neighbour count,
    the life rule and the next generation as a function of the current one. */
module LifeRules {

  /** One cell of the board: only a liveness flag. */
  datatype Cell = Cell(alive: bool)

  /** `create_cells` draws from `gen_range(0, 9)` and seeds a live cell when the draw is below 2. */
  const AliveBelow: int := 2

  // ---------------------------------------------------------------------------
  // Arithmetic helpers for the row-major layout

  lemma MulMonotone(a: int, b: int, c: nat)
    requires a <= b
    ensures a * c <= b * c
  {
  }

  lemma DivModUnique(q: int, r: int, n: int)
    requires 0 <= r < n
    ensures (q * n + r) / n == q && (q * n + r) % n == r
  {
    var i := q * n + r;
    var q', r' := i / n, i % n;
    assert q' * n + r' == i;
    if q' > q {
      MulMonotone(q + 1, q', n);
      assert false;
    } else if q' < q {
      MulMonotone(q' + 1, q, n);
      assert false;
    }
  }

  /** The position `(row, col)` lives at `row * cols + col` of a buffer of `rows * cols` cells,
      and the index determines the position again. */
  function Index(row: nat, col: nat, rows: nat, cols: nat): (i: nat)
    requires row < rows && col < cols
    ensures i < rows * cols
    ensures i / cols == row && i % cols == col
  {
    MulMonotone(row + 1, rows, cols);
    DivModUnique(row, col, cols);
    row * cols + col
  }

  /** Every index of a `rows * cols` buffer is the index of exactly one position. */
  lemma IndexCovers(i: nat, rows: nat, cols: nat)
    requires i < rows * cols
    ensures cols > 0 && i / cols < rows && i % cols < cols
    ensures Index(i / cols, i % cols, rows, cols) == i
  {
    if i / cols >= rows {
      MulMonotone(rows, i / cols, cols);
      assert false;
    }
  }

  // ---------------------------------------------------------------------------
  // Toroidal neighbourhood

  /** The eight offsets visited by `count_alive_neighbors`, in source order; `(0, 0)` is left out. */
  const Offsets: seq<(int, int)> := [(-1, -1), (-1, 0), (-1, 1), (0, -1), (0, 1), (1, -1), (1, 0), (1, 1)]

  /** The offsets are the Moore neighbourhood without the cell itself, each listed once,
      and the list is symmetric: offset `7 - k` is the opposite of offset `k`. */
  lemma OffsetsAreMooreNeighbourhood()
    ensures |Offsets| == 8
    ensures forall d :: d in Offsets <==> -1 <= d.0 <= 1 && -1 <= d.1 <= 1 && d != (0, 0)
    ensures forall j, k :: 0 <= j < k < 8 ==> Offsets[j] != Offsets[k]
    ensures forall k :: 0 <= k < 8 ==> Offsets[7 - k] == (-Offsets[k].0, -Offsets[k].1)
  {
  }

  /** `as usize` on a non-negative `isize` keeps its value; the source applies it only where
      the value is already non-negative, which this requires clause makes a proof obligation. */
  function AsUsize(v: int): (u: nat)
    requires v >= 0
    ensures u as int == v
  {
    v
  }

  /** `(x as isize + d + n as isize) as usize % n`: the coordinate `x + d` wrapped onto `[0, n)`. */
  function Wrap(x: nat, d: int, n: nat): (r: nat)
    requires x < n && -1 <= d <= 1
    ensures r < n
    ensures r == x + d || r == x + d + n || r == x + d - n
    ensures r == (x + d) % n
  {
    var s := AsUsize(x + d + n);
    if s < n then
      DivModUnique(0, s, n);
      DivModUnique(-1, s, n);
      s % n
    else if s < 2 * n then
      DivModUnique(1, s - n, n);
      DivModUnique(0, s - n, n);
      s % n
    else
      DivModUnique(2, 0, n);
      DivModUnique(1, 0, n);
      s % n
  }

  /** The position of the `k`-th neighbour of `(row, col)` on a `rows` by `cols` torus. */
  function NeighborPos(row: nat, col: nat, rows: nat, cols: nat, k: nat): (p: (nat, nat))
    requires row < rows && col < cols && k < 8
    ensures p.0 < rows && p.1 < cols
  {
    (Wrap(row, Offsets[k].0, rows), Wrap(col, Offsets[k].1, cols))
  }

  /** The buffer index of the `k`-th neighbour: always inside the buffer. */
  function NeighborIndex(row: nat, col: nat, rows: nat, cols: nat, k: nat): (i: nat)
    requires row < rows && col < cols && k < 8
    ensures i < rows * cols
  {
    var p := NeighborPos(row, col, rows, cols, k);
    Index(p.0, p.1, rows, cols)
  }

  /** Reference reading of a torus: the cell at integer coordinates `(r, c)` is the one at
      `(r mod rows, c mod cols)` of the buffer. */
  predicate TorusAlive(cells: seq<Cell>, r: int, c: int, rows: nat, cols: nat)
    requires |cells| == rows * cols && rows > 0 && cols > 0
  {
    cells[Index(r % rows, c % cols, rows, cols)].alive
  }

  /** The filter predicate of `count_alive_neighbors`: is the `k`-th neighbour alive? It reads the
      cell at the true torus position `(row + dr, col + dc)`. */
  predicate NeighborAlive(cells: seq<Cell>, row: nat, col: nat, rows: nat, cols: nat, k: nat)
    requires |cells| == rows * cols && row < rows && col < cols && k < 8
    ensures NeighborAlive(cells, row, col, rows, cols, k) <==>
      TorusAlive(cells, row + Offsets[k].0, col + Offsets[k].1, rows, cols)
  {
    cells[NeighborIndex(row, col, rows, cols, k)].alive
  }

  /** The offsets, numbered from `k` on, whose neighbour is alive. */
  ghost function LiveOffsetsFrom(cells: seq<Cell>, row: nat, col: nat, rows: nat, cols: nat, k: nat): set<nat>
    requires |cells| == rows * cols && row < rows && col < cols
  {
    set j: nat | k <= j < 8 && NeighborAlive(cells, row, col, rows, cols, j)
  }

  /** The number of live neighbours among offsets `k..8`. */
  function CountFrom(cells: seq<Cell>, row: nat, col: nat, rows: nat, cols: nat, k: nat): (n: nat)
    requires |cells| == rows * cols && row < rows && col < cols && k <= 8
    ensures n <= 8 - k
    decreases 8 - k
  {
    if k == 8 then 0
    else (if NeighborAlive(cells, row, col, rows, cols, k) then 1 else 0) + CountFrom(cells, row, col, rows, cols, k + 1)
  }

  /** `count_alive_neighbors`: the number of the eight offsets whose wrapped position is alive. */
  function CountAliveNeighbors(cells: seq<Cell>, row: nat, col: nat, rows: nat, cols: nat): (n: nat)
    requires |cells| == rows * cols && row < rows && col < cols
    ensures n <= 8
  {
    CountFrom(cells, row, col, rows, cols, 0)
  }

  /** Peeling offset `k` off the set of live offsets from `k` on. */
  lemma LiveOffsetsStep(cells: seq<Cell>, row: nat, col: nat, rows: nat, cols: nat, k: nat)
    requires |cells| == rows * cols && row < rows && col < cols && k < 8
    ensures k !in LiveOffsetsFrom(cells, row, col, rows, cols, k + 1)
    ensures LiveOffsetsFrom(cells, row, col, rows, cols, k) ==
      LiveOffsetsFrom(cells, row, col, rows, cols, k + 1) + if NeighborAlive(cells, row, col, rows, cols, k) then {k} else {}
  {
  }

  lemma {:induction false} CountFromIsCardinality(cells: seq<Cell>, row: nat, col: nat, rows: nat, cols: nat, k: nat)
    requires |cells| == rows * cols && row < rows && col < cols && k <= 8
    ensures CountFrom(cells, row, col, rows, cols, k) == |LiveOffsetsFrom(cells, row, col, rows, cols, k)|
    decreases 8 - k
  {
    if k == 8 {
      assert LiveOffsetsFrom(cells, row, col, rows, cols, k) == {};
    } else {
      CountFromIsCardinality(cells, row, col, rows, cols, k + 1);
      LiveOffsetsStep(cells, row, col, rows, cols, k);
    }
  }

  /** The count is the size of the set of offsets (a subset of the eight) whose wrapped position is alive. */
  lemma CountIsLiveOffsets(cells: seq<Cell>, row: nat, col: nat, rows: nat, cols: nat)
    requires |cells| == rows * cols && row < rows && col < cols
    ensures CountAliveNeighbors(cells, row, col, rows, cols) == |LiveOffsetsFrom(cells, row, col, rows, cols, 0)|
  {
    CountFromIsCardinality(cells, row, col, rows, cols, 0);
  }

  // ---------------------------------------------------------------------------
  // The life rule and one generation

  /** The match in `update_cells`: survival with two or three neighbours, birth with exactly three. */
  function Rule(alive: bool, neighbors: nat): (next: bool)
    ensures alive && neighbors < 2 ==> !next
    ensures alive && (neighbors == 2 || neighbors == 3) ==> next
    ensures alive && neighbors > 3 ==> !next
    ensures !alive ==> (next <==> neighbors == 3)
  {
    match (alive, neighbors)
    case (true, 2) => true
    case (true, 3) => true
    case (false, 3) => true
    case _ => false
  }

  /** The new state of the cell at `(row, col)`, computed from the current generation only. */
  function NextCell(cells: seq<Cell>, row: nat, col: nat, rows: nat, cols: nat): (next: Cell)
    requires |cells| == rows * cols && row < rows && col < cols
    ensures var i, n := Index(row, col, rows, cols), CountAliveNeighbors(cells, row, col, rows, cols);
      next.alive <==> (cells[i].alive && (n == 2 || n == 3)) || (!cells[i].alive && n == 3)
  {
    Cell(Rule(cells[Index(row, col, rows, cols)].alive, CountAliveNeighbors(cells, row, col, rows, cols)))
  }

  /** The generation that follows `cells`: every cell is updated from the same, old generation. */
  function NextGen(cells: seq<Cell>, rows: nat, cols: nat): (next: seq<Cell>)
    requires |cells| == rows * cols
    ensures |next| == rows * cols
  {
    seq(rows * cols, i requires 0 <= i < rows * cols =>
      IndexCovers(i, rows, cols);
      NextCell(cells, i / cols, i % cols, rows, cols))
  }

  /** Cell `(row, col)` of the next generation is the rule applied to that cell and its count. */
  lemma NextGenAt(cells: seq<Cell>, rows: nat, cols: nat, row: nat, col: nat)
    requires |cells| == rows * cols && row < rows && col < cols
    ensures NextGen(cells, rows, cols)[Index(row, col, rows, cols)] == NextCell(cells, row, col, rows, cols)
  {
  }

  /** `s` already holds the next generation at every position that comes before `(row, col)`
      in row-major order: the part of the buffer a row-by-row sweep has written. */
  ghost predicate GenerationUpTo(cells: seq<Cell>, rows: nat, cols: nat, s: seq<Cell>, row: nat, col: nat)
    requires |cells| == rows * cols && |s| == rows * cols
  {
    forall r: nat, c: nat {:trigger s[Index(r, c, rows, cols)]} :: r < rows && c < cols && (r < row || (r == row && c < col)) ==>
      s[Index(r, c, rows, cols)] == NextCell(cells, r, c, rows, cols)
  }

  /** Writing the new state of `(row, col)` extends the written part by one position. */
  lemma GenerationUpToStep(cells: seq<Cell>, rows: nat, cols: nat, s: seq<Cell>, row: nat, col: nat)
    requires |cells| == rows * cols && |s| == rows * cols && row < rows && col < cols
    requires GenerationUpTo(cells, rows, cols, s, row, col)
    ensures GenerationUpTo(cells, rows, cols, s[Index(row, col, rows, cols) := NextCell(cells, row, col, rows, cols)], row, col + 1)
  {
    var i := Index(row, col, rows, cols);
    var s' := s[i := NextCell(cells, row, col, rows, cols)];
    forall r: nat, c: nat | r < rows && c < cols && (r < row || (r == row && c < col + 1))
      ensures s'[Index(r, c, rows, cols)] == NextCell(cells, r, c, rows, cols)
    {
      if (r, c) != (row, col) {
        assert Index(r, c, rows, cols) != i;
      }
    }
  }

  /** A full row written is the same as the next row started. */
  lemma GenerationUpToNextRow(cells: seq<Cell>, rows: nat, cols: nat, s: seq<Cell>, row: nat)
    requires |cells| == rows * cols && |s| == rows * cols
    requires GenerationUpTo(cells, rows, cols, s, row, cols)
    ensures GenerationUpTo(cells, rows, cols, s, row + 1, 0)
  {
  }

  /** `NextGen` is the only buffer whose cell at every position `(row, col)` is `NextCell`:
      writing each position once with its new state produces exactly the next generation. */
  lemma NextGenIntro(cells: seq<Cell>, rows: nat, cols: nat, s: seq<Cell>)
    requires |cells| == rows * cols && |s| == rows * cols
    requires GenerationUpTo(cells, rows, cols, s, rows, 0)
    ensures s == NextGen(cells, rows, cols)
  {
    forall i | 0 <= i < rows * cols
      ensures s[i] == NextGen(cells, rows, cols)[i]
    {
      NextGenIntroAt(cells, rows, cols, s, i);
    }
  }

  lemma NextGenIntroAt(cells: seq<Cell>, rows: nat, cols: nat, s: seq<Cell>, i: nat)
    requires |cells| == rows * cols && |s| == rows * cols && i < rows * cols
    requires GenerationUpTo(cells, rows, cols, s, rows, 0)
    ensures s[i] == NextGen(cells, rows, cols)[i]
  {
    IndexCovers(i, rows, cols);
    NextGenAt(cells, rows, cols, i / cols, i % cols);
  }

  /** The rule table, cell by cell: after a step, cell `(row, col)` is alive iff it was alive with
      two or three live neighbours, or dead with exactly three, counted in the old generation. */
  lemma NextGenRuleTable(cells: seq<Cell>, rows: nat, cols: nat, row: nat, col: nat)
    requires |cells| == rows * cols && row < rows && col < cols
    ensures var i, n := Index(row, col, rows, cols), CountAliveNeighbors(cells, row, col, rows, cols);
      NextGen(cells, rows, cols)[i].alive <==> (cells[i].alive && (n == 2 || n == 3)) || (!cells[i].alive && n == 3)
  {
    NextGenAt(cells, rows, cols, row, col);
  }
}
