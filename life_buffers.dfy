/** The imperative part of the kernel: seeding a buffer from random draws and the
    pair of ping-pong buffers that `update_cells` and `reset_cells` work on. */
module LifeBuffers {
  import opened LifeRules

  /** `create_cells`: one draw per cell, in buffer order; the cell is alive when its draw is below 2.
      `draws` are the values `gen_range(0, 9)` returned; nothing is assumed about them. */
  method CreateCells(rows: nat, cols: nat, draws: seq<int>) returns (cells: seq<Cell>)
    requires |draws| == rows * cols
    ensures |cells| == rows * cols
    ensures forall i :: 0 <= i < |cells| ==> (cells[i].alive <==> draws[i] < AliveBelow)
  {
    cells := [];
    for i := 0 to rows * cols
      invariant |cells| == i
      invariant forall j :: 0 <= j < i ==> (cells[j].alive <==> draws[j] < AliveBelow)
    {
      var chance := draws[i];
      if chance < AliveBelow {
        cells := cells + [Cell(true)];
      } else {
        cells := cells + [Cell(false)];
      }
    }
  }

  /** A fresh buffer holding a copy of `s` (`Vec::clone`). */
  method CloneCells(s: seq<Cell>) returns (a: array<Cell>)
    ensures fresh(a) && a[..] == s
  {
    a := new Cell[|s|](i requires 0 <= i < |s| => s[i]);
  }

  /** The simulation state kept by the main loop: the grid dimensions and the two cell buffers.
      `cells` is the generation on display; `nextCells` is scratch space for the next step. */
  class Life {
    const rows: nat
    const cols: nat
    var cells: array<Cell>
    var nextCells: array<Cell>

    /** Both buffers hold `rows * cols` cells and are distinct objects, so writing one never changes the other. */
    ghost predicate Valid()
      reads this
    {
      cells != nextCells && cells.Length == rows * cols && nextCells.Length == rows * cols
    }

    /** Starting a game: seed `cells` and make `nextCells` a copy of it. */
    constructor (rows: nat, cols: nat, draws: seq<int>)
      requires |draws| == rows * cols
      ensures Valid() && this.rows == rows && this.cols == cols
      ensures fresh(cells) && fresh(nextCells)
      ensures cells[..] == nextCells[..]
      ensures forall i :: 0 <= i < cells.Length ==> (cells[i].alive <==> draws[i] < AliveBelow)
    {
      this.rows := rows;
      this.cols := cols;
      var seeded := CreateCells(rows, cols, draws);
      var current := CloneCells(seeded);
      var next := CloneCells(seeded);
      cells, nextCells := current, next;
    }

    /** `reset_cells`: reseed both buffers with the same fresh content; the dimensions stay. */
    method ResetCells(draws: seq<int>)
      requires Valid() && |draws| == rows * cols
      modifies this
      ensures Valid() && fresh(cells) && fresh(nextCells)
      ensures cells[..] == nextCells[..]
      ensures forall i :: 0 <= i < cells.Length ==> (cells[i].alive <==> draws[i] < AliveBelow)
    {
      var newCells := CreateCells(rows, cols, draws);
      cells := CloneCells(newCells);
      nextCells := CloneCells(newCells);
    }

    /** `update_cells`: write the next generation into `nextCells`, reading only `cells`,
        then swap the two buffers. The old generation survives unchanged as the new scratch buffer. */
    method UpdateCells()
      requires Valid()
      modifies this, nextCells
      ensures Valid()
      ensures cells == old(nextCells) && nextCells == old(cells)
      ensures cells[..] == NextGen(old(cells[..]), rows, cols)
      ensures nextCells[..] == old(cells[..])
    {
      var current, next := cells, nextCells;
      ghost var before := current[..];
      for row := 0 to rows
        invariant current[..] == before
        invariant GenerationUpTo(before, rows, cols, next[..], row, 0)
      {
        for col := 0 to cols
          invariant current[..] == before
          invariant GenerationUpTo(before, rows, cols, next[..], row, col)
        {
          var aliveNeighbors := CountAliveNeighbors(current[..], row, col, rows, cols);
          var idx := Index(row, col, rows, cols);
          GenerationUpToStep(before, rows, cols, next[..], row, col);
          next[idx] := Cell(Rule(current[idx].alive, aliveNeighbors));
        }
        GenerationUpToNextRow(before, rows, cols, next[..], row);
      }
      NextGenIntro(before, rows, cols, next[..]);
      cells, nextCells := next, current;
    }
  }
}
