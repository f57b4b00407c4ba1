# Game of Life kernel of quad-sketch

A Dafny model of the Conway's Game of Life kernel in `src/main.rs` of quad-sketch. The board is a
torus of `rows` by `cols` cells. The program only builds square boards (`Grid::new` sets
`cols = rows`, `src/main.rs:137`); the model lets the two dimensions differ, and every property is
stated for independent `rows` and `cols`, so the square case is included. It is stored row-major in a buffer of `rows * cols` cells, so
`(row, col)` sits at index `row * cols + col`. Two buffers take turns: `update_cells` reads `cells`,
writes the next generation into `next_cells` and swaps the two. `create_cells` seeds a buffer from
one random draw per cell. `reset_cells` reseeds both buffers with the same content.

Files:

- `life_rules.dfy` (module `LifeRules`): the pure part. It holds the `Cell` datatype, the row-major
  `Index`, the `Wrap` of one coordinate and the eight `Offsets`. It also holds the neighbour count
  `CountAliveNeighbors`, the life `Rule` and `NextGen`, the generation that follows a buffer.
- `life_buffers.dfy` (module `LifeBuffers`): the imperative part. `CreateCells` builds a buffer in a
  loop. The class `Life` holds the two buffers as arrays plus the dimensions. `Life.UpdateCells` is
  the nested loop and the swap. `Life.ResetCells` reseeds both buffers.
- `life_properties.dfy` (module `LifeProperties`): properties of the torus and of whole
  generations. They cover wrap-around at the corner, symmetry of adjacency, when the eight
  neighbours are eight distinct cells, and what happens to full and empty boards.

The random source is a parameter. `draws` is the sequence of values `gen_range(0, 9)` returned,
one per cell in buffer order. Nothing is assumed about their range or distribution.

Three behaviours of the code are modelled as written. They differ from a kernel that clears its scratch buffer, offers a clamped boundary mode and rejects zero dimensions:

- `next_cells` starts as a copy of the seeded `cells` (`src/main.rs:20-21`, `:54-55`), and
  `reset_cells` puts the same content into both buffers. The buffer is not cleared to all-dead.
- Only the toroidal wrap is in the code. There is no clamped boundary mode.
- Zero dimensions are not rejected. `create_cells` then returns an empty buffer, and
  `update_cells` writes nothing but still swaps the buffers. The model admits `rows = 0` or
  `cols = 0` in the same way.

## Model

| member | source | states |
|---|---|---|
| `LifeRules.Index` | src/main.rs:279 | the row-major index of `(row, col)` lies in `[0, rows*cols)`, and `/ cols` and `% cols` recover the row and the column |
| `LifeRules.IndexCovers` | src/main.rs:276-279 | every index below `rows*cols` is `Index` of the in-range position `(i / cols, i % cols)`, so the nested loop writes every cell; together with `Index`'s ensures (`/ cols` and `% cols` recover the position) that position is the only one |
| `LifeRules.OffsetsAreMooreNeighbourhood` | src/main.rs:250-259 | there are eight offsets, they are exactly the Moore neighbourhood without `(0, 0)`, each is listed once, and offset `7 - k` is the opposite of offset `k` |
| `LifeRules.AsUsize` | src/main.rs:264-265 | the `as usize` cast keeps the value, and it applies only to a value proved non-negative (its requires is discharged at every use in `Wrap`) |
| `LifeRules.Wrap` | src/main.rs:264-265 | the source's `+ n`, cast and `% n` compute the mathematical torus coordinate `(x + d) mod n` (Euclidean modulo), which lies in `[0, n)` and is `x + d`, `x + d + n` or `x + d - n`; the sum cast to `usize` is proved non-negative at the cast |
| `LifeRules.NeighborPos` | src/main.rs:263-265 | both wrapped coordinates of the `k`-th neighbour are inside the grid |
| `LifeRules.NeighborIndex` | src/main.rs:264-266 | the buffer index read for each neighbour is in `[0, rows*cols)`, so the access never goes out of bounds |
| `LifeRules.NeighborAlive` | src/main.rs:263-266 | the filter closure: offset `(dr, dc)` is kept iff `TorusAlive` holds at `(row + dr, col + dc)`, i.e. the cell at the torus position `((row + dr) mod rows, (col + dc) mod cols)` is alive; the source's `+ n`, cast and `% n` route reaches that cell |
| `LifeRules.CountFrom` | src/main.rs:261-268 | the live neighbours among offsets `k..8` number at most `8 - k` |
| `LifeRules.CountAliveNeighbors` | src/main.rs:243-269 | the neighbour count is between 0 and 8 |
| `LifeRules.CountFromIsCardinality` | src/main.rs:261-268 | counting the offsets from `k` on equals the size of the set of those offsets whose wrapped position is alive |
| `LifeRules.CountIsLiveOffsets` | src/main.rs:261-268 | `count_alive_neighbors` is the size of the subset of the eight offsets whose wrapped position is alive |
| `LifeRules.Rule` | src/main.rs:271-285 | the four sentences of the doc comment: a live cell with fewer than 2 neighbours dies, with 2 or 3 it survives, with more than 3 it dies; a dead cell comes alive exactly with 3 |
| `LifeRules.NextCell` | src/main.rs:278-285 | the rule applied to the old cell and its count in the old generation: alive iff it was alive with 2 or 3 live neighbours or dead with exactly 3 |
| `LifeRules.NextGen` | src/main.rs:275-287 | the next generation has `rows*cols` cells; its contents are fixed by `NextGenAt`, `NextGenIntro` and `NextGenRuleTable`, and simultaneity (every count taken in the pre-step buffer) is what `Life.UpdateCells` promises by ending with `cells[..] == NextGen(old(cells[..]), rows, cols)` |
| `LifeRules.GenerationUpToStep` | src/main.rs:277-285 | writing the new state of `(row, col)` into a buffer that is right at every earlier position (row-major) makes it right at `(row, col)` too and leaves the earlier positions alone |
| `LifeRules.GenerationUpToNextRow` | src/main.rs:276-277 | a buffer right up to the end of row `row` is right up to the start of row `row + 1` |
| `LifeRules.NextGenIntroAt` | src/main.rs:276-279 | a buffer that holds `NextCell` at every position agrees with `NextGen` at each index |
| `LifeRules.NextGenIntro` | src/main.rs:276-287 | a buffer that holds `NextCell` at every position is exactly `NextGen`: once the sweep has written all positions, `next_cells` is the next generation |
| `LifeRules.NextGenAt` | src/main.rs:278-285 | cell `(row, col)` of the next generation is the rule applied to the old cell and its neighbour count in the old generation |
| `LifeRules.NextGenRuleTable` | src/main.rs:271-285 | after a step, cell `idx` is alive iff it was alive with 2 or 3 live neighbours or was dead with exactly 3 |
| `LifeProperties.CornerWrapsAround` | src/main.rs:264-265 | `(0, 0)` has `(rows-1, cols-1)`, `(rows-1, 0)` and `(0, cols-1)` among its neighbour positions |
| `LifeProperties.WrapInverse` | src/main.rs:264-265 | wrapping by `-d` undoes wrapping by `d` |
| `LifeProperties.NeighborSymmetric` | src/main.rs:250-265 | if `q` is the `k`-th neighbour of `p`, then `p` is the `(7-k)`-th neighbour of `q` |
| `LifeProperties.WrapInjective` | src/main.rs:264-265 | on a dimension of at least 3, different offsets wrap to different coordinates |
| `LifeProperties.NeighborsDistinctIffAtLeastThree` | src/main.rs:250-266 | the eight neighbour positions are pairwise distinct iff `rows >= 3` and `cols >= 3`; on a thinner grid some wrapped position is reached by two or more offsets |
| `LifeProperties.CountFromUniform` | src/main.rs:261-268 | on a uniform board, offsets `k..8` contribute `8 - k` live neighbours if every cell is alive and 0 if none is |
| `LifeProperties.FullBoardCountsEight` | src/main.rs:243-269 | on a full board every cell counts 8 live neighbours, even on a 1-by-1 torus where the cell is its own neighbour eight times |
| `LifeProperties.FullBoardDies` | src/main.rs:275-287 | a full board is empty after one step |
| `LifeProperties.EmptyBoardStaysEmpty` | src/main.rs:275-287 | an empty board stays empty after one step |
| `LifeBuffers.CreateCells` | src/main.rs:227-241 | the buffer has exactly `rows*cols` cells, and cell `i` is alive iff the `i`-th draw is below 2 |
| `LifeBuffers.CloneCells` | src/main.rs:119-120 | a freshly allocated buffer holding a copy of the given cells |
| `LifeBuffers.Life.constructor` | src/main.rs:53-55 | both buffers are fresh, distinct and of length `rows*cols`, they hold the same content, and cell `i` is alive iff draw `i` is below 2 |
| `LifeBuffers.Life.ResetCells` | src/main.rs:117-121 | both buffers are reseeded with the same content from the draws; they are fresh, distinct and of length `rows*cols`, and the dimensions are unchanged |
| `LifeBuffers.Life.UpdateCells` | src/main.rs:275-289 | the buffer handles are swapped; the new `cells` equal `NextGen` of the old `cells`; the new `nextCells` hold the old generation unchanged; both keep length `rows*cols` |

## Left out

- The `main` loop, the menu and running states, sliders, buttons, labels and the FPS display (`src/main.rs:10-105`). These are UI and frame plumbing. Only the buffer setup done on "Start" is modelled, as `Life.constructor`.
- Timing: `get_time`, `updates_per_second` and `time_step` are floating-point wall-clock logic. The model has no notion of when a step happens.
- The `Grid` struct and its pixel geometry and drawing (`src/main.rs:123-225`). These are `f32` arithmetic and rendering calls.
- The random number generator (`rand::srand`, `rand::gen_range`). The draws are an input sequence.
- `src/lib.rs`. It only builds the window configuration.
- Machine integer widths: `rows * cols` and the indices are unbounded integers. An overflow of `usize` or `isize` for huge grids is not modelled. The slider keeps the grid at 650 by 650 at most.
- `Life`: `rows` and `cols` are fields of the state object. The Rust functions take them as arguments next to the buffers, and every caller passes the grid's own dimensions.
- `Life.ResetCells`: the Rust code clones the seeded vector into `cells` and moves the original into `next_cells`. The model allocates two copies. The resulting state is the same.
- Scenario checks such as a blinker oscillating or a glider moving are not stated. They would be concrete instances of `NextGen`, and the repository has no tests for them.
