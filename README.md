# Game of Life world state, in Dafny

This project models the `State` class of a small Conway's Game of Life program
(`src/main.py`). A `State` is a square world of `size * size` cells kept in one
dense bit buffer. Cell (x, y) lives at position `x * size + y`, so x picks the
row and y the column. The class offers per-cell read and write, row-major
iteration over all cells, a count of the live Moore neighbours of a cell (no
wrap-around at the edges), and `apply_rule_set`. That last operation builds a
brand-new `State` in which every cell is what an injected rule `int -> bool`
makes of that cell's live-neighbour count in the old state.

The model has three modules:

- `Grid` (`grid.dfy`) is the value-level meaning. It covers the row-major
  index and its bounds and injectivity, and a cell read from a
  `seq<bool>`. It defines the neighbour count as a filter over the eight Moore
  steps, and one generation `Step`. The lemmas state what these promise: the
  count is the size of the set of live on-grid neighbours; it is at most 3 at
  a corner, 5 on an edge and 8 anywhere; it ignores the cell itself and every
  non-neighbour. Each next cell is the rule applied to its old count.
- `Life` (`state.dfy`) is the class `State` itself. It holds `size` and an
  `array<bool>` buffer, and each method is proved against the `Grid`
  functions. `Set` writes one element in place. `Iterate` and
  `ApplyRuleSet` are the source's nested `for i` / `for j` loops, with their
  invariants. `TotalAliveNeighbours` is the eight guarded increments.
- `AsWritten` (`as_written.dfy`) is the neighbour count with its upper-edge
  guards exactly as written (`x < self.size`, `y < self.size`). It shows the
  two defects listed under Findings. The rest of the model uses the intended
  guard `< size - 1`.

The rule receives only the neighbour count, not the cell's
current state, so a cell's own state never affects its next state
(`Grid.StepIgnoresOwnState`). `apply_rule_set` allocates a fresh `State` on
every call: there is no double buffer and no role swap. Coordinates are not
checked, so they are preconditions here and not error results.

## Model

| member | source | states |
|---|---|---|
| `Grid.Index` | src/main.py:39-40 | the position `x * size + y` of an on-grid cell lies in `[0, size * size)` |
| `Grid.IndexInjective` | src/main.py:39-40 | distinct on-grid cells have distinct buffer positions |
| `Grid.IndexDivMod` | src/main.py:42-45 | every position k below `size * size` is the position of the on-grid cell `(k / size, k % size)`, so the k-th value of a row-major walk (x outer, y inner) is that cell |
| `Grid.IndexCoords` | src/main.py:39-40 | a cell's coordinates are recovered from its position by division and remainder |
| `Grid.Row` | src/main.py:36-40 | row x of the buffer holds exactly `size` cells |
| `Grid.CellInRow` | src/main.py:36-40 | cell (x, y) is entry y of row x, the run of `size` positions starting at `x * size` |
| `Grid.SetThenGet` | src/main.py:39-40 | after writing v at cell (x, y), reading (x, y) gives v and reading any other on-grid cell gives its old value |
| `Grid.MooreOffsets` | src/main.py:49-72 | the eight steps visited are pairwise distinct and are exactly the (dx, dy) with dx, dy in {-1, 0, 1}, not both zero |
| `Grid.CountLive` | src/main.py:47-74 | counting live cells over a list of steps gives at most one per step |
| `Grid.NeighbourCount` | src/main.py:47-74 | the live-neighbour count lies in 0..8 |
| `Grid.NeighbourCountUnrolled` | src/main.py:49-72 | the count is the sum of eight guarded terms, one per neighbour, each 1 exactly when that neighbour is on the grid and live |
| `Grid.CandidateCountBySpan` | src/main.py:49-72 | the number of on-grid neighbours is (rows in reach) * (columns in reach) - 1: 3 at a corner, 5 on an edge, 8 inside, 0 on a one-cell grid |
| `Grid.CountLiveAtMostInGrid` | src/main.py:49-72 | only steps landing on the grid can be counted |
| `Grid.NeighbourCountAtMostCandidates` | src/main.py:49-72 | the count is at most the number of neighbours that exist on the grid |
| `Grid.CornerAtMostThree` | src/main.py:49-72 | a corner cell has at most 3 live neighbours |
| `Grid.EdgeAtMostFive` | src/main.py:49-72 | a cell on an edge has at most 5 live neighbours |
| `Grid.CountLiveAgree` | src/main.py:49-72 | two grids that agree on every stepped-to cell give the same count |
| `Grid.NeighbourCountLocal` | src/main.py:49-72 | the count of (x, y) depends only on its eight neighbours |
| `Grid.NeighbourCountIgnoresOthers` | src/main.py:49-72 | writing any cell that is not a neighbour of (x, y) leaves the count of (x, y) unchanged |
| `Grid.NeighbourCountExcludesSelf` | src/main.py:49-72 | the count of (x, y) is the same whatever (x, y) itself holds |
| `Grid.CountLiveIsCardinality` | src/main.py:49-72 | over pairwise distinct steps, the count is the number of distinct live cells reached |
| `Grid.NeighbourCountIsLiveNeighbours` | src/main.py:47-74 | the count equals the number of live cells (x + dx, y + dy), dx, dy in {-1, 0, 1}, not both zero, both coordinates in `[0, size)` |
| `Grid.Step` | src/main.py:84-88 | the next generation has `size * size` cells |
| `Grid.StepAt` | src/main.py:85-87 | next cell (x, y) is the rule applied to the live-neighbour count of (x, y) in the pre-step grid |
| `Grid.StepEqualCounts` | src/main.py:85-87 | two cells with equal pre-step counts get equal next states |
| `Grid.StepLocal` | src/main.py:85-87 | a cell's next state depends only on its eight neighbours in the pre-step grid |
| `Grid.StepIgnoresOwnState` | src/main.py:87 | a cell's own pre-step state does not influence its next state, because the rule receives only the count |
| `Life.State.constructor` | src/main.py:31-34 | a new state of side n has n * n cells, every one dead |
| `Life.State.Get` | src/main.py:36-37 | reads cell (x, y) at position `x * size + y` of the buffer |
| `Life.State.Set` | src/main.py:39-40 | the buffer is the old one with position `x * size + y` replaced by the value; (x, y) now reads the value, every other cell reads as before, size is unchanged |
| `Life.State.Iterate` | src/main.py:42-45 | yields `size * size` values, the one at position `x * size + y` being cell (x, y), i.e. exactly the buffer in row-major order |
| `Life.State.TotalAliveNeighbours` | src/main.py:47-74 | the eight guarded reads, with `size - 1` as the upper guard, return the live-neighbour count, which is at most 8 |
| `Life.State.ApplyRuleSet` | src/main.py:76-88 | returns a fresh state of the same size whose cells are `Step` of this state's cells under the rule; this state's buffer is unchanged |
| `AsWritten.CountRead` | src/main.py:49-74 | performing guarded reads in order counts at most one per read, or fails |
| `AsWritten.CountReadFails` | src/main.py:49-74 | the guarded reads fail exactly when some read whose guard holds is outside the buffer |
| `AsWritten.GuardedReads` | src/main.py:49-72 | a cell makes exactly eight guarded reads, one per Moore step, in the order of the source; what each guard and position is, is stated by `GuardedReadsAt` |
| `AsWritten.GuardedReadsAt` | src/main.py:49-72 | read i goes to the neighbour reached by the i-th Moore step; its literal guard holds exactly when both coordinates lie in `[0, size]`, one past the last row and column, and it reads position `a * size + b` |
| `AsWritten.Count` | src/main.py:47-74 | the literal-guard count is at most 8 when it returns; it is None exactly when a read whose guard holds is outside the buffer (`CountReadFails`) and equals the intended count off the last row and column (`AgreesAwayFromUpperEdges`) |
| `AsWritten.LastRowReadsPastEnd` | src/main.py:55-72 | with the literal guard `x < self.size`, every cell of the last row reads past the end of the buffer and raises an index error |
| `AsWritten.LastColumnReadsNextRow` | src/main.py:64-72 | with the literal guard `y < self.size`, a cell of the last column reads cell (x + 1, 0), which is not its neighbour once size is 3 or more |
| `AsWritten.LastColumnMiscounts` | src/main.py:64-72 | on a 3x3 grid with only (1, 0) live, the literal guards count 1 for cell (0, 2), whose true count is 0 |
| `AsWritten.AgreesAwayFromUpperEdges` | src/main.py:49-72 | off the last row and the last column the literal guards give exactly the intended count |

## Findings

| source | as written | input that shows it | evidently intended | confidence | as-written member | corrected member |
|---|---|---|---|---|---|---|
| src/main.py:55-72 | the reads of row x + 1 are guarded by `x < self.size` | any state, cell (size - 1, y): the read of (x + 1, y) is at position size * size + y, past the end of the buffer; `apply_rule_set` visits that row, so it raises on every call with size >= 1 | `x < self.size - 1` | high; not executed | `AsWritten.LastRowReadsPastEnd` | `Life.State.TotalAliveNeighbours` |
| src/main.py:64-72 | the reads of column y + 1 are guarded by `y < self.size` | side 3, only (1, 0) live, cell (0, 2): the read of (0, 3) lands on (1, 0), so the count is 1 where it should be 0 | `y < self.size - 1` | high; not executed | `AsWritten.LastColumnMiscounts` | `Grid.NeighbourCountIsLiveNeighbours` |

## Left out

- `__getitem__` as written (src/main.py:36-37) declares `*key`, so `self[x, y]` packs the pair into a one-element tuple and `key[1]` raises on every read. The model reads a cell with the index `__setitem__` uses, which is what the rest of the class relies on.
- The `bitarray` buffer is an `array<bool>`. Its `setall(False)` is the array's all-false initialiser in the constructor; the library's internals are not modelled.
- Coordinates outside `[0, size)` are excluded by preconditions. Python's negative indexing and the errors of an unchecked read are not modelled, except in `AsWritten`, where a read past the end yields `None`.
- `Life.State.Iterate`: a Python generator yields its values lazily; the model returns them all at once as a sequence, in the same order.
- The rule is a pure total function `int -> bool`. A Python callable with side effects, or one that raises, is not modelled.
- `DEFAULT_WORLD_SIZE` and `MAX_WORLD_SIZE` (src/main.py:17-18) are not modelled; the maximum is never enforced by the code.
- The `World` widget and `render`, `cell_size`, the `GameOfLife` app, `Clock.schedule_interval` and the `__main__` entry point (src/main.py:91-157) are drawing, floating-point layout and event-loop plumbing.
- A double-buffered engine with role swapping, a snapshot file loader, named error kinds and a rule that also receives the cell's current state do not exist in `src/main.py` and are not modelled.
