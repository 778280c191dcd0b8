# cgol — a verified model of the Game of Life engine and pattern parser

cgol is a terminal implementation of Conway's Game of Life. This project
models its two central pieces in Dafny and proves what they promise.

* **The engine** (`World`, `src/world.rs`) keeps a `width × height` toroidal
  grid of cells in one flat buffer, with cell `(x, y)` at `x + y*width`. It also
  keeps a generation counter and a cached count of live cells. It can be
  built from a buffer, resized by tiling, rendered one row at a time and
  advanced by one Life generation. Advancing first collects every flip from
  the unchanged grid, then applies the flips, then reports each flip.
* **The parser** (`src/parser.rs`) reads a pattern: `O` is a live cell and
  `.` a dead one, one text line per row, after any leading comment lines
  starting with `!`. It computes the pattern's bounding box. It then builds
  a world with a one-cell dead border and marks each `O`, or rejects the
  first other character with its row and column.

The files are laid out as follows.

* `life.dfy` (module `Life`) holds the pure reference definitions:
  * flat addressing;
  * the population of a grid;
  * the toroidal `wrapped` arithmetic;
  * the neighbour count;
  * the Life rule;
  * `Successor`, the whole next generation computed from a snapshot.
* `world.dfy` (module `Engine`) is the imperative engine. It is a class
  `World` whose methods update its fields in place and are proved against
  `Life`.
* `parser.dfy` (module `Parser`) holds the bounding-box computation, as
  functions, and the imperative parse loop.
* `results.dfy` (module `Results`) holds the result and option types.

## Model

| member | source | states |
|---|---|---|
| Life.IdxInjective | src/world.rs:109 | Two in-range cells never share a flat position `h*width + w`. |
| Life.FlatToGrid | src/world.rs:11 | Every flat position of a `width*height` buffer is the position of exactly one cell `(k % width, k / width)`. |
| Life.AtPut | src/world.rs:109 | Setting one bit of the buffer changes that cell and no other. |
| Life.GridExtensionality | src/world.rs:11 | Two buffers of the grid's size that agree on every cell are equal. |
| Life.Population | src/world.rs:36 | The number of live cells of a buffer, the count the source takes by filtering the bits, which is never more than the buffer's length. |
| Life.PopulationUpdate | src/world.rs:105-115 | Flipping one cell moves the number of live cells by exactly one, up for a birth and down for a death. |
| Life.PopulationZero | src/world.rs:36 | A buffer has no live cell exactly when its live count is zero. |
| Life.Wrapped | src/world.rs:143-158 | For `wrap > 0` and `w < wrap`, the result lies in `[0, wrap)` and equals `(w + offs)` under Euclidean modulo. |
| Life.NegativeMod | src/world.rs:151-155 | The Euclidean remainder of `-m` is `wrap - m % wrap`, or 0 when `wrap` divides `m`. This is the reflection `wrapped` performs. |
| Life.ModUnique | src/world.rs:145 | Any remainder in `[0, m)` of a quotient-remainder split is the modulo. |
| Life.SmallMod | src/world.rs:148-149 | A value already in `[0, m)` is its own remainder, so the direct subtraction `w - offs` is the modulo when it stays in range. |
| Life.WrappedExamples | src/world.rs:160-170 | The eight values the unit test expects from `wrapped` on a ring of five. |
| Life.LiveAmong | src/world.rs:129-136 | The number of live wrapped positions over a list of offsets, counted once per offset, is at most the number of offsets. |
| Life.Neighbours | src/world.rs:129-136 | The number of live cells among the eight wrapped neighbour positions, counted once per offset, is at most 8. |
| Life.NextState | src/world.rs:72-92 | A live cell with fewer than two or more than three live neighbours dies, a live cell with two or three survives, a dead cell with exactly three is born, and any other dead cell stays dead. |
| Life.Successor | src/world.rs:84-94 | The next generation has as many cells as the current one. |
| Life.SuccessorAt | src/world.rs:84-94 | Each cell of the next generation is the Life rule applied to that cell and its neighbour count in the snapshot alone. |
| Life.SuccessorRule | src/world.rs:72-94 | A live cell with fewer than two or more than three live neighbours dies. A dead cell with exactly three is born. Every other cell keeps its state. A cell has at most eight live neighbours. |
| Life.LiveAmongDead | src/world.rs:129-136 | On a grid without live cells, no neighbour is counted. |
| Life.DeadGridIsStill | src/world.rs:84-94 | A grid without live cells is its own next generation. |
| Engine.FlipsApplied | src/world.rs:95-98 | Suppose a grid has every flip of a complete flip list applied, and every other cell holds its old or its next state. Then it is exactly the next generation. |
| Engine.CountLive | src/world.rs:36 | A scan of the buffer counts exactly its live cells. |
| Engine.TileCells | src/world.rs:50-58 | New cell `(c, r)` of the resized buffer is live exactly when some live old cell `(c', r')` has `c' % new_width == c` and `r' % new_height == r`. The new buffer has `new_width*new_height` cells. |
| Engine.TiledStep | src/world.rs:51-57 | Visiting old cell `(w, h)` adds exactly that cell's contribution to the tiling built so far. |
| Engine.TiledRowEnd | src/world.rs:51-52 | Finishing a row of the old grid is the same as starting the next row. |
| Engine.World.Empty | src/parser.rs:85 | An all-dead grid of the given size, at generation 0, with live count 0. |
| Engine.World.FromCells | src/world.rs:32-38 | A world over the given buffer, at generation 0, whose live count matches its cells. |
| Engine.World.New | src/world.rs:26-40 | Fails with `"width*height != cells"` exactly when the buffer's length is not `width*height`. On success the world is fresh, at generation 0, over the given cells, and `alive` is the number of live cells. |
| Engine.World.IsAlive | src/world.rs:117-122 | The state of cell `(w, h)` is the bit at flat position `h*width + w`, which lies inside the buffer. |
| Engine.World.SetAlive | src/world.rs:105-115 | Exactly cell `(w, h)` takes the new state and the live count moves by one. The count still equals the number of live cells, and the dimensions and generation are unchanged. |
| Engine.World.CountLivingNeighbours | src/world.rs:124-140 | Returns the cell's own state and the number of live cells among its eight wrapped neighbours, counted once per offset, which is at most 8. |
| Engine.World.RenderLine | src/world.rs:65-70 | Exactly `width` characters. Character `i` is `#` when cell `(i, line)` is live and `.` otherwise. |
| Engine.World.ExpandTo | src/world.rs:46-63 | Unchanged dimensions leave cells and count as they are. Otherwise new cell `(c, r)` is live exactly when some old live cell tiles onto it. The live count matches the new cells and the generation is untouched. |
| Engine.World.AdvanceGeneration | src/world.rs:84-103 | The new cells are the `Successor` of the old ones, the live count still matches, the generation goes up by one and the dimensions are unchanged. The returned flips are in strict row-major order, each is a genuine flip carrying its new state, and every cell that changed is among them. |
| Engine.World.CollectChanges | src/world.rs:85-94 | Without changing the grid, returns exactly the cells the Life rule flips, in row-major order (h outer, w inner), each with its new state. |
| Engine.World.CollectRow | src/world.rs:87-93 | Given exactly the flips of the rows above row `h`, in order, it returns exactly the flips of the rows up to and including `h`, in order. |
| Engine.FlipOf | src/world.rs:88-92 | The change recorded for one cell: a single entry with the cell's new state when the Life rule flips it, and nothing otherwise. |
| Engine.ScanStep | src/world.rs:87-93 | Visiting one more cell in row-major order and appending its flip, if any, keeps the list exactly the ordered flips of the cells visited. |
| Engine.ScanStepOrder | src/world.rs:86-87 | Appending the flip of the cell being visited keeps the list in strict row-major order. |
| Engine.ScanStepEntries | src/world.rs:88-90 | After the append, every entry still names an in-range cell that the Life rule flips, carrying its new state. |
| Engine.ScanStepComplete | src/world.rs:88-90 | After the append, every flipping cell visited so far appears in the list. |
| Engine.ScanRowEnd | src/world.rs:86-87 | Having visited all of row `h` is having visited every cell before the start of row `h + 1`. |
| Engine.ApplyStep | src/world.rs:95-98 | Applying the next recorded flip is a genuine state change of that cell. Afterwards the applied cells hold their new state, the cells still to be applied hold their snapshot state, and every cell holds its old or its next state. |
| Parser.HeaderLength | src/parser.rs:47 | Only the leading lines that start with `!` are skipped. The first line after them is not a comment. |
| Parser.BodyIsSuffix | src/parser.rs:47 | The pattern rows are a suffix of the text. Every line before them is a comment, and their first line is not one. |
| Parser.LastO | src/parser.rs:50-61 | One more than the index of the last `O` of a line, or 0 when it has none. |
| Parser.FoldDimension | src/parser.rs:62-66 | The fold's width bounds every row's `LastO` and is the start value or one of them. Its height is the number of rows. |
| Parser.CellsDimension | src/parser.rs:45-67 | The height is the number of lines after the header. The width is the largest `1 + index of the last O` over them, or 0, so every `O` lies in a column below the width. |
| Parser.CountO | src/parser.rs:93 | The number of `O`s of one row, which is the number of `set_alive` calls made for it. It is at most the row's length, and zero exactly when the row has no `O`. |
| Parser.TotalOZero | src/parser.rs:90-94 | The rows' total count of `O`s, which the parsed world's live count equals, is zero exactly when no row holds an `O`. |
| Parser.CellsDimensionExamples | src/parser.rs:69-80 | `(0, 0)` for the empty text and for a lone comment. `(7, 5)` for the documented 7x5 example. |
| Parser.CellsParse | src/parser.rs:82-104 | Returns a fresh world, or fails exactly when a line after the header holds a character other than `O` or `.`. The error names the first such character in reading order, as row `line_i + 1` and column `col_i + 1` with reason `"Invalid character: c"`. On success the world is `(dim.0 + 2) × (dim.1 + 2)` at generation 0. Cell `(x, y)` is live exactly when the pattern has an `O` at row `y - 1`, column `x - 1`, so the border stays dead, and the live count equals the number of `O`s. |
| Parser.ParseRow | src/parser.rs:91-101 | Marks every `O` of one row at `(col_i + 1, line_i + 1)`, or stops at the first invalid character of the row and returns its column. |
| Parser.Error | src/parser.rs:29-33 | A parse failure carries a 1-based row, a 1-based column and a reason. |
| Parser.LateCommentIsInvalid | src/parser.rs:47 | A `!` line after the first pattern row is not skipped but holds an invalid character. |

## Left out

- `load_from_file` in `src/parser.rs` opens and reads a file. That is I/O, so the parser's input is modelled as the text's sequence of lines. The way Rust's `lines()` splits on `\n`/`\r\n` and drops a trailing newline is not modelled.
- `src/ui.rs` and `src/main.rs` are terminal I/O, an external terminal library and command-line handling. They are not part of this model.
- The `Debug` impl of `World` and the formatting of `Error` produce text only.
- The `trace!` logging is left out.
- `BitVec` is modelled as a `seq<bool>` that is reassigned on every `set`. Its capacity and storage are not modelled.
- `usize` arithmetic is modelled on unbounded naturals. An overflow of `width*height`, of the live count or of the generation counter is not modelled.
- The accessors `alive`, `height` and `generation` (`src/world.rs:42-44`) are the public fields `alive`, `height` and `generation` of `Engine.World`.
- `World::empty` is called by the parser but is not defined in `src/world.rs`. It is modelled as `Engine.World.Empty`: all cells dead, generation 0, live count 0.
- The callback of `advance_generation` is modelled as the returned list of flips. That list is produced after every cell has been updated and the generation incremented, which is when the source calls the callback for each flip, in the same order.
- Engine.World.SetAlive: requires that the cell actually changes state. The source only adjusts the count and would underflow or drift on a non-flip. Both callers, the flip list and the parser on a fresh all-dead grid with distinct positions, meet the requirement.
- Engine.World.ExpandTo: requires positive new dimensions unless they equal the current ones. A zero dimension makes the source's `%` at `src/world.rs:54` divide by zero when the grid has a live cell. The requirement also excludes a resize to a zero dimension of a grid with no live cell, which the source completes without dividing.
- Life.Wrapped: the Euclidean-modulo property is proved only for `w < wrap`, which every caller satisfies. For `w >= wrap` with a negative offset no larger than `w`, the source returns `w - |offs|` unreduced, and the model does the same. A larger negative offset is reduced, as in `wrapped(5, -7, 5) == 3`.
- Parser.CellsParse: the error row counts from the first line after the header, not from the start of the text. This is what the source does, and its own comment at `src/parser.rs:96` acknowledges it.
- `render_line` writes into a formatter. The model returns the written characters as a string instead.
