# life-rs Game-of-Life engine in Dafny

This project models the engine of `life-rs`, a full-screen Conway's Game of
Life. The engine is the `GameState` of `src/main.rs`. It holds two fixed-size
boards of RGBA cells, `curr` (the visible generation) and `next` (the write
target). It also holds the time of the last generation, `last_update`, and a
redraw flag, `needs_redraw`. A cell is alive when its channel 0 is greater
than 0. Live cells are opaque white and dead cells are opaque black.

- `update` does nothing until `MILLIS_PER_UPDATE` (1000 / 24 = 41 ms) has
  passed since `last_update`. After that it computes every cell of `next` from
  `curr`. The neighbours wrap around the edges (the board is a torus). A cell
  is born on exactly three live neighbours and survives on two or three. Then
  the two boards swap roles, `last_update` is set and a redraw is requested.
- `draw` hands the renderer `curr` as a row-major RGBA byte buffer when a
  redraw is pending, then clears the flag.

The project has three modules, one file each:

- `pixels.dfy` (`Pixels`): the `[u8; 4]` cell colour, `White` and `Black`,
  liveness, and the byte layout of the board (`Flatten`). `Flatten` is the
  safe form of the `transmute` to a flat byte array. It is proved row-major
  and proved to decode back to the board.
- `rules.dfy` (`Rules`): the transition as pure functions on a board of rows:
  the wrapped indices, the eight neighbour positions, the live-neighbour
  count, the rule for one cell and the whole next generation. Lemmas about
  them are here too.
- `engine.dfy` (`Engine`): the source's constants and the `GameState` class.
  Its boards are two `array2<Color>` fields. The class has the constructor,
  the nested row/column update pass, `Update` (rate limit, pass and swap) and
  `Draw`. The per-cell body and the `filter(..).count()` are methods proved
  against the `Rules` functions.

Width and height are any positive numbers, not only the source's 960 × 540.
`SourceBoardBytes` ties the source's dimensions to `GRID_BYTES`. Time is a
natural number of nanoseconds, the resolution of `Instant` and `Duration`.

## Model

| member | source | states |
|---|---|---|
| `Pixels.WhiteIsAliveBlackIsDead` | src/main.rs:19-20 | white is alive and black is dead; a black-or-white cell is alive exactly when it is white |
| `Pixels.FlattenLength` | src/main.rs:15-17 | the buffer of an h-row, w-column board has h * w * 4 bytes |
| `Pixels.FlattenAt` | src/main.rs:108-109 | row-major layout: byte (r * w + c) * 4 + k of the buffer is channel k of cell (r, c) |
| `Pixels.FlattenRoundTrip` | src/main.rs:108-109 | reading the four bytes at a cell's offset back out of the buffer gives that cell |
| `Pixels.FlattenEncodesLiveness` | src/main.rs:108-109 | on a two-valued board a live cell is drawn as the white quadruple and a dead one as the black quadruple |
| `Rules.Pred` | src/main.rs:72-74 | `(i + n - 1) % n` lies in [0, n), is n - 1 for i = 0 and i - 1 otherwise (left and above) |
| `Rules.Succ` | src/main.rs:73-75 | `(i + 1) % n` lies in [0, n), is 0 for i = n - 1 and i + 1 otherwise (right and below) |
| `Rules.PredSuccInverse` | src/main.rs:71-76 | the wrapped predecessor and successor undo each other |
| `Rules.EdgesWrap` | src/main.rs:71-76 | column w - 1 neighbours column 0, row h - 1 neighbours row 0, and corner (0, 0) neighbours (h - 1, w - 1) |
| `Rules.NeighbourPositions` | src/main.rs:71-87 | the eight neighbour coordinates all lie on the board, and the i-th is (r, c) moved by the i-th Moore offset (row offsets -1,-1,-1,0,0,1,1,1; column offsets -1,0,1,-1,1,-1,0,1), each coordinate brought back onto the board by adding or subtracting the side length once |
| `Rules.Neighbours` | src/main.rs:78-87 | the i-th of the eight neighbour cells is the board's cell at (r, c) moved by the i-th Moore offset, wrapped back onto the board, in the source's reading order |
| `Rules.OffsetsOpposite` | src/main.rs:78-87 | the i-th and the (7 - i)-th Moore offsets are opposite, so the neighbour order is symmetric about its middle |
| `Rules.NeighbourSymmetric` | src/main.rs:71-87 | neighbourhood is symmetric: the i-th neighbour of (r, c) has (r, c) as its (7 - i)-th neighbour |
| `Rules.NeighboursDistinct` | src/main.rs:71-87 | on a board at least 3 × 3 the eight neighbours are distinct cells, none of them the cell itself |
| `Rules.NarrowBoardCountsSelf` | src/main.rs:71-89 | on a board one cell wide a cell is its own left and right neighbour, so a live cell counts itself twice |
| `Rules.CountAlive` | src/main.rs:88-89 | the number of live cells in a sequence is at most its length |
| `Rules.CountAliveExtremes` | src/main.rs:88-89 | the count is 0 exactly when no cell is alive, and the full length exactly when all are |
| `Rules.CountAliveAppend` | src/main.rs:88-89 | the count over a concatenation is the sum of the counts |
| `Rules.CountAliveIndices` | src/main.rs:88-89 | the count equals the size of the set of indices holding a live cell |
| `Rules.NeighbourCount` | src/main.rs:78-89 | the live-neighbour count lies in 0..=8 |
| `Rules.NeighbourCountByPositions` | src/main.rs:78-89 | the count is the number of the eight wrapped neighbour coordinates that hold a live cell |
| `Rules.NextCell` | src/main.rs:91-95 | a cell of the next generation is exactly white or exactly black |
| `Rules.NextGeneration` | src/main.rs:69-97 | the next generation has the board's shape, is two-valued, and each cell is the rule applied at that position |
| `Rules.BirthAndSurvival` | src/main.rs:91-95 | a dead cell comes alive iff 3 neighbours live; a live cell stays alive iff 2 or 3 do; a live next cell is white |
| `Rules.CountAliveOfEight` | src/main.rs:78-89 | the count of eight cells is the sum of their eight 0/1 liveness terms |
| `Rules.Blinker` | src/main.rs:91-95 | a horizontal triple at row 5, columns 4-6, with rows and columns 3-7 otherwise dead, becomes a vertical triple at column 5, rows 4-6 |
| `Engine.SourceBoardBytes` | src/main.rs:11-17 | on the source's 960 × 540 board the drawn buffer has exactly `GRID_BYTES` = 2073600 bytes |
| `Engine.CountLive` | src/main.rs:78-89 | the loop that counts live cells returns the count of live cells |
| `Engine.ComputeCell` | src/main.rs:71-95 | the per-cell body (wrapped indices, count, rule, reading the board only) returns the next state of that cell |
| `Engine.GameState.constructor` | src/main.rs:39-55 | `curr` is white where the coin for that cell says so and black elsewhere, `next` is all black, the two are fresh arrays, the redraw flag is set and the start time is recorded |
| `Engine.GameState.ComputeNext` | src/main.rs:67-97 | the nested row/column pass leaves `next` equal to the next generation of `curr` and changes only `next` |
| `Engine.GameState.Update` | src/main.rs:59-104 | before the interval has elapsed nothing changes; after it, the new `curr` is the next generation, the new `next` is the old `curr` array with its contents, `last_update` is the time after the pass and a redraw is requested; the board stays two-valued |
| `Engine.GameState.Draw` | src/main.rs:106-124 | with a redraw pending, returns the flattened `curr` (h * w * 4 bytes); otherwise returns nothing; the flag is false afterwards and the boards stay two-valued |
| `Engine.FrameLoopDiscipline` | src/main.rs:59-129 | a second draw with no generation in between emits nothing; an update exactly one interval after the last generation runs one; an update one nanosecond short of the next interval changes nothing, so that generation is drawn once and `last_update` keeps its time |

## Left out

- The windowing and rendering library calls are not modelled: creating the context and window, the image built from the RGBA bytes, the nearest filter, drawing, presenting, yielding and `main` (src/main.rs:111-126, 132-149). They are foreign I/O. `Draw` stops at the byte buffer handed to the image.
- `Engine.GameState.Draw`: the error path of the image creation is not modelled. In the source, a failure there returns before `needs_redraw` is cleared. The model assumes the image is always created.
- The rayon parallel iteration over rows (src/main.rs:69) is a sequential row loop. Each row writes only its own slots of `next` and reads only `curr`, so the order cannot be observed.
- The random generator in `new` (src/main.rs:41-47) is the parameter `coins`, one flip per cell, given as rows of columns. The row-major order of the flat `iter_mut().flatten()` stream is not modelled.
- `Instant::now()` is replaced by two parameters of `Update`: `now`, the clock at the rate-limit check (src/main.rs:63), and `finishedAt`, the clock read again after the pass (src/main.rs:100). The constructor's clock read is the parameter `startedAt`. `Update` requires `lastUpdate <= now <= finishedAt`, because `Instant` is monotonic.
- The unsafe `transmute` (src/main.rs:109) is the safe function `Flatten`. Its layout is proved rather than assumed.
- The float window dimensions (src/main.rs:140) are not modelled.
- `update` and `draw` always return `Ok(())` apart from the rendering errors above, so the model's methods return no result code.
- Determinism needs no lemma: `NextGeneration` is a function of the board alone.
- `Update` does not report whether a generation ran, because `update` returns `Ok(())` on both paths. The rate limit compares `Duration`s at nanosecond resolution, not whole milliseconds, as the code does.
