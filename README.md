# Tiled parallel renderer: work distribution

This project models the work-distribution core of a small C program
(`src/main00.c`). The program splits a `Width x Height` image into square
tiles and lets a pool of worker threads render it. Each worker takes the next
tile from a shared queue and fills that tile's pixels in a shared image
buffer. The model covers:

- the tile partition `WorkQueueInit` computes: the tile side, the tile counts
  and the row-major tile array;
- the locked claim that hands out the tile under the cursor `At`, or nothing
  once `At` reaches `OnePastLast`;
- the nested loops of `RenderTile`: each clamps its tile to the image and
  stores one value per pixel;
- the drain loop each worker runs;
- the linear search that maps a thread handle to a worker index.

Three modules:

- `Arith` (`arith.dfy`): unique quotient and remainder, and row-major cell
  indexing (`y * Width + x`).
- `Tiling` (`tiling.dfy`): the partition as pure functions, with lemmas.
  Every tile is well formed. Distinct tiles are disjoint. Every pixel of the
  image lies in exactly one tile. Under the width and height bound every
  value fits its C type.
- `WorkQueues` (`work_queue.dfy`): the `work_queue` struct as the class
  `WorkQueue`. It holds the tile array, the cursor, the image buffer and the
  thread-handle table.
  - Ghost state records which worker claimed each tile and how often each
    image cell has been stored to.
  - The invariant `Painted` says: a cell has been written once, with its
    claimer's colour, exactly when its tile has been claimed; otherwise it is
    untouched.
  - Draining the queue therefore writes every cell exactly once.

The mutex makes each claim atomic. Rendering happens outside the lock, but
different tiles touch disjoint cells (`Tiling.Disjoint`), so no two renders
interfere. A run of the pool is therefore modelled as a sequence of atomic
claim-and-render steps by any workers (`RunSchedule`). The function
`Outcomes` and its lemmas say what such a run hands out: tiles
`0..TileCount-1` in increasing order, each exactly once, then nothing.

The pixel colour is a `Shader` function of the column, the row and the
worker index. The constructor receives it. The source's floating-point
formula is not modelled.

Two details of the code shape the partition:
- The tile count per axis is `extent / side + 1`, not the ceiling of
  `extent / side`. When the side divides the extent, this adds a row or
  column of tiles that lies wholly outside the image. Rendering clamps them
  to nothing.
- Both tile sides come from the width (`TileHeight` is computed from `Width`
  too), so tiles are square whatever the height.

## Model

| member | source | states |
|---|---|---|
| `Tiling.Min` | src/main00.c:8 | the result is at most either argument and equal to one of them |
| `Tiling.Max` | src/main00.c:9 | the result is at least either argument and equal to one of them |
| `Tiling.TileSide` | src/main00.c:98-99 | the side is at least 10, at least `Width / Max(1, ThreadCount)`, and equal to one of the two; it is defined even for `ThreadCount == 0` |
| `Tiling.GridFor` | src/main00.c:98-99 | the grid has positive tile sides, and `TileHeight == TileWidth` because both are computed from `Width` |
| `Tiling.TilesAcross` | src/main00.c:100-101 | `extent / side + 1` is at least 1 and is the least count whose tiles reach strictly past `extent`: `n * side > extent` and `(n - 1) * side <= extent` |
| `Tiling.CountX` | src/main00.c:100 | `TileCountX` is at least 1, its columns reach strictly past `Width`, and one column fewer does not |
| `Tiling.CountY` | src/main00.c:101 | `TileCountY` is at least 1, its rows reach strictly past `Height`, and one row fewer does not |
| `Tiling.TileCount` | src/main00.c:102 | `TileCount = TileCountX * TileCountY` is at least 1 and at least the number of columns and of rows |
| `Tiling.Spans` | src/main00.c:100-102 | `TileCountX * TileWidth > Width`, `TileCountY * TileHeight > Height`, and `TileCount == (Width/TileWidth + 1) * (Height/TileHeight + 1)` |
| `Tiling.TileAt` | src/main00.c:113-118 | every tile the formula gives is well formed: `Minx < Maxx` and `Miny < Maxy` |
| `Tiling.Partition` | src/main00.c:111-119 | the tile list has exactly `TileCount` entries |
| `Tiling.Covers` | src/main00.c:100-119 | every pixel `(x, y)` with `x < Width` and `y < Height` lies in tile `(y / TileHeight) * TileCountX + x / TileWidth`, and that index is below `TileCount` |
| `Tiling.OnlyTile` | src/main00.c:111-119 | a tile that contains `(x, y)` is that tile, so no other tile index holds the pixel |
| `Tiling.Disjoint` | src/main00.c:111-119 | the rectangles of two distinct tile indices share no pixel |
| `Tiling.ExactlyOneTile` | src/main00.c:100-119 | each image pixel lies in the clamped region of exactly one tile of the partition |
| `Tiling.NoOverflow` | src/main00.c:98-118 | with width and height at most 0xFFFF, the image size and the tile count fit in `uint32_t` and every tile coordinate fits in `int32_t`, so the C arithmetic computes the exact values |
| `Tiling.SideFits` | src/main00.c:98-99 | for a width of at most 0xFFFF the tile side is at most 0xFFFF, whatever the thread count |
| `Tiling.GridBounds` | src/main00.c:100-118 | for tile sides from 10 to 0xFFFF, the tile count and every tile coordinate stay below the `uint32_t` and `int32_t` limits |
| `Tiling.TileEnds` | src/main00.c:113-118 | every tile of the partition ends at most one tile side past the image on each axis |
| `Tiling.Scenarios` | src/main00.c:155-162 | 200 x 200 with 4 threads gives side 50 and 25 tiles; with 0 threads, side 200 and 4 tiles |
| `Arith.CellIndex` | src/main00.c:60 | the store index `y * Width + x` is below `Width * Height` for an in-image pixel, and `%` and `/` by `Width` give back `x` and `y` |
| `WorkQueues.FillTiles` | src/main00.c:111-119 | the fill loop leaves entry `i` of the tile array equal to tile `i` of the row-major partition |
| `WorkQueues.WorkQueue.constructor` | src/main00.c:95-121 | the tile sides, the tile count and the tile array of the partition; `At` at the first tile; `OnePastLast == TileCount`; a handle table of `ThreadCount` slots; nothing claimed and nothing written yet |
| `WorkQueues.WorkQueue.Claim` | src/main00.c:43-47 | if `At < OnePastLast`, the claim returns tile `At` and advances `At` by exactly one; otherwise it returns nothing and leaves `At` alone; the tile array is unchanged |
| `WorkQueues.WorkQueue.FillTile` | src/main00.c:52-62 | every cell `y * Width + x` with `(x, y)` in the tile clamped to `[0,Width) x [0,Height)` gets the worker's colour and one more write; every other cell and its write count are unchanged |
| `WorkQueues.WorkQueue.FillRow` | src/main00.c:54-61 | the inner loop does the same for one row of the tile |
| `WorkQueues.WorkQueue.RenderTile` | src/main00.c:41-65 | returns true exactly when a tile was left; then the cursor moves by one and the claimer is logged; `Painted` is preserved (each cell written once, exactly when its tile is claimed) |
| `WorkQueues.WorkQueue.Drain` | src/main00.c:92 | the loop ends with the cursor at `TileCount`; every remaining tile goes to this worker; every image cell has been written exactly once; on a fresh queue every cell has this worker's colour |
| `WorkQueues.WorkQueue.RunSchedule` | src/main00.c:41-50 | any sequence of claim-and-render steps by any workers hands out `Outcomes(At, TileCount, n)`; the cursor ends at `Min(At + n, TileCount)`; the claimers are the first workers of the schedule; `Painted` is preserved |
| `WorkQueues.WorkQueue.Complete` | src/main00.c:52-62 | once the cursor has reached the end, every image cell has been written exactly once, with the colour of the worker that claimed its tile |
| `WorkQueues.Outcomes` | src/main00.c:44 | a run of `n` claims yields exactly `n` outcomes |
| `WorkQueues.OutcomeAt` | src/main00.c:44 | claim `j` of a run gets tile `At + j` if that tile exists, and nothing otherwise |
| `WorkQueues.OutcomeCount` | src/main00.c:44 | a run hands out tile `i` once if `At <= i < TileCount` and the run reaches it, and never otherwise |
| `WorkQueues.DrainExactlyOnce` | src/main00.c:44-47 | from a fresh queue, at least `TileCount` claims by any workers hand out tiles `0..TileCount-1` in order, each exactly once, and every later claim fails |
| `WorkQueues.WorkQueue.RecordThreadHandle` | src/main00.c:138 | storing a thread's handle changes slot `index` of the handle table and nothing else |
| `WorkQueues.WorkQueue.WorkerIndexFromThreadHandle` | src/main00.c:66-78 | returns the smallest `i < ThreadCount` with `ThreadHandles[i] == ThreadId`, or `0xFFFFFFFF` exactly when no slot matches |

## Left out

- Threads, mutexes and the condition variable are not modelled: `pthread_create`, `pthread_join`, the `ShouldBegin` start gate in `WorkProc`, `WorkBegin`, `WorkSpawnWorkers` (apart from its handle store), `WorkWaitForWorkers`. Their point is concurrency. The locked claim is modelled as one atomic step.
- Rendering outside the lock is modelled as part of the same atomic step. This is sound because renders of different tiles touch disjoint cells (`Tiling.Disjoint`), but the model does not show interleaved partial fills.
- The floating-point colour formula (`u`, `v`, `sqrt`) is not modelled. It is abstracted as the `Shader` function.
- `printf` logging, the image dump in `main` and `sysconf` are not modelled; they are I/O. The thread count is a constructor parameter. The tile index the log line prints is what `RunSchedule` returns.
- `malloc` and its failure are not modelled. The image is any array of `Width * Height` cells, and the tile array and handle table are allocated by the constructor.
- Fixed-width wrap-around is not modelled. Width and height are bounded by 0xFFFF (`Tiling.Fits`). Under that bound no tile side, tile count, tile coordinate or image size wraps (`Tiling.NoOverflow`, `Tiling.SideFits`), and no store index does (`Arith.CellIndex` keeps it below the image size). The `'a' + ThreadId` value (src/main00.c:49, 60, 84) can wrap when the lookup misses; it lies inside the abstracted colour and the logging, and is not modelled.
- The handle table `WorkQueueInit` allocates holds indeterminate values in C. The model leaves its contents unspecified too: the constructor promises only its length, and a lookup before every slot is stored may match any slot.
- A worker can look up its handle before `pthread_create` has stored it. That is a race, and it is not modelled. The lookup works on the table as it stands when it is called.
