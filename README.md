# GridMap: a verified model of a Game of Life simulation engine

This project models the simulation core of a Game of Life engine (`GridMap`). The
engine keeps a grid of integer cells, in which any positive value is alive. Worker
threads split the grid's columns between them. Each worker reads the current
generation (`gridMap`) and writes the next one (`newGridMap`), but only in its own
columns, and then sets its completion flag. When every flag is set, a coordinator
rotates the buffers: the next generation becomes current, and the former current
buffer becomes both the scratch buffer (`oldGridMap`) and the new write buffer. It
then sets a dirty marker and clears every flag. The renderer polls the dirty marker
once per frame and takes the current grid when the marker is set.

Files:

- `wrappers.dfy`: the `Option` and `Result` types used for the error paths.
- `life_rules.dfy` (module `LifeRules`): the neighbour count and the Life rule as
  functions over an `array2<int>` grid. `MooreCount` is an independent reference
  count: the live cells of the 3x3 window around a cell, minus the centre, where
  cells outside the grid count as dead.
- `partition.dfy` (module `Partition`): the column ranges handed to the workers,
  computed by a loop. The lemmas say these ranges tile `[0, width)`.
- `grid_map.dfy` (module `Simulation`): the in-place column pass `UpdateColumns`,
  and the class `GridMap` with the three buffer references, the flag array and the
  dirty bit. Each thread's loop body is one method. `Round` runs one generation as
  a sequence of these steps.

The central result is `Simulation.GridMap.Round`. Each worker reads `gridMap` and
writes only its own columns of `newGridMap`. The ranges tile the width, so polling
the workers in any order yields the same grid as one pass over `[0, width)`. That
grid is the next generation of the former `gridMap` in every cell (compare
`UpdateColumns` with `iMin = 0` and `iMax = width`). The rotation then makes this
grid the current one. Dafny checks every array access, so the neighbour count
never reads a cell outside the grid.

## Model

| member | source | states |
|---|---|---|
| `LifeRules.MooreCountExpand` | Assets/Scripts/Behaviours/GridMap.cs:219-256 | the 3x3-window reference count equals the sum of the eight neighbour terms, each 0 outside the grid |
| `LifeRules.CountAliveNeighbours` | Assets/Scripts/Behaviours/GridMap.cs:219-256 | the count reads only in-bounds neighbours, lies in [0, 8] and equals the number of live cells in the 3x3 window around (i, j), excluding the centre and treating outside cells as dead |
| `LifeRules.NextState` | Assets/Scripts/Behaviours/GridMap.cs:142-163 | the value written is exactly 0 or 1; a live (positive) cell survives iff it has 2 or 3 live neighbours; a dead cell is born iff it has exactly 3 |
| `LifeRules.NextCell` | Assets/Scripts/Behaviours/GridMap.cs:142-163 | a cell's next value is 0 or 1 and is 1 iff the Life rule holds for its value and its reference neighbour count |
| `LifeRules.SingleCellDies` | Assets/Scripts/Behaviours/GridMap.cs:142-154 | on a 1x1 grid the only cell is dead in the next generation, whatever it holds |
| `Partition.PlanColumns` | Assets/Scripts/Behaviours/GridMap.cs:41-51 | fails with a division by zero iff there are no workers; otherwise it returns one range per worker, and the ranges tile [0, width): the first n-1 ranges have width / n columns and the last takes width / n + width % n, also when width < n |
| `Partition.PlanIsTiling` | Assets/Scripts/Behaviours/GridMap.cs:45-50 | the ranges [k*w, (k+1)*w), with the last one ending at the width, tile [0, width) with the balanced sizes |
| `Partition.BalancedTilingStart` | Assets/Scripts/Behaviours/GridMap.cs:45-50 | conversely, any balanced tiling is the engine's formula: range k starts at k * (width / n) and, except for the last, ends at (k + 1) * (width / n) |
| `Partition.TilesOrdered` | Assets/Scripts/Behaviours/GridMap.cs:43-51 | the ranges are ordered: an earlier range ends no later than a later one starts |
| `Partition.TilesWithin` | Assets/Scripts/Behaviours/GridMap.cs:43-51 | every range lies inside [0, width), so no worker indexes outside the grid |
| `Partition.TilesCover` | Assets/Scripts/Behaviours/GridMap.cs:43-51 | a column belongs to some range iff it lies in [0, width) |
| `Partition.TilesDisjoint` | Assets/Scripts/Behaviours/GridMap.cs:43-51 | no column belongs to two ranges, so no cell is written by two workers |
| `Partition.AnyOrderCovers` | Assets/Scripts/Behaviours/GridMap.cs:43-51 | a corollary of TilesCover: taken in any order and with repeats, the ranges together cover exactly [0, width) |
| `Simulation.UpdateColumns` | Assets/Scripts/Behaviours/GridMap.cs:138-165 | for every column in [iMin, iMax) and every row, newGridMap holds the next state of gridMap's cell, which is 0 or 1; every other cell of newGridMap is unchanged, and gridMap is never written |
| `Simulation.GridMap.constructor` | Assets/Scripts/Behaviours/GridMap.cs:74-76 | the seed grid becomes gridMap; the next and scratch buffers are fresh arrays of the same size; not dirty |
| `Simulation.GridMap.StartThreads` | Assets/Scripts/Behaviours/GridMap.cs:33-51 | a negative worker count fails on the first array allocation (the thread array when numThreads <= -2, the flag array when it is -1) and a zero count on the division; otherwise every flag is clear and the stored ranges are the balanced tiling of the width; the buffers and the dirty bit are untouched |
| `Simulation.GridMap.UpdateGridStep` | Assets/Scripts/Behaviours/GridMap.cs:117-172 | a worker whose flag is still set changes nothing; otherwise it writes the next generation into exactly its own columns of newGridMap and sets only its own flag |
| `Simulation.GridMap.AllThreadsDone` | Assets/Scripts/Behaviours/GridMap.cs:181-192 | true iff every worker's flag is set |
| `Simulation.GridMap.GridMapUpdaterStep` | Assets/Scripts/Behaviours/GridMap.cs:177-214 | it rotates iff every flag was set. After a rotation, gridMap is the former newGridMap, newGridMap and oldGridMap are both the former gridMap, the grid is dirty and every flag is clear. Without a rotation nothing changes |
| `Simulation.GridMap.Update` | Assets/Scripts/Behaviours/GridMap.cs:94-106 | when dirty, it delivers the current gridMap once and clears the marker; when not dirty, it delivers nothing and changes nothing |
| `Simulation.GridMap.Round` | Assets/Scripts/Behaviours/GridMap.cs:108-216 | the round starts with every flag clear and polls the workers in any order, each at least once, then runs the coordinator. Afterwards the buffers are rotated, the grid is dirty and every flag is clear. The former gridMap is unchanged and is now newGridMap, and gridMap holds its next generation in every cell |

## Left out

- Threads, locks, `Thread.Sleep`, the polling loops and the `running` shutdown flag are not modelled. Each loop body is one method, and `Round` fixes one sequential interleaving per generation. Interleavings in which a worker runs while the coordinator is rotating are not covered.
- Loading the seed grid from a texture is not modelled (`GetInitialMap`: asset loading and floating-point colour thresholds). The constructor takes the seed grid as a given array.
- The calls to the mesh events (`EventManager.CreateMesh` and `EventManager.UpdateMesh`) are not modelled. `Update` returns the grid it would hand to the renderer.
- Rendering, camera sizing and the cell-data holder are not part of this model (`MeshController.cs`, `CameraController.cs`, `GridCellData.cs`, `EventManager.cs`).
- Simulation.GridMap.StartThreads: the array of thread objects (`new Thread[numThreads + 1]`) is not modelled. On failure the method returns an error value instead of throwing, and the object keeps its other fields. The model's worker count is an unbounded integer, so it does not capture that `numThreads + 1` wraps around for the largest 32-bit count, which makes the thread-array allocation fail there while the model succeeds.
- The engine starts with all flags clear, and only the coordinator clears them. `Round` requires that start state instead of proving it as an invariant over the whole run.
