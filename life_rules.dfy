/**
 * The cell-level logic of the Game of Life engine: how many live neighbours a
 * cell has and what the cell becomes in the next generation.
 *
 * A grid is an `array2<int>` indexed `[i, j]` with `i` the column (0 ..
 * Length0) and `j` the row (0 .. Length1). A value greater than zero is a live
 * cell; the engine itself only ever writes 0 and 1.
 */
module LifeRules {

  /** 1 when (x, y) lies inside the grid and holds a live cell, 0 otherwise:
      cells outside the grid count as dead (there is no wrap-around). */
  ghost function AliveAt(g: array2<int>, x: int, y: int): int
    reads g
  {
    if 0 <= x < g.Length0 && 0 <= y < g.Length1 && g[x, y] > 0 then 1 else 0
  }

  /** Live cells of column x in rows [y0, y1). */
  ghost function ColumnSum(g: array2<int>, x: int, y0: int, y1: int): int
    reads g
    decreases y1 - y0
  {
    if y0 >= y1 then 0 else AliveAt(g, x, y0) + ColumnSum(g, x, y0 + 1, y1)
  }

  /** Live cells of the block [x0, x1) x [y0, y1). */
  ghost function BlockSum(g: array2<int>, x0: int, x1: int, y0: int, y1: int): int
    reads g
    decreases x1 - x0
  {
    if x0 >= x1 then 0 else ColumnSum(g, x0, y0, y1) + BlockSum(g, x0 + 1, x1, y0, y1)
  }

  /** Reference definition of the Moore neighbourhood count: the live cells of
      the 3x3 window centred on (i, j), the centre itself excluded. */
  ghost function MooreCount(g: array2<int>, i: int, j: int): int
    reads g
  {
    BlockSum(g, i - 1, i + 2, j - 1, j + 2) - AliveAt(g, i, j)
  }

  /** The window sum written out as its eight neighbour terms. */
  lemma MooreCountExpand(g: array2<int>, i: int, j: int)
    ensures MooreCount(g, i, j) ==
      AliveAt(g, i + 1, j) + AliveAt(g, i - 1, j) + AliveAt(g, i, j + 1) + AliveAt(g, i, j - 1) +
      AliveAt(g, i + 1, j + 1) + AliveAt(g, i - 1, j + 1) + AliveAt(g, i - 1, j - 1) + AliveAt(g, i + 1, j - 1)
  {
    forall x | i - 1 <= x <= i + 1
      ensures ColumnSum(g, x, j - 1, j + 2) == AliveAt(g, x, j - 1) + AliveAt(g, x, j) + AliveAt(g, x, j + 1)
    {
      assert ColumnSum(g, x, j + 1, j + 2) == AliveAt(g, x, j + 1) + ColumnSum(g, x, j + 2, j + 2);
      assert ColumnSum(g, x, j, j + 2) == AliveAt(g, x, j) + ColumnSum(g, x, j + 1, j + 2);
      assert ColumnSum(g, x, j - 1, j + 2) == AliveAt(g, x, j - 1) + ColumnSum(g, x, j, j + 2);
    }
    assert BlockSum(g, i + 1, i + 2, j - 1, j + 2) == ColumnSum(g, i + 1, j - 1, j + 2) + BlockSum(g, i + 2, i + 2, j - 1, j + 2);
    assert BlockSum(g, i, i + 2, j - 1, j + 2) == ColumnSum(g, i, j - 1, j + 2) + BlockSum(g, i + 1, i + 2, j - 1, j + 2);
    assert BlockSum(g, i - 1, i + 2, j - 1, j + 2) == ColumnSum(g, i - 1, j - 1, j + 2) + BlockSum(g, i, i + 2, j - 1, j + 2);
  }

  /**
   * Number of live cells among the eight Moore neighbours of (i, j), reading
   * only neighbours that lie inside the grid. `width` and `height` are the
   * grid's dimensions, as the engine passes them.
   */
  function CountAliveNeighbours(g: array2<int>, i: int, j: int, width: int, height: int): (r: int)
    reads g
    requires width == g.Length0 && height == g.Length1
    requires 0 <= i < width && 0 <= j < height
    ensures 0 <= r <= 8
    ensures r == MooreCount(g, i, j)
  {
    MooreCountExpand(g, i, j);
    // right, left, up, down
    (if i + 1 < width && g[i + 1, j] > 0 then 1 else 0) +
    (if i - 1 >= 0 && g[i - 1, j] > 0 then 1 else 0) +
    (if j + 1 < height && g[i, j + 1] > 0 then 1 else 0) +
    (if j - 1 >= 0 && g[i, j - 1] > 0 then 1 else 0) +
    // top right, top left, bottom left, bottom right
    (if i + 1 < width && j + 1 < height && g[i + 1, j + 1] > 0 then 1 else 0) +
    (if i - 1 >= 0 && j + 1 < height && g[i - 1, j + 1] > 0 then 1 else 0) +
    (if i - 1 >= 0 && j - 1 >= 0 && g[i - 1, j - 1] > 0 then 1 else 0) +
    (if i + 1 < width && j - 1 >= 0 && g[i + 1, j - 1] > 0 then 1 else 0)
  }

  /**
   * The Life rule for one cell: `current` is the cell's value (alive when
   * positive), `aliveNeighbours` its neighbour count. The result is the value
   * written for the next generation, always exactly 0 or 1.
   */
  function NextState(current: int, aliveNeighbours: int): (r: int)
    ensures r == 0 || r == 1
    // survival: a live cell stays alive iff it has 2 or 3 live neighbours
    ensures current > 0 ==> (r == 1 <==> aliveNeighbours == 2 || aliveNeighbours == 3)
    // birth: a dead cell becomes alive iff it has exactly 3 live neighbours
    ensures current <= 0 ==> (r == 1 <==> aliveNeighbours == 3)
  {
    var isAlive := current > 0;
    var isAlive' :=
      if isAlive && !(aliveNeighbours >= 2 && aliveNeighbours <= 3) then false
      else if !isAlive && aliveNeighbours == 3 then true
      else isAlive;
    if isAlive' then 1 else 0
  }

  /** The next-generation value of cell (i, j) of g. */
  function NextCell(g: array2<int>, i: int, j: int): (r: int)
    reads g
    requires 0 <= i < g.Length0 && 0 <= j < g.Length1
    ensures r == 0 || r == 1
    ensures r == 1 <==>
      (g[i, j] > 0 && (MooreCount(g, i, j) == 2 || MooreCount(g, i, j) == 3)) ||
      (g[i, j] <= 0 && MooreCount(g, i, j) == 3)
  {
    NextState(g[i, j], CountAliveNeighbours(g, i, j, g.Length0, g.Length1))
  }

  /** On a 1x1 grid the single cell has no neighbours, so it is always dead
      in the next generation, whatever it holds now. */
  lemma SingleCellDies(g: array2<int>)
    requires g.Length0 == 1 && g.Length1 == 1
    ensures NextCell(g, 0, 0) == 0
  {
  }
}
