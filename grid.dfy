/** Rectangular row-major grids, the value view of the source's 2-D numpy
    arrays. The shape is kept explicitly, as numpy's `shape` is, so that a
    grid with no rows still has a number of columns and transposing it gives
    back the right shape. */
module Grids {

  datatype Grid<T> = Grid(rows: nat, cols: nat, cells: seq<seq<T>>) {

    predicate Valid() {
      |cells| == rows && forall y :: 0 <= y < rows ==> |cells[y]| == cols
    }

    /** The cell in row `y`, column `x` (numpy's `img[y, x]`). */
    function At(y: nat, x: nat): T
      requires Valid() && y < rows && x < cols
    {
      cells[y][x]
    }
  }

  /** Two valid grids of the same shape with the same cells are equal. */
  lemma {:induction false} GridExt<T>(g: Grid<T>, h: Grid<T>)
    requires g.Valid() && h.Valid() && g.rows == h.rows && g.cols == h.cols
    requires forall y, x :: 0 <= y < g.rows && 0 <= x < g.cols ==> g.At(y, x) == h.At(y, x)
    ensures g == h
  {
    forall y | 0 <= y < g.rows
      ensures g.cells[y] == h.cells[y]
    {
      assert forall x :: 0 <= x < g.cols ==> g.cells[y][x] == g.At(y, x) == h.At(y, x) == h.cells[y][x];
    }
  }

  /** numpy's `transpose` of a 2-D array: rows become columns. */
  function Transpose<T>(g: Grid<T>): (t: Grid<T>)
    requires g.Valid()
    ensures t.Valid() && t.rows == g.cols && t.cols == g.rows
    ensures forall x, y :: 0 <= x < g.cols && 0 <= y < g.rows ==> t.At(x, y) == g.At(y, x)
  {
    Grid(g.cols, g.rows,
      seq(g.cols, x requires 0 <= x < g.cols =>
        seq(g.rows, y requires 0 <= y < g.rows => g.cells[y][x])))
  }

  /** Transposing twice gives back the grid. */
  lemma TransposeTwice<T>(g: Grid<T>)
    requires g.Valid()
    ensures Transpose(Transpose(g)) == g
  {
    GridExt(Transpose(Transpose(g)), g);
  }

  /** The value currently held by a 2-D array, as a grid. */
  function Snapshot<T>(a: array2<T>): (g: Grid<T>)
    reads a
    ensures g.Valid() && g.rows == a.Length0 && g.cols == a.Length1
    ensures forall y, x :: 0 <= y < a.Length0 && 0 <= x < a.Length1 ==> g.At(y, x) == a[y, x]
  {
    Grid(a.Length0, a.Length1,
      seq(a.Length0, y reads a requires 0 <= y < a.Length0 =>
        seq(a.Length1, x reads a requires 0 <= x < a.Length1 => a[y, x])))
  }
}
