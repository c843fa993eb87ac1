/** The one-dimensional pass of the distance transform: every cell of a row
    takes the lower envelope of the parabolas rooted at the cells of that row
    (`evaluate_parabolla` and `compute_rows` in sdf_gen.py). */
module RowTransform {
  import opened ExtNat
  import opened Grids

  /** The parabola rooted at column `px` with base `height`, evaluated at
      column `x`: the height plus the squared column offset. */
  function Parabola(height: Ext, px: int, x: int): (r: Ext)
    ensures Le(height, r)
    ensures r.Fin? <==> height.Fin?
    ensures height.Fin? ==> r.n == height.n + (px - x) * (px - x)
    ensures r == height <==> (px == x || height.Inf?)
  {
    Add(height, Sq(px - x))
  }

  /** The running minimum `sdf_min` of compute_rows after the first `k`
      parabolas of the row have been taken into account; it starts at the
      cell's own height. */
  function Envelope(row: seq<Ext>, x: nat, k: nat): (r: Ext)
    requires x < |row| && k <= |row|
    ensures Le(r, row[x])
    ensures forall px :: 0 <= px < k ==> Le(r, Parabola(row[px], px, x))
    ensures r == row[x] || exists px :: 0 <= px < k && r == Parabola(row[px], px, x)
    decreases k
  {
    if k == 0 then row[x]
    else Min(Envelope(row, x, k - 1), Parabola(row[k - 1], k - 1, x))
  }

  /** The value compute_rows writes at column `x`: the least value any
      parabola of the row takes there. */
  function RowMin(row: seq<Ext>, x: nat): (r: Ext)
    requires x < |row|
    ensures forall px :: 0 <= px < |row| ==> Le(r, Parabola(row[px], px, x))
    ensures exists px :: 0 <= px < |row| && r == Parabola(row[px], px, x)
  {
    var r := Envelope(row, x, |row|);
    assert row[x] == Parabola(row[x], x, x);
    r
  }

  /** compute_rows as a value: every row replaced by its lower envelope. */
  function RowPass(g: Grid<Ext>): (r: Grid<Ext>)
    requires g.Valid()
    ensures r.Valid() && r.rows == g.rows && r.cols == g.cols
    ensures forall y, x :: 0 <= y < g.rows && 0 <= x < g.cols ==> r.At(y, x) == RowMin(g.cells[y], x)
  {
    Grid(g.rows, g.cols,
      seq(g.rows, y requires 0 <= y < g.rows =>
        seq(g.cols, x requires 0 <= x < g.cols => RowMin(g.cells[y], x))))
  }

  /** compute_rows: a fresh array filled with ones (`np.ones_like`), then
      every cell overwritten with the running minimum over the parabolas of
      its row. */
  method ComputeRows(img: array2<Ext>) returns (newImg: array2<Ext>)
    ensures fresh(newImg)
    ensures Snapshot(newImg) == RowPass(Snapshot(img))
  {
    ghost var g := Snapshot(img);
    newImg := new Ext[img.Length0, img.Length1]((_, _) => Fin(1));
    var rows, cols := img.Length0, img.Length1;
    for y := 0 to rows
      invariant forall i, j :: 0 <= i < y && 0 <= j < cols ==> newImg[i, j] == RowMin(g.cells[i], j)
    {
      ghost var row := g.cells[y];
      for x := 0 to cols
        invariant forall i, j :: 0 <= i < y && 0 <= j < cols ==> newImg[i, j] == RowMin(g.cells[i], j)
        invariant forall j :: 0 <= j < x ==> newImg[y, j] == RowMin(row, j)
      {
        var sdfMin := img[y, x];
        assert sdfMin == g.At(y, x);
        for px := 0 to cols
          invariant sdfMin == Envelope(row, x, px)
        {
          var pheight := img[y, px];
          assert pheight == g.At(y, px) == row[px];
          sdfMin := Min(sdfMin, Parabola(pheight, px, x));
        }
        newImg[y, x] := sdfMin;
      }
    }
    forall i, j | 0 <= i < rows && 0 <= j < cols
      ensures Snapshot(newImg).At(i, j) == RowPass(g).At(i, j)
    {
    }
    GridExt(Snapshot(newImg), RowPass(g));
  }

  /** A cell never rises in the row pass, so a seed (height 0) stays 0. */
  lemma RowMinNeverIncreases(row: seq<Ext>, x: nat)
    requires x < |row|
    ensures Le(RowMin(row, x), row[x])
    ensures row[x] == Fin(0) ==> RowMin(row, x) == Fin(0)
  {
    assert Parabola(row[x], x, x) == row[x];
  }

  /** A cell is finite after the row pass exactly when its row holds a finite
      height: an all-infinite row stays infinite everywhere. */
  lemma RowMinFinite(row: seq<Ext>, x: nat)
    requires x < |row|
    ensures RowMin(row, x).Fin? <==> exists px :: 0 <= px < |row| && row[px].Fin?
  {
    var r := RowMin(row, x);
    if r.Fin? {
      var px :| 0 <= px < |row| && r == Parabola(row[px], px, x);
      assert row[px].Fin?;
    }
    if px :| 0 <= px < |row| && row[px].Fin? {
      assert Le(r, Parabola(row[px], px, x));
    }
  }

  /** Rows are processed independently: an output row depends on its input
      row only. */
  lemma RowsIndependent(g: Grid<Ext>, h: Grid<Ext>, y: nat)
    requires g.Valid() && h.Valid() && g.cols == h.cols
    requires y < g.rows && y < h.rows && g.cells[y] == h.cells[y]
    ensures RowPass(g).cells[y] == RowPass(h).cells[y]
  {
  }
}
