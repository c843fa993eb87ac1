/** The separable two-dimensional squared Euclidean distance transform
    (`compute_euclidian_distance` in sdf_gen.py): a row pass, a transpose, a
    second row pass over the former columns, and a transpose back. */
module DistanceTransform {
  import opened ExtNat
  import opened Grids
  import opened RowTransform

  /** compute_euclidian_distance. */
  function EuclideanDistance(img: Grid<Ext>): (e: Grid<Ext>)
    requires img.Valid()
    ensures e.Valid() && e.rows == img.rows && e.cols == img.cols
  {
    Transpose(RowPass(Transpose(RowPass(img))))
  }

  /** The squared Euclidean distance between two cells. */
  function SqDist(sy: int, sx: int, y: int, x: int): (d: nat)
    ensures d == 0 <==> sy == y && sx == x
  {
    Sq(sy - y) + Sq(sx - x)
  }

  /** What the cell (sy, sx) offers the cell (y, x): its height plus the
      squared Euclidean distance between the two cells. */
  function Cost(img: Grid<Ext>, sy: nat, sx: nat, y: int, x: int): Ext
    requires img.Valid() && sy < img.rows && sx < img.cols
  {
    Add(img.At(sy, sx), SqDist(sy, sx, y, x))
  }

  /** `v` is the brute-force two-dimensional minimum at (y, x): no cell offers
      less, and some cell offers exactly `v`. */
  ghost predicate IsMinCost(v: Ext, img: Grid<Ext>, y: int, x: int)
    requires img.Valid()
  {
    (forall sy: nat, sx: nat :: sy < img.rows && sx < img.cols ==> Le(v, Cost(img, sy, sx, y, x))) &&
    (exists sy: nat, sx: nat :: sy < img.rows && sx < img.cols && v == Cost(img, sy, sx, y, x))
  }

  /** Two nested parabolas add their squared offsets. */
  lemma ParabolaTwice(h: Ext, sx: int, x: int, sy: int, y: int)
    ensures Parabola(Parabola(h, sx, x), sy, y) == Add(h, SqDist(sy, sx, y, x))
  {
    AddAdd(h, Sq(sx - x), Sq(sy - y));
  }

  /** Separability: the row pass, transpose, row pass, transpose back equals
      the minimum, over all cells, of height plus squared row offset plus
      squared column offset. */
  lemma Separability(img: Grid<Ext>, y: nat, x: nat)
    requires img.Valid() && y < img.rows && x < img.cols
    ensures IsMinCost(EuclideanDistance(img).At(y, x), img, y, x)
  {
    var r := RowPass(img);
    var t := Transpose(r);
    var r2 := RowPass(t);
    var e := Transpose(r2);
    var v := e.At(y, x);
    assert v == r2.At(x, y) == RowMin(t.cells[x], y);
    assert forall sy :: 0 <= sy < img.rows ==> t.cells[x][sy] == t.At(x, sy) == r.At(sy, x) == RowMin(img.cells[sy], x);

    forall sy: nat, sx: nat | sy < img.rows && sx < img.cols
      ensures Le(v, Cost(img, sy, sx, y, x))
    {
      var inner := RowMin(img.cells[sy], x);
      assert Le(v, Parabola(inner, sy, y));
      assert Le(inner, Parabola(img.cells[sy][sx], sx, x));
      AddMonotone(inner, Parabola(img.cells[sy][sx], sx, x), Sq(sy - y));
      ParabolaTwice(img.At(sy, sx), sx, x, sy, y);
      LeTrans(v, Parabola(inner, sy, y), Cost(img, sy, sx, y, x));
    }

    var sy: nat :| sy < img.rows && v == Parabola(t.cells[x][sy], sy, y);
    var inner := RowMin(img.cells[sy], x);
    var sx: nat :| sx < img.cols && inner == Parabola(img.cells[sy][sx], sx, x);
    ParabolaTwice(img.At(sy, sx), sx, x, sy, y);
    assert v == Cost(img, sy, sx, y, x);
  }

  /** Seed identity: the transform is 0 at a cell exactly when that cell has
      height 0; in particular every seed of a 0/infinity grid maps to 0. */
  lemma ZeroExactlyAtSeeds(img: Grid<Ext>, y: nat, x: nat)
    requires img.Valid() && y < img.rows && x < img.cols
    ensures EuclideanDistance(img).At(y, x) == Fin(0) <==> img.At(y, x) == Fin(0)
  {
    var v := EuclideanDistance(img).At(y, x);
    Separability(img, y, x);
    assert Le(v, Cost(img, y, x, y, x));
    if v == Fin(0) {
      var sy: nat, sx: nat :| sy < img.rows && sx < img.cols && v == Cost(img, sy, sx, y, x);
      assert sy == y && sx == x;
    }
  }

  /** The transform is infinite at a cell exactly when the whole grid is
      infinite, i.e. there is no seed at all. */
  lemma InfiniteExactlyWithoutSeeds(img: Grid<Ext>, y: nat, x: nat)
    requires img.Valid() && y < img.rows && x < img.cols
    ensures EuclideanDistance(img).At(y, x) == Inf <==>
            forall sy, sx :: 0 <= sy < img.rows && 0 <= sx < img.cols ==> img.At(sy, sx) == Inf
  {
    var v := EuclideanDistance(img).At(y, x);
    Separability(img, y, x);
    if v == Inf {
      forall sy, sx | 0 <= sy < img.rows && 0 <= sx < img.cols
        ensures img.At(sy, sx) == Inf
      {
        assert Le(v, Cost(img, sy, sx, y, x));
      }
    } else {
      var sy: nat, sx: nat :| sy < img.rows && sx < img.cols && v == Cost(img, sy, sx, y, x);
      assert img.At(sy, sx) != Inf;
    }
  }
}
