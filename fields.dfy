/** The two unsigned squared distance fields the signed field is built from
    (sdf_gen.py lines 63-67): distances to the nearest foreground cell and to
    the nearest background cell. */
module UnsignedFields {
  import opened ExtNat
  import opened Grids
  import opened Encoding
  import opened DistanceTransform

  /** `edt_positive`: squared distance to the nearest foreground cell. */
  function PositiveField(m: Grid<Bit>): (e: Grid<Ext>)
    requires m.Valid()
    ensures e.Valid() && e.rows == m.rows && e.cols == m.cols
  {
    EuclideanDistance(SeedEncoding(m))
  }

  /** `edt_negative`: squared distance to the nearest background cell. */
  function NegativeField(m: Grid<Bit>): (e: Grid<Ext>)
    requires m.Valid()
    ensures e.Valid() && e.rows == m.rows && e.cols == m.cols
  {
    EuclideanDistance(SeedEncoding(Invert(m)))
  }

  /** For a 0/infinity encoding the transform is the squared distance to the
      nearest seed, and +infinity exactly when the mask has no seed. */
  lemma NearestSeed(m: Grid<Bit>, y: nat, x: nat)
    requires m.Valid() && y < m.rows && x < m.cols
    ensures var v := PositiveField(m).At(y, x);
            (v.Inf? <==> forall sy, sx :: 0 <= sy < m.rows && 0 <= sx < m.cols ==> m.At(sy, sx) == 0) &&
            (v.Fin? ==> (forall sy, sx :: 0 <= sy < m.rows && 0 <= sx < m.cols && m.At(sy, sx) == 1 ==> v.n <= SqDist(sy, sx, y, x)) &&
                        (exists sy, sx :: 0 <= sy < m.rows && 0 <= sx < m.cols && m.At(sy, sx) == 1 && v.n == SqDist(sy, sx, y, x)))
  {
    var e := SeedEncoding(m);
    var v := PositiveField(m).At(y, x);
    Separability(e, y, x);
    if v.Inf? {
      forall sy, sx | 0 <= sy < m.rows && 0 <= sx < m.cols
        ensures m.At(sy, sx) == 0
      {
        assert Le(v, Cost(e, sy, sx, y, x));
      }
    } else {
      forall sy, sx | 0 <= sy < m.rows && 0 <= sx < m.cols && m.At(sy, sx) == 1
        ensures v.n <= SqDist(sy, sx, y, x)
      {
        assert Le(v, Cost(e, sy, sx, y, x));
      }
      var sy: nat, sx: nat :| sy < e.rows && sx < e.cols && v == Cost(e, sy, sx, y, x);
      assert m.At(sy, sx) == 1 && v.n == SqDist(sy, sx, y, x);
    }
  }

  /** `edt_negative` is the squared distance to the nearest background cell,
      and +infinity exactly when the mask has no background cell. */
  lemma NearestBackground(m: Grid<Bit>, y: nat, x: nat)
    requires m.Valid() && y < m.rows && x < m.cols
    ensures var v := NegativeField(m).At(y, x);
            (v.Inf? <==> forall sy, sx :: 0 <= sy < m.rows && 0 <= sx < m.cols ==> m.At(sy, sx) == 1) &&
            (v.Fin? ==> (forall sy, sx :: 0 <= sy < m.rows && 0 <= sx < m.cols && m.At(sy, sx) == 0 ==> v.n <= SqDist(sy, sx, y, x)) &&
                        (exists sy, sx :: 0 <= sy < m.rows && 0 <= sx < m.cols && m.At(sy, sx) == 0 && v.n == SqDist(sy, sx, y, x)))
  {
    var inv := Invert(m);
    assert NegativeField(m) == PositiveField(inv);
    NearestSeed(inv, y, x);
    assert forall sy, sx :: 0 <= sy < m.rows && 0 <= sx < m.cols ==> (inv.At(sy, sx) == 1 <==> m.At(sy, sx) == 0);
  }

  /** A single seed: the transform is the squared distance to it at every cell. */
  lemma SingleSeed(m: Grid<Bit>, sy: nat, sx: nat, y: nat, x: nat)
    requires m.Valid() && sy < m.rows && sx < m.cols && y < m.rows && x < m.cols
    requires forall i, j :: 0 <= i < m.rows && 0 <= j < m.cols ==> (m.At(i, j) == 1 <==> i == sy && j == sx)
    ensures PositiveField(m).At(y, x) == Fin(SqDist(sy, sx, y, x))
  {
    var v := PositiveField(m).At(y, x);
    NearestSeed(m, y, x);
    assert m.At(sy, sx) == 1;
    assert v.Fin?;
    var i, j :| 0 <= i < m.rows && 0 <= j < m.cols && m.At(i, j) == 1 && v.n == SqDist(i, j, y, x);
    assert i == sy && j == sx;
  }

  /** Each cell is a seed of exactly one of the two encodings, so exactly one
      of the two fields is 0 there; the other is a positive squared distance
      or +infinity. This fixes the sign of sqrt(positive) - sqrt(negative):
      negative on the foreground, positive on the background. */
  lemma FieldsComplementary(m: Grid<Bit>, y: nat, x: nat)
    requires m.Valid() && y < m.rows && x < m.cols
    ensures PositiveField(m).At(y, x) == Fin(0) <==> m.At(y, x) == 1
    ensures NegativeField(m).At(y, x) == Fin(0) <==> m.At(y, x) == 0
  {
    ZeroExactlyAtSeeds(SeedEncoding(m), y, x);
    ZeroExactlyAtSeeds(SeedEncoding(Invert(m)), y, x);
  }

  /** A 3x3 mask whose only foreground cell is the centre. */
  predicate CentreOnly(m: Grid<Bit>)
  {
    m.Valid() && m.rows == 3 && m.cols == 3 &&
    forall i, j :: 0 <= i < 3 && 0 <= j < 3 ==> (m.At(i, j) == 1 <==> i == 1 && j == 1)
  }

  /** Worked example, foreground side: squared distance 0 at the centre, 1 at
      the four edge neighbours and 2 at the corners. */
  lemma CentreForeground(m: Grid<Bit>)
    requires CentreOnly(m)
    ensures PositiveField(m) ==
            Grid(3, 3, [[Fin(2), Fin(1), Fin(2)], [Fin(1), Fin(0), Fin(1)], [Fin(2), Fin(1), Fin(2)]])
  {
    var pos := Grid(3, 3, [[Fin(2), Fin(1), Fin(2)], [Fin(1), Fin(0), Fin(1)], [Fin(2), Fin(1), Fin(2)]]);
    forall y, x | 0 <= y < 3 && 0 <= x < 3
      ensures PositiveField(m).At(y, x) == pos.At(y, x)
    {
      SingleSeed(m, 1, 1, y, x);
    }
    GridExt(PositiveField(m), pos);
  }

  /** The background field of a centre-only mask at one cell. */
  lemma CentreBackgroundAt(m: Grid<Bit>, y: nat, x: nat)
    requires CentreOnly(m) && y < 3 && x < 3
    ensures NegativeField(m).At(y, x) == if y == 1 && x == 1 then Fin(1) else Fin(0)
  {
    FieldsComplementary(m, y, x);
    if y == 1 && x == 1 {
      var inv := Invert(m);
      var v := PositiveField(inv).At(1, 1);
      assert NegativeField(m).At(1, 1) == v;
      NearestSeed(inv, 1, 1);
      assert inv.At(0, 1) == 1;
      assert v.Fin? && v.n <= SqDist(0, 1, 1, 1);
    }
  }

  /** Worked example, background side: 1 at the centre, whose nearest
      background cells are its edge neighbours, and 0 on every background
      cell. */
  lemma CentreBackground(m: Grid<Bit>)
    requires CentreOnly(m)
    ensures NegativeField(m) ==
            Grid(3, 3, [[Fin(0), Fin(0), Fin(0)], [Fin(0), Fin(1), Fin(0)], [Fin(0), Fin(0), Fin(0)]])
  {
    var neg := Grid(3, 3, [[Fin(0), Fin(0), Fin(0)], [Fin(0), Fin(1), Fin(0)], [Fin(0), Fin(0), Fin(0)]]);
    forall y, x | 0 <= y < 3 && 0 <= x < 3
      ensures NegativeField(m).At(y, x) == neg.At(y, x)
    {
      CentreBackgroundAt(m, y, x);
    }
    GridExt(NegativeField(m), neg);
  }
}
