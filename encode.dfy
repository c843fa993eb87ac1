/** From grey pixels to the seed encoding the distance transform consumes:
    the threshold at 128 (sdf_gen.py line 52), the complement `1 - img`, and
    `edt_encode`, which copies a 0/1 mask and then rewrites 0 as +infinity
    and 1 as 0. */
module Encoding {
  import opened ExtNat
  import opened Grids

  /** A cell of the binary mask (the float 0.0 or 1.0 of the source). */
  type Bit = b: int | 0 <= b <= 1

  /** A pixel of the 8-bit greyscale image. */
  type Grey = v: int | 0 <= v <= 255

  /** `np.where(img < 128, 1.0, 0.0)` on one pixel: dark pixels are foreground. */
  function Threshold(v: Grey): (b: Bit)
    ensures b == 1 <==> v < 128
  {
    if v < 128 then 1 else 0
  }

  /** The threshold applied to every pixel. */
  function Binarize(img: Grid<Grey>): (m: Grid<Bit>)
    requires img.Valid()
    ensures m.Valid() && m.rows == img.rows && m.cols == img.cols
    ensures forall y, x :: 0 <= y < img.rows && 0 <= x < img.cols ==> (m.At(y, x) == 1 <==> img.At(y, x) < 128)
  {
    Grid(img.rows, img.cols,
      seq(img.rows, y requires 0 <= y < img.rows =>
        seq(img.cols, x requires 0 <= x < img.cols => Threshold(img.cells[y][x]))))
  }

  /** The complement mask `1 - img`. */
  function Invert(m: Grid<Bit>): (r: Grid<Bit>)
    requires m.Valid()
    ensures r.Valid() && r.rows == m.rows && r.cols == m.cols
    ensures forall y, x :: 0 <= y < m.rows && 0 <= x < m.cols ==> r.At(y, x) == 1 - m.At(y, x)
  {
    Grid(m.rows, m.cols,
      seq(m.rows, y requires 0 <= y < m.rows =>
        seq(m.cols, x requires 0 <= x < m.cols => 1 - m.cells[y][x])))
  }

  /** Complementing twice gives back the mask. */
  lemma InvertTwice(m: Grid<Bit>)
    requires m.Valid()
    ensures Invert(Invert(m)) == m
  {
    GridExt(Invert(Invert(m)), m);
  }

  /** The float copy `img.copy()` of a mask: 0.0 and 1.0 as heights. */
  function Lift(m: Grid<Bit>): (g: Grid<Ext>)
    requires m.Valid()
    ensures g.Valid() && g.rows == m.rows && g.cols == m.cols
    ensures forall y, x :: 0 <= y < m.rows && 0 <= x < m.cols ==> g.At(y, x) == Fin(m.At(y, x))
  {
    Grid(m.rows, m.cols,
      seq(m.rows, y requires 0 <= y < m.rows =>
        seq(m.cols, x requires 0 <= x < m.cols => Fin(m.cells[y][x]))))
  }

  /** The masked assignment `img[img == from] = to`. */
  function Replace(g: Grid<Ext>, from: Ext, to: Ext): (r: Grid<Ext>)
    requires g.Valid()
    ensures r.Valid() && r.rows == g.rows && r.cols == g.cols
    ensures forall y, x :: 0 <= y < g.rows && 0 <= x < g.cols ==>
              r.At(y, x) == if g.At(y, x) == from then to else g.At(y, x)
  {
    Grid(g.rows, g.cols,
      seq(g.rows, y requires 0 <= y < g.rows =>
        seq(g.cols, x requires 0 <= x < g.cols => if g.cells[y][x] == from then to else g.cells[y][x])))
  }

  /** The value edt_encode returns: the copy, with 0 rewritten to +infinity
      and then 1 rewritten to 0, in that order. */
  function SeedEncoding(m: Grid<Bit>): (e: Grid<Ext>)
    requires m.Valid()
    ensures e.Valid() && e.rows == m.rows && e.cols == m.cols
    ensures forall y, x :: 0 <= y < m.rows && 0 <= x < m.cols ==>
              (e.At(y, x) == Fin(0) <==> m.At(y, x) == 1) &&
              (e.At(y, x) == Inf <==> m.At(y, x) == 0)
  {
    Replace(Replace(Lift(m), Fin(0), Inf), Fin(1), Fin(0))
  }

  /** The two masked assignments do not commute: in the other order the
      freshly made seeds would be rewritten to +infinity with the rest. */
  lemma MaskedAssignmentsInOrder(m: Grid<Bit>)
    requires m.Valid()
    ensures var swapped := Replace(Replace(Lift(m), Fin(1), Fin(0)), Fin(0), Inf);
            forall y, x :: 0 <= y < m.rows && 0 <= x < m.cols ==> swapped.At(y, x) == Inf
  {
  }

  /** Encoding the complement seeds exactly the cells the mask does not. */
  lemma InvertedSeeds(m: Grid<Bit>, y: nat, x: nat)
    requires m.Valid() && y < m.rows && x < m.cols
    ensures SeedEncoding(Invert(m)).At(y, x) == Fin(0) <==> SeedEncoding(m).At(y, x) != Fin(0)
  {
  }

  /** The masked assignment on an array, in place. */
  method ReplaceWhere(a: array2<Ext>, from: Ext, to: Ext)
    modifies a
    ensures Snapshot(a) == Replace(old(Snapshot(a)), from, to)
  {
    ghost var g := Snapshot(a);
    ghost var r := Replace(g, from, to);
    for y := 0 to a.Length0
      invariant forall i, j :: 0 <= i < y && 0 <= j < a.Length1 ==> a[i, j] == r.At(i, j)
      invariant forall i, j :: y <= i < a.Length0 && 0 <= j < a.Length1 ==> a[i, j] == g.At(i, j)
    {
      for x := 0 to a.Length1
        invariant forall i, j :: 0 <= i < y && 0 <= j < a.Length1 ==> a[i, j] == r.At(i, j)
        invariant forall j :: 0 <= j < x ==> a[y, j] == r.At(y, j)
        invariant forall i, j :: y <= i < a.Length0 && 0 <= j < a.Length1 && (i > y || j >= x) ==> a[i, j] == g.At(i, j)
      {
        if a[y, x] == from {
          a[y, x] := to;
        }
      }
    }
    GridExt(Snapshot(a), r);
  }

  /** edt_encode: a fresh copy of the mask, then the two masked assignments;
      the caller's array is left as it was. */
  method EdtEncode(img: array2<Bit>) returns (enc: array2<Ext>)
    ensures fresh(enc)
    ensures Snapshot(enc) == SeedEncoding(Snapshot(img))
  {
    enc := new Ext[img.Length0, img.Length1]((y, x) reads img requires 0 <= y < img.Length0 && 0 <= x < img.Length1 => Fin(img[y, x]));
    GridExt(Snapshot(enc), Lift(Snapshot(img)));
    ReplaceWhere(enc, Fin(0), Inf);
    ReplaceWhere(enc, Fin(1), Fin(0));
  }
}
