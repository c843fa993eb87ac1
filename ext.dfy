/** Heights and squared distances as the distance transform sees them: a
    non-negative integer, or the floating-point +infinity that marks a cell
    from which no seed has been reached. */
module ExtNat {

  datatype Ext = Fin(n: nat) | Inf

  /** The order of the extended naturals: +infinity is above every finite value. */
  predicate Le(a: Ext, b: Ext) {
    b.Inf? || (a.Fin? && a.n <= b.n)
  }

  predicate Lt(a: Ext, b: Ext) {
    !Le(b, a)
  }

  /** The square of an integer offset. */
  function Sq(d: int): (r: nat)
    ensures r == 0 <==> d == 0
    ensures d != 0 ==> r >= 1
  {
    if d < 0 then SqNat(-d) else SqNat(d)
  }

  function SqNat(d: nat): (r: nat)
    ensures r == 0 <==> d == 0
    ensures d != 0 ==> r >= d
  {
    d * d
  }

  /** Python's two-argument `min`: the first argument unless the second is
      strictly smaller. */
  function Min(a: Ext, b: Ext): (r: Ext)
    ensures Le(r, a) && Le(r, b)
    ensures r == a || r == b
  {
    if Lt(b, a) then b else a
  }

  /** Adding a finite offset to a height; +infinity absorbs it, as the float
      sum `inf + d` does. */
  function Add(h: Ext, d: nat): (r: Ext)
    ensures Le(h, r)
    ensures r.Inf? <==> h.Inf?
    ensures r == h <==> (d == 0 || h.Inf?)
  {
    match h
    case Fin(n) => Fin(n + d)
    case Inf => Inf
  }

  lemma AddAdd(h: Ext, d: nat, e: nat)
    ensures Add(Add(h, d), e) == Add(h, d + e)
  {
  }

  lemma AddMonotone(a: Ext, b: Ext, d: nat)
    requires Le(a, b)
    ensures Le(Add(a, d), Add(b, d))
  {
  }

  lemma LeTrans(a: Ext, b: Ext, c: Ext)
    requires Le(a, b) && Le(b, c)
    ensures Le(a, c)
  {
  }
}
