/**
 * Path lengths as the distance table stores them.
 *
 * The C++ table holds `size_t` cells and reserves the largest value,
 * `Infinite`, for "no path". Here a cell is a `Dist`: either a finite,
 * unbounded length or `Inf`. The `SizeT` view and its conversions keep the
 * sentinel encoding visible; the wrap-around of the C++ addition is studied
 * separately in module Overflow.
 */
module Distances {

  /** The largest `size_t` value, which the table uses as "no path". */
  const Infinite: nat := 0xFFFF_FFFF_FFFF_FFFF

  /** The values a 64-bit `size_t` can hold. */
  type SizeT = v: nat | v <= Infinite

  datatype Dist = Fin(len: nat) | Inf

  /** Length of a route made of two legs; unreachable if either leg is. */
  function Add(a: Dist, b: Dist): (r: Dist)
    ensures r.Fin? <==> a.Fin? && b.Fin?
    ensures r.Fin? ==> r.len == a.len + b.len
  {
    if a.Inf? || b.Inf? then Inf else Fin(a.len + b.len)
  }

  /** `a` is no longer than `b`; every finite length is below `Inf`. */
  predicate Le(a: Dist, b: Dist) {
    b.Inf? || (a.Fin? && a.len <= b.len)
  }

  /** `a` is strictly shorter than `b`. */
  predicate Lt(a: Dist, b: Dist) {
    a.Fin? && (b.Inf? || a.len < b.len)
  }

  /**
   * One relaxation of a cell, as the inner loop body of a pass does it:
   * `cur` is the cell (y, x), `toPivot` is (y, k) and `fromPivot` is (k, x).
   * An unreachable leg leaves the cell alone; otherwise the route through
   * the pivot replaces the cell only when it is strictly shorter.
   * The result is the shorter of the cell and the route through the pivot.
   */
  function Relax(cur: Dist, toPivot: Dist, fromPivot: Dist): (r: Dist)
    ensures Le(r, cur) && Le(r, Add(toPivot, fromPivot))
    ensures r == cur || r == Add(toPivot, fromPivot)
  {
    if fromPivot.Inf? || toPivot.Inf? then cur
    else if Lt(Add(fromPivot, toPivot), cur) then Add(fromPivot, toPivot)
    else cur
  }

  /** The meaning of a stored `size_t` cell. */
  function FromSizeT(v: SizeT): (d: Dist)
    ensures d.Inf? <==> v == Infinite
    ensures d.Fin? ==> d.len == v
  {
    if v == Infinite then Inf else Fin(v)
  }

  /** The `size_t` that encodes a distance whose length fits below the sentinel. */
  function ToSizeT(d: Dist): (v: SizeT)
    requires d.Inf? || d.len < Infinite
    ensures v == Infinite <==> d.Inf?
    ensures d.Fin? ==> v == d.len
  {
    if d.Inf? then Infinite else d.len
  }

  lemma EncodeDecode(d: Dist)
    requires d.Inf? || d.len < Infinite
    ensures FromSizeT(ToSizeT(d)) == d
  {
  }

  lemma DecodeEncode(v: SizeT)
    ensures FromSizeT(v).Inf? || FromSizeT(v).len < Infinite
    ensures ToSizeT(FromSizeT(v)) == v
  {
  }

  lemma LeTrans(a: Dist, b: Dist, c: Dist)
    requires Le(a, b) && Le(b, c)
    ensures Le(a, c)
  {
  }

  lemma AddMono(a: Dist, b: Dist, c: Dist, d: Dist)
    requires Le(a, c) && Le(b, d)
    ensures Le(Add(a, b), Add(c, d))
  {
  }
}
