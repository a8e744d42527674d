/**
 * The cell update of a pass as the C++ performs it on `size_t` cells,
 * where the sum of the two legs through the intermediate waypoint wraps
 * around modulo 2^64 before it is compared with the cell. The rest of the
 * model uses `Distances.Relax`, which adds without wrapping.
 */
module Overflow {
  import opened Distances

  const SizeTModulus: nat := 0x1_0000_0000_0000_0000

  /**
   * Cell (y, x) after relaxing it through k on raw `size_t` values:
   * `legX` is cell (k, x) and `legY` is cell (y, k). An `Infinite` leg
   * leaves the cell alone; otherwise the wrapped sum replaces the cell when
   * it is smaller.
   */
  function RelaxSizeT(cur: SizeT, legX: SizeT, legY: SizeT): (r: SizeT)
    ensures r <= cur
  {
    if legX == Infinite || legY == Infinite then cur
    else
      var sum := (legX + legY) % SizeTModulus;
      if sum < cur then sum else cur
  }

  /**
   * When a leg is `Infinite`, or the legs add up to less than `Infinite`,
   * the raw update is the intended one.
   */
  lemma RelaxSizeTAgrees(cur: SizeT, legX: SizeT, legY: SizeT)
    requires legX == Infinite || legY == Infinite || legX + legY < Infinite
    ensures FromSizeT(RelaxSizeT(cur, legX, legY)) == Relax(FromSizeT(cur), FromSizeT(legY), FromSizeT(legX))
  {
    if legX != Infinite && legY != Infinite {
      assert (legX + legY) % SizeTModulus == legX + legY;
    }
  }

  /**
   * Two legs of length 2^63 through k turn an unreachable cell (y, x) into
   * a route of length 0, although the only route through k has length 2^64.
   */
  lemma WrapAroundShortcut()
    ensures RelaxSizeT(Infinite, 0x8000_0000_0000_0000, 0x8000_0000_0000_0000) == 0
    ensures Relax(Inf, Fin(0x8000_0000_0000_0000), Fin(0x8000_0000_0000_0000)) == Fin(SizeTModulus)
  {
  }
}
