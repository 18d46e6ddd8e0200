/**
 Width resolution for telemetry parameters: the (PTC, PFC) parameter type and
 format codes of the SCOS-2000 MIB, which follow the parameter types of
 ECSS-E-70-41A (PUS) clause 23, mapped to a width in bits.
 */
module TypeWidth {
  import opened Wrappers

  /**
   The width table written row by row in the standards' own terms, as an
   independent reference for `BitWidth`:
   - the CUC rows use the layout of CCSDS 301.0-B section 3.2 (1 to 4 coarse
     octets, 0 to 3 fine octets, with PFC = 4 * coarse + fine - 1);
   - the CDS rows use section 3.3 (48 bits, or 64 bits with microseconds).
   Format codes below zero are not in the MIB, but the resolver does not
   reject them; the rows say what it answers for them.
   */
  ghost predicate Tabulated(ptc: int, pfc: int, w: int) {
    // PTC 1: boolean
    || (ptc == 1 && pfc == 0 && w == 1)
    // PTC 2: enumeration, PFC bits
    || (ptc == 2 && pfc <= 32 && w == pfc)
    // PTC 3 / 4: unsigned / signed integer
    || ((ptc == 3 || ptc == 4) && pfc <= 12 && w == pfc + 4)
    || ((ptc == 3 || ptc == 4) && 13 <= pfc <= 16 && w == [24, 32, 48, 64][pfc - 13])
    // PTC 5: IEEE single, IEEE double, MIL-STD-1750A single, MIL-STD-1750A extended
    || (ptc == 5 && 1 <= pfc <= 4 && w == [32, 64, 32, 48][pfc - 1])
    // PTC 6: fixed-length bit string (PFC 0, variable length, is not supported)
    || (ptc == 6 && pfc != 0 && pfc <= 32 && w == pfc)
    // PTC 7 / 8: fixed-length octet string / ASCII string of PFC octets
    || ((ptc == 7 || ptc == 8) && pfc != 0 && w == 8 * pfc)
    // PTC 9: absolute time in CDS
    || (ptc == 9 && pfc == 1 && w == 48)
    || (ptc == 9 && pfc == 2 && w == 64)
    // PTC 9 / 10: absolute / relative time in CUC, (coarse + fine) octets
    || ((ptc == 9 || ptc == 10) && 3 <= pfc <= 18 && w == 8 * ((pfc + 1) / 4 + (pfc + 1) % 4))
    // PTC 9 with a negative PFC reaches the first CUC branch of the resolver
    || (ptc == 9 && pfc < 0 && w == 8 * (pfc - 2))
  }

  /**
   `TMparamDef.getBitWidth`: the width in bits of a parameter with the given
   codes, or `None` where the source raises "ptc/pfc combination not
   supported". The result is exactly the tabulated width: a resolved width is
   a row of the table, and every row of the table is what is resolved.
   */
  function BitWidth(ptc: int, pfc: int): (r: Option<int>)
    ensures r.Some? ==> Tabulated(ptc, pfc, r.value)
    ensures forall w :: Tabulated(ptc, pfc, w) ==> r == Some(w)
  {
    if ptc == 1 then
      if pfc == 0 then Some(1) else None
    else if ptc == 2 then
      if pfc <= 32 then Some(pfc) else None
    else if ptc == 3 || ptc == 4 then
      if pfc <= 12 then Some(pfc + 4)
      else if pfc == 13 then Some(24)
      else if pfc == 14 then Some(32)
      else if pfc == 15 then Some(48)
      else if pfc == 16 then Some(64)
      else None
    else if ptc == 5 then
      if pfc == 1 then Some(32)
      else if pfc == 2 then Some(64)
      else if pfc == 3 then Some(32)
      else if pfc == 4 then Some(48)
      else None
    else if ptc == 6 then
      if pfc == 0 then None
      else if pfc <= 32 then Some(pfc)
      else None
    else if ptc == 7 || ptc == 8 then
      if pfc == 0 then None else Some(pfc * 8)
    else if ptc == 9 then
      if pfc == 0 then None
      else if pfc == 1 then Some(48)
      else if pfc == 2 then Some(64)
      else CucWidth(pfc)
    else if ptc == 10 then
      if pfc <= 2 then None else CucWidth(pfc)
    else
      // PTC 11 (deduced), 12, 13 (saved synthetic) and every other code
      None
  }

  /** The CUC branches shared by absolute (PTC 9) and relative (PTC 10) time. */
  function CucWidth(pfc: int): Option<int> {
    if pfc <= 6 then Some((pfc - 2) * 8)
    else if pfc <= 10 then Some((pfc - 5) * 8)
    else if pfc <= 14 then Some((pfc - 8) * 8)
    else if pfc <= 18 then Some((pfc - 11) * 8)
    else None
  }

  /**
   `TMparamDef.isInteger`: the integer-classified types (boolean, enumeration,
   unsigned and signed integer, fixed bit string), whatever the format code.
   Every width such a type resolves to fits a 64-bit word.
   */
  function IsInteger(ptc: int): (r: bool)
    ensures r <==> ptc <= 4 || ptc == 6
    ensures r ==> forall pfc :: BitWidth(ptc, pfc).Some? ==> BitWidth(ptc, pfc).value <= 64
  {
    ptc <= 4 || ptc == 6
  }

  /** The combinations the resolver refuses, listed case by case. */
  lemma UnsupportedCombinations(ptc: int, pfc: int)
    requires || ptc == 11 || ptc == 12 || ptc == 13 || ptc <= 0 || ptc >= 14
             || (ptc == 1 && pfc != 0)
             || (ptc == 6 && pfc == 0)
             || ((ptc == 7 || ptc == 8) && pfc == 0)
             || (ptc == 9 && (pfc == 0 || pfc > 18))
             || (ptc == 10 && (pfc <= 2 || pfc > 18))
             || (ptc == 2 && pfc > 32)
             || ((ptc == 3 || ptc == 4) && pfc > 16)
             || (ptc == 5 && (pfc < 1 || pfc > 4))
             || (ptc == 6 && pfc > 32)
    ensures BitWidth(ptc, pfc) == None
    ensures forall w :: !Tabulated(ptc, pfc, w)
  {
  }

  /** Format codes the MIB can hold (PFC >= 0) never give a negative width. */
  lemma NonNegativeFormatGivesNonNegativeWidth(ptc: int, pfc: int)
    requires pfc >= 0 && BitWidth(ptc, pfc).Some?
    ensures BitWidth(ptc, pfc).value >= 0
  {
  }
}
